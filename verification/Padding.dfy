/** Border padding of a DMA transfer (m1.cpp and ddr-memory.cpp): tiles of the body are
    copied outwards row by row and column by column; the result is the body extended
    periodically on two adjoining sides. */
module Padding {
  import opened Arithmetic
  import opened StridedCopy

  // ---- two-dimensional positions in the buffer ----

  type pos = n: int | n > 0 witness 1

  /** Rows of `cols` bytes that start `res` apart. */
  datatype Frame = Frame(res: pos, rows: nat, cols: nat)

  datatype Px = Px(y: int, x: int)

  function PxOf(f: Frame, i: nat): Px { Px(i / f.res, i % f.res) }

  function At(f: Frame, p: Px): int { p.y * f.res + p.x }

  predicate Holds(f: Frame, size: nat) {
    && f.cols <= f.res
    && (f.rows > 0 && f.cols > 0 ==> (f.rows - 1) * f.res + f.cols <= size)
  }

  lemma Inside(f: Frame, size: nat, p: Px)
    requires Holds(f, size) && 0 <= p.y < f.rows && 0 <= p.x < f.cols
    ensures 0 <= At(f, p) < size
  {
    MulOrder(p.y, f.rows - 1, f.res);
    NotNegative(p.y, f.res);
  }

  lemma PxAt(f: Frame, p: Px)
    requires 0 <= p.y && 0 <= p.x < f.res
    ensures At(f, p) >= 0 && PxOf(f, At(f, p)) == p
  {
    NotNegative(p.y, f.res);
    DivModIs(At(f, p), f.res, p.y, p.x);
  }

  lemma AtPx(f: Frame, i: nat)
    ensures At(f, PxOf(f, i)) == i && 0 <= PxOf(f, i).y && 0 <= PxOf(f, i).x < f.res
  {}

  lemma NextRow(f: Frame, p: Px, n: int)
    ensures At(f, Px(p.y + n, p.x)) == At(f, p) + n * f.res
  {}

  // ---- copies as maps from a position to the position it takes its byte from ----

  type Map = Px -> Px

  predicate ByteMapped(f: Frame, s: seq<byte>, t: seq<byte>, p: Px, i: nat)
    requires i < |t|
  {
    0 <= p.y && 0 <= p.x < f.res && 0 <= At(f, p) < |s| && t[i] == s[At(f, p)]
  }

  /** Every byte of t comes from the position of s that m gives. */
  ghost predicate Mapped(f: Frame, s: seq<byte>, t: seq<byte>, m: Map) {
    |s| == |t| && forall i: nat | i < |t| :: ByteMapped(f, s, t, m(PxOf(f, i)), i)
  }

  /** Two copies in a row are one. */
  lemma Then(f: Frame, s: seq<byte>, t: seq<byte>, u: seq<byte>, m1: Map, m2: Map, m: Map)
    requires Mapped(f, s, t, m1) && Mapped(f, t, u, m2)
    requires forall p: Px | 0 <= p.y && 0 <= p.x < f.res :: m(p) == m1(m2(p))
    ensures Mapped(f, s, u, m)
  {
    hide PxOf, At;
    forall i: nat | i < |u| ensures ByteMapped(f, s, u, m(PxOf(f, i)), i) {
      AtPx(f, i);
      var p := m2(PxOf(f, i));
      assert ByteMapped(f, t, u, p, i);
      PxAt(f, p);
      assert ByteMapped(f, s, t, m1(PxOf(f, At(f, p))), At(f, p));
    }
  }

  lemma Unmoved(f: Frame, s: seq<byte>, m: Map)
    requires forall p: Px | 0 <= p.y && 0 <= p.x < f.res :: m(p) == p
    ensures Mapped(f, s, s, m)
  {
    hide PxOf, At;
    forall i: nat | i < |s| ensures ByteMapped(f, s, s, m(PxOf(f, i)), i) { AtPx(f, i); }
  }

  predicate In(p: Px, r: nat, c: nat, rows: nat, cols: nat) { r <= p.y < r + rows && c <= p.x < c + cols }

  /** A rectangle takes its bytes from the rectangle dr rows and dc columns away. */
  function RectMap(r: nat, c: nat, rows: nat, cols: nat, dr: int, dc: int): Map {
    (p: Px) => if In(p, r, c, rows, cols) then Px(p.y + dr, p.x + dc) else p
  }

  /** A stack of n rows repeats the u rows from row sr on, starting with row sr + a. */
  function RowTiles(r: nat, c: nat, n: nat, cols: nat, sr: nat, u: pos, a: nat): Map {
    (p: Px) => if In(p, r, c, n, cols) then Px(sr + (p.y - r + a) % u, p.x) else p
  }

  /** A band of n columns repeats the u columns from column sc on. */
  function ColTiles(r: nat, c: nat, rows: nat, n: nat, sc: nat, u: pos, a: nat): Map {
    (p: Px) => if In(p, r, c, rows, n) then Px(p.y, sc + (p.x - c + a) % u) else p
  }

  // ---- the copies ----

  /** Where byte i comes from when len bytes are copied from src to dst. */
  function Origin(dst: nat, src: nat, len: nat, i: nat): int { if dst <= i < dst + len then i - dst + src else i }

  predicate RowMoved(s: seq<byte>, t: seq<byte>, dst: nat, src: nat, len: nat) {
    && |s| == |t| && (len > 0 ==> src + len <= |s|)
    && forall i | 0 <= i < |s| :: t[i] == s[Origin(dst, src, len, i)]
  }

  method ExtendMemcpy(buf: array<byte>, dst: nat, src: nat, len: nat)
    requires len > 0 ==> dst + len <= buf.Length && src + len <= buf.Length && (dst + len <= src || src + len <= dst)
    modifies buf
    ensures RowMoved(old(buf[..]), buf[..], dst, src, len)
  {
    for i := 0 to len
      invariant RowMoved(old(buf[..]), buf[..], dst, src, i)
    {
      buf[dst + i] := buf[src + i];
    }
  }

  /** A rectangle that a copy may read and write: source and destination lie inside the
      frame, in different rows or in different columns. */
  datatype Rect = Rect(r: nat, c: nat, rows: nat, cols: nat, dr: int, dc: int)

  predicate RectOk(f: Frame, a: Rect) {
    && a.r + a.rows <= f.rows && a.c + a.cols <= f.cols
    && 0 <= a.r + a.dr && a.r + a.rows + a.dr <= f.rows
    && 0 <= a.c + a.dc && a.c + a.cols + a.dc <= f.cols
    && (a.dr >= a.rows || -a.dr >= a.rows || a.dc >= a.cols || -a.dc >= a.cols)
  }

  function MapOf(a: Rect): Map { RectMap(a.r, a.c, a.rows, a.cols, a.dr, a.dc) }

  lemma Span(f: Frame, r: nat, c: nat, len: nat, i: nat)
    requires c + len <= f.res
    ensures At(f, Px(r, c)) <= i < At(f, Px(r, c)) + len <==> In(PxOf(f, i), r, c, 1, len)
  {
    if r * f.res + c <= i < r * f.res + c + len { DivModIs(i, f.res, r, i - r * f.res); }
  }

  /** One row copied is a rectangle of one row. */
  lemma RowIsMap(f: Frame, r: nat, c: nat, len: nat, dr: int, dc: int, s: seq<byte>, t: seq<byte>)
    requires Holds(f, |s|) && RectOk(f, Rect(r, c, 1, len, dr, dc))
    requires At(f, Px(r, c)) >= 0 && At(f, Px(r + dr, c + dc)) >= 0
    requires RowMoved(s, t, At(f, Px(r, c)), At(f, Px(r + dr, c + dc)), len)
    ensures Mapped(f, s, t, RectMap(r, c, 1, len, dr, dc))
  {
    hide PxOf, At, Holds;
    forall i: nat | i < |t| ensures ByteMapped(f, s, t, RectMap(r, c, 1, len, dr, dc)(PxOf(f, i)), i) {
      RowByte(f, |s|, r, c, len, dr, dc, i);
    }
  }

  lemma RowByte(f: Frame, size: nat, r: nat, c: nat, len: nat, dr: int, dc: int, i: nat)
    requires Holds(f, size) && RectOk(f, Rect(r, c, 1, len, dr, dc)) && i < size
    requires At(f, Px(r, c)) >= 0 && At(f, Px(r + dr, c + dc)) >= 0
    ensures
      var p := RectMap(r, c, 1, len, dr, dc)(PxOf(f, i));
      && 0 <= p.y && 0 <= p.x < f.res && 0 <= At(f, p) < size
      && Origin(At(f, Px(r, c)), At(f, Px(r + dr, c + dc)), len, i) == At(f, p)
  {
    var p := PxOf(f, i);
    Span(f, r, c, len, i);
    AtPx(f, i);
    if In(p, r, c, 1, len) {
      Inside(f, size, Px(p.y + dr, p.x + dc));
      assert At(f, Px(r + dr, p.x + dc)) == At(f, Px(r + dr, c + dc)) + p.x - c;
    }
  }

  /** The inner loop of every padding step: rows of `cols` bytes, both pointers moving
      one stride at a time. */
  method CopyRows(f: Frame, buf: array<byte>, dst: nat, src: nat, rows: nat, cols: nat, ghost a: Rect)
    requires Holds(f, buf.Length) && RectOk(f, a) && a.rows == rows && a.cols == cols
    requires dst == At(f, Px(a.r, a.c)) && src == At(f, Px(a.r + a.dr, a.c + a.dc))
    modifies buf
    ensures Mapped(f, old(buf[..]), buf[..], MapOf(a))
  {
    hide At, Mapped, RowMoved, Holds, PxOf, RectMap;
    var d: nat, s: nat := dst, src;
    NoRect(f, buf[..], a.r, a.c, a.cols, a.dr, a.dc);
    for j := 0 to rows
      invariant d == At(f, Px(a.r + j, a.c)) && s == At(f, Px(a.r + j + a.dr, a.c + a.dc))
      invariant Mapped(f, old(buf[..]), buf[..], RectMap(a.r, a.c, j, a.cols, a.dr, a.dc))
    {
      ghost var before := buf[..];
      RowFits(f, buf.Length, a, j);
      ExtendMemcpy(buf, d, s, cols);
      RowIsMap(f, a.r + j, a.c, cols, a.dr, a.dc, before, buf[..]);
      OneMoreRow(f, a, j, old(buf[..]), before, buf[..]);
      NextRow(f, Px(a.r + j, a.c), 1);
      NextRow(f, Px(a.r + j + a.dr, a.c + a.dc), 1);
      d, s := d + f.res, s + f.res;
    }
  }

  lemma OneMoreRow(f: Frame, a: Rect, j: nat, s: seq<byte>, t: seq<byte>, u: seq<byte>)
    requires RectOk(f, a) && j < a.rows
    requires Mapped(f, s, t, RectMap(a.r, a.c, j, a.cols, a.dr, a.dc))
    requires Mapped(f, t, u, RectMap(a.r + j, a.c, 1, a.cols, a.dr, a.dc))
    ensures Mapped(f, s, u, RectMap(a.r, a.c, j + 1, a.cols, a.dr, a.dc))
  {
    hide Mapped;
    Then(f, s, t, u, RectMap(a.r, a.c, j, a.cols, a.dr, a.dc),
         RectMap(a.r + j, a.c, 1, a.cols, a.dr, a.dc), RectMap(a.r, a.c, j + 1, a.cols, a.dr, a.dc));
  }

  lemma RowFits(f: Frame, size: nat, a: Rect, j: nat)
    requires Holds(f, size) && RectOk(f, a) && j < a.rows
    ensures RectOk(f, Rect(a.r + j, a.c, 1, a.cols, a.dr, a.dc))
    ensures
      var d := At(f, Px(a.r + j, a.c));
      var q := At(f, Px(a.r + j + a.dr, a.c + a.dc));
      a.cols > 0 ==> d + a.cols <= size && q + a.cols <= size && (d + a.cols <= q || q + a.cols <= d)
  {
    if a.cols > 0 {
      Inside(f, size, Px(a.r + j, a.c + a.cols - 1));
      Inside(f, size, Px(a.r + j + a.dr, a.c + a.cols - 1 + a.dc));
      MulOrder(a.r + j, a.r + j + a.dr, f.res);
    }
  }

  lemma ModTile(k: int, t: nat, u: pos)
    requires t * u <= k < (t + 1) * u
    ensures k % u == k - t * u
  {
    DivModIs(k, u, t, k - t * u);
  }

  /** One more tile below a stack of t tiles. */
  lemma StackTile(r: nat, c: nat, cols: nat, sr: nat, u: pos, t: nat, p: Px)
    requires sr + u <= r || r + (t + 1) * u <= sr
    ensures r + t * u >= 0
    ensures RowTiles(r, c, (t + 1) * u, cols, sr, u, 0)(p) ==
            RowTiles(r, c, t * u, cols, sr, u, 0)(RectMap(r + t * u, c, u, cols, sr - r - t * u, 0)(p))
  {
    NotNegative(t, u);
    assert (t + 1) * u == t * u + u;
    if t * u <= p.y - r < (t + 1) * u { ModTile(p.y - r, t, u); }
  }

  /** One more tile to the right of a band of t tiles. */
  lemma BandTile(r: nat, c: nat, rows: nat, sc: nat, u: pos, t: nat, p: Px)
    requires sc + u <= c || c + (t + 1) * u <= sc
    ensures c + t * u >= 0
    ensures ColTiles(r, c, rows, (t + 1) * u, sc, u, 0)(p) ==
            ColTiles(r, c, rows, t * u, sc, u, 0)(RectMap(r, c + t * u, rows, u, 0, sc - c - t * u)(p))
  {
    NotNegative(t, u);
    assert (t + 1) * u == t * u + u;
    if t * u <= p.x - c < (t + 1) * u { ModTile(p.x - c, t, u); }
  }

  /** q whole tiles of u rows, one below the other; the source pointer restarts for each. */
  method StackTiles(f: Frame, buf: array<byte>, dst: nat, src: nat, q: nat, u: pos, cols: nat, ghost r: nat,
      ghost c: nat, ghost sr: nat)
    requires Holds(f, buf.Length) && dst == At(f, Px(r, c)) && src == At(f, Px(sr, c))
    requires r + q * u <= f.rows && sr + u <= f.rows && c + cols <= f.cols && (sr + u <= r || r + q * u <= sr)
    modifies buf
    ensures Mapped(f, old(buf[..]), buf[..], RowTiles(r, c, q * u, cols, sr, u, 0))
  {
    hide At, Mapped, Holds, RowTiles, RectMap;
    var d: nat := dst;
    StackNone(f, buf[..], r, c, cols, sr, u);
    for t := 0 to q
      invariant d == At(f, Px(r + t * u, c)) && t * u >= 0
      invariant Mapped(f, old(buf[..]), buf[..], RowTiles(r, c, t * u, cols, sr, u, 0))
    {
      ghost var before := buf[..];
      MulOrder(t + 1, q + 1, u);
      assert (t + 1) * u == t * u + u;
      ghost var a := Rect(r + t * u, c, u, cols, sr - r - t * u, 0);
      CopyRows(f, buf, d, src, u, cols, a);
      forall p: Px
        ensures RowTiles(r, c, (t + 1) * u, cols, sr, u, 0)(p) == RowTiles(r, c, t * u, cols, sr, u, 0)(MapOf(a)(p))
      {
        StackTile(r, c, cols, sr, u, t, p);
      }
      Then(f, old(buf[..]), before, buf[..], RowTiles(r, c, t * u, cols, sr, u, 0), MapOf(a),
          RowTiles(r, c, (t + 1) * u, cols, sr, u, 0));
      NextRow(f, Px(r + t * u, c), u);
      d := d + u * f.res;
    }
  }

  lemma StackNone(f: Frame, s: seq<byte>, r: nat, c: nat, cols: nat, sr: nat, u: pos)
    ensures Mapped(f, s, s, RowTiles(r, c, 0 * u, cols, sr, u, 0))
  {
    Unmoved(f, s, RowTiles(r, c, 0 * u, cols, sr, u, 0));
  }

  lemma BandNone(f: Frame, s: seq<byte>, r: nat, c: nat, rows: nat, sc: nat, u: pos)
    ensures Mapped(f, s, s, ColTiles(r, c, rows, 0 * u, sc, u, 0))
  {
    Unmoved(f, s, ColTiles(r, c, rows, 0 * u, sc, u, 0));
  }

  /** q whole tiles of u columns, one beside the other. */
  method BandTiles(f: Frame, buf: array<byte>, dst: nat, src: nat, rows: nat, q: nat, u: pos, ghost r: nat,
      ghost c: nat, ghost sc: nat)
    requires Holds(f, buf.Length) && dst == At(f, Px(r, c)) && src == At(f, Px(r, sc))
    requires r + rows <= f.rows && c + q * u <= f.cols && sc + u <= f.cols && (sc + u <= c || c + q * u <= sc)
    modifies buf
    ensures Mapped(f, old(buf[..]), buf[..], ColTiles(r, c, rows, q * u, sc, u, 0))
  {
    hide At, Mapped, Holds, ColTiles, RectMap;
    var d: nat := dst;
    BandNone(f, buf[..], r, c, rows, sc, u);
    for t := 0 to q
      invariant d == dst + t * u && t * u >= 0
      invariant Mapped(f, old(buf[..]), buf[..], ColTiles(r, c, rows, t * u, sc, u, 0))
    {
      ghost var before := buf[..];
      MulOrder(t + 1, q + 1, u);
      assert (t + 1) * u == t * u + u;
      ghost var a := Rect(r, c + t * u, rows, u, 0, sc - c - t * u);
      AtRight(f, Px(r, c), t * u);
      CopyRows(f, buf, d, src, rows, u, a);
      forall p: Px
        ensures ColTiles(r, c, rows, (t + 1) * u, sc, u, 0)(p) == ColTiles(r, c, rows, t * u, sc, u, 0)(MapOf(a)(p))
      {
        BandTile(r, c, rows, sc, u, t, p);
      }
      Then(f, old(buf[..]), before, buf[..], ColTiles(r, c, rows, t * u, sc, u, 0), MapOf(a),
          ColTiles(r, c, rows, (t + 1) * u, sc, u, 0));
      d := dst + (1 + t) * u;
    }
  }

  lemma AtRight(f: Frame, p: Px, n: nat)
    ensures At(f, Px(p.y, p.x + n)) == At(f, p) + n
  {}

  /** The remainder of a band, column by column. */
  method CopyColumns(f: Frame, buf: array<byte>, dst: nat, src: nat, rows: nat, n: nat, ghost a: Rect)
    requires Holds(f, buf.Length) && RectOk(f, a) && a.rows == rows && a.cols == n && a.dr == 0
        && (a.dc >= n || -a.dc >= n)
    requires dst == At(f, Px(a.r, a.c)) && src == At(f, Px(a.r, a.c + a.dc))
    modifies buf
    ensures Mapped(f, old(buf[..]), buf[..], MapOf(a))
  {
    hide Mapped, Holds, At, RectMap;
    NoBand(f, buf[..], a.r, a.c, a.rows, 0, a.dc);
    for i := 0 to n
      invariant Mapped(f, old(buf[..]), buf[..], RectMap(a.r, a.c, a.rows, i, 0, a.dc))
    {
      ghost var before := buf[..];
      NextColumn(f, Px(a.r, a.c), i);
      NextColumn(f, Px(a.r, a.c + a.dc), i);
      CopyRows(f, buf, dst + i, src + i, rows, 1, Rect(a.r, a.c + i, a.rows, 1, 0, a.dc));
      OneMoreColumn(f, a, i, old(buf[..]), before, buf[..]);
    }
  }

  lemma OneMoreColumn(f: Frame, a: Rect, i: nat, s: seq<byte>, t: seq<byte>, u: seq<byte>)
    requires RectOk(f, a) && a.dr == 0 && i < a.cols && (a.dc >= a.cols || -a.dc >= a.cols)
    requires Mapped(f, s, t, RectMap(a.r, a.c, a.rows, i, 0, a.dc))
    requires Mapped(f, t, u, RectMap(a.r, a.c + i, a.rows, 1, 0, a.dc))
    ensures Mapped(f, s, u, RectMap(a.r, a.c, a.rows, i + 1, 0, a.dc))
  {
    hide Mapped;
    Then(f, s, t, u, RectMap(a.r, a.c, a.rows, i, 0, a.dc),
         RectMap(a.r, a.c + i, a.rows, 1, 0, a.dc), RectMap(a.r, a.c, a.rows, i + 1, 0, a.dc));
  }

  lemma NextColumn(f: Frame, p: Px, n: int)
    ensures At(f, Px(p.y, p.x + n)) == At(f, p) + n
  {}

  // ---- the four sides ----

  /** The padding fields: the body is w by h; n1 columns are added on the left, or on the
      right if dirc1 is set, and n2 rows above, or below if dirc2 is set. */
  datatype Pad = Pad(dirc1: bool, dirc2: bool, n1: nat, n2: nat, u1: nat, u2: nat, w: nat, h: nat)

  predicate PadOk(d: Pad, f: Frame) {
    && f.rows == d.h + d.n2 && f.cols == d.w + d.n1 <= f.res
    && (d.n1 > 0 ==> 1 <= d.u1 <= d.w)
    && (d.n2 > 0 ==> 1 <= d.u2 <= d.h)
    && (d.n1 == 0 ==> d.u2 >= 1)
  }

  function X0(d: Pad): nat { if d.dirc1 then 0 else d.n1 }

  function Y0(d: Pad): nat { if d.dirc2 then 0 else d.n2 }

  /** The body column (row) that a padded column (row) shows: reduced modulo the unit
      from the adjoining edge. */
  function BodyCol(d: Pad, x: int): int {
    if X0(d) <= x < X0(d) + d.w || d.u1 == 0 then x - X0(d)
    else if d.dirc1 then d.w - d.u1 + (x - d.w) % d.u1
    else (x - d.n1) % d.u1
  }

  function BodyRow(d: Pad, y: int): int {
    if Y0(d) <= y < Y0(d) + d.h || d.u2 == 0 then y - Y0(d)
    else if d.dirc2 then d.h - d.u2 + (y - d.h) % d.u2
    else (y - d.n2) % d.u2
  }

  /** Periodic extension: the body stays, and a row (column) beyond its padded edge is the one a
      unit nearer to it. */
  lemma Periodic(d: Pad, f: Frame, p: Px)
    requires PadOk(d, f) && 0 <= p.y < f.rows && 0 <= p.x < f.cols
    ensures if d.dirc2 then (if p.y < d.h then BodyRow(d, p.y) == p.y else BodyRow(d, p.y) == BodyRow(d, p.y - d.u2))
            else if p.y >= d.n2 then BodyRow(d, p.y) == p.y - d.n2 else BodyRow(d, p.y) == BodyRow(d, p.y + d.u2)
    ensures if d.dirc1 then (if p.x < d.w then BodyCol(d, p.x) == p.x else BodyCol(d, p.x) == BodyCol(d, p.x - d.u1))
            else if p.x >= d.n1 then BodyCol(d, p.x) == p.x - d.n1 else BodyCol(d, p.x) == BodyCol(d, p.x + d.u1)
  {
    if d.n2 > 0 {
      if d.dirc2 && p.y >= d.h {
        UnitNearer(p.y - d.h, d.u2); } else if !d.dirc2 && p.y < d.n2 { UnitNearer(p.y - d.n2 + d.u2, d.u2);
      }
    }
    if d.n1 > 0 {
      if d.dirc1 && p.x >= d.w {
        UnitNearer(p.x - d.w, d.u1); } else if !d.dirc1 && p.x < d.n1 { UnitNearer(p.x - d.n1 + d.u1, d.u1);
      }
    }
  }

  lemma UnitNearer(v: int, u: pos)
    ensures v % u == (v - u) % u
    ensures 0 <= v < u ==> v % u == v
  {
    var q, r := v / u, v % u;
    assert v - u == (q - 1) * u + r;
    DivModIs(v - u, u, q - 1, r);
    if 0 <= v < u { DivModIs(v, u, 0, v); }
  }

  /** Rows above or below columns c..c+cols. */
  function VerticalMap(d: Pad, c: nat, cols: nat): Map {
    (p: Px) => if In(p, 0, c, d.h + d.n2, cols) then Px(Y0(d) + BodyRow(d, p.y), p.x) else p
  }

  /** Columns beside rows r..r+rows. */
  function HorizontalMap(d: Pad, r: nat, rows: nat): Map {
    (p: Px) => if In(p, r, 0, rows, d.w + d.n1) then Px(p.y, X0(d) + BodyCol(d, p.x)) else p
  }

  /** The body extended periodically over the whole frame. */
  function ExtendedMap(d: Pad): Map {
    (p: Px) => if In(p, 0, 0, d.h + d.n2, d.w + d.n1) then Px(Y0(d) + BodyRow(d, p.y), X0(d) + BodyCol(d, p.x)) else p
  }

  lemma TopMap(d: Pad, c: nat, cols: nat, p: Px)
    requires !d.dirc2 && 1 <= d.u2 && (d.n2 > 0 ==> d.u2 <= d.h)
    ensures
      var (q, m) := (d.n2 / d.u2, d.n2 % d.u2);
      0 <= q * d.u2 &&
      VerticalMap(d, c, cols)(p)
          == RowTiles(m, c, q * d.u2, cols, d.n2, d.u2, 0)(RectMap(0, c, m, cols, d.n2 + d.u2 - m, 0)(p))
  {
    var q, m := d.n2 / d.u2, d.n2 % d.u2;
    assert d.n2 == q * d.u2 + m;
    NotNegative(q, d.u2);
    if 0 <= p.y < d.n2 { Wrapped(p.y, d.n2, d.u2); }
  }

  /** (k - n) mod u, for a position before n, as the loops count it. */
  lemma Wrapped(k: nat, n: nat, u: pos)
    requires k < n
    ensures (k - n) % u == if k < n % u then u - n % u + k else (k - n % u) % u
  {
    var q, m := n / u, n % u;
    assert n == q * u + m;
    if k < m {
      Distribute(-q, -1, u);
      DivModIs(k - n, u, -q - 1, u - m + k);
    } else {
      var j := (k - m) / u;
      Distribute(j, -q, u);
      DivModIs(k - n, u, j - q, (k - m) % u);
    }
  }

  lemma BottomMap(d: Pad, c: nat, cols: nat, p: Px)
    requires d.dirc2 && 1 <= d.u2 && (d.n2 > 0 ==> d.u2 <= d.h)
    ensures
      var (q, m) := (d.n2 / d.u2, d.n2 % d.u2);
      0 <= q * d.u2 && (d.n2 > 0 ==>
      VerticalMap(d, c, cols)(p)
          == RowTiles(d.h, c, q * d.u2, cols, d.h - d.u2, d.u2, 0)(
               RectMap(d.h + q * d.u2, c, m, cols, 0 - d.u2 - q * d.u2, 0)(p)))
  {
    var q, m := d.n2 / d.u2, d.n2 % d.u2;
    assert d.n2 == q * d.u2 + m;
    NotNegative(q, d.u2);
    if q * d.u2 <= p.y - d.h < d.n2 { DivModIs(p.y - d.h, d.u2, q, p.y - d.h - q * d.u2); }
  }

  lemma LeftMap(d: Pad, r: nat, rows: nat, p: Px)
    requires !d.dirc1 && 1 <= d.u1 <= d.w
    ensures
      var (q, m) := (d.n1 / d.u1, d.n1 % d.u1);
      0 <= q * d.u1 &&
      HorizontalMap(d, r, rows)(p)
          == ColTiles(r, m, rows, q * d.u1, d.n1, d.u1, 0)(RectMap(r, 0, rows, m, 0, d.n1 + d.u1 - m)(p))
  {
    var q, m := d.n1 / d.u1, d.n1 % d.u1;
    assert d.n1 == q * d.u1 + m;
    NotNegative(q, d.u1);
    if 0 <= p.x < d.n1 { Wrapped(p.x, d.n1, d.u1); }
  }

  lemma RightMap(d: Pad, r: nat, rows: nat, p: Px)
    requires d.dirc1 && 1 <= d.u1 <= d.w
    ensures
      var (q, m) := (d.n1 / d.u1, d.n1 % d.u1);
      0 <= q * d.u1 &&
      HorizontalMap(d, r, rows)(p)
          == ColTiles(r, d.w, rows, q * d.u1, d.w - d.u1, d.u1, 0)(
               RectMap(r, d.w + q * d.u1, rows, m, 0, 0 - d.u1 - q * d.u1)(p))
  {
    var q, m := d.n1 / d.u1, d.n1 % d.u1;
    assert d.n1 == q * d.u1 + m;
    NotNegative(q, d.u1);
    if q * d.u1 <= p.x - d.w < d.n1 { DivModIs(p.x - d.w, d.u1, q, p.x - d.w - q * d.u1); }
  }

  /** Rows above the body: `ptr` is the first padded column. */
  method PadTop(f: Frame, d: Pad, buf: array<byte>, ptr: nat, ghost c: nat)
    requires Holds(f, buf.Length) && f.rows == d.h + d.n2 && c + d.w <= f.cols
    requires !d.dirc2 && 1 <= d.u2 && (d.n2 > 0 ==> d.u2 <= d.h) && ptr == c
    modifies buf
    ensures Mapped(f, old(buf[..]), buf[..], VerticalMap(d, c, d.w))
  {
    hide Mapped, Holds, VerticalMap, RowTiles, RectMap;
    var q, m := d.n2 / d.u2, d.n2 % d.u2;
    assert d.n2 == q * d.u2 + m && q * d.u2 >= 0 by { NotNegative(q, d.u2); }
    if d.n2 == 0 {
      NoRows(f, d, buf[..], c);
      return;
    }
    StackTiles(f, buf, ptr + m * f.res, ptr + f.res * d.n2, q, d.u2, d.w, m, c, d.n2);
    ghost var mid := buf[..];
    if m != 0 {
      NextRow(f, Px(d.n2, c), d.u2 - m);
      CopyRows(f, buf, ptr, ptr + f.res * d.n2 + (d.u2 - m) * f.res, m, d.w, Rect(0, c, m, d.w, d.n2 + d.u2 - m, 0));
    } else {
      NoRect(f, buf[..], 0, c, d.w, d.n2 + d.u2, 0);
    }
    forall p: Px ensures VerticalMap(d, c, d.w)(p) ==
      RowTiles(m, c, q * d.u2, d.w, d.n2, d.u2, 0)(
        RectMap(0, c, m, d.w, d.n2 + d.u2 - m, 0)(p))
    {
      TopMap(d, c, d.w, p);
    }
    Then(f, old(buf[..]), mid, buf[..], RowTiles(m, c, q * d.u2, d.w, d.n2, d.u2, 0),
         RectMap(0, c, m, d.w, d.n2 + d.u2 - m, 0), VerticalMap(d, c, d.w));
  }

  lemma NoRows(f: Frame, d: Pad, s: seq<byte>, c: nat)
    requires d.n2 == 0
    ensures Mapped(f, s, s, VerticalMap(d, c, d.w))
  {
    Unmoved(f, s, VerticalMap(d, c, d.w));
  }

  lemma NoRect(f: Frame, s: seq<byte>, r: nat, c: nat, cols: nat, dr: int, dc: int)
    ensures Mapped(f, s, s, RectMap(r, c, 0, cols, dr, dc))
  {
    Unmoved(f, s, RectMap(r, c, 0, cols, dr, dc));
  }

  lemma NoBand(f: Frame, s: seq<byte>, r: nat, c: nat, rows: nat, dr: int, dc: int)
    ensures Mapped(f, s, s, RectMap(r, c, rows, 0, dr, dc))
  {
    Unmoved(f, s, RectMap(r, c, rows, 0, dr, dc));
  }

  /** Rows below the body. */
  method PadBottom(f: Frame, d: Pad, buf: array<byte>, ptr: nat, ghost c: nat)
    requires Holds(f, buf.Length) && f.rows == d.h + d.n2 && c + d.w <= f.cols
    requires d.dirc2 && 1 <= d.u2 && (d.n2 > 0 ==> d.u2 <= d.h) && ptr == c
    modifies buf
    ensures Mapped(f, old(buf[..]), buf[..], VerticalMap(d, c, d.w))
  {
    hide Mapped, Holds, VerticalMap, RowTiles, RectMap;
    var q, m := d.n2 / d.u2, d.n2 % d.u2;
    assert d.n2 == q * d.u2 + m && q * d.u2 >= 0 by { NotNegative(q, d.u2); }
    if d.n2 == 0 {
      NoRows(f, d, buf[..], c);
      return;
    }
    BottomStarts(f, d.h, d.u2, q, c);
    StackTiles(f, buf, ptr + d.h * f.res, ptr + (d.h - d.u2) * f.res, q, d.u2, d.w, d.h, c, d.h - d.u2);
    ghost var mid := buf[..];
    if m != 0 {
      CopyRows(f, buf, ptr + d.h * f.res + q * d.u2 * f.res, ptr + (d.h - d.u2) * f.res, m, d.w,
               Rect(d.h + q * d.u2, c, m, d.w, 0 - d.u2 - q * d.u2, 0));
    } else {
      NoRect(f, buf[..], d.h + q * d.u2, c, d.w, 0 - d.u2 - q * d.u2, 0);
    }
    forall p: Px ensures VerticalMap(d, c, d.w)(p) ==
      RowTiles(d.h, c, q * d.u2, d.w, d.h - d.u2, d.u2, 0)(
        RectMap(d.h + q * d.u2, c, m, d.w, 0 - d.u2 - q * d.u2, 0)(p))
    {
      BottomMap(d, c, d.w, p);
    }
    Then(f, old(buf[..]), mid, buf[..], RowTiles(d.h, c, q * d.u2, d.w, d.h - d.u2, d.u2, 0),
         RectMap(d.h + q * d.u2, c, m, d.w, 0 - d.u2 - q * d.u2, 0), VerticalMap(d, c, d.w));
  }

  lemma BottomStarts(f: Frame, h: nat, u: nat, q: nat, c: nat)
    requires u <= h
    ensures (h - u) * f.res >= 0 && h * f.res >= 0 && q * u * f.res >= 0
    ensures At(f, Px(h + q * u, c)) == c + h * f.res + q * u * f.res
  {
    NotNegative(h - u, f.res);
    NotNegative(h, f.res);
    NotNegative(q, u);
    NotNegative(q * u, f.res);
    Distribute(h, q * u, f.res);
  }

  /** Columns left of rows r..r+rows; `ptr` is column 0 of row r. */
  method PadLeft(f: Frame, d: Pad, buf: array<byte>, ptr: nat, rows: nat, ghost r: nat)
    requires Holds(f, buf.Length) && f.cols == d.w + d.n1 && r + rows <= f.rows
    requires !d.dirc1 && 1 <= d.u1 <= d.w && ptr == At(f, Px(r, 0))
    modifies buf
    ensures Mapped(f, old(buf[..]), buf[..], HorizontalMap(d, r, rows))
  {
    hide Mapped, Holds, HorizontalMap, ColTiles, RectMap;
    var q, m := d.n1 / d.u1, d.n1 % d.u1;
    assert d.n1 == q * d.u1 + m && q * d.u1 >= 0 by { NotNegative(q, d.u1); }
    BandTiles(f, buf, ptr + m, ptr + d.n1, rows, q, d.u1, r, m, d.n1);
    ghost var mid := buf[..];
    if m != 0 {
      CopyColumns(f, buf, ptr, ptr + d.n1 + (d.u1 - m), rows, m, Rect(r, 0, rows, m, 0, d.n1 + d.u1 - m));
    } else {
      NoBand(f, buf[..], r, 0, rows, 0, d.n1 + d.u1);
    }
    forall p: Px ensures HorizontalMap(d, r, rows)(p) ==
      ColTiles(r, m, rows, q * d.u1, d.n1, d.u1, 0)(
        RectMap(r, 0, rows, m, 0, d.n1 + d.u1 - m)(p))
    {
      LeftMap(d, r, rows, p);
    }
    Then(f, old(buf[..]), mid, buf[..], ColTiles(r, m, rows, q * d.u1, d.n1, d.u1, 0),
         RectMap(r, 0, rows, m, 0, d.n1 + d.u1 - m), HorizontalMap(d, r, rows));
  }

  /** Columns right of rows r..r+rows. */
  method PadRight(f: Frame, d: Pad, buf: array<byte>, ptr: nat, rows: nat, ghost r: nat)
    requires Holds(f, buf.Length) && f.cols == d.w + d.n1 && r + rows <= f.rows
    requires d.dirc1 && 1 <= d.u1 <= d.w && ptr == At(f, Px(r, 0))
    modifies buf
    ensures Mapped(f, old(buf[..]), buf[..], HorizontalMap(d, r, rows))
  {
    hide Mapped, Holds, HorizontalMap, ColTiles, RectMap;
    var q, m := d.n1 / d.u1, d.n1 % d.u1;
    assert d.n1 == q * d.u1 + m && q * d.u1 >= 0 by { NotNegative(q, d.u1); }
    BandTiles(f, buf, ptr + d.w, ptr + (d.w - d.u1), rows, q, d.u1, r, d.w, d.w - d.u1);
    ghost var mid := buf[..];
    if m != 0 {
      CopyColumns(f, buf, ptr + d.w + q * d.u1, ptr + (d.w - d.u1), rows, m,
          Rect(r, d.w + q * d.u1, rows, m, 0, 0 - d.u1 - q * d.u1));
    } else {
      NoBand(f, buf[..], r, d.w + q * d.u1, rows, 0, 0 - d.u1 - q * d.u1);
    }
    forall p: Px ensures HorizontalMap(d, r, rows)(p) ==
      ColTiles(r, d.w, rows, q * d.u1, d.w - d.u1, d.u1, 0)(
        RectMap(r, d.w + q * d.u1, rows, m, 0, 0 - d.u1 - q * d.u1)(p))
    {
      RightMap(d, r, rows, p);
    }
    Then(f, old(buf[..]), mid, buf[..], ColTiles(r, d.w, rows, q * d.u1, d.w - d.u1, d.u1, 0),
         RectMap(r, d.w + q * d.u1, rows, m, 0, 0 - d.u1 - q * d.u1), HorizontalMap(d, r, rows));
  }

  // ---- the eight variants ----

  lemma VerticalOnly(d: Pad, p: Px)
    requires d.n1 == 0
    ensures ExtendedMap(d)(p) == VerticalMap(d, 0, d.w)(p)
  {}

  lemma HorizontalOnly(d: Pad, p: Px)
    requires d.n2 == 0
    ensures ExtendedMap(d)(p) == HorizontalMap(d, 0, d.h)(p)
  {}

  /** Where the added rows start. */
  function PadRow(d: Pad): nat { if d.dirc2 then d.h else 0 }

  /** Rows first, then the columns of the added rows, then those of the body rows. */
  lemma Corner(d: Pad, p: Px)
    requires 1 <= d.u1 <= d.w && 1 <= d.u2 <= d.h
    ensures ExtendedMap(d)(p) ==
            VerticalMap(d, X0(d), d.w)(HorizontalMap(d, PadRow(d), d.n2)(HorizontalMap(d, Y0(d), d.h)(p)))
  {
    var b := BodyCol(d, p.x);
    assert 0 <= p.x < d.w + d.n1 ==> 0 <= b < d.w;
    assert 0 <= p.y < d.h + d.n2 ==> 0 <= BodyRow(d, p.y) < d.h;
  }

  lemma CornerIsExtended(f: Frame, d: Pad, s0: seq<byte>, s1: seq<byte>, s2: seq<byte>, s3: seq<byte>)
    requires 1 <= d.u1 <= d.w && 1 <= d.u2 <= d.h
    requires Mapped(f, s0, s1, VerticalMap(d, X0(d), d.w))
    requires Mapped(f, s1, s2, HorizontalMap(d, PadRow(d), d.n2))
    requires Mapped(f, s2, s3, HorizontalMap(d, Y0(d), d.h))
    ensures Mapped(f, s0, s3, ExtendedMap(d))
  {
    hide Mapped, VerticalMap, HorizontalMap, ExtendedMap;
    var v, h1, h2 := VerticalMap(d, X0(d), d.w), HorizontalMap(d, PadRow(d), d.n2), HorizontalMap(d, Y0(d), d.h);
    var vh: Map := (p: Px) => v(h1(p));
    Then(f, s0, s1, s2, v, h1, vh);
    forall p: Px ensures ExtendedMap(d)(p) == vh(h2(p)) { Corner(d, p); }
    Then(f, s0, s2, s3, vh, h2, ExtendedMap(d));
  }

  method PaddingY0(f: Frame, d: Pad, buf: array<byte>)
    requires Holds(f, buf.Length) && PadOk(d, f) && !d.dirc2 && d.n1 == 0
    modifies buf
    ensures Mapped(f, old(buf[..]), buf[..], ExtendedMap(d))
  {
    hide Mapped, VerticalMap, ExtendedMap, Holds;
    ghost var s := buf[..];
    PadTop(f, d, buf, 0, 0);
    OnlyVertical(f, d, s, buf[..]);
  }

  method PaddingY1(f: Frame, d: Pad, buf: array<byte>)
    requires Holds(f, buf.Length) && PadOk(d, f) && d.dirc2 && d.n1 == 0
    modifies buf
    ensures Mapped(f, old(buf[..]), buf[..], ExtendedMap(d))
  {
    hide Mapped, VerticalMap, ExtendedMap, Holds;
    ghost var s := buf[..];
    PadBottom(f, d, buf, 0, 0);
    OnlyVertical(f, d, s, buf[..]);
  }

  lemma OnlyVertical(f: Frame, d: Pad, s: seq<byte>, t: seq<byte>)
    requires d.n1 == 0 && Mapped(f, s, t, VerticalMap(d, 0, d.w))
    ensures Mapped(f, s, t, ExtendedMap(d))
  {
    hide Mapped, VerticalMap, ExtendedMap;
    Unmoved(f, t, (p: Px) => p);
    forall p: Px ensures ExtendedMap(d)(p) == VerticalMap(d, 0, d.w)(p) { VerticalOnly(d, p); }
    Then(f, s, t, t, VerticalMap(d, 0, d.w), (p: Px) => p, ExtendedMap(d));
  }

  lemma OnlyHorizontal(f: Frame, d: Pad, s: seq<byte>, t: seq<byte>)
    requires d.n2 == 0 && Mapped(f, s, t, HorizontalMap(d, 0, d.h))
    ensures Mapped(f, s, t, ExtendedMap(d))
  {
    hide Mapped, HorizontalMap, ExtendedMap;
    Unmoved(f, t, (p: Px) => p);
    forall p: Px ensures ExtendedMap(d)(p) == HorizontalMap(d, 0, d.h)(p) { HorizontalOnly(d, p); }
    Then(f, s, t, t, HorizontalMap(d, 0, d.h), (p: Px) => p, ExtendedMap(d));
  }

  method PaddingX0(f: Frame, d: Pad, buf: array<byte>)
    requires Holds(f, buf.Length) && PadOk(d, f) && !d.dirc1 && d.n1 > 0 && d.n2 == 0
    modifies buf
    ensures Mapped(f, old(buf[..]), buf[..], ExtendedMap(d))
  {
    hide Mapped, HorizontalMap, ExtendedMap, Holds;
    ghost var s := buf[..];
    PadLeft(f, d, buf, 0, d.h, 0);
    OnlyHorizontal(f, d, s, buf[..]);
  }

  method PaddingX1(f: Frame, d: Pad, buf: array<byte>)
    requires Holds(f, buf.Length) && PadOk(d, f) && d.dirc1 && d.n1 > 0 && d.n2 == 0
    modifies buf
    ensures Mapped(f, old(buf[..]), buf[..], ExtendedMap(d))
  {
    hide Mapped, HorizontalMap, ExtendedMap, Holds;
    ghost var s := buf[..];
    PadRight(f, d, buf, 0, d.h, 0);
    OnlyHorizontal(f, d, s, buf[..]);
  }

  method PaddingX0Y0(f: Frame, d: Pad, buf: array<byte>)
    requires Holds(f, buf.Length) && PadOk(d, f) && !d.dirc1 && !d.dirc2 && d.n1 > 0 && d.n2 > 0
    modifies buf
    ensures Mapped(f, old(buf[..]), buf[..], ExtendedMap(d))
  {
    hide Mapped, VerticalMap, HorizontalMap, ExtendedMap, Holds;
    ghost var s0 := buf[..];
    PadTop(f, d, buf, d.n1, d.n1);
    ghost var s1 := buf[..];
    PadLeft(f, d, buf, 0, d.n2, 0);
    ghost var s2 := buf[..];
    PadLeft(f, d, buf, f.res * d.n2, d.h, d.n2);
    CornerIsExtended(f, d, s0, s1, s2, buf[..]);
  }

  method PaddingX1Y0(f: Frame, d: Pad, buf: array<byte>)
    requires Holds(f, buf.Length) && PadOk(d, f) && d.dirc1 && !d.dirc2 && d.n1 > 0 && d.n2 > 0
    modifies buf
    ensures Mapped(f, old(buf[..]), buf[..], ExtendedMap(d))
  {
    hide Mapped, VerticalMap, HorizontalMap, ExtendedMap, Holds;
    ghost var s0 := buf[..];
    PadTop(f, d, buf, 0, 0);
    ghost var s1 := buf[..];
    PadRight(f, d, buf, 0, d.n2, 0);
    ghost var s2 := buf[..];
    PadRight(f, d, buf, f.res * d.n2, d.h, d.n2);
    CornerIsExtended(f, d, s0, s1, s2, buf[..]);
  }

  method PaddingX0Y1(f: Frame, d: Pad, buf: array<byte>)
    requires Holds(f, buf.Length) && PadOk(d, f) && !d.dirc1 && d.dirc2 && d.n1 > 0 && d.n2 > 0
    modifies buf
    ensures Mapped(f, old(buf[..]), buf[..], ExtendedMap(d))
  {
    hide Mapped, VerticalMap, HorizontalMap, ExtendedMap, Holds;
    ghost var s0 := buf[..];
    PadBottom(f, d, buf, d.n1, d.n1);
    ghost var s1 := buf[..];
    PadLeft(f, d, buf, d.h * f.res, d.n2, d.h);
    ghost var s2 := buf[..];
    PadLeft(f, d, buf, 0, d.h, 0);
    CornerIsExtended(f, d, s0, s1, s2, buf[..]);
  }

  method PaddingX1Y1(f: Frame, d: Pad, buf: array<byte>)
    requires Holds(f, buf.Length) && PadOk(d, f) && d.dirc1 && d.dirc2 && d.n1 > 0 && d.n2 > 0
    modifies buf
    ensures Mapped(f, old(buf[..]), buf[..], ExtendedMap(d))
  {
    hide Mapped, VerticalMap, HorizontalMap, ExtendedMap, Holds;
    ghost var s0 := buf[..];
    PadBottom(f, d, buf, 0, 0);
    ghost var s1 := buf[..];
    PadRight(f, d, buf, d.h * f.res, d.n2, d.h);
    ghost var s2 := buf[..];
    PadRight(f, d, buf, 0, d.h, 0);
    CornerIsExtended(f, d, s0, s1, s2, buf[..]);
  }

  /** The choice of variant in `dma_direct_operation` and `dma_shape_operation`. */
  method PadBorders(f: Frame, d: Pad, buf: array<byte>)
    requires Holds(f, buf.Length) && PadOk(d, f)
    modifies buf
    ensures Mapped(f, old(buf[..]), buf[..], ExtendedMap(d))
  {
    hide Mapped, ExtendedMap, Holds;
    if d.n1 == 0 && !d.dirc2 {
      PaddingY0(f, d, buf);
    } else if d.n1 == 0 && d.dirc2 {
      PaddingY1(f, d, buf);
    } else if d.n2 == 0 && !d.dirc1 {
      PaddingX0(f, d, buf);
    } else if d.n2 == 0 && d.dirc1 {
      PaddingX1(f, d, buf);
    } else if !d.dirc1 && !d.dirc2 {
      PaddingX0Y0(f, d, buf);
    } else if !d.dirc1 && d.dirc2 {
      PaddingX0Y1(f, d, buf);
    } else if d.dirc1 && !d.dirc2 {
      PaddingX1Y0(f, d, buf);
    } else {
      PaddingX1Y1(f, d, buf);
    }
  }

  // ---- a padded read ----

  /** The buffer offset at which the variant places the body. */
  function Zone(f: Frame, d: Pad): nat {
    if d.n1 == 0 && !d.dirc2 then f.res * d.n2
    else if d.n1 == 0 && d.dirc2 then 0
    else if d.n2 == 0 && !d.dirc1 then d.n1
    else if d.n2 == 0 && d.dirc1 then 0
    else if !d.dirc1 && !d.dirc2 then f.res * d.n2 + d.n1
    else if !d.dirc1 && d.dirc2 then d.n1
    else if d.dirc1 && !d.dirc2 then f.res * d.n2
    else 0
  }

  lemma ZoneIsBody(f: Frame, d: Pad)
    ensures Zone(f, d) == At(f, Px(Y0(d), X0(d)))
  {}

  /** Byte r*w + c of a scattered transfer lands at row r, column c of the body. */
  lemma BodyByte(f: Frame, d: Pad, r: nat, c: nat)
    requires r < d.h && c < d.w
    ensures 0 <= r * d.w + c < d.w * d.h
    ensures Idx(Walk(true, Zone(f, d), d.w, f.res), r * d.w + c) == At(f, Px(Y0(d) + r, X0(d) + c))
  {
    NotNegative(r, d.w);
    MulOrder(r, d.h, d.w);
    if r == d.h - 1 { assert (r + 1) * d.w == r * d.w + d.w; }
    ZoneIsBody(f, d);
    DivModIs(r * d.w + c, d.w, r, c);
    Distribute(Y0(d), r, f.res);
  }

  /** The byte that the padded image shows at p: the memory byte of the body position
      that p repeats. */
  ghost predicate Shows(f: Frame, d: Pad, mem: seq<byte>, sw: Walk, t: seq<byte>, p: Px) {
    var k := BodyRow(d, p.y) * d.w + BodyCol(d, p.x);
    && 0 <= At(f, p) < |t| && 0 <= k < d.w * d.h
    && Idx(sw, k) < |mem| && t[At(f, p)] == mem[Idx(sw, k)]
  }

  lemma BodyRange(d: Pad, f: Frame, p: Px)
    requires PadOk(d, f) && 0 <= p.y < f.rows && 0 <= p.x < f.cols
    ensures 0 <= BodyRow(d, p.y) < d.h && 0 <= BodyCol(d, p.x) < d.w
  {}

  /** Every byte of the frame, corners included, is the body byte that periodic extension
      names; `zone` is the buffer after the body has been scattered into it. */
  lemma PaddedByte(f: Frame, d: Pad, s: seq<byte>, zone: seq<byte>, t: seq<byte>, mem: seq<byte>, sw: Walk, p: Px)
    requires Holds(f, |s|) && PadOk(d, f) && 0 <= p.y < f.rows && 0 <= p.x < f.cols
    requires Fits(Walk(true, Zone(f, d), d.w, f.res), d.w * d.h, |s|) && Fits(sw, d.w * d.h, |mem|)
    requires zone == Moved(s, Walk(true, Zone(f, d), d.w, f.res), mem, sw, d.w * d.h)
    requires Mapped(f, zone, t, ExtendedMap(d))
    ensures Shows(f, d, mem, sw, t, p)
  {
    hide *;
    BodyRange(d, f, p);
    var r, c := BodyRow(d, p.y), BodyCol(d, p.x);
    BodyByte(f, d, r, c);
    FrameByte(f, |s|, d, p);
    WideEnough(f, d, |s|);
    ScatteredByte(s, Walk(true, Zone(f, d), d.w, f.res), mem, sw, d.w * d.h, r * d.w + c);
    SameSize(f, zone, t, ExtendedMap(d));
    MappedByte(f, zone, t, ExtendedMap(d), p);
    ShowsIf(f, d, mem, sw, t, p);
  }

  lemma SameSize(f: Frame, s: seq<byte>, t: seq<byte>, m: Map)
    requires Mapped(f, s, t, m)
    ensures |s| == |t|
  {}

  lemma WideEnough(f: Frame, d: Pad, size: nat)
    requires Holds(f, size) && PadOk(d, f)
    ensures d.w <= f.res
  {}

  lemma ShowsIf(f: Frame, d: Pad, mem: seq<byte>, sw: Walk, t: seq<byte>, p: Px)
    requires
      var k := BodyRow(d, p.y) * d.w + BodyCol(d, p.x);
      && 0 <= At(f, p) < |t| && 0 <= k < d.w * d.h
      && Idx(sw, k) < |mem| && t[At(f, p)] == mem[Idx(sw, k)]
    ensures Shows(f, d, mem, sw, t, p)
  {}

  lemma ScatteredByte(s: seq<byte>, w: Walk, mem: seq<byte>, sw: Walk, n: nat, k: nat)
    requires Fits(w, n, |s|) && Fits(sw, n, |mem|) && k < n && w.rows && 0 < w.x <= w.res
    ensures 0 <= Idx(w, k) < |s| && 0 <= Idx(sw, k) < |mem|
    ensures Moved(s, w, mem, sw, n)[Idx(w, k)] == mem[Idx(sw, k)]
  {
    hide Idx, Moved;
    MovedBytes(s, w, mem, sw, n);
  }

  lemma MappedByte(f: Frame, s: seq<byte>, t: seq<byte>, m: Map, p: Px)
    requires Mapped(f, s, t, m) && 0 <= At(f, p) < |t| && PxOf(f, At(f, p)) == p
    ensures 0 <= At(f, m(p)) < |s| && t[At(f, p)] == s[At(f, m(p))]
  {
    hide At, PxOf;
    assert ByteMapped(f, s, t, m(PxOf(f, At(f, p))), At(f, p));
  }

  lemma FrameByte(f: Frame, size: nat, d: Pad, p: Px)
    requires Holds(f, size) && PadOk(d, f) && 0 <= p.y < f.rows && 0 <= p.x < f.cols
    ensures 0 <= At(f, p) < size && PxOf(f, At(f, p)) == p
    ensures ExtendedMap(d)(p) == Px(Y0(d) + BodyRow(d, p.y), X0(d) + BodyCol(d, p.x))
    ensures d.w <= f.res
  {
    Inside(f, size, p);
    PxAt(f, p);
  }

  predicate OutsideFrame(f: Frame, d: Pad, i: nat) { i / f.res >= d.h + d.n2 || i % f.res >= d.w + d.n1 }

  /** The zone copy stays inside the body. */
  lemma BodyInside(f: Frame, d: Pad, k: nat)
    requires PadOk(d, f) && k < d.w * d.h
    ensures !OutsideFrame(f, d, Idx(Walk(true, Zone(f, d), d.w, f.res), k))
  {
    var r, c := k / d.w, k % d.w;
    DivModFact(k, d.w);
    MulOrder(r, d.h, d.w);
    BodyByte(f, d, r, c);
    PxAt(f, Px(Y0(d) + r, X0(d) + c));
  }

  /** Bytes outside the frame keep their values. */
  lemma OutsideKept(f: Frame, d: Pad, s: seq<byte>, zone: seq<byte>, t: seq<byte>, mem: seq<byte>, sw: Walk, i: nat)
    requires PadOk(d, f) && OutsideFrame(f, d, i) && i < |t|
    requires Fits(Walk(true, Zone(f, d), d.w, f.res), d.w * d.h, |s|) && Fits(sw, d.w * d.h, |mem|)
    requires zone == Moved(s, Walk(true, Zone(f, d), d.w, f.res), mem, sw, d.w * d.h)
    requires Mapped(f, zone, t, ExtendedMap(d))
    ensures |t| == |s| && t[i] == s[i]
  {
    hide *;
    var w := Walk(true, Zone(f, d), d.w, f.res);
    SameSize(f, zone, t, ExtendedMap(d));
    OutsideMap(f, d, i);
    AtPx(f, i);
    MappedByte(f, zone, t, ExtendedMap(d), PxOf(f, i));
    if Hits(w, d.w * d.h, i) {
      var k := HitBy(w, d.w * d.h, i);
      BodyInside(f, d, k);
    }
    MovedBytes(s, w, mem, sw, d.w * d.h);
  }

  lemma HitBy(w: Walk, n: nat, i: nat) returns (k: nat)
    requires Hits(w, n, i)
    ensures k < n && Idx(w, k) == i
  {
    k :| k < n && Idx(w, k) == i;
  }

  lemma OutsideMap(f: Frame, d: Pad, i: nat)
    requires OutsideFrame(f, d, i)
    ensures ExtendedMap(d)(PxOf(f, i)) == PxOf(f, i)
  {}

  /** A padded READ transfer of w * h bytes. Whatever the mode bits, the buffer ends as the
      zone copy extended periodically; with rows scattered, every byte of the frame is
      the memory byte that the periodic extension of the body names, and no other changes. */
  method PaddedRead(m: Memory, sh: Shape, f: Frame, d: Pad, addr: nat, buf: array<byte>, len: nat)
    requires buf != m.mem && Holds(f, buf.Length) && PadOk(d, f) && sh.desX == d.w && sh.desRes == f.res
    requires AddrValid(m.base, m.size, addr, len) ==>
      Fits(DestWalk(sh, false, Zone(f, d)), len, buf.Length)
          && Fits(SourceWalk(sh, false, addr - m.base), len, m.mem.Length)
    modifies buf
    ensures
      var zone := if AddrValid(m.base, m.size, addr, len)
        then Moved(old(buf[..]), DestWalk(sh, false, Zone(f, d)), m.mem[..], SourceWalk(sh, false, addr - m.base), len)
        else old(buf[..]);
      Mapped(f, zone, buf[..], ExtendedMap(d))
    ensures AddrValid(m.base, m.size, addr, len) && Scatters(sh, false) && len == d.w * d.h ==>
      && (forall p: Px | 0 <= p.y < f.rows && 0 <= p.x < f.cols ::
            Shows(f, d, m.mem[..], SourceWalk(sh, false, addr - m.base), buf[..], p))
      && (forall i: nat | i < buf.Length && OutsideFrame(f, d, i) :: buf[i] == old(buf[i]))
  {
    hide Mapped, ExtendedMap, Holds, PadOk, Fits, Moved, Shows, Zone, Idx, Gathers, Scatters, OutsideFrame;
    ghost var s := buf[..];
    m.ZoneRead(sh, false, addr, buf, Zone(f, d), len);
    ghost var zone := buf[..];
    PadBorders(f, d, buf);
    if AddrValid(m.base, m.size, addr, len) && Scatters(sh, false) && len == d.w * d.h {
      forall p: Px | 0 <= p.y < f.rows && 0 <= p.x < f.cols
        ensures Shows(f, d, m.mem[..], SourceWalk(sh, false, addr - m.base), buf[..], p)
      {
        PaddedByte(f, d, s, zone, buf[..], m.mem[..], SourceWalk(sh, false, addr - m.base), p);
      }
      forall i: nat | i < buf.Length && OutsideFrame(f, d, i) ensures buf[i] == old(buf[i]) {
        OutsideKept(f, d, s, zone, buf[..], m.mem[..], SourceWalk(sh, false, addr - m.base), i);
      }
    }
  }
}
