/** The zone copies of the DMA engine (m1.cpp and ddr-memory.cpp): two pointers that
    advance byte by byte and wrap to the next row, against closed-form addresses. */
module StridedCopy {
  import opened Arithmetic

  type byte = bv8

  /** One side of a transfer: linear, or rows of x bytes that start res apart. */
  datatype Walk = Walk(rows: bool, base: nat, x: nat, res: nat)

  /** The address of byte i. A row of width 0 is stepped over before every byte. */
  function Idx(w: Walk, i: nat): nat {
    if !w.rows then w.base + i
    else if w.x == 0 then w.base + (i + 1) * w.res
    else w.base + (i / w.x) * w.res + i % w.x
  }

  /** Every byte of the transfer lies inside an object of the given size. */
  predicate Fits(w: Walk, n: nat, size: nat) { forall i | 0 <= i < n :: Idx(w, i) < size }

  /** The bytes moved one after the other. */
  function Moved(d: seq<byte>, dw: Walk, s: seq<byte>, sw: Walk, n: nat): (r: seq<byte>)
    requires Fits(dw, n, |d|) && Fits(sw, n, |s|)
    ensures |r| == |d|
  {
    if n == 0 then d else Moved(d, dw, s, sw, n - 1)[Idx(dw, n - 1) := s[Idx(sw, n - 1)]]
  }

  // ---- the incremental pointers ----

  /** The pointer pair of one side: the byte pointer and the start of its row. */
  datatype Cursor = Cursor(p: nat, row: nat)

  function Wrap(w: Walk, c: Cursor): Cursor {
    if w.rows && c.p >= c.row + w.x then Cursor(c.row + w.res, c.row + w.res) else c
  }

  /** The cursor before byte i is wrapped and moved. */
  function Before(w: Walk, i: nat): Cursor {
    if i == 0 || !w.rows then Cursor(w.base + i, w.base)
    else if w.x == 0 then Cursor(w.base + i * w.res + 1, w.base + i * w.res)
    else Cursor(w.base + (i - 1) / w.x * w.res + (i - 1) % w.x + 1, w.base + (i - 1) / w.x * w.res)
  }

  lemma DivModNext(i: nat, x: nat)
    requires x > 0 && i > 0
    ensures (i - 1) % x + 1 < x ==> i / x == (i - 1) / x && i % x == (i - 1) % x + 1
    ensures (i - 1) % x + 1 >= x ==> i / x == (i - 1) / x + 1 && i % x == 0
  {
    var q, r := (i - 1) / x, (i - 1) % x;
    if r + 1 < x { DivModIs(i, x, q, r + 1); } else { DivModIs(i, x, q + 1, 0); }
  }

  /** After the wrap test the pointer is at the closed-form address. */
  lemma WrapReaches(w: Walk, i: nat)
    ensures Wrap(w, Before(w, i)).p == Idx(w, i)
    ensures Before(w, i + 1) == Cursor(Idx(w, i) + 1, Wrap(w, Before(w, i)).row) || !w.rows
    ensures !w.rows ==> Before(w, i + 1) == Cursor(Idx(w, i) + 1, w.base) && Wrap(w, Before(w, i)).row == w.base
  {
    if w.rows {
      if w.x == 0 {
        assert (i + 1) * w.res == i * w.res + w.res;
      } else if i > 0 {
        var q := (i - 1) / w.x;
        DivModNext(i, w.x);
        assert (q + 1) * w.res == q * w.res + w.res;
      } else {
        DivModIs(0, w.x, 0, 0);
      }
    }
  }

  /** The copy loop shared by every zone and both directions: the source side is walked
      by the gather settings, the destination side by the scatter settings. */
  method Move(dst: array<byte>, dw: Walk, src: array<byte>, sw: Walk, len: nat)
    requires dst != src
    requires Fits(dw, len, dst.Length) && Fits(sw, len, src.Length)
    modifies dst
    ensures dst[..] == Moved(old(dst[..]), dw, src[..], sw, len)
  {
    hide Idx, Before;
    var s: nat, srow: nat, d: nat, drow: nat := sw.base, sw.base, dw.base, dw.base;
    Start(sw);
    Start(dw);
    for i := 0 to len
      invariant Cursor(s, srow) == Before(sw, i) && Cursor(d, drow) == Before(dw, i)
      invariant dst[..] == Moved(old(dst[..]), dw, src[..], sw, i)
    {
      WrapReaches(sw, i);
      WrapReaches(dw, i);
      if sw.rows && s >= srow + sw.x {
        srow := srow + sw.res;
        s := srow;
      }
      if dw.rows && d >= drow + dw.x {
        drow := drow + dw.res;
        d := drow;
      }
      dst[d] := src[s];
      s, d := s + 1, d + 1;
    }
  }

  lemma Start(w: Walk)
    ensures Before(w, 0) == Cursor(w.base, w.base)
  {}

  // ---- what the copy leaves ----

  /** No two of the first n bytes have the same address. */
  predicate Injective(w: Walk, n: nat) {
    forall i, j | 0 <= i < j < n :: Idx(w, i) != Idx(w, j)
  }

  /** The stride separates the rows, or there is at most one row. */
  predicate Separated(w: Walk, n: nat) {
    !w.rows || n <= 1 || (if w.x == 0 then w.res > 0 else w.res >= w.x || n <= w.x)
  }

  lemma RowsApart(w: Walk, i: nat, j: nat)
    requires w.rows && 0 < w.x <= w.res && i < j
    ensures Idx(w, i) < Idx(w, j)
  {
    RowOrder(i / w.x, i % w.x, j / w.x, j % w.x, w.x, w.res);
  }

  /** Row-major order does not depend on the stride. */
  lemma RowOrder(qi: int, ri: int, qj: int, rj: int, x: int, res: int)
    requires 0 <= ri < x && 0 <= rj < x <= res && qi * x + ri < qj * x + rj
    ensures qi * res + ri < qj * res + rj
  {
    MulOrder(qi, qj, x);
    MulOrder(qi, qj, res);
  }

  lemma ZeroWidth(w: Walk, i: nat, j: nat)
    requires w.rows && w.x == 0 && i < j
    ensures w.res > 0 ==> Idx(w, i) < Idx(w, j)
    ensures w.res == 0 ==> Idx(w, i) == Idx(w, j)
  {
    if w.res > 0 { assert (j + 1) * w.res >= (i + 2) * w.res; }
  }

  lemma OneRow(w: Walk, i: nat)
    requires w.rows && i < w.x
    ensures Idx(w, i) == w.base + i
  {
    DivModIs(i, w.x, 0, i);
  }

  lemma SecondRow(w: Walk)
    requires w.rows && w.x > 0
    ensures Idx(w, w.x) == w.base + w.res
  {
    DivModIs(w.x, w.x, 1, 0);
  }

  /** The addresses of a transfer are distinct exactly when the stride separates the rows. */
  lemma InjectiveIff(w: Walk, n: nat)
    ensures Injective(w, n) <==> Separated(w, n)
  {
    hide Idx;
    if Separated(w, n) {
      forall i, j | 0 <= i < j < n ensures Idx(w, i) != Idx(w, j) { Distinct(w, n, i, j); }
    } else if w.x == 0 {
      ZeroWidth(w, 0, 1);
      assert Idx(w, 0) == Idx(w, 1);
    } else {
      OneRow(w, w.res);
      SecondRow(w);
      assert 0 <= w.res < w.x < n && Idx(w, w.res) == Idx(w, w.x);
    }
  }

  lemma Distinct(w: Walk, n: nat, i: nat, j: nat)
    requires Separated(w, n) && i < j < n
    ensures Idx(w, i) != Idx(w, j)
  {
    hide Idx;
    if !w.rows {
      Linear(w, i);
      Linear(w, j);
    } else if w.x == 0 {
      ZeroWidth(w, i, j);
    } else if w.res >= w.x {
      RowsApart(w, i, j);
    } else {
      OneRow(w, i);
      OneRow(w, j);
    }
  }

  lemma Linear(w: Walk, i: nat)
    requires !w.rows
    ensures Idx(w, i) == w.base + i
  {}

  predicate Hits(w: Walk, n: nat, k: int) { exists i | 0 <= i < n :: Idx(w, i) == k }

  /** Byte i arrives at its closed-form address; nothing else changes. */
  lemma {:induction false} MovedBytes(d: seq<byte>, dw: Walk, s: seq<byte>, sw: Walk, n: nat)
    requires Fits(dw, n, |d|) && Fits(sw, n, |s|)
    ensures Separated(dw, n) ==> forall i | 0 <= i < n :: Moved(d, dw, s, sw, n)[Idx(dw, i)] == s[Idx(sw, i)]
    ensures forall k | 0 <= k < |d| && !Hits(dw, n, k) :: Moved(d, dw, s, sw, n)[k] == d[k]
  {
    hide Idx;
    if n > 0 {
      MovedBytes(d, dw, s, sw, n - 1);
      InjectiveIff(dw, n);
      InjectiveIff(dw, n - 1);
      forall k | 0 <= k < |d| && !Hits(dw, n, k) ensures !Hits(dw, n - 1, k) && k != Idx(dw, n - 1) {}
    }
  }

  /** The n bytes at `from` of block, put at `to` of back. */
  function Spliced(back: seq<byte>, to: nat, block: seq<byte>, from: nat, n: nat): (r: seq<byte>)
    requires to + n <= |back| && from + n <= |block|
    ensures |r| == |back|
    ensures forall k | 0 <= k < |back| :: r[k] == if to <= k < to + n then block[k - to + from] else back[k]
  {
    back[..to] + block[from..from + n] + back[to + n..]
  }

  /** Scattering a block and gathering it with the same shape restores it: the n bytes at
      `from` of one buffer arrive at `to` of another. */
  lemma ScatterThenGather(mem: seq<byte>, w: Walk, block: seq<byte>, from: Walk, back: seq<byte>, to: Walk, n: nat)
    requires !from.rows && !to.rows && from.base + n <= |block| && to.base + n <= |back|
    requires Separated(w, n) && Fits(w, n, |mem|)
    ensures Fits(from, n, |block|) && Fits(to, n, |back|)
    ensures Moved(back, to, Moved(mem, w, block, from, n), w, n) == Spliced(back, to.base, block, from.base, n)
  {
    hide Idx, Moved, Spliced;
    forall i | 0 <= i < n ensures Idx(from, i) == from.base + i && Idx(to, i) == to.base + i {
      Linear(from, i);
      Linear(to, i);
    }
    var scattered := Moved(mem, w, block, from, n);
    MovedBytes(mem, w, block, from, n);
    MovedBytes(back, to, scattered, w, n);
    var r := Moved(back, to, scattered, w, n);
    forall k | 0 <= k < |back|
      ensures r[k] == Spliced(back, to.base, block, from.base, n)[k]
    {
      if to.base <= k < to.base + n {
        var i := k - to.base;
        assert r[Idx(to, i)] == scattered[Idx(w, i)] == block[Idx(from, i)];
      } else {
        assert !Hits(to, n, k);
      }
    }
  }

  // ---- the control word ----

  datatype Command = Read | Write

  /** The shape fields of a transfer. */
  datatype Shape = Shape(sysDma: bool, ctl: bv32, srcX: nat, srcRes: nat, desX: nat, desRes: nat)

  predicate Gathers(sh: Shape, direct: bool) {
    if direct && sh.sysDma then sh.ctl & 0x80 != 0 || sh.ctl & 0x10 != 0 else sh.ctl & 0x100 != 0 || sh.ctl & 0x10 != 0
  }

  predicate Scatters(sh: Shape, direct: bool) {
    if direct && sh.sysDma then sh.ctl & 0x100 != 0 || sh.ctl & 0x20 != 0 else sh.ctl & 0x200 != 0 || sh.ctl & 0x20 != 0
  }

  /** Bit 4 gathers and bit 5 scatters for either controller. The system controller's direct
      copy has 7 and 8 for the same, every other copy 8 and 9. No other bit has a say, and
      each of these on its own turns exactly one side into rows. */
  lemma {:induction false} SingleBits(sh: Shape, direct: bool, k: nat)
    requires k < 32 && sh.ctl == (1 as bv32) << k
    ensures Gathers(sh, direct) <==> k == 4 || k == if direct && sh.sysDma then 7 else 8
    ensures Scatters(sh, direct) <==> k == 5 || k == if direct && sh.sysDma then 8 else 9
  {}

  /** A control word does what its bits do. */
  lemma BitsAdd(sh: Shape, direct: bool, a: bv32, b: bv32)
    ensures Gathers(sh.(ctl := a | b), direct) <==> Gathers(sh.(ctl := a), direct) || Gathers(sh.(ctl := b), direct)
    ensures Scatters(sh.(ctl := a | b), direct) <==> Scatters(sh.(ctl := a), direct) || Scatters(sh.(ctl := b), direct)
  {}

  /** `addr_valid`, in 32-bit arithmetic. */
  predicate AddrValid(base: nat, size: nat, start: nat, len: nat) {
    && start >= base
    && (start + len) % 0x1_0000_0000 < (base + size) % 0x1_0000_0000
    && (start + len) % 0x1_0000_0000 > base
  }

  /** For a transfer that does not wrap around, it is that the bytes lie inside the memory and
      do not end at its end; an empty one must not be at its start either. */
  lemma AddrValidIs(base: nat, size: nat, start: nat, len: nat)
    requires base + size < 0x1_0000_0000 && start + len < 0x1_0000_0000
    ensures AddrValid(base, size, start, len) <==> base <= start && base < start + len && start + len < base + size
    ensures AddrValid(base, size, start, len) ==> Fits(Walk(false, start - base, 0, 0), len, size)
    ensures len > 0 && base <= start && Fits(Walk(false, start - base, 0, 0), len, size) ==>
      AddrValid(base, size, start, len) || start + len == base + size
  {
    assert AddrValid(base, size, start, len) <==> base <= start && base < start + len && start + len < base + size;
    if len > 0 && base <= start && Fits(Walk(false, start - base, 0, 0), len, size) {
      assert Idx(Walk(false, start - base, 0, 0), len - 1) < size;
    }
  }

  /** The zone copy of one padding variant. In both directions the reading side takes the
      source settings; the buffer side starts `zone` bytes in. */
  function SourceWalk(sh: Shape, direct: bool, base: nat): Walk { Walk(Gathers(sh, direct), base, sh.srcX, sh.srcRes) }

  function DestWalk(sh: Shape, direct: bool, base: nat): Walk { Walk(Scatters(sh, direct), base, sh.desX, sh.desRes) }

  /** The memory behind one bus, and its zone copies. */
  class Memory {
    const mem: array<byte>
    const base: nat
    const size: nat

    constructor (base: nat, size: nat)
      ensures this.base == base && this.size == size && mem.Length == size && fresh(mem)
      ensures forall i | 0 <= i < size :: mem[i] == 0
    {
      this.base, this.size := base, size;
      mem := new byte[size](_ => 0);
    }

    /** `zone_memcpy_direct` (direct) and its eight padding variants, READ command. */
    method ZoneRead(sh: Shape, direct: bool, addr: nat, buf: array<byte>, zone: nat, len: nat)
      requires buf != mem
      requires AddrValid(base, size, addr, len) ==>
        Fits(DestWalk(sh, direct, zone), len, buf.Length) && Fits(SourceWalk(sh, direct, addr - base), len, mem.Length)
      modifies buf
      ensures buf[..] ==
        if AddrValid(base, size, addr, len)
        then Moved(old(buf[..]), DestWalk(sh, direct, zone), mem[..], SourceWalk(sh, direct, addr - base), len)
        else old(buf[..])
    {
      if AddrValid(base, size, addr, len) {
        Move(buf, DestWalk(sh, direct, zone), mem, SourceWalk(sh, direct, addr - base), len);
      }
    }

    /** The WRITE command; the x0y1 variant stores only if the gather bit is set. */
    method ZoneWrite(sh: Shape, direct: bool, x0y1: bool, addr: nat, buf: array<byte>, zone: nat, len: nat)
      requires buf != mem && !(direct && x0y1)
      requires AddrValid(base, size, addr, len) ==>
        Fits(SourceWalk(sh, direct, zone), len, buf.Length) && Fits(DestWalk(sh, direct, addr - base), len, mem.Length)
      modifies mem
      ensures mem[..] ==
        if AddrValid(base, size, addr, len) && (!x0y1 || Gathers(sh, direct))
        then Moved(old(mem[..]), DestWalk(sh, direct, addr - base), buf[..], SourceWalk(sh, direct, zone), len)
        else old(mem[..])
    {
      if AddrValid(base, size, addr, len) {
        if !x0y1 || Gathers(sh, direct) {
          Move(mem, DestWalk(sh, direct, addr - base), buf, SourceWalk(sh, direct, zone), len);
        }
      }
    }
  }

  /** The control words that scatter a write and gather a read, for each controller and copy. */
  predicate Paired(direct: bool, sysDma: bool, out: bv32, inn: bv32) {
    || (out == 0x20 && inn == 0x10)
    || (direct && sysDma && out == 0x100 && inn == 0x80)
    || (!(direct && sysDma) && out == 0x200 && inn == 0x100)
  }

  /** A write that scatters rows and a read that gathers them with the same shape restore the
      block, from `from` in one buffer to `to` in the other: through every control word, for
      both controllers, and for the direct copy and the padding variants alike. */
  lemma WriteThenRead(write: Shape, read: Shape, direct: bool, mem: seq<byte>, at: nat,
      block: seq<byte>, from: nat, back: seq<byte>, to: nat, n: nat)
    requires write.sysDma == read.sysDma && Paired(direct, write.sysDma, write.ctl, read.ctl)
    requires read.srcX == write.desX && read.srcRes == write.desRes && from + n <= |block| && to + n <= |back|
    requires
      var w := Walk(true, at, write.desX, write.desRes);
      Separated(w, n) && Fits(w, n, |mem|)
    ensures
      var (des, src) := (DestWalk(write, direct, at), SourceWalk(write, direct, from));
      var (des2, src2) := (DestWalk(read, direct, to), SourceWalk(read, direct, at));
      && Fits(des, n, |mem|) && Fits(src, n, |block|) && Fits(des2, n, |back|) && Fits(src2, n, |mem|)
      && Moved(back, des2, Moved(mem, des, block, src, n), src2, n) == Spliced(back, to, block, from, n)
  {
    hide Moved, Fits, Separated, Gathers, Scatters, Paired, DestWalk, SourceWalk, Spliced;
    PairedSides(write, read, direct, from, to, at);
    ScatterThenGather(mem, DestWalk(write, direct, at), block, SourceWalk(write, direct, from), back,
                      DestWalk(read, direct, to), n);
  }

  /** The write turns the memory side into rows, the read gathers them, and nothing else. */
  lemma PairedSides(write: Shape, read: Shape, direct: bool, from: nat, to: nat, at: nat)
    requires write.sysDma == read.sysDma && Paired(direct, write.sysDma, write.ctl, read.ctl)
    ensures DestWalk(write, direct, at) == Walk(true, at, write.desX, write.desRes)
    ensures SourceWalk(write, direct, from) == Walk(false, from, write.srcX, write.srcRes)
    ensures SourceWalk(read, direct, at) == Walk(true, at, read.srcX, read.srcRes)
    ensures DestWalk(read, direct, to) == Walk(false, to, read.desX, read.desRes)
  {
    ControlBits();
  }

  lemma ControlBits()
    ensures (0x20 as bv32) & 0x20 != 0 && (0x20 as bv32) & 0x80 == 0 && (0x20 as bv32) & 0x10 == 0
         && (0x20 as bv32) & 0x100 == 0 && (0x20 as bv32) & 0x200 == 0
    ensures (0x10 as bv32) & 0x10 != 0 && (0x10 as bv32) & 0x20 == 0 && (0x10 as bv32) & 0x80 == 0
         && (0x10 as bv32) & 0x100 == 0 && (0x10 as bv32) & 0x200 == 0
    ensures (0x100 as bv32) & 0x100 != 0 && (0x100 as bv32) & 0x20 == 0 && (0x100 as bv32) & 0x10 == 0
         && (0x100 as bv32) & 0x80 == 0 && (0x100 as bv32) & 0x200 == 0
    ensures (0x80 as bv32) & 0x80 != 0 && (0x80 as bv32) & 0x20 == 0 && (0x80 as bv32) & 0x10 == 0
         && (0x80 as bv32) & 0x100 == 0 && (0x80 as bv32) & 0x200 == 0
    ensures (0x200 as bv32) & 0x200 != 0 && (0x200 as bv32) & 0x20 == 0 && (0x200 as bv32) & 0x10 == 0
         && (0x200 as bv32) & 0x100 == 0 && (0x200 as bv32) & 0x80 == 0
  {}
}
