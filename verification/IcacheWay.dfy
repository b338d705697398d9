/** The set-associative instruction cache (sc-pac-if-way.cpp), for two, four or eight
    ways: 128 lines of 256 bytes, victims chosen by 7-bit age counts. */
module IcacheWay {
  import opened InstructionMemory

  /** One way of a group. */
  datatype Way = Way(valid: bool, tag: nat, line: nat, lru: nat, insn: seq<byte>)

  /** The number of ways of a configuration. */
  type Config = w: nat | w == 2 || w == 4 || w == 8 witness 2

  function Groups(w: Config): nat { if w == 2 then 64 else if w == 4 then 32 else 16 }

  // The address fields above the offset, of line number n.

  function TagOf(n: nat): nat { n / 128 }

  function FieldOf(w: Config, n: nat): nat { (n / Groups(w)) % w }

  function GroupOf(w: Config, n: nat): nat { n % Groups(w) }

  /** The line that a way of group g claims to hold. */
  function Claimed(w: Config, g: nat, y: Way): nat { 128 * y.tag + Groups(w) * y.line + g }

  predicate Match(w: Config, y: Way, n: nat) { y.valid && y.tag == TagOf(n) && y.line == FieldOf(w, n) }

  lemma FieldsIdentify(w: Config, n: nat, y: Way)
    ensures Match(w, y, n) ==> Claimed(w, GroupOf(w, n), y) == n
    ensures GroupOf(w, n + 1) != GroupOf(w, n)
  {
    Fields2(n);
    Fields4(n);
    Fields8(n);
  }

  lemma Split(n: nat, g: nat, w: nat)
    requires (g == 64 && w == 2) || (g == 32 && w == 4) || (g == 16 && w == 8)
    ensures n / g / w == n / 128
  {}

  lemma Fields2(n: nat)
    ensures 128 * (n / 128) + 64 * ((n / 64) % 2) + n % 64 == n && (n + 1) % 64 != n % 64
  {
    Split(n, 64, 2);
  }

  lemma Fields4(n: nat)
    ensures 128 * (n / 128) + 32 * ((n / 32) % 4) + n % 32 == n && (n + 1) % 32 != n % 32
  {
    Split(n, 32, 4);
  }

  lemma Fields8(n: nat)
    ensures 128 * (n / 128) + 16 * ((n / 16) % 8) + n % 16 == n && (n + 1) % 16 != n % 16
  {
    Split(n, 16, 8);
  }

  /** A valid way holds exactly the memory line that its tag, line field and group name. */
  predicate WayOk(m: Memory, w: Config, g: nat, y: Way) {
    && |y.insn| == LINE
    && (y.valid ==> y.insn == MemLine(m, Claimed(w, g, y)))
  }

  /** No line is valid in two ways. */
  predicate Distinct(ys: seq<Way>) {
    forall b, c | 0 <= b < c < |ys| && ys[b].valid && ys[c].valid :: ys[b].tag != ys[c].tag || ys[b].line != ys[c].line
  }

  predicate GroupOk(m: Memory, w: Config, g: nat, ys: seq<Way>) {
    && |ys| == w && Distinct(ys)
    && forall b | 0 <= b < w :: WayOk(m, w, g, ys[b])
  }

  predicate Coherent(m: Memory, w: Config, gs: seq<seq<Way>>) {
    && |gs| == Groups(w)
    && forall g | 0 <= g < |gs| :: GroupOk(m, w, g, gs[g])
  }

  /** No way of the group is older. */
  predicate Oldest(ys: seq<Way>, b: nat) { b < |ys| && forall c | 0 <= c < |ys| :: ys[c].lru <= ys[b].lru }

  function OneOlder(y: Way, young: bool): Way { if young then y else y.(lru := (y.lru + 1) % 128) }

  /** Every way but b one older, in 7 bits. */
  function Older(ys: seq<Way>, b: nat): (zs: seq<Way>)
    ensures |zs| == |ys|
  {
    seq(|ys|, c requires 0 <= c < |ys| => OneOlder(ys[c], c == b))
  }

  /** Way b used: it becomes young, and with `aging` the others grow older. */
  function Touched(ys: seq<Way>, b: nat, aging: bool): (zs: seq<Way>)
    requires b < |ys|
    ensures |zs| == |ys|
  {
    var young := ys[b := ys[b].(lru := 0)];
    if aging then Older(young, b) else young
  }

  /** The line is young wherever it is. */
  predicate Young(w: Config, gs: seq<seq<Way>>, n: nat)
    requires |gs| == Groups(w)
  {
    var ys := gs[GroupOf(w, n)];
    forall b | 0 <= b < |ys| && Match(w, ys[b], n) :: ys[b].lru == 0
  }

  /** A young line is not the next to be replaced while another way of its group is not young. */
  lemma YoungStays(w: Config, gs: seq<seq<Way>>, n: nat, b: nat, c: nat)
    requires |gs| == Groups(w) && Young(w, gs, n) && In(w, gs, n, b)
    requires c < |gs[GroupOf(w, n)]| && gs[GroupOf(w, n)][c].lru > 0
    ensures !Oldest(gs[GroupOf(w, n)], b)
  {}

  /** Below the wrap at 127, aging keeps the order of the other ways and puts way b behind them
      all; the wrap makes a way of age 127 young. */
  lemma AgingKeepsOrder(ys: seq<Way>, b: nat, c: nat, d: nat)
    requires b < |ys| && c < |ys| && d < |ys| && c != b && d != b
    ensures
      var zs := Touched(ys, b, true);
      && (ys[c].lru < 127 && ys[d].lru < 127 ==> (zs[c].lru <= zs[d].lru <==> ys[c].lru <= ys[d].lru))
      && (ys[c].lru < 127 ==> zs[b].lru < zs[c].lru == ys[c].lru + 1)
      && (ys[c].lru == 127 ==> zs[c].lru == 0)
  {}

  /** Only the ways of the line's own group matter. */
  lemma YoungApart(w: Config, gs: seq<seq<Way>>, hs: seq<seq<Way>>, n: nat)
    requires |gs| == |hs| == Groups(w)
    ensures gs[GroupOf(w, n)] == hs[GroupOf(w, n)] ==> Young(w, gs, n) == Young(w, hs, n)
  {}

  lemma TouchedYoung(w: Config, ys: seq<Way>, zs: seq<Way>, n: nat, b: nat, aging: bool)
    requires b < |ys| && zs == Touched(ys, b, aging) && Distinct(ys) && Match(w, ys[b], n)
    ensures forall c | 0 <= c < |zs| && Match(w, zs[c], n) :: zs[c].lru == 0
  {
    forall c | 0 <= c < |zs| && Match(w, zs[c], n) ensures zs[c].lru == 0 {
      assert Match(w, ys[c], n);
      OnlyMatch(w, ys, n, b, c);
    }
  }

  lemma UniqueMatch(m: Memory, w: Config, g: nat, ys: seq<Way>, n: nat, b: nat, c: nat)
    requires GroupOk(m, w, g, ys) && b < |ys| && c < |ys| && Match(w, ys[b], n) && Match(w, ys[c], n)
    ensures b == c
  {
    OnlyMatch(w, ys, n, b, c);
  }

  lemma ProbedYoung(m: Memory, w: Config, ys: seq<Way>, hs: seq<seq<Way>>, n: nat, aging: bool, hit: bool)
    requires |hs| == Groups(w) && GroupOk(m, w, GroupOf(w, n), ys) && hit == exists c | 0 <= c < w :: Match(w, ys[c], n)
    requires forall b | 0 <= b < w && Match(w, ys[b], n) :: hs[GroupOf(w, n)] == Touched(ys, b, aging)
    ensures hit ==> Young(w, hs, n)
  {
    hide WayOk, Match, Touched, Distinct;
    if hit {
      var c :| 0 <= c < w && Match(w, ys[c], n);
      TouchedYoung(w, ys, hs[GroupOf(w, n)], n, c, aging);
    }
  }

  lemma OnlyMatch(w: Config, ys: seq<Way>, n: nat, b: nat, c: nat)
    requires Distinct(ys) && b < |ys| && c < |ys| && Match(w, ys[b], n) && Match(w, ys[c], n)
    ensures b == c
  {}

  lemma StoredYoung(w: Config, ys: seq<Way>, zs: seq<Way>, n: nat, b: nat, data: seq<byte>)
    requires b < |ys| && !InGroup(w, ys, n)
    requires zs == Older(ys[b := Way(true, TagOf(n), FieldOf(w, n), 0, data)], b)
    ensures forall c | 0 <= c < |zs| && Match(w, zs[c], n) :: zs[c].lru == 0
  {
    forall c | 0 <= c < |zs| && Match(w, zs[c], n) ensures zs[c].lru == 0 {
      if c != b { assert Match(w, ys[c], n); }
    }
  }

  predicate InGroup(w: Config, ys: seq<Way>, n: nat) { exists b | 0 <= b < |ys| :: Match(w, ys[b], n) }

  predicate Has(w: Config, gs: seq<seq<Way>>, n: nat)
    requires |gs| == Groups(w)
  {
    InGroup(w, gs[GroupOf(w, n)], n)
  }

  predicate In(w: Config, gs: seq<seq<Way>>, n: nat, b: nat)
    requires |gs| == Groups(w)
  {
    b < |gs[GroupOf(w, n)]| && Match(w, gs[GroupOf(w, n)][b], n)
  }

  /** Only age counts differ. */
  predicate SameContents(ys: seq<Way>, zs: seq<Way>) {
    |ys| == |zs| && forall b | 0 <= b < |ys| :: zs[b] == ys[b].(lru := zs[b].lru)
  }

  lemma AgesDoNotMatter(m: Memory, w: Config, g: nat, ys: seq<Way>, zs: seq<Way>)
    requires SameContents(ys, zs) && GroupOk(m, w, g, ys)
    ensures GroupOk(m, w, g, zs)
    ensures forall b, n: nat | 0 <= b < |ys| :: Match(w, zs[b], n) == Match(w, ys[b], n)
    ensures forall n: nat :: InGroup(w, zs, n) == InGroup(w, ys, n)
  {
    hide MemLine;
    forall b | 0 <= b < w ensures WayOk(m, w, g, zs[b]) { assert WayOk(m, w, g, ys[b]); }
    forall n: nat ensures InGroup(w, zs, n) == InGroup(w, ys, n) {
      hide Match;
      if InGroup(w, ys, n) {
        var b :| 0 <= b < |ys| && Match(w, ys[b], n);
        SameMatch(w, ys[b], zs[b], n);
      }
      if InGroup(w, zs, n) {
        var b :| 0 <= b < |ys| && Match(w, zs[b], n);
        SameMatch(w, ys[b], zs[b], n);
      }
    }
  }

  lemma SameMatch(w: Config, y: Way, z: Way, n: nat)
    requires z == y.(lru := z.lru)
    ensures Match(w, z, n) == Match(w, y, n)
  {}

  /** Storing an absent line in any way keeps the group in agreement with memory. */
  lemma FillOk(m: Memory, w: Config, n: nat, ys: seq<Way>, b: nat)
    requires GroupOk(m, w, GroupOf(w, n), ys) && !InGroup(w, ys, n) && b < w
    ensures
      var z := Way(true, TagOf(n), FieldOf(w, n), 0, MemLine(m, n));
      GroupOk(m, w, GroupOf(w, n), ys[b := z]) && Match(w, z, n) && InGroup(w, ys[b := z], n)
  {
    hide MemLine;
    var z := Way(true, TagOf(n), FieldOf(w, n), 0, MemLine(m, n));
    var zs := ys[b := z];
    FieldsIdentify(w, n, z);
    assert Match(w, zs[b], n);
    forall c | 0 <= c < w ensures WayOk(m, w, GroupOf(w, n), zs[c]) { assert WayOk(m, w, GroupOf(w, n), ys[c]); }
    assert forall c | 0 <= c < w :: !Match(w, ys[c], n);
  }

  lemma HitHolds(m: Memory, w: Config, ys: seq<Way>, n: nat, b: nat)
    requires GroupOk(m, w, GroupOf(w, n), ys) && b < w && Match(w, ys[b], n)
    ensures ys[b].insn == MemLine(m, n)
  {
    hide MemLine;
    FieldsIdentify(w, n, ys[b]);
    assert WayOk(m, w, GroupOf(w, n), ys[b]);
  }

  /** The way that a line of the request goes to, and whether it was found or placed. */
  datatype Replace = Replace(block: nat, hit: bool)

  class Cache {
    const ways: Config
    const groups: array<seq<Way>>
    const buf: array<byte>        // core_insnbuf0
    var bufAddr: nat
    var idles: nat                // rendezvous with the memory side
    ghost var emptied: bool       // the buffer holds the zeroes of a flush

    ghost predicate Valid()
      reads this, groups
    {
      && groups.Length == Groups(ways) && buf.Length == LINE
      && forall g | 0 <= g < groups.Length :: |groups[g]| == ways
    }

    ghost predicate Agrees(m: Memory)
      reads this, groups
    {
      Valid() && Coherent(m, ways, groups[..])
    }

    ghost predicate Holds(n: nat)
      reads this, groups
      requires Valid()
    {
      Has(ways, groups[..], n)
    }

    /** Way b of the group of line n holds line n. */
    ghost predicate HoldsIn(n: nat, b: nat)
      reads this, groups
      requires Valid()
    {
      In(ways, groups[..], n, b)
    }

    /** Bytes lo..hi of the buffer are those of the window at addr. */
    ghost predicate Shows(m: Memory, addr: nat, lo: nat, hi: nat)
      reads this, buf
    {
      hi <= buf.Length && forall k | lo <= k < hi :: buf[k] == m(addr + k)
    }

    ghost function Buf(): Buffer
      reads this
    {
      Buffer(bufAddr, emptied)
    }

    /** The instruction buffer holds the window at its address, or the zeroes of a flush. */
    ghost predicate BufferOk(m: Memory)
      reads this, buf
    {
      && buf.Length == LINE
      && if emptied then bufAddr == 0 && forall i | 0 <= i < LINE :: buf[i] == 0
         else buf[..] == Window(m, bufAddr, LINE) && bufAddr + 2 * LINE <= TOP
    }

    constructor (w: Config)
      ensures ways == w && idles == 0 && fresh(groups) && fresh(buf) && Buf() == Buffer(0, true)
      ensures Valid() && forall m: Memory :: Agrees(m) && BufferOk(m)
    {
      ways := w;
      bufAddr, idles, emptied := 0, 0, true;
      groups := new seq<Way>[Groups(w)](_ => seq(w, _ => Way(false, 0, 0, 0, seq(LINE, _ => 0))));
      buf := new byte[LINE](_ => 0);
    }

    /** `icache_write`: every way becomes invalid; the lines stay. */
    method IcacheWrite(ghost before: Memory)
      requires Agrees(before)
      modifies this, groups, buf
      ensures Valid() && idles == old(idles) && Buf() == Buffer(0, true)
      ensures forall m: Memory :: Agrees(m) && BufferOk(m)
    {
      forall g, b | 0 <= g < groups.Length && 0 <= b < ways ensures |groups[g][b].insn| == LINE {
        WayBytes(before, ways, groups[..], g, b);
      }
      forall i | 0 <= i < LINE { buf[i] := 0; }
      bufAddr, emptied := 0, true;
      for g := 0 to groups.Length
        modifies groups
        invariant Valid() && forall h, b | 0 <= h < groups.Length && 0 <= b < ways :: |groups[h][b].insn| == LINE
        invariant forall h, b | 0 <= h < g && 0 <= b < ways :: !groups[h][b].valid
      {
        var ys := groups[g];
        groups[g] := seq(ways, b requires 0 <= b < ways => Way(false, 0, 0, 0, ys[b].insn));
      }
      forall m: Memory ensures Agrees(m) {
        forall g | 0 <= g < groups.Length ensures GroupOk(m, ways, g, groups[..][g]) {}
      }
    }

    method Memcpy(dst: nat, line: seq<byte>, from: nat, len: nat)
      requires Valid() && dst + len <= LINE && from + len <= |line|
      modifies buf
      ensures CopiedTo(old(buf[..]), buf[..], dst, line, from, len)
    {
      for i := 0 to len
        invariant CopiedTo(old(buf[..]), buf[..], dst, line, from, i)
      {
        buf[dst + i] := line[from + i];
      }
    }

    /** Every way of group g but b grows older, in 7 bits. */
    method Age(g: nat, b: nat)
      requires Valid() && g < groups.Length
      modifies groups
      ensures Valid() && Aged(old(groups[..]), groups[..], g) && groups[g] == Older(old(groups[g]), b)
    {
      ghost var ys := groups[g];
      for c := 0 to ways
        invariant Valid() && Aged(old(groups[..]), groups[..], g)
        invariant forall k | 0 <= k < ways :: groups[g][k] == if k < c then OneOlder(ys[k], k == b) else ys[k]
      {
        if c != b {
          var y := groups[g][c];
          groups[g] := groups[g][c := y.(lru := (y.lru + 1) % 128)];
        }
      }
      assert groups[g] == Older(ys, b);
    }

    /** Way b of group g holds line n and is used for a byte of it. */
    method Use(g: nat, b: nat, copy: bool, dst: nat, from: nat, len: nat, r: Replace) returns (q: Replace)
      requires Valid() && g < groups.Length && b < ways && |groups[g][b].insn| == LINE && dst + len <= LINE
          && from + len <= LINE
      modifies groups, buf
      ensures Valid() && Aged(old(groups[..]), groups[..], g)
      ensures groups[g] == Touched(old(groups[g]), b, copy && !r.hit)
      ensures q == if copy then Replace(b, true) else r
      ensures CopiedTo(old(buf[..]), buf[..], dst, old(groups[g][b].insn), from, if copy then len else 0)
    {
      var y := groups[g][b];
      groups[g] := groups[g][b := y.(lru := 0)];
      q := r;
      if copy {
        Memcpy(dst, y.insn, from, len);
        if !r.hit {
          Age(g, b);
        }
        q := Replace(b, true);
      }
    }

    /** The hit loop of one byte: every way that holds line n becomes young; if the byte is
        the first of its line in the window, len bytes of the line are copied to dst. */
    method Probe(m: Memory, n: nat, copy: bool, dst: nat, from: nat, len: nat, r: Replace)
      returns (hit: bool, q: Replace)
      requires Agrees(m) && dst + len <= LINE && from + len <= LINE
      modifies groups, buf
      ensures Valid() && Aged(old(groups[..]), groups[..], GroupOf(ways, n))
      ensures hit == old(Holds(n))
      ensures var ys := old(groups[..])[GroupOf(ways, n)];
        forall b | 0 <= b < ways && Match(ways, ys[b], n) ::
          groups[GroupOf(ways, n)] == Touched(ys, b, copy && !r.hit)
      ensures if hit then Young(ways, groups[..], n) else groups[..] == old(groups[..])
      ensures hit && copy ==> q.hit && q.block < ways && In(ways, old(groups[..]), n, q.block)
      ensures !(hit && copy) ==> q == r
      ensures CopiedTo(old(buf[..]), buf[..], dst, MemLine(m, n), from, if hit && copy then len else 0)
    {
      hide Coherent, GroupOk, WayOk, MemLine, Match;
      var g := GroupOf(ways, n);
      ghost var gs := groups[..];
      GroupAgrees(m, ways, gs, g);
      AgedSelf(gs, g);
      hit, q := false, r;
      for b := 0 to ways
        invariant Valid() && Aged(gs, groups[..], g)
        invariant hit <==> exists c | 0 <= c < b :: Match(ways, gs[g][c], n)
        invariant hit && copy ==> q.hit && q.block < b && Match(ways, gs[g][q.block], n)
        invariant !(hit && copy) ==> q == r
        invariant !hit ==> groups[..] == gs
        invariant forall c | 0 <= c < b && Match(ways, gs[g][c], n) :: groups[g] == Touched(gs[g], c, copy && !r.hit)
        invariant CopiedTo(old(buf[..]), buf[..], dst, MemLine(m, n), from, if hit && copy then len else 0)
      {
        ghost var before := groups[..];
        AgedWay(m, ways, gs, before, g, b, n);
        if Match(ways, groups[g][b], n) {
          forall c | 0 <= c < b ensures !Match(ways, gs[g][c], n) {
            if Match(ways, gs[g][c], n) { UniqueMatch(m, ways, g, gs[g], n, b, c); }
          }
          q := Use(g, b, copy, dst, from, len, q);
          hit := true;
          AgedAgain(gs, before, groups[..], g);
        }
      }
      ProbedYoung(m, ways, gs[g], groups[..], n, copy && !r.hit, hit);
    }

    /** The replacement scan, from the last way down: a way of greatest age. */
    method Victim(g: nat) returns (block: nat)
      requires Valid() && g < groups.Length
      ensures block < ways && Oldest(groups[g], block)
    {
      var max, seen, gb: nat := 0, 0, ways;
      block := 0;
      while gb > 0
        invariant gb <= ways && block < ways && max == seen
        invariant forall c | gb <= c < ways :: groups[g][c].lru <= max
        invariant if max == 0 then block == 0 else groups[g][block].lru == max
      {
        gb := gb - 1;
        max := if max >= groups[g][gb].lru then max else groups[g][gb].lru;
        if max != seen {
          seen, block := max, gb;
        }
      }
    }

    /** One line of a request: looked up again, stored over a victim if it is absent, and
        len bytes copied from the recorded block, which is the right one only if the line
        was absent or had been found before. */
    method Place(m: Memory, n: nat, data: seq<byte>, dst: nat, from: nat, len: nat, r: Replace) returns (q: Replace)
      requires Agrees(m) && data == MemLine(m, n) && r.block < ways && (r.hit ==> Holds(n))
      requires dst + len <= LINE && from + len <= LINE
      modifies groups, buf
      ensures Agrees(m) && Holds(n) && q.hit && q.block < ways
      ensures old(Holds(n)) ==> q.block == r.block && groups[..] == old(groups[..])
      ensures !old(Holds(n))
          ==> HoldsIn(n, q.block) && groups[..] == old(groups[..])[GroupOf(ways, n) := groups[GroupOf(ways, n)]]
      ensures CopiedTo(old(buf[..]), buf[..], dst, groups[GroupOf(ways, n)][q.block].insn, from, len)
      ensures !old(Holds(n)) ==>
        var ys := old(groups[..])[GroupOf(ways, n)];
        && Oldest(ys, q.block) && Young(ways, groups[..], n)
        && groups[GroupOf(ways, n)] == Older(ys[q.block := Way(true, TagOf(n), FieldOf(ways, n), 0, data)], q.block)
    {
      hide MemLine, Match, Coherent, GroupOk, WayOk, FieldOf, TagOf, CopiedTo;
      var g := GroupOf(ways, n);
      ghost var gs := groups[..];
      GroupAgrees(m, ways, gs, g);
      q := r;
      for b := 0 to ways
        invariant q == if exists c | 0 <= c < b :: Match(ways, groups[g][c], n) then Replace(r.block, true) else r
      {
        if Match(ways, groups[g][b], n) {
          q := Replace(q.block, true);
        }
      }
      if !q.hit {
        var b := Victim(g);
        groups[g] := groups[g][b := Way(true, TagOf(n), FieldOf(ways, n), 0, data)];
        StoredOk(m, ways, gs, n, b);
        ghost var hs := groups[..];
        Age(g, b);
        AgedAgrees(m, ways, hs, groups[..], g);
        StoredYoung(ways, gs[g], groups[g], n, b, data);
        q := Replace(b, true);
      }
      WayBytes(m, ways, groups[..], g, q.block);
      Memcpy(dst, groups[g][q.block].insn, from, len);
    }

    /** A miss: one request for two lines, and both parts of the window copied. The second
        part comes from the right way if the second line was absent. */
    method Miss(m: Memory, addr: nat, r1: Replace, r2: Replace) returns (q1: Replace, q2: Replace)
      requires Agrees(m) && r1.block < ways && r2.block < ways
      requires if r1.hit then HoldsIn(addr / LINE, r1.block) else !Holds(addr / LINE)
      requires r2.hit ==> Holds(addr / LINE + 1)
      modifies this`idles, groups, buf
      ensures Agrees(m) && idles == old(idles) + 1
      ensures q1.hit && q1.block < ways && HoldsIn(addr / LINE, q1.block) && q2.block < ways
      ensures Holds(addr / LINE) && Holds(addr / LINE + 1)
      ensures Shows(m, addr, 0, LINE - addr % LINE)
      ensures !old(Holds(addr / LINE + 1)) ==> Shows(m, addr, LINE - addr % LINE, LINE)
      ensures !old(Holds(addr / LINE)) || old(Young(ways, groups[..], addr / LINE))
          ==> Young(ways, groups[..], addr / LINE)
      ensures !old(Holds(addr / LINE + 1)) ==> Young(ways, groups[..], addr / LINE + 1)
    {
      hide Match, Coherent, GroupOk, WayOk, MemLine, CopiedTo, Young, Older, Oldest;
      var n := addr / LINE;
      ghost var gs := groups[..];
      var o := addr % LINE;
      var request := Window(m, LINE * (addr / LINE), 2 * LINE);
      idles := idles + 1;
      Halves(m, addr / LINE);
      FieldsIdentify(ways, n, Way(false, 0, 0, 0, []));
      HoldsAt(ways, gs, n, r1.block);
      q1 := Place(m, n, request[..LINE], 0, o, LINE - o, r1);
      HoldsAt(ways, groups[..], n, q1.block);
      HeldBytes(m, ways, groups[..], n, q1.block);
      FirstPart(m, addr, old(buf[..]), buf[..]);
      ghost var mid, half := groups[..], buf[..];
      q2 := Place(m, n + 1, request[LINE..], LINE - o, 0, o, r2);
      YoungApart(ways, gs, mid, n);
      YoungApart(ways, mid, groups[..], n);
      KeptBelow(half, buf[..], LINE - o, groups[GroupOf(ways, n + 1)][q2.block].insn, 0, o);
      if !old(Holds(n + 1)) {
        HeldBytes(m, ways, groups[..], n + 1, q2.block);
        SecondPart(m, addr, half, buf[..]);
      }
    }

    /** `l1_icache_read` with a length of 256. In every state in agreement with memory, the
        window is read correctly, with one rendezvous, and the agreement is kept. */
    method L1Read(m: Memory, addr: nat)
      requires Agrees(m) && addr + 2 * LINE <= TOP
      modifies this`idles, groups, buf
      ensures Agrees(m) && idles == old(idles) + 1
      ensures buf[..] == Window(m, addr, LINE)
      ensures Holds(addr / LINE) && Young(ways, groups[..], addr / LINE)
      ensures addr % LINE != 0 ==> Holds(addr / LINE + 1) && Young(ways, groups[..], addr / LINE + 1)
    {
      hide Match, Coherent, GroupOk, WayOk, MemLine, Has, In, Young, Touched, SameContents;
      var n, o := addr / LINE, addr % LINE;
      var missed := false;
      var r1, r2 := Replace(0, false), Replace(0, false);
      for i := 0 to LINE
        invariant Agrees(m) && idles == old(idles) + if missed then 1 else 0
        invariant r1.block < ways && r2.block < ways && (r2.hit ==> Holds(n + 1))
        invariant i == 0 ==> !r1.hit && !missed
        invariant i > 0 ==> r1.hit && HoldsIn(n, r1.block) && Holds(n) && Shows(m, addr, 0, LINE - o)
        invariant missed ==> Holds(n + 1)
        invariant i > LINE - o ==> Holds(n + 1) && Shows(m, addr, LINE - o, LINE)
        invariant i > 0 ==> Young(ways, groups[..], n)
        invariant i > LINE - o ==> Young(ways, groups[..], n + 1)
      {
        LineOf(addr, i);
        ghost var gs, bytes := groups[..], buf[..];
        var first, second := i == 0, i == LINE - o;
        var hit, q := Probe(m, (addr + i) / LINE, first || second, i, if first then o else 0,
                            if first then LINE - o else if second then o else 0, if first then r1 else r2);
        AgedAgrees(m, ways, gs, groups[..], GroupOf(ways, (addr + i) / LINE));
        FieldsIdentify(ways, n, Way(false, 0, 0, 0, []));
        YoungApart(ways, gs, groups[..], n);
        if hit {
          if first {
            r1 := q;
            FirstPart(m, addr, bytes, buf[..]);
          } else if second {
            r2 := q;
            SecondPart(m, addr, bytes, buf[..]);
          }
        } else {
          r1, r2 := Miss(m, addr, r1, r2);
          missed := true;
        }
      }
      if !missed {
        idles := idles + 1;
      }
      assert buf[..] == Window(m, addr, LINE);
    }

    /** `icache_read`: the instruction buffer if the request lies inside it, else a read of
        256 bytes into it. One rendezvous either way. */
    method IcacheRead(m: Memory, addr: nat, len: nat) returns (bytes: seq<byte>)
      requires Agrees(m) && BufferOk(m) && len <= LINE && addr + 2 * LINE <= TOP
      modifies this, groups, buf
      ensures Agrees(m) && BufferOk(m) && idles == old(idles) + 1
      ensures bytes == AnswerTo(m, old(Buf()), addr, len)
      ensures Buf() == if Hit(old(Buf()), addr, len) then old(Buf()) else Buffer(addr, false)
    {
      hide Coherent;
      if addr >= bufAddr && addr + len < bufAddr + LINE {
        bytes := buf[addr - bufAddr..addr - bufAddr + len];
        idles := idles + 1;
      } else {
        L1Read(m, addr);
        bytes := buf[..len];
        bufAddr, emptied := addr, false;
      }
    }
  }

  /** Every run of reads and flushes, answered through the instruction buffer. */
  method Serve(c: Cache, m: Memory, accesses: seq<Access>) returns (answers: seq<seq<byte>>)
    requires c.Agrees(m) && c.BufferOk(m)
    modifies c, c.groups, c.buf
    ensures c.Agrees(m) && c.BufferOk(m) && c.idles == old(c.idles) + Reads(accesses)
    ensures answers == Answers(m, old(c.Buf()), accesses)
  {
    ghost var b := c.Buf();
    answers := [];
    for k := 0 to |accesses|
      invariant c.Agrees(m) && c.BufferOk(m) && c.idles == old(c.idles) + Reads(accesses[..k])
      invariant c.Buf() == BufferAfter(b, accesses[..k])
      invariant answers == Answers(m, b, accesses[..k])
    {
      hide Coherent, AnswerTo;
      assert accesses[..k + 1][..k] == accesses[..k];
      match accesses[k] {
        case Read(addr, len) =>
          var bytes := c.IcacheRead(m, addr, len);
          answers := answers + [bytes];
        case Flush =>
          c.IcacheWrite(m);
      }
    }
    assert accesses[..|accesses|] == accesses;
  }

  /** t is s with len bytes of the line, from position `from`, stored at dst. */
  predicate CopiedTo(s: seq<byte>, t: seq<byte>, dst: nat, line: seq<byte>, from: nat, len: nat) {
    && |s| == |t| && dst + len <= |s| && from + len <= |line|
    && forall k | 0 <= k < |s| :: t[k] == Picked(s, dst, line, from, len, k)
  }

  function Picked(s: seq<byte>, dst: nat, line: seq<byte>, from: nat, len: nat, k: nat): byte
    requires k < |s| && from + len <= |line|
  {
    if dst <= k < dst + len then line[k - dst + from] else s[k]
  }

  /** Only age counts of group g differ. */
  predicate Aged(gs: seq<seq<Way>>, hs: seq<seq<Way>>, g: nat) {
    |gs| == |hs| && g < |gs| && hs == gs[g := hs[g]] && SameContents(gs[g], hs[g])
  }

  lemma AgedSelf(gs: seq<seq<Way>>, g: nat)
    requires g < |gs|
    ensures Aged(gs, gs, g)
  {
    assert gs == gs[g := gs[g]];
  }

  lemma AgedAgain(gs: seq<seq<Way>>, hs: seq<seq<Way>>, js: seq<seq<Way>>, g: nat)
    requires Aged(gs, hs, g) && Aged(hs, js, g)
    ensures Aged(gs, js, g)
  {}

  lemma GroupAgrees(m: Memory, w: Config, gs: seq<seq<Way>>, g: nat)
    requires Coherent(m, w, gs) && g < |gs|
    ensures GroupOk(m, w, g, gs[g]) && |gs[g]| == w
  {}

  lemma AgedWay(m: Memory, w: Config, gs: seq<seq<Way>>, hs: seq<seq<Way>>, g: nat, b: nat, n: nat)
    requires |gs| == Groups(w) && g == GroupOf(w, n) && GroupOk(m, w, g, gs[g]) && Aged(gs, hs, g) && b < w
    ensures Match(w, hs[g][b], n) == Match(w, gs[g][b], n)
    ensures |hs[g][b].insn| == LINE && (Match(w, gs[g][b], n) ==> hs[g][b].insn == MemLine(m, n))
  {
    hide MemLine;
    assert WayOk(m, w, g, gs[g][b]);
    FieldsIdentify(w, n, gs[g][b]);
  }

  lemma WayBytes(m: Memory, w: Config, gs: seq<seq<Way>>, g: nat, b: nat)
    requires Coherent(m, w, gs) && g < |gs| && b < w
    ensures b < |gs[g]| && |gs[g][b].insn| == LINE
  {
    assert WayOk(m, w, g, gs[g][b]);
  }

  lemma StoredOk(m: Memory, w: Config, gs: seq<seq<Way>>, n: nat, b: nat)
    requires Coherent(m, w, gs) && !Has(w, gs, n) && b < w
    ensures
      var z := Way(true, TagOf(n), FieldOf(w, n), 0, MemLine(m, n));
      var g := GroupOf(w, n);
      |gs[g]| == w && Coherent(m, w, gs[g := gs[g][b := z]]) && In(w, gs[g := gs[g][b := z]], n, b)
  {
    hide MemLine, Match;
    FillOk(m, w, n, gs[GroupOf(w, n)], b);
  }

  lemma AgedAgrees(m: Memory, w: Config, gs: seq<seq<Way>>, hs: seq<seq<Way>>, g: nat)
    requires Coherent(m, w, gs) && Aged(gs, hs, g)
    ensures Coherent(m, w, hs)
    ensures forall n: nat :: Has(w, hs, n) == Has(w, gs, n)
    ensures forall n: nat, b: nat :: In(w, hs, n, b) == In(w, gs, n, b)
  {
    hide MemLine, Match, GroupOk;
    GroupAgrees(m, w, gs, g);
    AgesDoNotMatter(m, w, g, gs[g], hs[g]);
    forall n: nat, b: nat ensures In(w, hs, n, b) == In(w, gs, n, b) {
      if GroupOf(w, n) == g && b < w { SameMatch(w, gs[g][b], hs[g][b], n); }
    }
  }

  lemma Halves(m: Memory, n: nat)
    ensures Window(m, LINE * n, 2 * LINE)[..LINE] == MemLine(m, n)
    ensures Window(m, LINE * n, 2 * LINE)[LINE..] == MemLine(m, n + 1)
  {}

  lemma HoldsAt(w: Config, gs: seq<seq<Way>>, n: nat, b: nat)
    requires |gs| == Groups(w)
    ensures In(w, gs, n, b) ==> Has(w, gs, n)
  {}

  lemma HeldBytes(m: Memory, w: Config, gs: seq<seq<Way>>, n: nat, b: nat)
    requires Coherent(m, w, gs) && In(w, gs, n, b) && b < w
    ensures gs[GroupOf(w, n)][b].insn == MemLine(m, n)
  {
    HitHolds(m, w, gs[GroupOf(w, n)], n, b);
  }

  lemma KeptBelow(s: seq<byte>, t: seq<byte>, dst: nat, line: seq<byte>, from: nat, len: nat)
    requires CopiedTo(s, t, dst, line, from, len)
    ensures |s| == |t| && forall k | 0 <= k < dst && k < |s| :: t[k] == s[k]
  {}

  /** The part of the window in its first line. */
  lemma FirstPart(m: Memory, addr: nat, s: seq<byte>, t: seq<byte>)
    requires |s| == LINE && CopiedTo(s, t, 0, MemLine(m, addr / LINE), addr % LINE, LINE - addr % LINE)
    ensures forall k | 0 <= k < LINE - addr % LINE :: t[k] == m(addr + k)
  {
    forall k | 0 <= k < LINE - addr % LINE ensures t[k] == m(addr + k) {
      assert t[k] == MemLine(m, addr / LINE)[k + addr % LINE];
      assert LINE * (addr / LINE) + (k + addr % LINE) == addr + k;
    }
  }

  /** The part in the second line; the first part stays. */
  lemma SecondPart(m: Memory, addr: nat, s: seq<byte>, t: seq<byte>)
    requires |s| == LINE && CopiedTo(s, t, LINE - addr % LINE, MemLine(m, addr / LINE + 1), 0, addr % LINE)
    ensures forall k | LINE - addr % LINE <= k < LINE :: t[k] == m(addr + k)
    ensures forall k | 0 <= k < LINE - addr % LINE :: t[k] == s[k]
  {
    forall k | LINE - addr % LINE <= k < LINE ensures t[k] == m(addr + k) {
      var j := k - (LINE - addr % LINE);
      assert t[k] == MemLine(m, addr / LINE + 1)[j];
      assert LINE * (addr / LINE + 1) + j == addr + k;
    }
  }
}
