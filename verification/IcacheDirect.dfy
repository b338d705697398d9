/** Instruction memory as the caches see it: a byte per address, read in 256-byte lines. */
module InstructionMemory {

  type byte = bv8

  /** What the memory behind the caches holds; the shared-memory request returns it. */
  type Memory = nat -> byte

  const LINE: nat := 256

  const TOP: nat := 0x1_0000_0000

  function Window(m: Memory, a: nat, len: nat): (s: seq<byte>)
    ensures |s| == len && forall i | 0 <= i < len :: s[i] == m(a + i)
  {
    seq(len, i requires 0 <= i < len => m(a + i))
  }

  /** Line n of memory. */
  function MemLine(m: Memory, n: nat): (s: seq<byte>)
    ensures |s| == LINE
  {
    Window(m, LINE * n, LINE)
  }

  /** Byte i of a window at a lies in the line of a or in the next one. */
  lemma LineOf(a: nat, i: nat)
    requires i < LINE
    ensures (a + i) / LINE == if i < LINE - a % LINE then a / LINE else a / LINE + 1
  {}

  lemma LineByte(m: Memory, a: nat)
    ensures MemLine(m, a / LINE)[a % LINE] == m(a)
  {
    assert LINE * (a / LINE) + a % LINE == a;
  }

  /** A run of reads (address and length) and flushes. */
  datatype Request = Read(addr: nat, len: nat) | Flush

  type Access = r: Request | r.Read? ==> r.len <= LINE && r.addr + 2 * LINE <= TOP witness Flush

  function Reads(accesses: seq<Access>): nat {
    if accesses == [] then 0
    else Reads(accesses[..|accesses| - 1]) + if accesses[|accesses| - 1].Read? then 1 else 0
  }

  /** The address of the instruction buffer, and whether it holds the zeroes of a flush. */
  datatype Buffer = Buffer(addr: nat, emptied: bool)

  /** The request lies inside the instruction buffer. */
  predicate Hit(b: Buffer, addr: nat, len: nat) { b.addr <= addr && addr + len < b.addr + LINE }

  /** The bytes of the request and the one behind them lie in the buffer. */
  lemma HitIs(b: Buffer, addr: nat, len: nat)
    ensures Hit(b, addr, len) <==> forall i | addr <= i <= addr + len :: InBuffer(b, i)
  {
    if forall i | addr <= i <= addr + len :: InBuffer(b, i) { assert InBuffer(b, addr) && InBuffer(b, addr + len); }
  }

  predicate InBuffer(b: Buffer, i: int) { b.addr <= i < b.addr + LINE }

  function BufferAfter(b: Buffer, accesses: seq<Access>): Buffer {
    if accesses == [] then b
    else
      var c := BufferAfter(b, accesses[..|accesses| - 1]);
      match accesses[|accesses| - 1]
      case Flush => Buffer(0, true)
      case Read(addr, len) => if Hit(c, addr, len) then c else Buffer(addr, false)
  }

  /** The answer to a read: zeroes from an emptied buffer, else the bytes of memory. */
  function AnswerTo(m: Memory, b: Buffer, addr: nat, len: nat): seq<byte> {
    if b.emptied && Hit(b, addr, len) then seq(len, _ => 0) else Window(m, addr, len)
  }

  function Answers(m: Memory, b: Buffer, accesses: seq<Access>): seq<seq<byte>> {
    if accesses == [] then []
    else
      var front := accesses[..|accesses| - 1];
      Answers(m, b, front) +
      match accesses[|accesses| - 1]
      case Flush => []
      case Read(addr, len) => [AnswerTo(m, BufferAfter(b, front), addr, len)]
  }

  /** The memory windows that the reads ask for. */
  function Windows(m: Memory, accesses: seq<Access>): seq<seq<byte>> {
    if accesses == [] then []
    else
      var a := accesses[|accesses| - 1];
      Windows(m, accesses[..|accesses| - 1]) + if a.Read? then [Window(m, a.addr, a.len)] else []
  }

  lemma {:induction false} EmptiedAtZero(b: Buffer, accesses: seq<Access>)
    requires b.emptied ==> b.addr == 0
    ensures BufferAfter(b, accesses).emptied ==> BufferAfter(b, accesses).addr == 0
  {
    if accesses != [] { EmptiedAtZero(b, accesses[..|accesses| - 1]); }
  }

  /** Access k does not hit an emptied buffer, or the window that it asks for is zero. */
  predicate AnsweredRight(m: Memory, b: Buffer, accesses: seq<Access>, k: nat)
    requires k < |accesses|
  {
    var (c, a) := (BufferAfter(b, accesses[..k]), accesses[k]);
    a.Read? && c.emptied && Hit(c, a.addr, a.len) ==> Window(m, a.addr, a.len) == seq(a.len, _ => 0)
  }

  lemma {:induction false} AsManyWindows(m: Memory, b: Buffer, accesses: seq<Access>)
    ensures |Answers(m, b, accesses)| == |Windows(m, accesses)|
  {
    if accesses != [] { AsManyWindows(m, b, accesses[..|accesses| - 1]); }
  }

  lemma SameEnds<T>(a: seq<T>, b: seq<T>, x: seq<T>, y: seq<T>)
    requires |a| == |b|
    ensures a + x == b + y <==> a == b && x == y
  {
    if a + x == b + y {
      assert a == (a + x)[..|a|] == (b + y)[..|a|] == b;
      assert x == (a + x)[|a|..] == (b + y)[|a|..] == y;
    }
  }

  /** The answers of a run are memory's bytes if and only if every read that hits an emptied
      buffer asks for a window of zeroes. */
  lemma {:induction false} AnswersAreMemory(m: Memory, b: Buffer, accesses: seq<Access>)
    ensures Answers(m, b, accesses) == Windows(m, accesses) <==>
            forall k | 0 <= k < |accesses| :: AnsweredRight(m, b, accesses, k)
  {
    hide Window, Hit;
    if accesses != [] {
      var n := |accesses| - 1;
      var (front, a) := (accesses[..n], accesses[n]);
      AnswersAreMemory(m, b, front);
      AsManyWindows(m, b, front);
      LastAnswer(m, b, accesses);
      SameEnds(Answers(m, b, front), Windows(m, front),
               if a.Read? then [AnswerTo(m, BufferAfter(b, front), a.addr, a.len)] else [],
               if a.Read? then [Window(m, a.addr, a.len)] else []);
      forall k | 0 <= k < n ensures AnsweredRight(m, b, front, k) == AnsweredRight(m, b, accesses, k) {
        assert front[..k] == accesses[..k];
      }
    }
  }

  lemma LastAnswer(m: Memory, b: Buffer, accesses: seq<Access>)
    requires accesses != []
    ensures
      var (n, a) := (|accesses| - 1, accesses[|accesses| - 1]);
      AnsweredRight(m, b, accesses, n) <==>
        (a.Read? ==> AnswerTo(m, BufferAfter(b, accesses[..n]), a.addr, a.len) == Window(m, a.addr, a.len))
  {}

  /** Reads that end at address 256 or above never hit an emptied buffer. */
  lemma HighReadsAreMemory(m: Memory, b: Buffer, accesses: seq<Access>)
    requires b.emptied ==> b.addr == 0
    requires forall k | 0 <= k < |accesses| && accesses[k].Read? :: accesses[k].addr + accesses[k].len >= LINE
    ensures Answers(m, b, accesses) == Windows(m, accesses)
  {
    hide Answers, Windows;
    forall k | 0 <= k < |accesses| ensures AnsweredRight(m, b, accesses, k) { EmptiedAtZero(b, accesses[..k]); }
    AnswersAreMemory(m, b, accesses);
  }

  /** A flush, and then a read at address 0: zeroes, whatever memory holds there. */
  lemma FlushHidesMemory(m: Memory, b: Buffer)
    ensures Answers(m, b, [Flush, Read(0, 72)]) == [seq(72, _ => 0)]
    ensures m(0) != 0 ==> Answers(m, b, [Flush, Read(0, 72)]) != Windows(m, [Flush, Read(0, 72)])
  {
    var accesses: seq<Access> := [Flush, Read(0, 72)];
    assert accesses[..1] == [Flush] && [Flush][..0] == [];
    assert BufferAfter(b, accesses[..1]) == Buffer(0, true);
    assert Answers(m, b, accesses[..1]) == [];
    if m(0) != 0 {
      assert Windows(m, accesses[..1]) == [];
      assert Windows(m, accesses)[0][0] == m(0);
    }
  }
}

/** The direct-mapped instruction cache and the instruction buffer in front of it
    (sc-pac-if-direct.cpp). */
module IcacheDirect {
  import opened InstructionMemory

  const LINES: nat := 128

  /** The flags and lines of the cache. */
  datatype RawTables = Tables(valid: seq<bool>, tag: seq<nat>, insn: seq<seq<byte>>)

  type Tables = t: RawTables | |t.valid| == |t.tag| == |t.insn| == LINES
    witness Tables(seq(LINES, _ => false), seq(LINES, _ => 0), seq(LINES, _ => []))

  /** Slot k holds the memory line that its tag names. */
  predicate SlotOk(m: Memory, t: Tables, k: nat)
    requires k < LINES
  {
    t.valid[k] ==> t.insn[k] == MemLine(m, LINES * t.tag[k] + k)
  }

  /** The cache agrees with memory. */
  predicate Coherent(m: Memory, t: Tables) { forall k: nat | k < LINES :: SlotOk(m, t, k) }

  /** The flags claim line n. */
  predicate Has(t: Tables, n: nat) { t.valid[n % LINES] && t.tag[n % LINES] == n / LINES }

  predicate Serves(m: Memory, t: Tables, n: nat) { Has(t, n) && t.insn[n % LINES] == MemLine(m, n) }

  /** Both lines of a request are stored; the first under the given tag. */
  function Refilled(m: Memory, t: Tables, n: nat, tag: nat): Tables {
    Tables(t.valid[n % LINES := true][(n + 1) % LINES := true],
           t.tag[n % LINES := tag][(n + 1) % LINES := (n + 1) / LINES],
           t.insn[n % LINES := MemLine(m, n)][(n + 1) % LINES := MemLine(m, n + 1)])
  }

  lemma LineSlots(n: nat)
    ensures (n + 1) % LINES != n % LINES
    ensures (n + 1) / LINES == if n % LINES == LINES - 1 then n / LINES + 1 else n / LINES
    ensures n == LINES * (n / LINES) + n % LINES
    ensures LINES * (n / LINES + 1) + n % LINES == n + LINES
  {}

  lemma HitServes(m: Memory, t: Tables, n: nat)
    requires Coherent(m, t) && Has(t, n)
    ensures Serves(m, t, n)
  {
    LineSlots(n);
    assert SlotOk(m, t, n % LINES);
  }

  lemma RefillServes(m: Memory, t: Tables, n: nat, tag: nat)
    ensures Serves(m, Refilled(m, t, n, tag), n + 1)
    ensures tag == n / LINES ==> Serves(m, Refilled(m, t, n, tag), n)
  {
    LineSlots(n);
  }

  /** Storing line n under the tag of line n or n + 1 keeps the cache in agreement exactly
      when the tags agree or the lines that they name do. */
  lemma RefillCoherent(m: Memory, t: Tables, n: nat, late: bool)
    requires Coherent(m, t)
    ensures Coherent(m, Refilled(m, t, n, if late then (n + 1) / LINES else n / LINES)) <==>
            !late || n % LINES != LINES - 1 || MemLine(m, n) == MemLine(m, n + LINES)
  {
    hide MemLine;
    LineSlots(n);
    LineSlots(n + 1);
    var u := Refilled(m, t, n, if late then (n + 1) / LINES else n / LINES);
    forall k: nat | k < LINES && k != n % LINES ensures SlotOk(m, u, k) {
      assert SlotOk(m, t, k);
    }
    assert SlotOk(m, u, n % LINES) <==> !late || n % LINES != LINES - 1 || MemLine(m, n) == MemLine(m, n + LINES);
  }

  /** During a read: the line of the next byte, if claimed, is the line of memory, and once
      there has been a miss it is claimed. */
  lemma ServedAt(m: Memory, t: Tables, n: nat, late: bool, missed: bool, first: bool)
    requires Coherent(m, t) && (late ==> missed && !first)
    ensures
      var u := if missed then Refilled(m, t, n, if late then (n + 1) / LINES else n / LINES) else t;
      var k := if first then n else n + 1;
      (Has(u, k) ==> Serves(m, u, k)) && (missed ==> Has(u, k))
  {
    hide Refilled, Coherent;
    RefillServes(m, t, n, if late then (n + 1) / LINES else n / LINES);
    if !missed && Has(t, n) { HitServes(m, t, n); }
    if !missed && Has(t, n + 1) { HitServes(m, t, n + 1); }
  }

  lemma ServesLine(m: Memory, t: Tables, n: nat)
    ensures Serves(m, t, n) ==> |t.insn[n % LINES]| == LINE
  {}

  /** A read of the window at a misses first in its second line. */
  predicate MissesLate(t: Tables, a: nat) { a % LINE != 0 && Has(t, a / LINE) && !Has(t, a / LINE + 1) }

  /** The tables after a flush. */
  function Flushed(t: Tables): Tables { Tables(seq(LINES, _ => false), seq(LINES, _ => 0), t.insn) }

  /** The tables after a read of the window at a. */
  function AfterRead(m: Memory, t: Tables, a: nat): Tables {
    var n := a / LINE;
    if Has(t, n) && (a % LINE == 0 || Has(t, n + 1)) then t
    else Refilled(m, t, n, if MissesLate(t, a) then (n + 1) / LINES else n / LINES)
  }

  /** The read does not store a line under a tag that names a different line. */
  predicate HarmlessRead(m: Memory, t: Tables, b: Buffer, a: Access) {
    a.Read? && !Hit(b, a.addr, a.len) ==>
      var n := a.addr / LINE;
      !(MissesLate(t, a.addr) && n % LINES == LINES - 1) || MemLine(m, n) == MemLine(m, n + LINES)
  }

  class Cache {
    const valid: array<bool>
    const tag: array<nat>
    const insn: array<seq<byte>>
    const buf: array<byte>        // core_insnbuf0
    var bufAddr: nat
    var idles: nat                // rendezvous with the memory side
    ghost var emptied: bool       // the buffer holds the zeroes of a flush

    ghost predicate Valid()
      reads this
    {
      && valid.Length == tag.Length == insn.Length == LINES
      && buf.Length == LINE
    }

    ghost function View(): Tables
      reads this, valid, tag, insn
      requires Valid()
    {
      Tables(valid[..], tag[..], insn[..])
    }

    ghost function Buf(): Buffer
      reads this
    {
      Buffer(bufAddr, emptied)
    }

    /** The instruction buffer holds the window at its address, or the zeroes of a flush. */
    ghost predicate BufferOk(m: Memory)
      reads this, buf
      requires Valid()
    {
      if emptied then bufAddr == 0 && forall i | 0 <= i < LINE :: buf[i] == 0
      else buf[..] == Window(m, bufAddr, LINE) && bufAddr + 2 * LINE <= TOP
    }

    constructor ()
      ensures Valid() && emptied && idles == 0 && forall k | 0 <= k < LINES :: !View().valid[k]
      ensures forall m: Memory :: Coherent(m, View()) && BufferOk(m)
      ensures fresh(valid) && fresh(tag) && fresh(insn) && fresh(buf)
    {
      valid := new bool[LINES](_ => false);
      tag := new nat[LINES](_ => 0);
      insn := new seq<byte>[LINES](_ => []);
      buf := new byte[LINE](_ => 0);
      bufAddr, idles, emptied := 0, 0, true;
    }

    /** `icache_write`: the flush. Afterwards the cache agrees with any memory. */
    method IcacheWrite()
      requires Valid()
      modifies this, valid, tag, buf
      ensures Valid() && Buf() == Buffer(0, true) && idles == old(idles) && View() == Flushed(old(View()))
      ensures forall k | 0 <= k < LINES :: !valid[k] && tag[k] == 0
      ensures forall m: Memory :: Coherent(m, View()) && BufferOk(m)
    {
      forall i | 0 <= i < LINE { buf[i] := 0; }
      bufAddr, emptied := 0, true;
      for i := 0 to LINES
        modifies tag, valid
        invariant forall k | 0 <= k < i :: !valid[k] && tag[k] == 0
      {
        tag[i] := 0;
        valid[i] := false;
      }
      assert valid[..] == seq(LINES, _ => false) && tag[..] == seq(LINES, _ => 0);
    }

    /** A miss: two lines arrive from memory and both slots are filled. */
    method Refill(m: Memory, n: nat, t: nat)
      requires Valid()
      modifies this`idles, valid, tag, insn
      ensures Valid() && idles == old(idles) + 1
      ensures View() == Refilled(m, old(View()), n, t)
    {
      var request := Window(m, LINE * n, 2 * LINE);
      idles := idles + 1;
      assert request[..LINE] == MemLine(m, n);
      assert request[LINE..] == MemLine(m, n + 1);
      hide MemLine;
      valid[n % LINES] := true;
      tag[n % LINES] := t;
      insn[n % LINES] := request[..LINE];
      valid[(n + 1) % LINES] := true;
      tag[(n + 1) % LINES] := (n + 1) / LINES;
      insn[(n + 1) % LINES] := request[LINE..];
    }

    /** One byte of the read: refill if its line is absent. The first line is then tagged
        with the tag of the byte that missed. The byte comes from the slot as it is. */
    method ReadByte(m: Memory, addr: nat, i: nat) returns (b: byte, miss: bool)
      requires Valid() && i < LINE
      requires var n := (addr + i) / LINE; Has(View(), n) ==> |View().insn[n % LINES]| == LINE
      modifies this`idles, valid, tag, insn
      ensures Valid() && idles == old(idles) + if miss then 1 else 0
      ensures
        var n := (addr + i) / LINE;
        && miss == !old(Has(View(), n))
        && View() == (if miss then Refilled(m, old(View()), addr / LINE, n / LINES) else old(View()))
        && |View().insn[n % LINES]| == LINE && b == View().insn[n % LINES][(addr + i) % LINE]
        && (Serves(m, View(), n) ==> b == m(addr + i))
        && (miss ==> Serves(m, View(), n))
    {
      hide Refilled, MemLine;
      var n := (addr + i) / LINE;
      LineOf(addr, i);
      LineByte(m, addr + i);
      miss := !valid[n % LINES] || tag[n % LINES] != n / LINES;
      ghost var t := View();
      if miss {
        Refill(m, addr / LINE, n / LINES);
        RefillServes(m, t, addr / LINE, n / LINES);
      }
      b := insn[n % LINES][(addr + i) % LINE];
    }

    /** `l1_icache_read` with a length of 256, into the instruction buffer. The bytes are
        always those of memory and there is exactly one rendezvous; the cache still
        agrees with memory exactly when no line was stored under a wrong tag, or the
        line that the wrong tag names happens to be equal. */
    method L1Read(m: Memory, addr: nat)
      requires Valid() && Coherent(m, View()) && addr + 2 * LINE <= TOP
      modifies this`idles, valid, tag, insn, buf
      ensures Valid() && idles == old(idles) + 1
      ensures buf[..] == Window(m, addr, LINE)
      ensures View() == AfterRead(m, old(View()), addr)
      ensures
        var n := addr / LINE;
        Coherent(m, View()) <==>
          !(old(MissesLate(View(), addr)) && n % LINES == LINES - 1) || MemLine(m, n) == MemLine(m, n + LINES)
    {
      hide Refilled, MemLine, Has, Coherent, Serves;
      ghost var n, first, t0 := addr / LINE, LINE - addr % LINE, View();
      ghost var late := false;
      var missed := false;
      for i := 0 to LINE
        invariant Valid() && idles == old(idles) + if missed then 1 else 0
        invariant forall j | 0 <= j < i :: buf[j] == m(addr + j)
        invariant View() == if missed then Refilled(m, t0, n, if late then (n + 1) / LINES else n / LINES) else t0
        invariant i > 0 && !missed ==> Has(t0, n)
        invariant i > first && !missed ==> Has(t0, n + 1)
        invariant late ==> missed && i > first && MissesLate(t0, addr)
        invariant missed && !late ==> !Has(t0, n) && i > 0
      {
        LineOf(addr, i);
        ServedAt(m, t0, n, late, missed, i < first);
        ServesLine(m, View(), (addr + i) / LINE);
        var b, miss := ReadByte(m, addr, i);
        late := late || (miss && i >= first);
        missed := missed || miss;
        buf[i] := b;
      }
      if !missed {
        idles := idles + 1;
      }
      RefillCoherent(m, t0, n, late);
      assert buf[..] == Window(m, addr, LINE);
    }

    /** `icache_read`: the instruction buffer if the request lies inside it, else a read of
        256 bytes into it. One rendezvous either way. The bytes are those of memory, but
        for a buffer emptied by a flush, whose zeroes answer a request below address 256. */
    method IcacheRead(m: Memory, addr: nat, len: nat) returns (bytes: seq<byte>)
      requires Valid() && Coherent(m, View()) && BufferOk(m) && len <= LINE && addr + 2 * LINE <= TOP
      modifies this, valid, tag, insn, buf
      ensures Valid() && BufferOk(m) && idles == old(idles) + 1
      ensures bytes == AnswerTo(m, old(Buf()), addr, len)
      ensures Buf() == if Hit(old(Buf()), addr, len) then old(Buf()) else Buffer(addr, false)
      ensures View() == if Hit(old(Buf()), addr, len) then old(View()) else AfterRead(m, old(View()), addr)
      ensures Coherent(m, View()) <==> HarmlessRead(m, old(View()), old(Buf()), Read(addr, len))
    {
      hide Coherent, MemLine, MissesLate, AfterRead;
      if addr >= bufAddr && addr + len < bufAddr + LINE {
        bytes := buf[addr - bufAddr..addr - bufAddr + len];
        idles := idles + 1;
      } else {
        L1Read(m, addr);
        bytes := buf[..len];
        bufAddr, emptied := addr, false;
      }
    }
  }

  /** What a window over a 32 KB boundary can do: a read of line 126, then one that starts in
      line 127 and ends in line 128, leave line 127 under the tag of line 255, and the next
      read of line 255 returns the bytes of line 127. */
  method ReadStale(m: Memory) returns (b: byte)
    ensures b == m(LINE * 127)    // the byte at LINE * 255 was asked for
  {
    hide Refilled, MemLine, Coherent;
    var c := new Cache();
    ghost var t0 := c.View();
    c.L1Read(m, LINE * 126);
    StaleTables(m, t0);
    c.L1Read(m, LINE * 127 + 1);
    var miss;
    b, miss := c.ReadByte(m, LINE * 255, 0);
    LineByte(m, LINE * 127);
  }

  lemma StaleTables(m: Memory, t0: Tables)
    requires forall k | 0 <= k < LINES :: !t0.valid[k]
    ensures
      var t1 := AfterRead(m, t0, LINE * 126);
      var t2 := AfterRead(m, t1, LINE * 127 + 1);
      && !MissesLate(t0, LINE * 126) && MissesLate(t1, LINE * 127 + 1)
      && Has(t2, 255) && t2.insn[255 % LINES] == MemLine(m, 127)
  {}

  function TablesAfter(m: Memory, t: Tables, b: Buffer, accesses: seq<Access>): Tables {
    if accesses == [] then t
    else
      var front := accesses[..|accesses| - 1];
      var u := TablesAfter(m, t, b, front);
      match accesses[|accesses| - 1]
      case Flush => Flushed(u)
      case Read(addr, len) => if Hit(BufferAfter(b, front), addr, len) then u else AfterRead(m, u, addr)
  }

  /** No read of the run stores a line under a tag that names a different line. */
  predicate HarmlessRun(m: Memory, t: Tables, b: Buffer, accesses: seq<Access>) {
    forall k | 0 <= k < |accesses| ::
      HarmlessRead(m, TablesAfter(m, t, b, accesses[..k]), BufferAfter(b, accesses[..k]), accesses[k])
  }

  /** What a caller can check: no read that starts in the last line of a 32 KB block goes on
      into the next block. */
  lemma HarmlessReads(m: Memory, t: Tables, b: Buffer, accesses: seq<Access>)
    requires forall k | 0 <= k < |accesses| && accesses[k].Read? ::
      accesses[k].addr % LINE == 0 || accesses[k].addr % (LINE * LINES) < LINE * (LINES - 1)
    ensures HarmlessRun(m, t, b, accesses)
  {
    hide TablesAfter, BufferAfter, Hit, MemLine, Has;
    forall k | 0 <= k < |accesses|
      ensures HarmlessRead(m, TablesAfter(m, t, b, accesses[..k]), BufferAfter(b, accesses[..k]), accesses[k])
    {
      if accesses[k].Read? { LineInBlock(accesses[k].addr); }
    }
  }

  lemma LineInBlock(a: nat)
    ensures (a / LINE) % LINES == LINES - 1 <==> a % (LINE * LINES) >= LINE * (LINES - 1)
  {
    var (n, o) := (a / LINE, a % LINE);
    var (q, k) := (n / LINES, n % LINES);
    InBlock(a, q, LINE * k + o);
  }

  lemma InBlock(a: nat, q: nat, o: nat)
    requires a == LINE * LINES * q + o && o < LINE * LINES
    ensures a % (LINE * LINES) == o
  {}

  /** A run of reads and flushes, answered through the instruction buffer. */
  method Serve(c: Cache, m: Memory, accesses: seq<Access>) returns (answers: seq<seq<byte>>)
    requires c.Valid() && Coherent(m, c.View()) && c.BufferOk(m)
    requires HarmlessRun(m, c.View(), c.Buf(), accesses)
    modifies c, c.valid, c.tag, c.insn, c.buf
    ensures c.Valid() && Coherent(m, c.View()) && c.BufferOk(m)
    ensures c.idles == old(c.idles) + Reads(accesses)
    ensures answers == Answers(m, old(c.Buf()), accesses)
  {
    ghost var t, b := c.View(), c.Buf();
    answers := [];
    for k := 0 to |accesses|
      invariant c.Valid() && Coherent(m, c.View()) && c.BufferOk(m)
      invariant c.View() == TablesAfter(m, t, b, accesses[..k]) && c.Buf() == BufferAfter(b, accesses[..k])
      invariant c.idles == old(c.idles) + Reads(accesses[..k])
      invariant answers == Answers(m, b, accesses[..k])
    {
      hide Coherent, AfterRead, HarmlessRead, AnswerTo, Flushed;
      assert accesses[..k + 1][..k] == accesses[..k];
      assert HarmlessRead(m, c.View(), c.Buf(), accesses[k]);
      match accesses[k] {
        case Read(addr, len) =>
          var bytes := c.IcacheRead(m, addr, len);
          answers := answers + [bytes];
        case Flush =>
          c.IcacheWrite();
      }
    }
    assert accesses[..|accesses|] == accesses;
  }
}
