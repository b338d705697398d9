/** Whole debug sessions: instruction fetch and the register files of one core together, under
    every sequence of resumes, cycles, stops and single steps (pac-dsp.cpp). */
module Session {
  import opened Registers
  import opened WriteLog
  import opened Pipeline
  import opened Drain
  import opened Stages
  import opened Slots
  import opened PreciseStop
  import Fetch

  /** The writes of the packet at an address, when it is the k-th packet executed. */
  type Code = (Fetch.Addr, nat) -> Packet

  /** The fetch unit, the logs and files, and what has entered EX1 since the core was last
      started: in each cycle a packet or a bubble. */
  datatype Machine = Machine(fetch: Fetch.State, ring: Ring, entered: seq<Option<Packet>>)

  /** A bubble writes nothing. */
  function Filled(ent: seq<Option<Packet>>): seq<Packet> {
    seq(|ent|, i requires 0 <= i < |ent| => if ent[i].Some? then ent[i].value else NOP)
  }

  /** What enters EX1 in the next cycle. The packet in EX2 is executed first. */
  function Enters(code: Code, s: Fetch.State): Option<Packet> {
    match Fetch.Slot(s, 3)
    case Fetched(pc) => Some(code(pc, if Fetch.Slot(s, 2).Fetched? then |s.done| + 1 else |s.done|))
    case _ => None
  }

  /** The start of a run or a step: `update_fetch_pc` on the register files. */
  function Resumed(q: Ring): Ring { q.(ro := SyncCpp(q.glob), glob := SyncCpp(q.glob)) }

  /** An address in a register: four bytes of two digits. */
  function Saved(a: Fetch.Addr): Word {
    Join(Byte(a % 256), Byte(a / 256 % 256), Byte(a / 65536 % 256), Byte(a / 65536 / 256))
  }

  function Byte(a: nat): Word
    requires a < 256
  {
    Pair(Digit(a / 16), Digit(a % 16))
  }

  /** A hexadecimal digit, and two of them. */
  function Digit(a: nat): Word
    requires a < 16
  {
    (a as bv4) as Word
  }

  function Pair(a: Word, b: Word): Word { (a << 4) | b }

  function Join(a: Word, b: Word, c: Word, d: Word): Word { a | (b << 8) | (c << 16) | (d << 24) }

  /** A register read as `unsigned int`. */
  function AddrIn(w: Word): Fetch.Addr {
    var (w1, w2) := (Lower(w), Lower(Lower(w)));
    ByteIn(w) + 256 * ByteIn(w1) + 65536 * (ByteIn(w2) + 256 * ByteIn(Lower(w2)))
  }

  function Lower(w: Word): Word { w >> 8 }

  function ByteIn(w: Word): (a: nat)
    ensures a < 256
  {
    16 * DigitIn(w >> 4) + DigitIn(w)
  }

  function DigitIn(w: Word): (a: nat)
    ensures a < 16
  {
    ((w & 0xF) as bv4) as nat
  }

  lemma SavedAndRead(a: Fetch.Addr)
    ensures AddrIn(Saved(a)) == a
  {
    hide Byte, ByteIn, Join, Lower, LowByte;
    var (b0, b1, b2, b3) := (a % 256, a / 256 % 256, a / 65536 % 256, a / 65536 / 256);
    BytesJoin(b0, b1, b2, b3);
    Bytes(a);
  }

  lemma Bytes(a: Fetch.Addr)
    ensures a == a % 256 + 256 * (a / 256 % 256) + 65536 * (a / 65536 % 256 + 256 * (a / 65536 / 256))
  {
    assert a / 65536 == a / 256 / 256;
  }

  lemma BytesJoin(a: nat, b: nat, c: nat, d: nat)
    requires a < 256 && b < 256 && c < 256 && d < 256
    ensures
      var w := Join(Byte(a), Byte(b), Byte(c), Byte(d));
      ByteIn(w) == a && ByteIn(Lower(w)) == b && ByteIn(Lower(Lower(w))) == c && ByteIn(Lower(Lower(Lower(w)))) == d
  {
    hide Byte, ByteIn, Join, Lower, LowByte;
    ByteBound(a);
    ByteBound(b);
    ByteBound(c);
    ByteBound(d);
    Joined(Byte(a), Byte(b), Byte(c), Byte(d));
    var w := Join(Byte(a), Byte(b), Byte(c), Byte(d));
    SameByte(w, a);
    SameByte(Lower(w), b);
    SameByte(Lower(Lower(w)), c);
    SameByte(Lower(Lower(Lower(w))), d);
  }

  lemma ByteBound(a: nat)
    requires a < 256
    ensures Byte(a) < 256
  {
    hide Digit;
    DigitBound(a / 16);
    DigitBound(a % 16);
    PairBound(Digit(a / 16), Digit(a % 16));
  }

  lemma DigitBound(a: nat)
    requires a < 16
    ensures Digit(a) < 16
  {}

  lemma PairBound(a: Word, b: Word)
    requires a < 16 && b < 16
    ensures Pair(a, b) < 256
  {}

  function LowByte(w: Word): Word { w & 0xFF }

  lemma Joined(a: Word, b: Word, c: Word, d: Word)
    requires a < 256 && b < 256 && c < 256 && d < 256
    ensures
      var w := Join(a, b, c, d);
      && LowByte(w) == a && LowByte(Lower(w)) == b
      && LowByte(Lower(Lower(w))) == c && LowByte(Lower(Lower(Lower(w)))) == d
  {
    JoinedWord(a, b, c, d);
  }

  lemma JoinedWord(a: Word, b: Word, c: Word, d: Word)
    requires a < 256 && b < 256 && c < 256 && d < 256
    ensures
      var w := a | (b << 8) | (c << 16) | (d << 24);
      w & 0xFF == a && (w >> 8) & 0xFF == b && ((w >> 8) >> 8) & 0xFF == c && (((w >> 8) >> 8) >> 8) & 0xFF == d
  {}

  lemma SameByte(w: Word, a: nat)
    requires a < 256 && LowByte(w) == Byte(a)
    ensures ByteIn(w) == a
  {
    hide Digit, DigitIn, LowByte, Pair;
    DigitBound(a / 16);
    DigitBound(a % 16);
    PairOf(w, Digit(a / 16), Digit(a % 16));
    SameDigit(w >> 4, a / 16);
    SameDigit(w, a % 16);
  }

  lemma PairOf(w: Word, a: Word, b: Word)
    requires a < 16 && b < 16 && LowByte(w) == Pair(a, b)
    ensures (w >> 4) & 0xF == a && w & 0xF == b
  {}

  lemma SameDigit(w: Word, a: nat)
    requires a < 16 && w & 0xF == Digit(a)
    ensures DigitIn(w) == a
  {
    ThroughDigit(a);
  }

  lemma ThroughDigit(a: nat)
    requires a < 16
    ensures (a as bv4) as nat == a
  {}

  /** `update_fetch_pc` on the fetch unit: a PC that differs from SR9 is replaced by it, outside
      delay slots; otherwise the branch target is taken from SR10. */
  function Loaded(s: Fetch.State, g: RegFile): Fetch.State {
    if Saved(s.fetchPc) != g[SR9] then s.(fetchPc := AddrIn(g[SR9]), sm := Fetch.NORMAL)
    else s.(target := AddrIn(g[SR10]))
  }

  /** Debugger and clock act on the fetch unit and on the logs and files. */
  function Do(p: Fetch.Program, code: Code, m: Machine, e: Fetch.Event): Machine {
    var (s, t) := (m.fetch, Fetch.Act(p, m.fetch, e));
    var (pks, n) := (Filled(m.entered), |m.entered|);
    match e
    case Resume => if s.halted then Machine(t, Resumed(m.ring), []) else m
    case Run =>
      if s.halted then m
      else
        var ent := m.entered + [Enters(code, s)];
        Machine(t, Tick(m.ring, MachineCycle(m.ring, Filled(ent), n)), ent)
    case StopNow =>
      if s.halted then m
      else Machine(t, Stop(m.ring, At(pks, n - 3), At(pks, n - 2), Saved(Fetch.StopPc(s)), Saved(s.target)), [])
    case StepOne =>
      if s.halted
      then
        var pk := if s.occur then NOP else code(s.fetchPc, |s.done|);
        Machine(t, Step(m.ring, pk, Saved(t.fetchPc), Saved(t.target)), [])
      else m
  }

  /** A halted core first loads its PC and branch target from the register file. */
  function Act(p: Fetch.Program, code: Code, m: Machine, e: Fetch.Event): Machine {
    if m.fetch.halted && (e == Fetch.Resume || e == Fetch.StepOne)
    then Do(p, code, m.(fetch := Loaded(m.fetch, m.ring.glob)), e)
    else Do(p, code, m, e)
  }

  function Actions(p: Fetch.Program, code: Code, m: Machine, es: seq<Fetch.Event>): Machine {
    if es == [] then m else Act(p, code, Actions(p, code, m, es[..|es| - 1]), es[|es| - 1])
  }

  /** The first n packets of the delayed-branch machine. */
  function Trace(p: Fetch.Program, code: Code, r: Fetch.Isa, n: nat): seq<Packet> {
    seq(n, i requires 0 <= i < n => code(Fetch.IsaRun(p, r, i).pc, i))
  }

  // ---- bubbles ----

  /** The packets without the bubbles. */
  function Squeezed(ent: seq<Option<Packet>>): seq<Packet> {
    if ent == [] then []
    else Squeezed(ent[..|ent| - 1]) + (if ent[|ent| - 1].Some? then [ent[|ent| - 1].value] else [])
  }

  lemma SqueezedMore(ent: seq<Option<Packet>>, e: Option<Packet>)
    ensures Squeezed(ent + [e]) == Squeezed(ent) + (if e.Some? then [e.value] else [])
    ensures Filled(ent + [e]) == Filled(ent) + [if e.Some? then e.value else NOP]
  {
    assert (ent + [e])[..|ent|] == ent;
  }

  /** The number of packets before entry i. */
  function Rank(ent: seq<Option<Packet>>, i: nat): nat
    requires i <= |ent|
  {
    |Squeezed(ent[..i])|
  }

  lemma RankNext(ent: seq<Option<Packet>>, i: nat)
    requires i < |ent|
    ensures Rank(ent, i + 1) == Rank(ent, i) + if ent[i].Some? then 1 else 0
  {
    assert ent[..i + 1] == ent[..i] + [ent[i]];
    SqueezedMore(ent[..i], ent[i]);
  }

  lemma {:induction false} Ranked(ent: seq<Option<Packet>>, i: nat)
    requires i < |ent| && ent[i].Some?
    ensures Rank(ent, i) < |Squeezed(ent)| && Squeezed(ent)[Rank(ent, i)] == ent[i].value
  {
    var k := |ent| - 1;
    assert ent == ent[..k] + [ent[k]];
    SqueezedMore(ent[..k], ent[k]);
    if i < k {
      assert ent[..k][..i] == ent[..i];
      Ranked(ent[..k], i);
    }
  }

  /** Bubbles only move packets apart. */
  lemma {:induction false} RankGap(ent: seq<Option<Packet>>, i: nat, j: nat)
    requires i < j <= |ent|
    ensures Rank(ent, i) <= Rank(ent, j) <= Rank(ent, i) + j - i
    ensures ent[i].Some? ==> Rank(ent, i) < Rank(ent, j)
    decreases j
  {
    hide Rank;
    RankNext(ent, j - 1);
    if i < j - 1 { RankGap(ent, i, j - 1); }
  }

  lemma FilledClear(ent: seq<Option<Packet>>, r: nat)
    requires Clear(Squeezed(ent), r)
    ensures Clear(Filled(ent), r)
  {
    hide HazardFree, PlacedAt, Unrepaired;
    FilledHazardFree(ent, r);
    FilledPlaced(ent, r);
    FilledUnrepaired(ent, r);
  }

  lemma BubbleQuiet(r: nat)
    ensures !WritesReg(Nodes(NOP), r) && !WrittenLate(NOP, r) && PlacedIn(NOP, r)
  {
    NopPlain();
  }

  lemma FilledHazardFree(ent: seq<Option<Packet>>, r: nat)
    requires HazardFree(Squeezed(ent), r)
    ensures HazardFree(Filled(ent), r)
  {
    hide LateAgrees, WritesReg, Nodes, WrittenLate, Rank, Squeezed;
    var (a, b) := (Filled(ent), Squeezed(ent));
    BubbleQuiet(r);
    forall i | 0 <= i < |a| && WrittenLate(a[i], r)
      ensures LateAgrees(a[i], r)
      ensures forall j | 0 <= j < |a| && i != j && i - 2 <= j <= i + 2 :: !WritesReg(Nodes(a[j]), r)
    {
      Ranked(ent, i);
      assert WrittenLate(b[Rank(ent, i)], r);
      forall j | 0 <= j < |a| && i != j && i - 2 <= j <= i + 2 ensures !WritesReg(Nodes(a[j]), r) {
        if ent[j].Some? {
          Ranked(ent, j);
          if i < j { RankGap(ent, i, j); } else { RankGap(ent, j, i); }
        }
      }
    }
  }

  lemma FilledPlaced(ent: seq<Option<Packet>>, r: nat)
    requires PlacedAt(Squeezed(ent), r)
    ensures PlacedAt(Filled(ent), r)
  {
    hide PlacedIn, Rank, Squeezed;
    BubbleQuiet(r);
    forall i | 0 <= i < |ent| ensures PlacedIn(Filled(ent)[i], r) {
      if ent[i].Some? { Ranked(ent, i); assert PlacedIn(Squeezed(ent)[Rank(ent, i)], r); }
    }
  }

  lemma FilledUnrepaired(ent: seq<Option<Packet>>, r: nat)
    requires Unrepaired(Squeezed(ent), r)
    ensures Unrepaired(Filled(ent), r)
  {
    hide Rank, Squeezed, UnrepairedIn;
    var (a, b) := (Filled(ent), Squeezed(ent));
    forall t | 0 <= t < |a| ensures UnrepairedIn(At(a, t - 1), a[t], r) {
      if t == 0 || ent[t - 1] == None || ent[t] == None {
        NothingToRepair(At(a, t - 1), a[t], r);
      } else {
        Ranked(ent, t);
        Ranked(ent, t - 1);
        RankGap(ent, t - 1, t);
        assert UnrepairedIn(At(b, Rank(ent, t) - 1), b[Rank(ent, t)], r);
      }
    }
  }

  lemma NothingToRepair(wb: Packet, ex3: Packet, r: nat)
    requires wb == NOP || ex3 == NOP
    ensures UnrepairedIn(wb, ex3, r)
  {}

  lemma {:induction false} FilledInOrder(s: RegFile, ent: seq<Option<Packet>>)
    ensures InOrder(s, Filled(ent)) == InOrder(s, Squeezed(ent))
  {
    hide Clean, Apply, Nodes;
    if ent != [] {
      var front, e := ent[..|ent| - 1], ent[|ent| - 1];
      assert ent == front + [e];
      FilledInOrder(s, front);
      SqueezedMore(front, e);
      LastPacket(s, Filled(ent));
      assert Filled(ent)[..|ent| - 1] == Filled(front);
      if e.Some? {
        LastPacket(s, Squeezed(ent));
        assert Squeezed(ent)[..|Squeezed(ent)| - 1] == Squeezed(front);
      } else {
        assert Squeezed(ent) == Squeezed(front) + [] == Squeezed(front);
        assert Filled(ent)[|ent| - 1] == NOP;
        NopIsEmpty();
        ApplyNothing(InOrder(s, Filled(front)));
        InOrderIsClean(s, Filled(front));
      }
    }
  }

  /** The history of n cycles is that of the packets entered by then. */
  lemma {:induction false} HistoryOfFront(q: Ring, a: seq<Packet>, b: seq<Packet>, n: nat)
    requires n <= |a|
    ensures History(q, a + b, n) == History(q, a, n)
  {
    hide StageCycle, Run;
    if n > 0 { HistoryOfFront(q, a, b, n - 1); }
  }

  // ---- the in-order reference, cut in two ----

  /** The packets from k on. */
  function Rest(pks: seq<Packet>, k: nat): seq<Packet> { if k <= |pks| then pks[k..] else [] }

  lemma CleanTwice(s: RegFile)
    ensures Clean(Clean(s)) == Clean(s)
  {
    hide Clean, Apply;
    CleanAbsorbs(s, []);
    ApplyNothing(s);
    ApplyNothing(Clean(s));
  }

  lemma {:induction false} InOrderConcat(s: RegFile, a: seq<Packet>, b: seq<Packet>)
    ensures InOrder(s, a + b) == InOrder(InOrder(s, a), b)
  {
    hide Clean, Apply, Nodes;
    if b == [] {
      assert a + b == a;
      InOrderIsClean(s, a);
    } else {
      assert (a + b)[..|a + b| - 1] == a + b[..|b| - 1];
      InOrderConcat(s, a, b[..|b| - 1]);
    }
  }

  lemma InOrderIsClean(s: RegFile, a: seq<Packet>)
    ensures Clean(InOrder(s, a)) == InOrder(s, a)
  {
    hide Clean, Apply, Nodes;
    if a == [] { CleanTwice(s); } else { CleanTwice(Apply(InOrder(s, a[..|a| - 1]), Nodes(a[|a| - 1]))); }
  }

  /** Files that agree where it matters for r end with the same r. */
  lemma InOrderAgrees(s: RegFile, t: RegFile, pks: seq<Packet>, r: nat)
    requires r < FILE_SIZE && forall x: nat | Decides(x, r) :: x < FILE_SIZE && s[x] == t[x]
    ensures InOrder(s, pks)[r] == InOrder(t, pks)[r]
  {
    hide Clean, Apply, InOrder, AllNodes, LastWrite;
    InOrderIsAllNodes(s, pks, |pks|);
    InOrderIsAllNodes(t, pks, |pks|);
    StepAgrees(s, t, AllNodes(pks, |pks|), AllNodes(pks, |pks|), r);
  }

  /** What keeps a stop precise holds for the rest of the packets too. */
  lemma ClearRest(pks: seq<Packet>, k: nat, r: nat)
    requires Clear(pks, r)
    ensures Clear(Rest(pks, k), r)
  {
    hide LateAgrees, WritesReg, Nodes, PlacedIn, WrittenLate, Unrepaired;
    var rest := Rest(pks, k);
    UnrepairedRest(pks, k, r);
    forall i | 0 <= i < |rest| ensures rest[i] == pks[k + i] && PlacedIn(rest[i], r) { assert PlacedIn(pks[k + i], r); }
    forall i | 0 <= i < |rest| && WrittenLate(rest[i], r)
      ensures LateAgrees(rest[i], r)
      ensures forall j | 0 <= j < |rest| && i != j && i - 2 <= j <= i + 2 :: !WritesReg(Nodes(rest[j]), r)
    {
      assert WrittenLate(pks[k + i], r);
      forall j | 0 <= j < |rest| && i != j && i - 2 <= j <= i + 2 ensures !WritesReg(Nodes(rest[j]), r) {
        assert rest[j] == pks[k + j];
      }
    }
  }

  /** The first packet of the rest has no packet before it that it could repair. */
  lemma UnrepairedRest(pks: seq<Packet>, k: nat, r: nat)
    requires Unrepaired(pks, r)
    ensures Unrepaired(Rest(pks, k), r)
  {
    hide Touches;
    var rest := Rest(pks, k);
    forall t | 0 <= t < |rest| ensures UnrepairedIn(At(rest, t - 1), rest[t], r) {
      assert UnrepairedIn(At(pks, k + t - 1), pks[k + t], r);
      assert rest[t] == pks[k + t] && (t > 0 ==> At(rest, t - 1) == At(pks, k + t - 1));
    }
  }

  lemma DecidesStops(pks: seq<Packet>, x: nat, r: nat)
    requires StopsPrecisely(pks, r) && Decides(x, r)
    ensures StopsPrecisely(pks, x) && x < FILE_SIZE && !IsCpp(x) && Clear(pks, x)
  {}

  // ---- one action ----

  /** A run from q0, with k packets completed, that has taken in `ent`, stops. */
  lemma StopSegment(q0: Ring, pks: seq<Packet>, k: nat, ent: seq<Option<Packet>>, pc: Word, target: Word,
      base: RegFile, r: nat)
    requires Fresh(q0) && StopsPrecisely(pks, r) && ent != [] && Squeezed(ent) == Rest(pks, k)
    requires forall x: nat | Decides(x, r) :: x < FILE_SIZE && q0.ro[x] == InOrder(base, Take(pks, k))[x]
    ensures Stopped(q0, Filled(ent), |ent|, pc, target).glob[r]
         == InOrder(base, Take(pks, k) + Squeezed(ent[..|ent| - 1]))[r]
  {
    hide Stopped, InOrder, Take, Rest, Clear, Squeezed, Filled;
    var n := |ent|;
    forall x: nat | Decides(x, r) ensures Clear(Filled(ent), x) {
      DecidesStops(pks, x, r);
      ClearRest(pks, k, x);
      FilledClear(ent, x);
    }
    StopsAt(pks, r);
    StopIsPrecise(q0, Filled(ent), n, pc, target, r);
    FilledFront(ent);
    FilledInOrder(q0.ro, ent[..n - 1]);
    InOrderAgrees(q0.ro, InOrder(base, Take(pks, k)), Squeezed(ent[..n - 1]), r);
    InOrderConcat(base, Take(pks, k), Squeezed(ent[..n - 1]));
  }

  lemma FilledFront(ent: seq<Option<Packet>>)
    requires ent != []
    ensures Take(Filled(ent), |ent| - 1) == Filled(ent[..|ent| - 1])
  {}

  lemma StepSegment(q: Ring, pks: seq<Packet>, k: nat, pc: Word, target: Word, base: RegFile, r: nat)
    requires LogsEmpty(q) && StopsPrecisely(pks, r)
    requires forall x: nat | Decides(x, r) :: x < FILE_SIZE && q.glob[x] == InOrder(base, Take(pks, k))[x]
    ensures Step(q, At(pks, k), pc, target).glob[r] == InOrder(base, Take(pks, k + 1))[r]
  {
    hide Step, InOrder, SyncCpp, Clear, Clean, Apply, LastWrite, Late3, Fwd, Mid2, Nodes, Dropped, AllNodes;
    var pk := At(pks, k);
    var l0 := Fwd(pk.early) + Mid2(pk.mid);
    var t := InOrder(base, Take(pks, k));
    StopsAt(pks, r);
    StepFile(q, pk, pc, target, r);
    forall x: nat | Decides(x, r)
      ensures x < FILE_SIZE && SyncCpp(q.glob)[x] == t[x]
          && LastWrite(l0 + Late3(l0, pk.late), x) == LastWrite(Nodes(pk), x)
    {
      DecidesStops(pks, x, r);
      SyncKeeps(q.glob, x);
      DecidesArchitectural(x, r);
      StepLog(pk, x);
      DroppedSame(pks, k, x);
    }
    StepAgrees(SyncCpp(q.glob), t, l0 + Late3(l0, pk.late), Nodes(pk), r);
    OneMore(base, pks, k);
  }

  lemma DroppedSame(pks: seq<Packet>, t: nat, r: nat)
    requires Clear(pks, r)
    ensures LastWrite(Nodes(Dropped(At(pks, t))), r) == LastWrite(Nodes(At(pks, t)), r)
  {
    hide LastWrite, HazardFree, PlacedMid, PlacedLate, Plain, Unrepaired;
    var pk := At(pks, t);
    var d := Dropped(pk);
    PlacedStages(pks, t, r);
    LastWriteConcat(Plain(pk.early) + Plain(pk.mid), Plain(Writes(pk.late)), r);
    LastWriteConcat(Plain(pk.early), Plain(pk.mid), r);
    LastWriteConcat(Plain(d.early) + Plain(d.mid), Plain(Writes(d.late)), r);
    LastWriteConcat(Plain(d.early), Plain(d.mid), r);
  }

  lemma OneMore(s: RegFile, pks: seq<Packet>, k: nat)
    ensures InOrder(s, Take(pks, k + 1)) == Clean(Apply(InOrder(s, Take(pks, k)), Nodes(At(pks, k))))
  {
    hide Clean, Apply, Nodes, InOrder;
    if k < |pks| {
      assert Take(pks, k + 1)[..k] == Take(pks, k) && Take(pks, k + 1)[k] == pks[k];
      LastPacket(s, Take(pks, k + 1));
    } else {
      NopIsEmpty();
      ApplyNothing(InOrder(s, pks));
      InOrderIsClean(s, pks);
    }
  }

  lemma LastPacket(s: RegFile, pks: seq<Packet>)
    requires pks != []
    ensures InOrder(s, pks) == Clean(Apply(InOrder(s, pks[..|pks| - 1]), Nodes(pks[|pks| - 1])))
  {}

  // ---- what a session keeps ----

  /** The registers that the value of r in a session depends on. */
  predicate Involves(x: nat, r: nat) { x == r || Decides(x, r) }

  /** The files of a halted core show the packets executed. */
  ghost predicate Shows(q: Ring, base: RegFile, pks: seq<Packet>, r: nat) {
    forall x: nat | Involves(x, r) :: x < FILE_SIZE && q.glob[x] == InOrder(base, pks)[x]
  }

  /** A run from q0, before which k packets were executed: the ring has done the cycles of
      what has entered EX1, which are the packets from k on, and those that were in EX2 are
      the ones executed. */
  ghost predicate RunsFrom(p: Fetch.Program, code: Code, isa: Fetch.Isa, m: Machine, q0: Ring, k: nat) {
    var (ent, s) := (m.entered, m.fetch);
    && Fresh(q0)
    && m.ring == Run(q0, History(q0, Filled(ent), |ent|))
    && (Fetch.Slot(s, 2).Fetched? <==> ent != [] && ent[|ent| - 1].Some?)
    && (ent == [] ==> !Fetch.HoldsPacket(s))
    && |s.done| + (if Fetch.Slot(s, 2).Fetched? then 1 else 0) == k + |Squeezed(ent)|
    && Squeezed(ent) == Trace(p, code, isa, k + |Squeezed(ent)|)[k..]
  }

  ghost predicate Kept(p: Fetch.Program, code: Code, isa: Fetch.Isa, base: RegFile, m: Machine, r: nat) {
    if m.fetch.halted then LogsEmpty(m.ring) && Shows(m.ring, base, Trace(p, code, isa, |m.fetch.done|), r)
    else exists q0: Ring, k: nat :: RunsFrom(p, code, isa, m, q0, k) && Shows(q0, base, Trace(p, code, isa, k), r)
  }

  lemma TraceMore(p: Fetch.Program, code: Code, isa: Fetch.Isa, n: nat, m: nat)
    requires m <= n
    ensures Take(Trace(p, code, isa, n), m) == Trace(p, code, isa, m)
    ensures Trace(p, code, isa, n + 1) == Trace(p, code, isa, n) + [code(Fetch.IsaRun(p, isa, n).pc, n)]
  {}

  /** The packets of every prefix of the trace stop precisely at r. */
  ghost predicate AlwaysPrecise(p: Fetch.Program, code: Code, isa: Fetch.Isa, r: nat) {
    forall n: nat :: StopsPrecisely(Trace(p, code, isa, n), r)
  }

  lemma InvolvedStops(p: Fetch.Program, code: Code, isa: Fetch.Isa, n: nat, x: nat, r: nat)
    requires AlwaysPrecise(p, code, isa, r) && Involves(x, r)
    ensures StopsPrecisely(Trace(p, code, isa, n), x) && x < FILE_SIZE && !IsCpp(x)
    ensures forall y: nat | Decides(y, x) :: Involves(y, r)
  {
    hide Trace, Clear;
    assert StopsPrecisely(Trace(p, code, isa, n), r);
    if x != r { DecidesStops(Trace(p, code, isa, n), x, r); } else { StopsAt(Trace(p, code, isa, n), r); }
  }

  /** A halted core has no packet in its pipeline. */
  lemma HaltedEmpty(p: Fetch.Program, s: Fetch.State, isa: Fetch.Isa)
    requires Fetch.Synced(p, s, isa) && s.halted
    ensures !Fetch.Slot(s, 2).Fetched? && !Fetch.HoldsPacket(s) && s.fetchPc == isa.pc && !s.occur
  {}

  lemma ResumeKeeps(p: Fetch.Program, code: Code, isa: Fetch.Isa, base: RegFile, m: Machine, r: nat)
    requires Kept(p, code, isa, base, m, r) && m.fetch.halted && AlwaysPrecise(p, code, isa, r)
    requires Fetch.Synced(p, m.fetch, Fetch.IsaRun(p, isa, |m.fetch.done|))
    ensures Kept(p, code, isa, base, Do(p, code, m, Fetch.Resume), r)
  {
    hide Fetch.Synced, Fetch.HoldsPacket, InOrder, Trace, SyncCpp, AlwaysPrecise;
    var (k, q0) := (|m.fetch.done|, Resumed(m.ring));
    HaltedEmpty(p, m.fetch, Fetch.IsaRun(p, isa, k));
    var m2 := Do(p, code, m, Fetch.Resume);
    assert Trace(p, code, isa, k)[k..] == [] by { TraceMore(p, code, isa, k, k); TraceLength(p, code, isa, k); }
    SameEntries(m.fetch, m2.fetch);
    assert RunsFrom(p, code, isa, m2, q0, k);
    forall x: nat | Involves(x, r) ensures x < FILE_SIZE && q0.glob[x] == InOrder(base, Trace(p, code, isa, k))[x] {
      InvolvedStops(p, code, isa, k, x, r);
      SyncKeeps(m.ring.glob, x);
    }
    assert Shows(q0, base, Trace(p, code, isa, k), r);
  }

  lemma TraceLength(p: Fetch.Program, code: Code, isa: Fetch.Isa, n: nat)
    ensures |Trace(p, code, isa, n)| == n
  {}

  lemma SameEntries(s: Fetch.State, t: Fetch.State)
    requires t == s.(halted := false)
    ensures Fetch.Slot(t, 2) == Fetch.Slot(s, 2) && (Fetch.HoldsPacket(t) <==> Fetch.HoldsPacket(s))
  {}

  /** The packet that enters EX1 is the next of the trace, behind the one in EX2. */
  lemma EntersIs(p: Fetch.Program, s: Fetch.State, isa: Fetch.Isa, n: nat)
    requires n == |s.done| && Fetch.Synced(p, s, Fetch.IsaRun(p, isa, n)) && Fetch.SlotPlain(p, Fetch.IsaRun(p, isa, n))
    ensures Fetch.Slot(s, 3).Fetched? ==>
      Fetch.Slot(s, 3).pc == Fetch.IsaRun(p, isa, if Fetch.Slot(s, 2).Fetched? then n + 1 else n).pc
  {
    var r := Fetch.IsaRun(p, isa, n);
    var j: nat :| Fetch.Sync(p, s, r, j);
    hide Fetch.IsaRun;
    if j == 6 {
      assert Fetch.Slot(s, 2) == Fetch.Stream(p, r, 0) && Fetch.Slot(s, 3) == Fetch.Stream(p, r, 1);
      NextIs(p, isa, n);
      assert Fetch.Skip(p, r.pc, 1) == p.next(r.pc);
    } else if j == 5 {
      assert Fetch.Slot(s, 3) == Fetch.Stream(p, r, 0);
    }
  }

  lemma NextIs(p: Fetch.Program, isa: Fetch.Isa, n: nat)
    ensures Fetch.IsaRun(p, isa, n + 1) == Fetch.IsaStep(p, Fetch.IsaRun(p, isa, n), n)
  {}

  lemma CycleSlots(p: Fetch.Program, s: Fetch.State)
    ensures Fetch.Slot(Fetch.Cycle(p, s), 2) == Fetch.Slot(s, 3)
    ensures |Fetch.Cycle(p, s).done| == |s.done| + if Fetch.Slot(s, 2).Fetched? then 1 else 0
    ensures Fetch.Cycle(p, s).halted == s.halted
  {
    hide Fetch.PipelineIf, Fetch.Slot, Fetch.Branch;
    var e := Fetch.Slot(s, 2);
    var s1 := if e.Fetched? then Fetch.Branch(p, s, e.pc, s.fetchPc) else s;
    if e.Fetched? { BranchSlots(p, s, e.pc, s.fetchPc); }
    FetchSlots(p, s1);
  }

  lemma BranchSlots(p: Fetch.Program, s: Fetch.State, pc: Fetch.Addr, link: Fetch.Addr)
    ensures
      var t := Fetch.Branch(p, s, pc, link);
      Fetch.Slot(t, 3) == Fetch.Slot(s, 3) && |t.done| == |s.done| + 1 && t.halted == s.halted
  {}

  lemma FetchSlots(p: Fetch.Program, s: Fetch.State)
    ensures
      var t := Fetch.PipelineIf(p, s, false);
      Fetch.Slot(t, 2) == Fetch.Slot(s, 3) && t.done == s.done && t.halted == s.halted
  {
    Fetch.PushSlot(s, Fetch.Bubble, 2);
    Fetch.PushSlot(s, Fetch.Fetched(s.fetchPc), 2);
  }

  lemma CycleKeeps(p: Fetch.Program, code: Code, isa: Fetch.Isa, m: Machine, q0: Ring, k: nat)
    requires RunsFrom(p, code, isa, m, q0, k) && !m.fetch.halted
    requires Fetch.Synced(p, m.fetch, Fetch.IsaRun(p, isa, |m.fetch.done|))
    requires Fetch.SlotPlain(p, Fetch.IsaRun(p, isa, |m.fetch.done|))
    ensures RunsFrom(p, code, isa, Do(p, code, m, Fetch.Run), q0, k)
  {
    hide Fetch.Synced, Fetch.HoldsPacket, Fetch.Cycle, Fetch.SlotPlain, Fetch.IsaRun, Fetch.Slot, Trace, Run,
        History, MachineCycle, Squeezed, Filled;
    var (s, ent) := (m.fetch, m.entered);
    var e := Enters(code, s);
    EntersIs(p, s, isa, |s.done|);
    CycleSlots(p, s);
    SqueezedMore(ent, e);
    TraceGrows(p, code, isa, k, |Squeezed(ent)|);
    RunGrows(q0, ent, e);
  }

  lemma TraceGrows(p: Fetch.Program, code: Code, isa: Fetch.Isa, k: nat, c: nat)
    ensures |Trace(p, code, isa, k + c)| == k + c
    ensures Trace(p, code, isa, k + c + 1)[k..]
        == Trace(p, code, isa, k + c)[k..] + [code(Fetch.IsaRun(p, isa, k + c).pc, k + c)]
  {}

  lemma RunGrows(q0: Ring, ent: seq<Option<Packet>>, e: Option<Packet>)
    ensures
      var (q, n) := (Run(q0, History(q0, Filled(ent), |ent|)), |ent|);
      Tick(q, MachineCycle(q, Filled(ent + [e]), n)) == Run(q0, History(q0, Filled(ent + [e]), n + 1))
  {
    hide Tick, MachineCycle, Run;
    var n := |ent|;
    SqueezedMore(ent, e);
    HistoryOfFront(q0, Filled(ent), [if e.Some? then e.value else NOP], n);
    var g := History(q0, Filled(ent), n);
    RunStep(q0, g, MachineCycle(Run(q0, g), Filled(ent + [e]), n));
  }

  lemma StopKeeps(p: Fetch.Program, code: Code, isa: Fetch.Isa, base: RegFile, m: Machine, r: nat)
    requires Kept(p, code, isa, base, m, r) && !m.fetch.halted && AlwaysPrecise(p, code, isa, r)
        && Fetch.HoldsPacket(m.fetch)
    ensures Kept(p, code, isa, base, Do(p, code, m, Fetch.StopNow), r)
  {
    hide Fetch.HoldsPacket, Fetch.StopPc, Stop, InOrder, Trace, Run, History, AlwaysPrecise, Filled, Shows, Fresh,
        Saved;
    var (s, ent) := (m.fetch, m.entered);
    var q0: Ring, k: nat :| RunsFrom(p, code, isa, m, q0, k) && Shows(q0, base, Trace(p, code, isa, k), r);
    var m2 := Do(p, code, m, Fetch.StopNow);
    StopSaves(m.ring, At(Filled(ent), |ent| - 3), At(Filled(ent), |ent| - 2), Saved(Fetch.StopPc(s)),
        Saved(s.target));
    StoppedShows(p, code, isa, base, m, q0, k, Saved(Fetch.StopPc(s)), Saved(s.target), r);
    FilledLength(ent);
  }

  lemma FilledLength(ent: seq<Option<Packet>>)
    ensures |Filled(ent)| == |ent|
  {}


  lemma StoppedShows(p: Fetch.Program, code: Code, isa: Fetch.Isa, base: RegFile, m: Machine, q0: Ring, k: nat,
      pc: Word, target: Word, r: nat)
    requires RunsFrom(p, code, isa, m, q0, k) && m.entered != [] && AlwaysPrecise(p, code, isa, r)
    requires Shows(q0, base, Trace(p, code, isa, k), r)
    ensures Shows(Stopped(q0, Filled(m.entered), |m.entered|, pc, target), base, Trace(p, code, isa, |m.fetch.done|), r)
  {
    hide Stopped, InOrder, Trace, Run, History, AlwaysPrecise, Filled, StopsPrecisely, Squeezed, Fetch.Slot;
    var ent := m.entered;
    var n := |ent|;
    var c := |Squeezed(ent)|;
    var pks := Trace(p, code, isa, k + c);
    TraceLength(p, code, isa, k + c);
    TraceMore(p, code, isa, k + c, k);
    CompletedIs(p, code, isa, m, q0, k);
    forall x: nat | Involves(x, r)
      ensures x < FILE_SIZE
          && Stopped(q0, Filled(ent), n, pc, target).glob[x] == InOrder(base, Trace(p, code, isa, |m.fetch.done|))[x]
    {
      InvolvedStops(p, code, isa, k + c, x, r);
      FreshAgrees(q0);
      StopSegment(q0, pks, k, ent, pc, target, base, x);
    }
  }

  lemma FreshAgrees(q: Ring)
    requires Fresh(q)
    ensures q.ro == q.glob
  {}

  /** The packets executed are those completed before the run, and those of the run that
      have left EX2. */
  lemma CompletedIs(p: Fetch.Program, code: Code, isa: Fetch.Isa, m: Machine, q0: Ring, k: nat)
    requires RunsFrom(p, code, isa, m, q0, k) && m.entered != []
    ensures Trace(p, code, isa, k) + Squeezed(m.entered[..|m.entered| - 1]) == Trace(p, code, isa, |m.fetch.done|)
  {
    hide Run, History, Filled, Squeezed, Fetch.Slot, Fetch.IsaRun;
    var ent := m.entered;
    assert ent == ent[..|ent| - 1] + [ent[|ent| - 1]];
    SqueezedMore(ent[..|ent| - 1], ent[|ent| - 1]);
    var front := Squeezed(ent[..|ent| - 1]);
    assert forall i | 0 <= i < |front| ::
        front[i] == Squeezed(ent)[i] == Trace(p, code, isa, k + |Squeezed(ent)|)[k + i];
  }

  lemma StepKeeps(p: Fetch.Program, code: Code, isa: Fetch.Isa, base: RegFile, m: Machine, r: nat)
    requires Kept(p, code, isa, base, m, r) && m.fetch.halted && AlwaysPrecise(p, code, isa, r)
    requires Fetch.Synced(p, m.fetch, Fetch.IsaRun(p, isa, |m.fetch.done|))
    ensures Kept(p, code, isa, base, Do(p, code, m, Fetch.StepOne), r)
  {
    hide Fetch.Synced, Fetch.HoldsPacket, Fetch.Step, Step, InOrder, Trace, AlwaysPrecise, StopsPrecisely, Saved;
    var (s, k) := (m.fetch, |m.fetch.done|);
    var (m2, t) := (Do(p, code, m, Fetch.StepOne), Fetch.Step(p, m.fetch));
    var (pc, target) := (Saved(t.fetchPc), Saved(t.target));
    HaltedEmpty(p, s, Fetch.IsaRun(p, isa, k));
    var pks := Trace(p, code, isa, k + 1);
    TraceMore(p, code, isa, k, k);
    TraceMore(p, code, isa, k + 1, k);
    TraceMore(p, code, isa, k + 1, k + 1);
    TraceLength(p, code, isa, k);
    assert At(pks, k) == code(s.fetchPc, k);
    StepDone(p, s);
    StepSaves(m.ring, At(pks, k), pc, target);
    forall x: nat | Involves(x, r)
      ensures x < FILE_SIZE && m2.ring.glob[x] == InOrder(base, pks)[x]
    {
      InvolvedStops(p, code, isa, k + 1, x, r);
      StepSegment(m.ring, pks, k, pc, target, base, x);
    }
  }

  lemma StepDone(p: Fetch.Program, s: Fetch.State)
    requires s.halted && !s.occur
    ensures Fetch.Step(p, s).halted && |Fetch.Step(p, s).done| == |s.done| + 1
  {}


  // ---- the session ----

  /** SR9 and SR10 hold the PC and the branch target of a halted core. */
  ghost predicate SavesPc(m: Machine) {
    m.fetch.halted ==> m.ring.glob[SR9] == Saved(m.fetch.fetchPc) && m.ring.glob[SR10] == Saved(m.fetch.target)
  }

  /** A resume or a step then finds its own PC and branch target. */
  lemma LoadsBack(p: Fetch.Program, code: Code, m: Machine, e: Fetch.Event)
    requires SavesPc(m)
    ensures Act(p, code, m, e) == Do(p, code, m, e)
  {
    hide Saved, AddrIn, Do;
    SavedAndRead(m.fetch.target);
    if m.fetch.halted { assert Loaded(m.fetch, m.ring.glob) == m.fetch; }
  }

  lemma DoSaves(p: Fetch.Program, code: Code, m: Machine, e: Fetch.Event)
    requires SavesPc(m)
    ensures SavesPc(Do(p, code, m, e)) && Do(p, code, m, e).fetch == Fetch.Act(p, m.fetch, e)
  {
    hide Saved, Fetch.Cycle, Fetch.Step, Fetch.StopPc, Stop, Step, Enters, Filled, Tick, MachineCycle;
    var (s, pks, n) := (m.fetch, Filled(m.entered), |m.entered|);
    FilledLength(m.entered);
    match e
    case Resume =>
    case Run => FetchKeepsRunning(p, s);
    case StopNow => StopSaves(m.ring, At(pks, n - 3), At(pks, n - 2), Saved(Fetch.StopPc(s)), Saved(s.target));
    case StepOne =>
      var (pk, t) := (if s.occur then NOP else code(s.fetchPc, |s.done|), Fetch.Step(p, s));
      StepSaves(m.ring, pk, Saved(t.fetchPc), Saved(t.target));
  }

  lemma FetchKeepsRunning(p: Fetch.Program, s: Fetch.State)
    ensures Fetch.Cycle(p, s).halted == s.halted
  {
    CycleSlots(p, s);
  }

  /** The fetch unit of the session is that of `Fetch`, whatever the register files. */
  lemma {:induction false} FetchIs(p: Fetch.Program, code: Code, m: Machine, es: seq<Fetch.Event>)
    requires SavesPc(m)
    ensures Actions(p, code, m, es).fetch == Fetch.Actions(p, m.fetch, es) && SavesPc(Actions(p, code, m, es))
  {
    hide Fetch.Act, Act, SavesPc;
    if es != [] {
      var front := es[..|es| - 1];
      FetchIs(p, code, m, front);
      LoadsBack(p, code, Actions(p, code, m, front), es[|es| - 1]);
      DoSaves(p, code, Actions(p, code, m, front), es[|es| - 1]);
    }
  }

  lemma ActKeeps(p: Fetch.Program, code: Code, isa: Fetch.Isa, base: RegFile, m: Machine, r: nat, e: Fetch.Event)
    requires Kept(p, code, isa, base, m, r) && AlwaysPrecise(p, code, isa, r)
    requires Fetch.Synced(p, m.fetch, Fetch.IsaRun(p, isa, |m.fetch.done|))
    requires Fetch.SlotPlain(p, Fetch.IsaRun(p, isa, |m.fetch.done|))
    requires SavesPc(m) && (e == Fetch.StopNow ==> Fetch.Lands(m.fetch))
    ensures Kept(p, code, isa, base, Act(p, code, m, e), r)
  {
    hide Fetch.Synced, Fetch.HoldsPacket, Fetch.SlotPlain, Fetch.Cycle, AlwaysPrecise, RunsFrom, Shows, Trace,
        LogsEmpty, Enters, Fetch.Step, Step, Fetch.Halt, Stop, Act;
    LoadsBack(p, code, m, e);
    match e
    case Resume => if m.fetch.halted { ResumeKeeps(p, code, isa, base, m, r); }
    case Run =>
      if !m.fetch.halted {
        var q0: Ring, k: nat :| RunsFrom(p, code, isa, m, q0, k) && Shows(q0, base, Trace(p, code, isa, k), r);
        CycleKeeps(p, code, isa, m, q0, k);
        CycleSlots(p, m.fetch);
      }
    case StopNow => if !m.fetch.halted { StopKeeps(p, code, isa, base, m, r); }
    case StepOne => if m.fetch.halted { StepKeeps(p, code, isa, base, m, r); }
  }

  lemma {:induction false} SessionKeeps(p: Fetch.Program, code: Code, isa: Fetch.Isa, base: RegFile, m: Machine,
      r: nat, es: seq<Fetch.Event>)
    requires SavesPc(m) && Kept(p, code, isa, base, m, r) && AlwaysPrecise(p, code, isa, r)
    requires Fetch.Synced(p, m.fetch, isa) && m.fetch.done == [] && Fetch.SlotsPlain(p, isa)
        && Fetch.StopsLand(p, m.fetch, es)
    ensures Kept(p, code, isa, base, Actions(p, code, m, es), r)
    decreases |es|
  {
    hide Fetch.Synced, Fetch.SlotPlain, Fetch.Lands, Kept, Act, AlwaysPrecise, Fetch.Actions, Fetch.IsaTrace, SavesPc;
    if es != [] {
      var n := |es| - 1;
      var front := es[..n];
      assert forall i | 0 <= i <= n :: front[..i] == es[..i];
      assert Fetch.StopsLand(p, m.fetch, front);
      SessionKeeps(p, code, isa, base, m, r, front);
      Fetch.DebugIsTransparent(p, m.fetch, isa, front);
      FetchIs(p, code, m, front);
      var t := Actions(p, code, m, front);
      assert Fetch.SlotPlain(p, Fetch.IsaRun(p, isa, |t.fetch.done|));
      assert es[n] == Fetch.StopNow ==> Fetch.Lands(Fetch.Actions(p, m.fetch, es[..n]));
      ActKeeps(p, code, isa, base, t, r, es[n]);
    }
  }

  /** A whole session from a reset or from a PC set by the debugger: whenever the core is
      halted, after any resumes, cycles, stops and steps, every observable register that
      stops precisely holds the in-order result of the packets executed so far, which are
      those of the delayed-branch machine; SR9 holds the address of the next one, and SR10
      the branch target if delay slots remain. */
  lemma SessionInOrder(p: Fetch.Program, code: Code, s: Fetch.State, q: Ring, pc: Fetch.Addr, target: Fetch.Addr,
      es: seq<Fetch.Event>, r: nat)
    requires s == Fetch.AfterReset(pc, target) || s == Fetch.AfterSetPc(pc, target)
    requires LogsEmpty(q) && Clean(q.glob) == q.glob && SavesPc(Machine(s, q, []))
    requires var isa := Fetch.Isa(pc, 0, target);
      Fetch.SlotsPlain(p, isa) && Fetch.StopsLand(p, s, es) && AlwaysPrecise(p, code, isa, r)
    ensures
      var (isa, m) := (Fetch.Isa(pc, 0, target), Actions(p, code, Machine(s, q, []), es));
      var (n, next) := (|m.fetch.done|, Fetch.IsaRun(p, isa, |m.fetch.done|));
      && m.fetch.done == Fetch.IsaTrace(p, isa, n)
      && (m.fetch.halted ==>
            && r < FILE_SIZE && m.ring.glob[r] == InOrder(q.glob, Trace(p, code, isa, n))[r]
            && m.ring.glob[SR9] == Saved(next.pc) && (next.left > 0 ==> m.ring.glob[SR10] == Saved(next.target)))
  {
    hide Fetch.SlotsPlain, Fetch.StopsLand, AlwaysPrecise, Actions, Fetch.Actions, Clean, InOrder, Fetch.Synced,
        Fetch.IsaTrace, Saved, Fetch.IsaRun;
    var isa, m := Fetch.Isa(pc, 0, target), Machine(s, q, []);
    Fetch.StartSynced(p, s, pc, target);
    Fetch.SyncedBy(p, s, isa, 0);
    NothingDone(p, code, isa, q, r);
    assert Kept(p, code, isa, q.glob, m, r);
    SessionKeeps(p, code, isa, q.glob, m, r, es);
    Fetch.DebugIsTransparent(p, s, isa, es);
    FetchIs(p, code, m, es);
    assert Involves(r, r);
    var t := Actions(p, code, m, es);
    if t.fetch.halted { HaltedAtNext(p, t.fetch, Fetch.IsaRun(p, isa, |t.fetch.done|)); }
  }

  lemma HaltedAtNext(p: Fetch.Program, s: Fetch.State, isa: Fetch.Isa)
    requires Fetch.Synced(p, s, isa) && s.halted
    ensures s.fetchPc == isa.pc && (isa.left > 0 ==> s.target == isa.target)
  {}

  /** A PC that the debugger writes into SR9 of a halted core is taken at the next resume or
      step, and the delay slots that were open are forgotten. */
  lemma EditedPc(p: Fetch.Program, code: Code, m: Machine, isa: Fetch.Isa, pc: Fetch.Addr)
    requires Fetch.Synced(p, m.fetch, isa) && m.fetch.halted && pc != m.fetch.fetchPc && m.ring.glob[SR9] == Saved(pc)
    ensures
      var s := Loaded(m.fetch, m.ring.glob);
      && Fetch.Synced(p, s, Fetch.Isa(pc, 0, s.target))
      && Act(p, code, m, Fetch.Resume) == Do(p, code, m.(fetch := s), Fetch.Resume)
      && Act(p, code, m, Fetch.StepOne) == Do(p, code, m.(fetch := s), Fetch.StepOne)
  {
    hide Saved, AddrIn, Do;
    SavedAndRead(pc);
    SavedAndRead(m.fetch.fetchPc);
    EditedSynced(p, m.fetch, isa, pc);
  }

  lemma EditedSynced(p: Fetch.Program, s: Fetch.State, isa: Fetch.Isa, pc: Fetch.Addr)
    requires Fetch.Synced(p, s, isa) && s.halted
    ensures Fetch.Synced(p, s.(fetchPc := pc, sm := Fetch.NORMAL), Fetch.Isa(pc, 0, s.target))
  {
    var t := s.(fetchPc := pc, sm := Fetch.NORMAL);
    assert forall k | 0 <= k < 8 :: Fetch.Slot(t, k) == Fetch.Slot(s, k);
    assert Fetch.Sync(p, s, isa, 0);
    assert Fetch.Sync(p, t, Fetch.Isa(pc, 0, s.target), 0);
  }

  lemma NothingDone(p: Fetch.Program, code: Code, isa: Fetch.Isa, q: Ring, r: nat)
    requires Clean(q.glob) == q.glob && AlwaysPrecise(p, code, isa, r)
    ensures Shows(q, q.glob, Trace(p, code, isa, 0), r)
  {
    hide Clean, AlwaysPrecise;
    assert Trace(p, code, isa, 0) == [];
    forall x: nat | Involves(x, r) ensures x < FILE_SIZE { InvolvedStops(p, code, isa, 0, x, r); }
  }
}
