/** The logs of a run slot by slot, and register by register: what is forwarded, what the
    conflict checks and their repair make of it, and what is committed (pac-exec.cpp). */
module Slots {
  import opened Registers
  import opened WriteLog
  import opened Pipeline
  import opened Drain
  import opened Stages

  // ---- placement ----

  lemma {:induction false} PlacedMidSame(ws: seq<MidReg>, r: nat)
    requires forall j | 0 <= j < |ws| :: WellPlaced(ws[j]) || !Touches(FwdNode(ws[j]), r)
    ensures LastWrite(Plain(PlacedMid(ws)), r) == LastWrite(Plain(ws), r)
  {
    hide FwdNode, WellPlaced, Touches;
    if ws != [] {
      var k := |ws| - 1;
      PlacedMidSame(ws[..k], r);
      PlainMore(ws[..k], ws[k], r);
      PlainMore(PlacedMid(ws[..k]), ws[k], r);
      assert ws[..k] + [ws[k]] == ws;
      assert PlacedMid(ws[..k]) + [] == PlacedMid(ws[..k]);
      Unseen(ws[k], r);
    }
  }

  lemma Unseen(w: Write, r: nat)
    ensures !Touches(FwdNode(w), r) ==> LastWrite([FwdNode(w)], r) == None
  {}

  lemma {:induction false} PlacedLateSame(ls: seq<LateReg>, r: nat)
    requires forall j | 0 <= j < |ls| :: WellPlaced(ls[j].w) || !Touches(FwdNode(ls[j].w), r)
    ensures LastWrite(Plain(Writes(PlacedLate(ls))), r) == LastWrite(Plain(Writes(ls)), r)
  {
    hide FwdNode, WellPlaced, Touches;
    if ls != [] {
      var k := |ls| - 1;
      var front := PlacedLate(ls[..k]);
      PlacedLateSame(ls[..k], r);
      PlainMore(Writes(ls[..k]), ls[k].w, r);
      PlainMore(Writes(front), ls[k].w, r);
      assert Writes(ls[..k]) + [ls[k].w] == Writes(ls);
      assert Writes(front + [ls[k]]) == Writes(front) + [ls[k].w];
      assert front + [] == front;
      Unseen(ls[k].w, r);
    }
  }

  lemma PlacedStages(pks: seq<Packet>, t: int, r: nat)
    requires PlacedAt(pks, r)
    ensures LastWrite(Plain(PlacedMid(At(pks, t).mid)), r) == M(pks, t, r)
    ensures LastWrite(Plain(Writes(PlacedLate(At(pks, t).late))), r) == L(pks, t, r)
  {
    hide FwdNode, WellPlaced, Touches, PlacedMid, PlacedLate;
    assert 0 <= t < |pks| ==> PlacedIn(pks[t], r);
    PlacedMidSame(At(pks, t).mid, r);
    PlacedLateSame(At(pks, t).late, r);
  }

  /** Accumulators are never written out of place. */
  lemma AccumulatorPlaced(pks: seq<Packet>, r: nat)
    requires Accumulator(r)
    ensures PlacedAt(pks, r) && Architectural(r)
  {}

  // ---- one slot ----

  /** What is forwarded in the cycle in which packet s is in EX1: the log of its slot. */
  function FwdAll(pks: seq<Packet>, s: int): seq<Node> {
    Fwd(Writes(At(pks, s - 2).late)) + Fwd(At(pks, s - 1).mid) + Fwd(At(pks, s).early)
  }

  /** The log of slot s once the late writes of packet s - 1 have been checked against it. */
  function CheckedLog(pks: seq<Packet>, s: int): seq<Node> {
    LateEx2(FwdAll(pks, s), At(pks, s - 2), At(pks, s - 1), At(pks, s - 1).late)
  }

  /** The last write to r in it. Three packets decide. */
  function X(pks: seq<Packet>, s: int, r: nat): Option<Word> { LastWrite(CheckedLog(pks, s), r) }

  /** The last write to r in slot s when it is committed. */
  function SlotValue(pks: seq<Packet>, s: int, r: nat): Option<Word> {
    OrElse(L(pks, s, r), OrElse(M(pks, s, r), X(pks, s, r)))
  }

  /** The last write to r in the slots before m. */
  function SlotsValue(pks: seq<Packet>, m: int, r: nat): Option<Word>
    decreases m + 2
  {
    if m <= -2 then None else OrElse(SlotValue(pks, m - 1, r), SlotsValue(pks, m - 1, r))
  }

  lemma FwdAllLast(pks: seq<Packet>, s: int, r: nat)
    requires !IsCpp(r)
    ensures LastWrite(FwdAll(pks, s), r) == OrElse(E(pks, s, r), OrElse(M(pks, s - 1, r), L(pks, s - 2, r)))
  {
    hide LastWrite, Fwd, Plain;
    var late, mid, early := At(pks, s - 2).late, At(pks, s - 1).mid, At(pks, s).early;
    FwdLast(Writes(late), r);
    FwdLast(mid, r);
    FwdLast(early, r);
    LastWriteConcat(Fwd(Writes(late)) + Fwd(mid), Fwd(early), r);
    LastWriteConcat(Fwd(Writes(late)), Fwd(mid), r);
  }

  lemma NothingForwarded(pks: seq<Packet>, s: int)
    requires s < 0
    ensures FwdAll(pks, s) == [] && CheckedLog(pks, s) == []
  {
    NopPlain();
  }

  /** The cycles of h that close slot s are those of the packets. */
  predicate Follows(p: Ring, pks: seq<Packet>, h: seq<Cycle>, s: int) {
    && (s + 1 >= 0 ==> s + 1 < |h| && h[s + 1].ex2 == CheckedLog(pks, s) + Mid2(At(pks, s).mid))
    && (s + 2 >= 0 ==> s + 2 < |h| && h[s + 2].ex3 == Late3(Log(Run(p, History(p, pks, s + 2)), 1), At(pks, s).late))
  }

  /** In a run from empty logs, the EX2 stage finds what the cycle before forwarded. */
  lemma Ex2Finds(p: Ring, pks: seq<Packet>, t: nat)
    requires Fresh(p)
    ensures Log(Run(p, History(p, pks, t)), 2) == FwdAll(pks, t - 1)
  {
    hide Run, Log, History, FwdAll;
    Ex2LogIs(p, pks, t);
    if t > 0 {
      HistoryPrefix(p, pks, t, t - 1);
      Ex1Is(Run(p, History(p, pks, t - 1)), pks, t - 1);
    } else {
      NothingForwarded(pks, -1);
    }
  }

  lemma Ex1Is(q: Ring, pks: seq<Packet>, t: int)
    ensures MachineCycle(q, pks, t).ex1 == FwdAll(pks, t)
    ensures MachineCycle(q, pks, t).ex2
        == LateEx2(Log(q, 2), At(pks, t - 3), At(pks, t - 2), At(pks, t - 2).late) + Mid2(At(pks, t - 1).mid)
    ensures MachineCycle(q, pks, t).ex3 == Late3(Log(q, 1), At(pks, t - 2).late)
  {}

  lemma HistoryFollows(p: Ring, pks: seq<Packet>, n: nat, s: int)
    requires Fresh(p) && s <= n - 3
    ensures Follows(p, pks, History(p, pks, n), s)
  {
    hide Run, Log, History, FwdAll, MachineCycle, Late3, LateEx2, Mid2;
    HistoryPrefix(p, pks, n, n);
    if s + 1 >= 0 {
      HistoryPrefix(p, pks, n, s + 1);
      Ex1Is(Run(p, History(p, pks, s + 1)), pks, s + 1);
      Ex2Finds(p, pks, s + 1);
    }
    if s + 2 >= 0 {
      HistoryPrefix(p, pks, n, s + 2);
      Ex1Is(Run(p, History(p, pks, s + 2)), pks, s + 2);
    }
  }

  /** A closed slot, register by register. */
  lemma SlotLast(p: Ring, pks: seq<Packet>, h: seq<Cycle>, s: int, r: nat)
    requires Follows(p, pks, h, s) && PlacedAt(pks, r) && Architectural(r)
    ensures LastWrite(Slot(h, s), r) == SlotValue(pks, s, r)
  {
    hide LastWrite, Run, Log, History, Late3, Mid2, CheckedLog, PlacedAt, PlacedMid, PlacedLate, Plain,
        Architectural, Writes;
    Mid2Last(At(pks, s).mid, r);
    PlacedStages(pks, s, r);
    if s + 2 >= 0 {
      Late3Last(Log(Run(p, History(p, pks, s + 2)), 1), At(pks, s).late, r);
    } else {
      NopWritesNothing(pks, s, r);
    }
    if s + 1 >= 0 {
      LastWriteConcat(CheckedLog(pks, s), Mid2(At(pks, s).mid), r);
    } else {
      NothingForwarded(pks, s);
      NothingWritten(r);
      NopWritesNothing(pks, s, r);
    }
    LastWriteConcat(if 0 <= s + 1 < |h| then h[s + 1].ex2 else Ex1(h, s), Ex3(h, s + 2), r);
  }

  /** The committed slots, register by register. */
  lemma {:induction false} SlotsLast(p: Ring, pks: seq<Packet>, h: seq<Cycle>, m: int, r: nat)
    requires PlacedAt(pks, r) && Architectural(r) && forall s: int | s < m :: Follows(p, pks, h, s)
    ensures LastWrite(Committed(h, m), r) == SlotsValue(pks, m, r)
    decreases m + 2
  {
    hide LastWrite, Slot, SlotValue, Follows, PlacedAt, Architectural;
    if m > -2 {
      SlotsLast(p, pks, h, m - 1, r);
      UnfoldLogs(h, 0, m);
      LastWriteConcat(Committed(h, m - 1), Slot(h, m - 1), r);
      SlotLast(p, pks, h, m - 1, r);
    } else {
      UnfoldLogs(h, 0, m);
      NothingWritten(r);
    }
  }

  // ---- the checked log ----

  /** A late write of no consequence for r. */
  lemma QuietChecks(pks: seq<Packet>, s: int, r: nat)
    requires Architectural(r) && (NoExtra(pks, r) || NoExtraIn(At(pks, s - 2), At(pks, s - 1), r))
        && L(pks, s - 1, r) == None
    ensures X(pks, s, r) == OrElse(E(pks, s, r), OrElse(M(pks, s - 1, r), L(pks, s - 2, r)))
  {
    hide LastWrite, Fwd, Plain, LateEx2, FwdAll;
    assert 0 <= s - 1 < |pks| && NoExtra(pks, r) ==> NoExtraIn(At(pks, s - 2), pks[s - 1], r);
    FwdLast(Writes(At(pks, s - 1).late), r);
    LateEx2Untouched(FwdAll(pks, s), At(pks, s - 2), At(pks, s - 1), At(pks, s - 1).late, r);
    FwdAllLast(pks, s, r);
  }

  /** The checks never take the last write to r away without putting another one in. */
  lemma {:induction false} ChecksKeep(log: seq<Node>, wb: Packet, ex3: Packet, ls: seq<LateReg>, r: nat)
    requires LastWrite(log, r).Some?
    ensures LastWrite(LateEx2(log, wb, ex3, ls), r).Some?
  {
    hide LastWrite, CheckedCopy;
    if ls != [] {
      ChecksKeep(log, wb, ex3, ls[..|ls| - 1], r);
      CopyKeeps(LateEx2(log, wb, ex3, ls[..|ls| - 1]), ls[|ls| - 1], Repairs(wb, ex3, ls[|ls| - 1].w), r);
    }
  }

  lemma CopyKeeps(log: seq<Node>, l: LateReg, repair: bool, r: nat)
    requires LastWrite(log, r).Some?
    ensures LastWrite(CheckedCopy(log, l, repair), r).Some?
  {
    hide LastWrite;
    var n := StageNode(l.w);
    var copy := CheckedCopy(log, l, repair);
    var i := LastIsAnEntry(log, r);
    FirstCopy(l.w);
    if repair && HasEntry(log, n.typ, n.addr) && Conflict(log, l) {
      var first := FirstEntry(log, n.typ, n.addr);
      var repaired := log[first := Node(TYP_AC, n.addr, log[first].data)];
      if first != i {
        assert copy[i] == log[i];
      } else if HasEntry(repaired, n.typ, n.addr) {
        var j :| 0 <= j < |repaired| && repaired[j].typ == n.typ && repaired[j].addr == n.addr;
        assert copy[j] == repaired[j];
        SameTarget(log[i], copy[j], r);
      } else {
        assert copy[|log|] == n;
        SameTarget(log[i], n, r);
      }
    } else {
      assert copy[i] == log[i];
    }
    UntouchedIff(copy, r);
  }

  lemma SameTarget(a: Node, b: Node, r: nat)
    requires a.typ == b.typ && a.addr == b.addr
    ensures Touches(a, r) == Touches(b, r)
  {}

  lemma {:induction false} LastIsAnEntry(nodes: seq<Node>, r: nat) returns (i: nat)
    requires LastWrite(nodes, r).Some?
    ensures i < |nodes| && Touches(nodes[i], r) && LastWrite(nodes, r) == Some(ValueFor(nodes[i], r))
  {
    i := |nodes| - 1;
    if !Touches(nodes[i], r) { i := LastIsAnEntry(nodes[..i], r); }
  }

  lemma ForwardedStays(pks: seq<Packet>, s: int, r: nat)
    requires !IsCpp(r)
    ensures E(pks, s, r).Some? || M(pks, s - 1, r).Some? || L(pks, s - 2, r).Some? ==> X(pks, s, r).Some?
  {
    hide LastWrite, FwdAll, LateEx2, E, M, L;
    FwdAllLast(pks, s, r);
    if LastWrite(FwdAll(pks, s), r).Some? {
      ChecksKeep(FwdAll(pks, s), At(pks, s - 2), At(pks, s - 1), At(pks, s - 1).late, r);
    }
  }

  // ---- the slots of the last writer ----

  /** What a drained run leaves in r: the last packet w that writes r decides, but if it
      writes r in EX1 only, an EX3 write of the packet before it comes later. */
  function DrainedValue(pks: seq<Packet>, w: int, r: nat): Option<Word> {
    OrElse(L(pks, w, r), OrElse(M(pks, w, r), OrElse(L(pks, w - 1, r), E(pks, w, r))))
  }

  /** What the slots up to d behind that of packet w, the last one that writes r, leave in r. */
  function StopValue(pks: seq<Packet>, w: int, d: int, r: nat): Option<Word> {
    if d == 0 then OrElse(L(pks, w, r), OrElse(M(pks, w, r), X(pks, w, r)))
    else if d == 1 then OrElse(X(pks, w + 1, r), V(pks, w, r))
    else DrainedValue(pks, w, r)
  }

  /** Slots without a write of r. */
  lemma QuietSlot(pks: seq<Packet>, m: nat, s: int, r: nat)
    requires Architectural(r) && NoExtra(pks, r) && s < m
    requires s < 0 || s > LastWriter(pks, m, r) + 2 || LastWriter(pks, m, r) < 0
    ensures SlotValue(pks, s, r) == None
  {
    hide E, M, L, X, LastWriter, Architectural, NoExtra;
    LastWriterIs(pks, m, r);
    Quiet(pks, m, r, s);
    Quiet(pks, m, r, s - 1);
    Quiet(pks, m, r, s - 2);
    QuietChecks(pks, s, r);
  }

  lemma {:induction false} NoSlots(pks: seq<Packet>, m: nat, k: int, r: nat)
    requires Architectural(r) && NoExtra(pks, r) && k <= m && (k <= 0 || LastWriter(pks, m, r) < 0)
    ensures SlotsValue(pks, k, r) == None
    decreases k + 2
  {
    hide SlotValue, LastWriter, Architectural, NoExtra;
    if k > -2 {
      NoSlots(pks, m, k - 1, r);
      QuietSlot(pks, m, k - 1, r);
    }
  }

  /** The three slots that hold writes of the last writer. */
  lemma OwnSlots(pks: seq<Packet>, m: nat, r: nat)
    requires Architectural(r) && NoExtra(pks, r) && LastWriter(pks, m, r) >= 0
    ensures
      var (w, older) := (LastWriter(pks, m, r), SlotsValue(pks, LastWriter(pks, m, r), r));
      && OrElse(SlotValue(pks, w, r), older) == StopValue(pks, w, 0, r)
      && (w + 1 < m ==> OrElse(SlotValue(pks, w + 1, r), StopValue(pks, w, 0, r)) == StopValue(pks, w, 1, r))
      && (w + 2 < m ==> OrElse(SlotValue(pks, w + 2, r), StopValue(pks, w, 1, r)) == StopValue(pks, w, 2, r))
  {
    hide E, M, L, X, LastWriter, Architectural, NoExtra;
    var w := LastWriter(pks, m, r);
    LastWriterIs(pks, m, r);
    assert !IsCpp(r) by { ArchitecturalNotCpp(r); }
    ForwardedStays(pks, w, r);
    if L(pks, w - 1, r) == None { QuietChecks(pks, w, r); }
    if w + 1 < m {
      Quiet(pks, m, r, w + 1);
      ForwardedStays(pks, w + 1, r);
      if L(pks, w, r) == None { QuietChecks(pks, w + 1, r); }
    }
    if w + 2 < m {
      Quiet(pks, m, r, w + 2);
      QuietChecks(pks, w + 2, r);
    }
  }

  lemma ArchitecturalNotCpp(r: nat)
    requires Architectural(r)
    ensures !IsCpp(r)
  {}

  /** The slots before k, of packets before m, at a register that no repair writes: the last
      writer and the packet before it decide. */
  lemma {:induction false} SlotsValueIs(pks: seq<Packet>, m: nat, k: int, r: nat)
    requires Architectural(r) && NoExtra(pks, r) && LastWriter(pks, m, r) < k <= m
    ensures SlotsValue(pks, k, r) ==
            var w := LastWriter(pks, m, r); if w >= 0 then StopValue(pks, w, k - 1 - w, r) else None
    decreases k
  {
    hide SlotValue, LastWriter, Architectural, NoExtra, StopValue;
    var w := LastWriter(pks, m, r);
    LastWriterIs(pks, m, r);
    if w < 0 {
      NoSlots(pks, m, k, r);
    } else {
      OwnSlots(pks, m, r);
      if k > w + 1 {
        SlotsValueIs(pks, m, k - 1, r);
        if k - 1 > w + 2 { QuietSlot(pks, m, k - 1, r); SameDrained(pks, w, k - 2 - w, r); }
      }
    }
  }

  lemma SameDrained(pks: seq<Packet>, w: int, d: int, r: nat)
    requires d >= 2
    ensures StopValue(pks, w, d, r) == StopValue(pks, w, d + 1, r)
  {}
}
