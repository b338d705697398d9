/** Precise stops and single steps: what they leave in the committed file, register by
    register, and when that is the in-order result of the packets that have left EX3
    (pac-dsp.cpp:88-181, 242-266, 383-403). */
module PreciseStop {
  import opened Registers
  import opened WriteLog
  import opened Pipeline
  import opened Drain
  import opened Stages
  import opened Slots
  import opened Hazards

  // ---- what a stop commits ----

  lemma StopFile(q: Ring, wb: Packet, ex3: Packet, pc: Word, target: Word, r: nat)
    requires Observable(r)
    ensures Stop(q, wb, ex3, pc, target).glob[r]
         == Clean(Apply(Clean(Apply(q.glob, Log(q, 0))), Log(q, 1) + StopCycle(q, wb, ex3).ex3))[r]
  {
    hide Clean, Apply, StopCycle, AppendCycle, UpdateRegisterFile, Log;
    var c := StopCycle(q, wb, ex3);
    AppendLogs(q, c, 0);
    AppendLogs(q, c, 1);
    assert Log(q, 0) + [] == Log(q, 0);
    TwoUpdates(AppendCycle(q, c));
    AppendKeeps(q, c);
  }

  lemma AppendKeeps(q: Ring, c: Cycle)
    ensures AppendCycle(q, c).wb == q.wb && AppendCycle(q, c).glob == q.glob
  {}

  lemma TwoUpdates(q: Ring)
    ensures UpdateRegisterFile(UpdateRegisterFile(q, q.wb), (q.wb + 1) % 8).glob
         == Clean(Apply(Clean(Apply(q.glob, Log(q, 0))), Log(q, 1)))
  {
    hide Clean, Apply;
  }

  lemma TwoSlots(h: seq<Cycle>, c: Cycle)
    requires h != []
    ensures Committed(h + [c], |h| - 1) == (Committed(h, |h| - 3) + Slot(h, |h| - 3)) + (Slot(h, |h| - 2) + c.ex3)
  {
    hide Slot;
    var n := |h|;
    SlotStays(h, c, n - 3);
    SlotGrows(h, c, n - 2);
    CommittedExtends(h, c, n - 3);
    UnfoldLogs(h + [c], 0, n - 1);
    UnfoldLogs(h + [c], 0, n - 2);
  }

  lemma TwoCommits(s: RegFile, n: nat, h: seq<Cycle>, c: Cycle, glob: RegFile)
    requires n == |h| > 0 && glob == Settled(s, n, Committed(h, n - 3))
    ensures Clean(Apply(Clean(Apply(glob, Slot(h, n - 3))), Slot(h, n - 2) + c.ex3))
         == Clean(Apply(s, Committed(h + [c], n - 1)))
  {
    hide *;
    SettleMore(s, n, Committed(h, n - 3), Slot(h, n - 3));
    var a, b := Committed(h, n - 3) + Slot(h, n - 3), Slot(h, n - 2) + c.ex3;
    CleanAbsorbs(Apply(s, a), b);
    ApplyConcat(s, a, b);
    TwoSlots(h, c);
  }

  lemma LogsAtStop(p: Ring, q: Ring, h: seq<Cycle>)
    requires Fresh(p) && q == Run(p, h)
    ensures Log(q, 0) == Slot(h, |h| - 3) && Log(q, 1) == Slot(h, |h| - 2)
    ensures q.glob == Settled(p.ro, |h|, Committed(h, |h| - 3))
  {
    hide *;
    RingFiles(p, h);
    RingLogs(p, h, 0);
    RingLogs(p, h, 1);
  }

  /** Committing WB and EX3 at a stop commits the slots before n-1 of the run so far. */
  lemma StopCommits(p: Ring, q: Ring, h: seq<Cycle>, c: Cycle)
    requires Fresh(p) && q == Run(p, h) && h != []
    ensures Clean(Apply(Clean(Apply(q.glob, Log(q, 0))), Log(q, 1) + c.ex3))
         == Clean(Apply(p.ro, Committed(h + [c], |h| - 1)))
  {
    hide *;
    LogsAtStop(p, q, h);
    TwoCommits(p.ro, |h|, h, c, q.glob);
  }

  /** The cycles up to and including the EX3 half that a stop runs. */
  function StopHistory(p: Ring, pks: seq<Packet>, n: nat): seq<Cycle> {
    History(p, pks, n) + [StopCycle(Run(p, History(p, pks, n)), At(pks, n - 3), At(pks, n - 2))]
  }

  /** The slots up to that of the packet in EX3 are closed. */
  lemma StopFollows(p: Ring, pks: seq<Packet>, n: nat, s: int)
    requires Fresh(p) && s <= n - 2
    ensures Follows(p, pks, StopHistory(p, pks, n), s)
  {
    hide Run, Log, History, CheckedLog, Late3, Mid2, LateEx2, MachineCycle;
    var h := StopHistory(p, pks, n);
    HistoryPrefix(p, pks, n, n);
    if s + 1 >= 0 { CycleFollows(p, pks, n, s + 1); }
    if 0 <= s + 2 < n { CycleFollows(p, pks, n, s + 2); }
  }

  lemma CycleFollows(p: Ring, pks: seq<Packet>, n: nat, t: nat)
    requires Fresh(p) && t < n
    ensures
      var (h, q) := (StopHistory(p, pks, n), Run(p, History(p, pks, t)));
      && |h| == n + 1
      && h[t].ex2 == CheckedLog(pks, t - 1) + Mid2(At(pks, t - 1).mid)
      && h[t].ex3 == Late3(Log(q, 1), At(pks, t - 2).late)
  {
    hide Run, Log, History, FwdAll, Late3, Mid2, LateEx2, MachineCycle, StopCycle;
    HistoryPrefix(p, pks, n, n);
    HistoryPrefix(p, pks, n, t);
    Ex2Finds(p, pks, t);
    Ex1Is(Run(p, History(p, pks, t)), pks, t);
  }

  lemma StopIs(p: Ring, pks: seq<Packet>, n: nat, pc: Word, target: Word, r: nat)
    requires Fresh(p) && n > 0 && Observable(r)
    ensures Stopped(p, pks, n, pc, target).glob[r] == Clean(Apply(p.ro, Committed(StopHistory(p, pks, n), n - 1)))[r]
  {
    hide *;
    var h := History(p, pks, n);
    var q, wb, ex3 := Run(p, h), At(pks, n - 3), At(pks, n - 2);
    StoppedIs(p, pks, n, pc, target);
    HistoryPrefix(p, pks, n, n);
    StopFile(q, wb, ex3, pc, target, r);
    NotEmpty(h);
    StopCommits(p, q, h, StopCycle(q, wb, ex3));
  }

  lemma NotEmpty(h: seq<Cycle>)
    requires |h| > 0
    ensures h != []
  {}

  /** A stop after n cycles of a free run. */
  function Stopped(p: Ring, pks: seq<Packet>, n: nat, pc: Word, target: Word): Ring {
    Stop(Run(p, History(p, pks, n)), At(pks, n - 3), At(pks, n - 2), pc, target)
  }

  lemma StoppedIs(p: Ring, pks: seq<Packet>, n: nat, pc: Word, target: Word)
    ensures Stopped(p, pks, n, pc, target)
        == Stop(Run(p, History(p, pks, n)), At(pks, n - 3), At(pks, n - 2), pc, target)
    ensures StopHistory(p, pks, n)
        == History(p, pks, n) + [StopCycle(Run(p, History(p, pks, n)), At(pks, n - 3), At(pks, n - 2))]
  {}

  lemma StopCommitted(p: Ring, pks: seq<Packet>, n: nat, r: nat)
    requires Fresh(p) && n > 0 && Architectural(r) && PlacedAt(pks, r)
    ensures LastWrite(Committed(StopHistory(p, pks, n), n - 1), r) == SlotsValue(pks, n - 1, r)
  {
    hide LastWrite, Committed, StopHistory, Follows, SlotsValue, PlacedAt, Architectural;
    forall s: int | s < n - 1 ensures Follows(p, pks, StopHistory(p, pks, n), s) { StopFollows(p, pks, n, s); }
    SlotsLast(p, pks, StopHistory(p, pks, n), n - 1, r);
  }

  /** Hazards, write conflicts and repairs included: a stop leaves in r what the slots before
      that of the packet in EX2 leave, each of which is given by three packets. */
  lemma StopIsSlots(p: Ring, pks: seq<Packet>, n: nat, pc: Word, target: Word, r: nat)
    requires Fresh(p) && n > 0 && Observable(r) && r != CR0 && PlacedAt(pks, r)
    ensures Stopped(p, pks, n, pc, target).glob[r] == Settle(p.ro, r, SlotsValue(pks, n - 1, r))
  {
    hide Clean, Apply, Stopped, StopHistory, LastWrite, Committed, SlotsValue, Settle, PlacedAt;
    StopIs(p, pks, n, pc, target, r);
    StopCommitted(p, pks, n, r);
    CleanApplyAt(p.ro, Committed(StopHistory(p, pks, n), n - 1), r);
  }

  /** A stop saves the PC and the branch target, makes the files equal and empties the logs,
      and so does a step. */
  lemma StopSaves(q: Ring, wb: Packet, ex3: Packet, pc: Word, target: Word)
    ensures
      var t := Stop(q, wb, ex3, pc, target);
      && t.glob[SR9] == t.ro[SR9] == pc && t.glob[SR10] == t.ro[SR10] == target
      && t.ro == t.glob && t.wb == 0 && LogsEmpty(t)
  {
    hide UpdateRegisterFile, AppendCycle, StopCycle;
  }

  lemma StepSaves(q: Ring, pk: Packet, pc: Word, target: Word)
    ensures
      var t := Step(q, pk, pc, target);
      && t.glob[SR9] == t.ro[SR9] == pc && t.glob[SR10] == t.ro[SR10] == target
      && t.ro == t.glob && t.wb == 0 && LogsEmpty(t)
  {
    hide UpdateRegisterFile, Late3, LateEx2, Fwd, Mid2, SyncCpp;
  }

  // ---- when that is program order ----

  /** Both are values of r, the same once trimmed to its width. */
  predicate SameValue(r: nat, a: Option<Word>, b: Option<Word>) {
    a.Some? && b.Some? && Trim(r, a.value) == Trim(r, b.value)
  }

  /** Packet w is the last one up to EX3 that writes r, d packets before the one in EX3. If
      it writes r in EX1 only, the packet before it must not have put another value behind
      that write: in the EX2 log if d = 0, in EX3 if d > 1. If d = 1, what the slot behind it
      holds for r must be its own value. */
  predicate StopKeepsOrder(pks: seq<Packet>, n: nat, r: nat)
    requires n > 0
  {
    var w := LastWriter(pks, n - 1, r);
    var early := M(pks, w, r) == None && L(pks, w, r) == None;
    w >= 0 ==>
      if w == n - 2 then early ==> SameValue(r, X(pks, w, r), E(pks, w, r))
      else if w == n - 3 then X(pks, w + 1, r).Some? ==> SameValue(r, X(pks, w + 1, r), V(pks, w, r))
      else early && L(pks, w - 1, r).Some? ==> SameValue(r, L(pks, w - 1, r), E(pks, w, r))
  }

  lemma StopKeepsOrderIs(pks: seq<Packet>, n: nat, r: nat)
    requires n > 0 && Architectural(r) && NoExtra(pks, r)
    ensures
      StopKeepsOrder(pks, n, r) <==>
      (LastWriter(pks, n - 1, r) >= 0 ==> SameValue(r, SlotsValue(pks, n - 1, r), Meant(pks, n - 1, r)))
    ensures LastWriter(pks, n - 1, r) < 0 ==> SlotsValue(pks, n - 1, r) == Meant(pks, n - 1, r) == None
    ensures LastWriter(pks, n - 1, r) >= 0 ==> SlotsValue(pks, n - 1, r).Some? && Meant(pks, n - 1, r).Some?
  {
    hide E, M, L, X, LastWriter, Trim, NoExtra, Architectural, SlotsValue;
    var w := LastWriter(pks, n - 1, r);
    LastWriterIs(pks, n - 1, r);
    SlotsValueIs(pks, n - 1, n - 1, r);
    if w >= 0 {
      ArchitecturalNotCpp(r);
      ForwardedStays(pks, w, r);
    }
  }

  /** The condition for register r: order, or that of the repaired accumulators. */
  predicate StopInOrderAt(s: RegFile, pks: seq<Packet>, n: nat, r: nat)
    requires n > 0 && r < FILE_SIZE
  {
    if NoExtra(pks, r) then StopKeepsOrder(pks, n, r) else SlotsKeepOrder(s, pks, n - 1, r)
  }

  /** A stop after n cycles of a free run, hazards, write conflicts and repairs included: r
      holds the in-order result of the packets up to the one in EX3 if and only if the stage
      writes of the last of them that writes r, and of its neighbours, keep order; for an
      accumulator that a repair writes, if and only if the slots leave what is meant. */
  lemma StopIsPreciseIff(p: Ring, pks: seq<Packet>, n: nat, pc: Word, target: Word, r: nat)
    requires Fresh(p) && n > 0 && Observable(r) && r != CR0 && PlacedAt(pks, r)
    ensures
      Stopped(p, pks, n, pc, target).glob[r] == InOrder(p.ro, Take(pks, n - 1))[r] <==> StopInOrderAt(p.ro, pks, n, r)
  {
    hide Stopped, InOrder, SlotsValue, Meant, StopKeepsOrder, NoExtra, PlacedAt, Trim, LastWriter;
    StopIsSlots(p, pks, n, pc, target, r);
    InOrderIs(p.ro, pks, n - 1, r);
    if NoExtra(pks, r) { StopKeepsOrderIs(pks, n, r); }
  }

  /** A stop shows the in-order result of the packets up to the one in EX3, and nothing of
      those in EX2 and EX1, wherever the stage writes keep order and no repair interferes;
      CR0 is decided by the predicates. */
  lemma StopIsInOrder(p: Ring, pks: seq<Packet>, n: nat, pc: Word, target: Word, r: nat)
    requires Fresh(p) && n > 0 && Observable(r) && NoExtra(pks, r)
    requires forall q: nat | Decides(q, r) :: PlacedAt(pks, q) && StopKeepsOrder(pks, n, q)
    ensures Stopped(p, pks, n, pc, target).glob[r] == InOrder(p.ro, Take(pks, n - 1))[r]
  {
    hide Clean, Apply, LastWrite, Stopped, InOrder, AllNodes, Committed, StopHistory, NoExtra, PlacedAt, StopKeepsOrder;
    if r != CR0 {
      assert Decides(r, r);
      StopIsPreciseIff(p, pks, n, pc, target, r);
    } else {
      StopIs(p, pks, n, pc, target, r);
      InOrderIsAllNodes(p.ro, pks, n - 1);
      forall q: nat | Decides(q, r)
        ensures LastWrite(Committed(StopHistory(p, pks, n), n - 1), q) == LastWrite(AllNodes(pks, n - 1), q)
      {
        StopPredicate(p, pks, n, q);
      }
      SameWhereDecided(p.ro, Committed(StopHistory(p, pks, n), n - 1), AllNodes(pks, n - 1), r);
    }
  }

  /** Predicates are not trimmed. */
  lemma StopPredicate(p: Ring, pks: seq<Packet>, n: nat, q: nat)
    requires Fresh(p) && n > 0 && P0 < q < P0 + 16 && PlacedAt(pks, q) && StopKeepsOrder(pks, n, q)
    ensures LastWrite(Committed(StopHistory(p, pks, n), n - 1), q) == LastWrite(AllNodes(pks, n - 1), q)
  {
    hide LastWrite, Committed, StopHistory, AllNodes, PlacedAt, StopKeepsOrder, NoExtra, V, LastWriter, SlotsValue;
    OnlyAccumulators(pks, q);
    StopCommitted(p, pks, n, q);
    AllNodesLast(pks, n - 1, q);
    StopKeepsOrderIs(pks, n, q);
  }

  // ---- without hazards ----

  lemma SeenValue(n: Node, r: nat)
    ensures Touches(n, r) ==> LastWrite([n], r) == Some(ValueFor(n, r))
    ensures !Touches(n, r) ==> LastWrite([n], r) == None
  {}

  lemma OneValueFront(a: seq<Node>, n: Node, r: nat)
    requires OneValue(a + [n], r)
    ensures OneValue(a, r)
    ensures Touches(n, r) && LastWrite(a, r).Some? ==> LastWrite(a, r) == Some(ValueFor(n, r))
  {
    var all := a + [n];
    assert forall i | 0 <= i < |a| :: all[i] == a[i];
    assert all[|a|] == n;
    if Touches(n, r) && LastWrite(a, r).Some? {
      var i := LastIsAnEntry(a, r);
      assert Touches(all[i], r) && Touches(all[|a|], r);
    }
  }

  lemma UnrepairedIsNoExtra(pks: seq<Packet>, r: nat)
    requires Unrepaired(pks, r)
    ensures NoExtra(pks, r)
  {
    forall t | 0 <= t < |pks|
      ensures NoExtraIn(At(pks, t - 1), pks[t], r)
    {
      assert UnrepairedIn(At(pks, t - 1), pks[t], r);
    }
  }

  /** Whatever the conflict checks decide, late writes with one value for r leave the last
      write to r in the EX2 log as it is, or make it theirs. */
  lemma {:induction false} CheckedLast(log: seq<Node>, wb: Packet, ex3: Packet, ls: seq<LateReg>, r: nat)
    requires Architectural(r) && OneValue(Plain(Writes(ls)), r)
    requires forall j | 0 <= j < |ls| :: WellPlaced(ls[j].w) || !Touches(FwdNode(ls[j].w), r)
    requires forall j | 0 <= j < |ls| :: !RepairsAway(wb, ex3, ls[j].w, r)
    ensures
      var (was, now, own) := (LastWrite(log, r), LastWrite(LateEx2(log, wb, ex3, ls), r),
          LastWrite(Plain(Writes(ls)), r));
      now == was || (own.Some? && now == own)
  {
    if ls == [] { return; }
    var k := |ls| - 1;
    var l, front := ls[k], ls[..k];
    assert Plain(Writes(ls)) == Plain(Writes(front)) + [FwdNode(l.w)];
    hide FwdNode, WellPlaced, StageNode, Plain, OneValue, Touches, LastWrite, CheckedCopy, RepairsAway;
    OneValueFront(Plain(Writes(front)), FwdNode(l.w), r);
    CheckedLast(log, wb, ex3, front, r);
    CopyLast(LateEx2(log, wb, ex3, front), wb, ex3, l, r);
    SeenValue(FwdNode(l.w), r);
    LastWriteConcat(Plain(Writes(front)), [FwdNode(l.w)], r);
  }

  lemma CopyLast(log: seq<Node>, wb: Packet, ex3: Packet, l: LateReg, r: nat)
    requires Architectural(r) && (WellPlaced(l.w) || !Touches(FwdNode(l.w), r)) && !RepairsAway(wb, ex3, l.w, r)
    ensures
      var (was, now) := (LastWrite(log, r), LastWrite(CheckedCopy(log, l, Repairs(wb, ex3, l.w)), r));
      now == was || (Touches(FwdNode(l.w), r) && now == Some(ValueFor(FwdNode(l.w), r)))
  {
    hide FwdNode, WellPlaced, StageNode, Touches, LastWrite, Checked, Repairs, Stage2Entries, Architectural;
    var repair := Repairs(wb, ex3, l.w);
    var checked := Checked(log, l, repair).0;
    if repair { CheckedUntouched(log, l, repair, r); } else { CheckedUnrepaired(log, l); }
    SeenValue(FwdNode(l.w), r);
    Copies(l.w, checked, r);
  }

  lemma CheckedUnrepaired(log: seq<Node>, l: LateReg)
    ensures Checked(log, l, false).0 == log
  {}

  lemma Copies(w: MidReg, a: seq<Node>, r: nat)
    requires Architectural(r)
    ensures LastWrite(a + Stage2Entries(w), r) ==
            if WellPlaced(w) then OrElse(LastWrite([FwdNode(w)], r), LastWrite(a, r)) else LastWrite(a, r)
  {
    hide LastWrite, StageNode, FwdNode, WellPlaced, Architectural;
    CopySeen(w, a, Stage2Entries(w), r);
  }

  /** The checked slot behind packet t holds for r what was forwarded, or packet t's value. */
  lemma XIs(pks: seq<Packet>, t: int, r: nat)
    requires Architectural(r) && PlacedAt(pks, r) && Unrepaired(pks, r) && OneValue(Plain(Writes(At(pks, t).late)), r)
    ensures
      var was := OrElse(E(pks, t + 1, r), OrElse(M(pks, t, r), L(pks, t - 1, r)));
      X(pks, t + 1, r) == was || (L(pks, t, r).Some? && X(pks, t + 1, r) == L(pks, t, r))
  {
    hide LastWrite, FwdAll, Plain, OneValue, Touches, WellPlaced, FwdNode, LateEx2, StageNode, Repairs;
    var wb, ex3 := At(pks, t - 1), At(pks, t);
    ArchitecturalNotCpp(r);
    FwdAllLast(pks, t + 1, r);
    assert 0 <= t < |pks| ==> PlacedIn(pks[t], r) && UnrepairedIn(wb, pks[t], r);
    CheckedLast(FwdAll(pks, t + 1), wb, ex3, ex3.late, r);
  }

  // ---- the conflict check, register by register ----

  /** Neither a CP register, whose check looks at operands, nor a predicate, which a write
      of CR0 also changes. */
  predicate PlainRegister(r: nat) { Architectural(r) && r / 32 != TYP_CP && !(P0 < r < P0 + 16) }

  lemma TouchesPlain(n: Node, r: nat)
    requires PlainRegister(r)
    ensures Touches(n, r) <==> Target(n) == r
    ensures Touches(n, r) ==> ValueFor(n, r) == n.data
  {}

  /** The copy of a late write of r that is not repaired: it goes behind the log, unless the
      log has a write of r. */
  lemma CopyExact(log: seq<Node>, l: LateReg, r: nat)
    requires PlainRegister(r) && WellPlaced(l.w) && Touches(FwdNode(l.w), r)
    ensures LastWrite(CheckedCopy(log, l, false), r) == OrElse(LastWrite(log, r), Some(l.w.data))
  {
    CopiesAgreeIff(l.w);
    NamesRegister(l.w);
    TouchesPlain(FwdNode(l.w), r);
    assert Target(FwdNode(l.w)) == r && l.w.typ != TYP_CP;
    ConflictIs(log, l);
    UntouchedIff(log, r);
    Copies(l.w, log, r);
    SeenValue(FwdNode(l.w), r);
    hide Conflict, LastWrite, FwdNode, StageNode;
    if exists i | 0 <= i < |log| :: Target(log[i]) == r {
      var i :| 0 <= i < |log| && Target(log[i]) == r;
      TouchesPlain(log[i], r);
    } else {
      forall i | 0 <= i < |log| ensures !Touches(log[i], r) { TouchesPlain(log[i], r); }
    }
  }

  /** Late writes with one value for r reach the EX2 log only if it has no write of r. */
  lemma {:induction false} CheckedExact(log: seq<Node>, wb: Packet, ex3: Packet, ls: seq<LateReg>, r: nat)
    requires PlainRegister(r) && OneValue(Plain(Writes(ls)), r)
    requires forall j | 0 <= j < |ls| :: WellPlaced(ls[j].w) || !Touches(FwdNode(ls[j].w), r)
    requires forall j | 0 <= j < |ls| :: !RepairsAway(wb, ex3, ls[j].w, r)
    ensures LastWrite(LateEx2(log, wb, ex3, ls), r) == OrElse(LastWrite(log, r), LastWrite(Plain(Writes(ls)), r))
  {
    if ls == [] {
      NopPlain();
      NothingWritten(r);
      return;
    }
    var k := |ls| - 1;
    var l, front := ls[k], ls[..k];
    assert Plain(Writes(ls)) == Plain(Writes(front)) + [FwdNode(l.w)];
    hide FwdNode, WellPlaced, StageNode, Plain, OneValue, Touches, LastWrite, CheckedCopy, RepairsAway, Repairs,
        PlainRegister;
    OneValueFront(Plain(Writes(front)), FwdNode(l.w), r);
    CheckedExact(log, wb, ex3, front, r);
    assert Architectural(r) by { PlainIsArchitectural(r); }
    var before := LateEx2(log, wb, ex3, front);
    SeenValue(FwdNode(l.w), r);
    LastWriteConcat(Plain(Writes(front)), [FwdNode(l.w)], r);
    if Touches(FwdNode(l.w), r) {
      NotRepaired(wb, ex3, l.w, r);
      CopyExact(before, l, r);
      PlainValue(l.w, r);
    } else {
      CopyLast(before, wb, ex3, l, r);
    }
  }

  lemma PlainIsArchitectural(r: nat)
    requires PlainRegister(r)
    ensures Architectural(r)
  {}

  lemma PlainValue(w: Write, r: nat)
    requires PlainRegister(r) && w.Reg? && Touches(FwdNode(w), r)
    ensures ValueFor(FwdNode(w), r) == w.data
  {
    TouchesPlain(FwdNode(w), r);
  }

  lemma NotRepaired(wb: Packet, ex3: Packet, w: Write, r: nat)
    requires w.Reg? && WellPlaced(w) && Touches(FwdNode(w), r) && !RepairsAway(wb, ex3, w, r)
    ensures !Repairs(wb, ex3, w)
  {
    CopiesAgreeIff(w);
  }

  /** All late writes of a packet to r carry one value. */
  predicate OneLate(pks: seq<Packet>, r: nat) {
    forall t | 0 <= t < |pks| :: OneValue(Plain(Writes(pks[t].late)), r)
  }

  /** What the EX2 log of a cycle holds for r: the newest of what was forwarded in the cycle
      before, and only without any such write the late write of the packet in EX3. */
  lemma XExact(pks: seq<Packet>, t: int, r: nat)
    requires PlainRegister(r) && PlacedAt(pks, r) && Unrepaired(pks, r) && OneLate(pks, r)
    ensures X(pks, t + 1, r) == OrElse(E(pks, t + 1, r), OrElse(M(pks, t, r), OrElse(L(pks, t - 1, r), L(pks, t, r))))
  {
    hide LastWrite, FwdAll, Plain, OneValue, Touches, WellPlaced, FwdNode, LateEx2, StageNode, Repairs, RepairsAway,
        PlainRegister;
    var wb, ex3 := At(pks, t - 1), At(pks, t);
    PlainIsArchitectural(r);
    ArchitecturalNotCpp(r);
    FwdAllLast(pks, t + 1, r);
    assert 0 <= t < |pks|
        ==> PlacedIn(pks[t], r) && UnrepairedIn(wb, pks[t], r) && OneValue(Plain(Writes(pks[t].late)), r);
    if !(0 <= t < |pks|) { NoLateValue(r); }
    CheckedExact(FwdAll(pks, t + 1), wb, ex3, ex3.late, r);
  }

  lemma NoLateValue(r: nat)
    ensures OneValue(Plain(Writes(NOP.late)), r)
  {
    NopPlain();
  }

  /** `StopKeepsOrder` in the stage writes alone: with the last writer itself in EX3, order is
      kept; with it in WB, its EX2 write and, without one, the EX3 write of the packet before
      come behind its own EX1 write; later, that EX3 write comes behind an EX1 write only. */
  predicate StagesKeepOrder(pks: seq<Packet>, n: nat, r: nat)
    requires n > 0
  {
    var w := LastWriter(pks, n - 1, r);
    var m, before := M(pks, w, r), L(pks, w - 1, r);
    w >= 0 && w != n - 2 ==>
      if w == n - 3 then
        (m.Some? ==> SameValue(r, m, V(pks, w, r)))
            && (m == None && before.Some? ==> SameValue(r, before, V(pks, w, r)))
      else m == None && L(pks, w, r) == None && before.Some? ==> SameValue(r, before, E(pks, w, r))
  }

  lemma StagesKeepOrderIff(pks: seq<Packet>, n: nat, r: nat)
    requires n > 0 && PlainRegister(r) && PlacedAt(pks, r) && Unrepaired(pks, r) && OneLate(pks, r)
    ensures StopKeepsOrder(pks, n, r) <==> StagesKeepOrder(pks, n, r)
  {
    hide E, M, L, X, LastWriter, Trim, PlainRegister, PlacedAt, Unrepaired, OneLate;
    var w := LastWriter(pks, n - 1, r);
    LastWriterIs(pks, n - 1, r);
    XExact(pks, w - 1, r);
    XExact(pks, w, r);
    if w == n - 3 { Quiet(pks, n - 1, r, w + 1); }
  }

  /** A stop is in order at a plain register without repairs if and only if the stage writes
      of two packets are: the conflict check decides nothing else. */
  lemma PlainStopIff(p: Ring, pks: seq<Packet>, n: nat, pc: Word, target: Word, r: nat)
    requires Fresh(p) && n > 0 && Observable(r) && r != CR0
    requires PlainRegister(r) && PlacedAt(pks, r) && Unrepaired(pks, r) && OneLate(pks, r)
    ensures
      Stopped(p, pks, n, pc, target).glob[r] == InOrder(p.ro, Take(pks, n - 1))[r] <==> StagesKeepOrder(pks, n, r)
  {
    hide Stopped, InOrder, StopKeepsOrder, StagesKeepOrder, NoExtra, PlacedAt, Unrepaired, OneLate, PlainRegister;
    UnrepairedIsNoExtra(pks, r);
    StopIsPreciseIff(p, pks, n, pc, target, r);
    StagesKeepOrderIff(pks, n, r);
  }

  // ---- hazards ----

  lemma OwnAgrees(pks: seq<Packet>, w: nat, r: nat)
    requires HazardFree(pks, r)
    ensures M(pks, w, r) == None || L(pks, w, r) == None || M(pks, w, r) == L(pks, w, r)
    ensures L(pks, w, r) == None || OneValue(Plain(Writes(At(pks, w).late)), r)
  {
    hide Plain, OneValue, LastWrite;
    if L(pks, w, r).Some? {
      if w >= |pks| { NopWritesNothing(pks, w, r); }
      LateIsWritten(pks, w, r);
      assert WrittenLate(pks[w], r);
    }
  }

  lemma LateIsWritten(pks: seq<Packet>, t: nat, r: nat)
    requires t < |pks| && (L(pks, t, r).Some? || M(pks, t, r).Some?)
    ensures WrittenLate(pks[t], r)
  {
    LastWriteConcat(Plain(pks[t].mid), Plain(Writes(pks[t].late)), r);
  }

  lemma LateSilencesNext(pks: seq<Packet>, t: int, r: nat)
    requires HazardFree(pks, r)
    ensures 0 <= t && t + 1 < |pks| && L(pks, t, r).Some? ==> V(pks, t + 1, r) == None
  {
    hide Nodes, E, M, L, LastWrite, Plain, LateAgrees;
    if 0 <= t && t + 1 < |pks| && L(pks, t, r).Some? {
      LateIsWritten(pks, t, r);
      assert WrittenLate(pks[t], r);
      NodesLast(pks, t + 1, r);
      assert !WritesReg(Nodes(pks[t + 1]), r);
    }
  }

  /** The packet before a writer of r does not write r late. */
  lemma NoLateBefore(pks: seq<Packet>, w: nat, r: nat)
    requires HazardFree(pks, r) && V(pks, w, r).Some?
    ensures L(pks, w - 1, r) == None
  {
    hide E, M, L;
    LateSilencesNext(pks, w - 1, r);
    if w >= |pks| { NopWritesNothing(pks, w, r); }
    if w - 1 < 0 { NopWritesNothing(pks, w - 1, r); }
  }

  /** Nothing in the way of a precise stop at the register itself. */
  predicate Clear(pks: seq<Packet>, q: nat) { HazardFree(pks, q) && PlacedAt(pks, q) && Unrepaired(pks, q) }

  /** Without hazards and repairs every stop leaves in r exactly the value that is meant. */
  lemma ClearStop(pks: seq<Packet>, n: nat, r: nat)
    requires n > 0 && Clear(pks, r) && Architectural(r)
    ensures NoExtra(pks, r) && SlotsValue(pks, n - 1, r) == Meant(pks, n - 1, r)
  {
    hide E, M, L, X, LastWriter, PlacedAt, HazardFree, Architectural, SlotsValue, Unrepaired, NoExtra;
    var w := LastWriter(pks, n - 1, r);
    LastWriterIs(pks, n - 1, r);
    UnrepairedIsNoExtra(pks, r);
    SlotsValueIs(pks, n - 1, n - 1, r);
    if w >= 0 { ClearSlots(pks, n, r); }
  }

  lemma ClearSlots(pks: seq<Packet>, n: nat, r: nat)
    requires n > 0 && Clear(pks, r) && Architectural(r) && NoExtra(pks, r) && LastWriter(pks, n - 1, r) >= 0
    ensures var w := LastWriter(pks, n - 1, r); StopValue(pks, w, n - 2 - w, r) == V(pks, w, r)
  {
    hide E, M, L, X, LastWriter, PlacedAt, HazardFree, Architectural, Unrepaired, NoExtra, OneValue, Plain;
    var w := LastWriter(pks, n - 1, r);
    LastWriterIs(pks, n - 1, r);
    NoLateBefore(pks, w, r);
    QuietChecks(pks, w, r);
    if w < n - 2 {
      Quiet(pks, n - 1, r, w + 1);
      OwnAgrees(pks, w, r);
      if L(pks, w, r) == None { QuietChecks(pks, w + 1, r); } else { XIs(pks, w, r); }
    }
  }

  /** Without hazards and repairs both the drained run and every stop keep order. */
  lemma HazardFreeSuffices(pks: seq<Packet>, n: nat, r: nat)
    requires n > 0 && Clear(pks, r) && Architectural(r)
    ensures KeepsOrder(pks, r) && StopKeepsOrder(pks, n, r)
  {
    hide E, M, L, LastWriter, PlacedAt, HazardFree, Architectural, StopKeepsOrder, SlotsValue, NoExtra, Unrepaired;
    LastWriterIs(pks, |pks|, r);
    var w := LastWriter(pks, |pks|, r);
    if w >= 0 { NoLateBefore(pks, w, r); }
    ClearStop(pks, n, r);
    StopKeepsOrderIs(pks, n, r);
  }

  /** Precise stop: a stop after n cycles of a free run leaves, in every observable register
      without hazards and repairs (for CR0: whose predicates are without), exactly the
      in-order result of the packets up to the one in EX3, and nothing of the packets in EX2
      and EX1. */
  lemma StopIsPrecise(p: Ring, pks: seq<Packet>, n: nat, pc: Word, target: Word, r: nat)
    requires Fresh(p) && n > 0 && Observable(r)
    requires forall q: nat | Decides(q, r) :: Clear(pks, q)
    ensures Stopped(p, pks, n, pc, target).glob[r] == InOrder(p.ro, Take(pks, n - 1))[r]
  {
    hide Stopped, InOrder, Clear, NoExtra, PlacedAt, StopKeepsOrder, KeepsOrder;
    forall q: nat | Decides(q, r) ensures PlacedAt(pks, q) && StopKeepsOrder(pks, n, q) {
      DecidesArchitectural(q, r);
      HazardFreeSuffices(pks, n, q);
      ClearIs(pks, q);
    }
    if r != CR0 { assert Decides(r, r); ClearStop(pks, n, r); } else { OnlyAccumulators(pks, r); }
    StopIsInOrder(p, pks, n, pc, target, r);
  }

  lemma ClearIs(pks: seq<Packet>, q: nat)
    requires Clear(pks, q)
    ensures HazardFree(pks, q) && PlacedAt(pks, q) && Unrepaired(pks, q)
  {}

  ghost predicate StopsPrecisely(pks: seq<Packet>, r: nat) {
    Observable(r) && forall q: nat | Decides(q, r) :: Clear(pks, q)
  }

  lemma StopsAt(pks: seq<Packet>, r: nat)
    requires StopsPrecisely(pks, r)
    ensures Observable(r) && r < FILE_SIZE && forall q: nat | Decides(q, r) :: Clear(pks, q)
  {}

  lemma DecidesArchitectural(q: nat, r: nat)
    requires Decides(q, r) && Observable(r)
    ensures Architectural(q) && Observable(q)
  {}

  // ---- no hazards, no repairs ----

  /** What the decoder gives: the late operations of slot 0 write R or CR, and no other slot
      writes CR. */
  predicate Encoded(pk: Packet) {
    && (forall j | 0 <= j < |pk.late| && pk.late[j].w.typ == TYP_CR :: pk.late[j].w.cluster == 0)
    && (pk.slot0.LateOp? && pk.slot0.executes && pk.slot0.typ <= 8 && pk.slot0.num <= 15 ==>
          && (pk.slot0.typ == TYP_R || pk.slot0.typ == TYP_CR)
          && exists j | 0 <= j < |pk.late| ::
               pk.late[j].w.cluster == 0 && pk.late[j].w.typ == pk.slot0.typ && pk.late[j].w.num == pk.slot0.num)
  }

  /** Packets without hazards at any register never get a repair. */
  lemma HazardFreeUnrepaired(pks: seq<Packet>, r: nat)
    requires forall t | 0 <= t < |pks| :: Encoded(pks[t])
    requires forall q: nat | q < FILE_SIZE && Architectural(q) :: HazardFree(pks, q)
    ensures Unrepaired(pks, r)
  {
    hide HazardFree, Architectural, Encoded, Repairs;
    forall t, j | 0 <= t < |pks| && 0 <= j < |pks[t].late| ensures !Repairs(At(pks, t - 1), pks[t], pks[t].late[j].w) {
      if Repairs(At(pks, t - 1), pks[t], pks[t].late[j].w) { RepairIsHazard(pks, t, j); }
    }
  }

  /** So every stop of packets without hazards is precise where late writes are well placed. */
  lemma HazardFreeStops(pks: seq<Packet>, r: nat)
    requires Observable(r)
    requires forall t | 0 <= t < |pks| :: Encoded(pks[t])
    requires forall q: nat | q < FILE_SIZE && Architectural(q) :: HazardFree(pks, q)
    requires forall q: nat | Decides(q, r) :: PlacedAt(pks, q)
    ensures StopsPrecisely(pks, r)
  {
    hide HazardFree, Architectural, Encoded, PlacedAt, Unrepaired;
    forall q: nat | Decides(q, r) ensures Clear(pks, q) {
      DecidesArchitectural(q, r);
      HazardFreeUnrepaired(pks, q);
    }
  }

  lemma RepairIsHazard(pks: seq<Packet>, t: nat, j: nat)
    requires t < |pks| && j < |pks[t].late| && forall t | 0 <= t < |pks| :: Encoded(pks[t])
    requires forall q: nat | q < FILE_SIZE && Architectural(q) :: HazardFree(pks, q)
    ensures !Repairs(At(pks, t - 1), pks[t], pks[t].late[j].w)
  {
    hide HazardFree, Architectural, WritesReg, Nodes;
    var w := pks[t].late[j].w;
    if Repairs(At(pks, t - 1), pks[t], w) {
      assert t > 0 && Encoded(pks[t]) && Encoded(pks[t - 1]);
      var late := pks[t - 1].late;
      var i :| 0 <= i < |late| && late[i].w.cluster == 0 && late[i].w.typ == w.typ && late[i].w.num == w.num;
      var q := Target(FwdNode(w));
      assert Target(FwdNode(pks[t - 1].late[i].w)) == q;
      LateWrites(pks[t - 1], i);
      LateWrites(pks[t], j);
      TargetIsArchitectural(w);
      NotBoth(pks, t, q);
    }
  }

  lemma TargetIsArchitectural(w: Write)
    requires w.Reg?
    ensures Architectural(Target(FwdNode(w)))
  {}

  lemma NotBoth(pks: seq<Packet>, t: nat, q: nat)
    requires 0 < t < |pks| && WrittenLate(pks[t - 1], q) && HazardFree(pks, q)
    ensures !WritesReg(Nodes(pks[t]), q)
  {}

  lemma LateWrites(pk: Packet, j: nat)
    requires j < |pk.late|
    ensures var q := Target(FwdNode(pk.late[j].w)); WrittenLate(pk, q) && WritesReg(Nodes(pk), q)
  {
    hide FwdNode;
    var q := Target(FwdNode(pk.late[j].w));
    var late := Plain(Writes(pk.late));
    assert Touches(late[j], q);
    UntouchedIff(late, q);
    LastWriteConcat(Plain(pk.mid), late, q);
    LastWriteConcat(Plain(pk.early) + Plain(pk.mid), late, q);
  }

  // ---- stepping ----

  /** Before a step or a run CPP a is a copy of CP a, and nothing else changes. */
  lemma SyncIs(s: RegFile, r: nat)
    requires r < FILE_SIZE
    ensures SyncCpp(s)[r] == if r / 32 == 9 then s[Rf(3, r % 32)] else s[r]
  {}

  function StepAll(q: Ring, pks: seq<Packet>, pc: Word, target: Word): Ring {
    if pks == [] then q else Step(StepAll(q, pks[..|pks| - 1], pc, target), pks[|pks| - 1], pc, target)
  }

  predicate LogsEmpty(q: Ring) { forall i | 0 <= i < 8 :: q.logs[i] == [] }

  lemma StepFile(q: Ring, pk: Packet, pc: Word, target: Word, r: nat)
    requires LogsEmpty(q) && Observable(r)
    ensures LogsEmpty(Step(q, pk, pc, target)) && Step(q, pk, pc, target).ro == Step(q, pk, pc, target).glob
    ensures
      var l0 := Fwd(pk.early) + Mid2(pk.mid);
      Step(q, pk, pc, target).glob[r] == Clean(Apply(SyncCpp(q.glob), l0 + Late3(l0, pk.late)))[r]
  {
    hide Clean, Apply, Late3, LateEx2, Fwd, Mid2, SyncCpp;
    assert [] + Fwd(pk.early) == Fwd(pk.early);
  }

  /** The packet without its misplaced late writes. */
  function Dropped(pk: Packet): Packet { Packet(pk.early, PlacedMid(pk.mid), PlacedLate(pk.late), pk.slot0) }

  function DropAll(pks: seq<Packet>): seq<Packet> { seq(|pks|, i requires 0 <= i < |pks| => Dropped(pks[i])) }

  lemma StepLog(pk: Packet, r: nat)
    requires Architectural(r)
    ensures
      var l0 := Fwd(pk.early) + Mid2(pk.mid);
      LastWrite(l0 + Late3(l0, pk.late), r) == LastWrite(Nodes(Dropped(pk)), r)
  {
    hide LastWrite, Late3, Fwd, Mid2, Plain, PlacedMid, PlacedLate;
    var l0 := Fwd(pk.early) + Mid2(pk.mid);
    var d := Dropped(pk);
    FwdLast(pk.early, r);
    Mid2Last(pk.mid, r);
    Late3Last(l0, pk.late, r);
    LastWriteConcat(l0, Late3(l0, pk.late), r);
    LastWriteConcat(Fwd(pk.early), Mid2(pk.mid), r);
    LastWriteConcat(Plain(d.early) + Plain(d.mid), Plain(Writes(d.late)), r);
    LastWriteConcat(Plain(d.early), Plain(d.mid), r);
  }

  /** Stepping executes in order, with no hazard hypothesis at all, but loses the late writes
      to predicate and scalar registers of clusters 3 and 4. */
  lemma {:induction false} StepsDropMisplaced(q: Ring, pks: seq<Packet>, pc: Word, target: Word, r: nat)
    requires LogsEmpty(q) && Clean(q.glob) == q.glob && Observable(r)
    ensures LogsEmpty(StepAll(q, pks, pc, target))
    ensures StepAll(q, pks, pc, target).glob[r] == InOrder(q.glob, DropAll(pks))[r]
  {
    hide Step, Clean, Apply, LastWrite, Late3, Fwd, Mid2, Nodes, Dropped, SyncCpp;
    if pks == [] { return; }
    var front, pk := pks[..|pks| - 1], pks[|pks| - 1];
    assert DropAll(pks)[..|pks| - 1] == DropAll(front);
    StepsDropMisplaced(q, front, pc, target, r);
    var s, t := StepAll(q, front, pc, target), InOrder(q.glob, DropAll(front));
    var l0 := Fwd(pk.early) + Mid2(pk.mid);
    StepFile(s, pk, pc, target, r);
    forall x: nat | Decides(x, r)
      ensures x < FILE_SIZE && SyncCpp(s.glob)[x] == t[x]
          && LastWrite(l0 + Late3(l0, pk.late), x) == LastWrite(Nodes(Dropped(pk)), x)
    {
      DecidesArchitectural(x, r);
      StepsDropMisplaced(q, front, pc, target, x);
      SyncKeeps(s.glob, x);
      StepLog(pk, x);
    }
    StepAgrees(SyncCpp(s.glob), t, l0 + Late3(l0, pk.late), Nodes(Dropped(pk)), r);
  }

  lemma SyncKeeps(s: RegFile, r: nat)
    requires r < FILE_SIZE && !IsCpp(r)
    ensures SyncCpp(s)[r] == s[r]
  {}

  lemma {:induction false} DropChangesNothing(pks: seq<Packet>, m: nat, r: nat)
    requires PlacedAt(pks, r)
    ensures LastWrite(AllNodes(DropAll(pks), m), r) == LastWrite(AllNodes(pks, m), r)
  {
    hide LastWrite, Nodes, PlacedAt;
    if m > 0 {
      DropChangesNothing(pks, m - 1, r);
      LastWriteConcat(AllNodes(pks, m - 1), Nodes(At(pks, m - 1)), r);
      LastWriteConcat(AllNodes(DropAll(pks), m - 1), Nodes(At(DropAll(pks), m - 1)), r);
      NodesLast(pks, m - 1, r);
      NodesLast(DropAll(pks), m - 1, r);
      PlacedStages(pks, m - 1, r);
    }
  }

  /** Stepping executes in order wherever late writes are well placed. */
  lemma StepsInOrder(q: Ring, pks: seq<Packet>, pc: Word, target: Word, r: nat)
    requires LogsEmpty(q) && Clean(q.glob) == q.glob && Observable(r)
    requires forall x: nat | Decides(x, r) :: PlacedAt(pks, x)
    ensures StepAll(q, pks, pc, target).glob[r] == InOrder(q.glob, pks)[r]
  {
    hide Clean, Apply, StepAll, InOrder, LastWrite, AllNodes, PlacedAt;
    StepsDropMisplaced(q, pks, pc, target, r);
    InOrderIsAllNodes(q.glob, pks, |pks|);
    InOrderIsAllNodes(q.glob, DropAll(pks), |pks|);
    forall x: nat | Decides(x, r)
      ensures LastWrite(AllNodes(DropAll(pks), |pks|), x) == LastWrite(AllNodes(pks, |pks|), x)
    {
      DropChangesNothing(pks, |pks|, x);
    }
    SameWhereDecided(q.glob, AllNodes(DropAll(pks), |pks|), AllNodes(pks, |pks|), r);
  }

  /** Stepping every packet and running then draining end in the same committed register,
      wherever late writes are well placed, the packets keep order and no repair interferes. */
  lemma StepEqualsRun(p: Ring, pks: seq<Packet>, pc: Word, target: Word, r: nat)
    requires Fresh(p) && Clean(p.glob) == p.glob && Observable(r) && NoExtra(pks, r)
    requires forall x: nat | Decides(x, r) :: PlacedAt(pks, x) && KeepsOrder(pks, x)
    ensures StepAll(p, pks, pc, target).glob[r] == Run(p, History(p, pks, |pks| + 5)).glob[r]
  {
    hide Clean, Run, History, InOrder, StepAll, KeepsOrder, PlacedAt, NoExtra;
    StepsInOrder(p, pks, pc, target, r);
    RunIsInOrder(p, pks, r);
  }

  /** With well-placed late writes, stepping and running agree at a register if and only if
      the packets keep order there; at an accumulator that a repair writes, if and only if
      the slots leave what is meant. */
  lemma StepEqualsRunIff(p: Ring, pks: seq<Packet>, pc: Word, target: Word, r: nat)
    requires Fresh(p) && Clean(p.glob) == p.glob && Observable(r) && r != CR0 && PlacedAt(pks, r)
    ensures StepAll(p, pks, pc, target).glob[r] == Run(p, History(p, pks, |pks| + 5)).glob[r]
        <==> InOrderAt(p.ro, pks, r)
  {
    hide Clean, Run, History, InOrder, StepAll, InOrderAt, PlacedAt;
    assert forall x: nat | Decides(x, r) :: x == r;
    StepsInOrder(p, pks, pc, target, r);
    RunIsInOrderAt(p, pks, r);
  }

  // ---- a stop that shows the repair ----

  /** A stop behind the second of two loads of R1 shows both the second value in R1 and the
      first one in AC1, which no packet writes. */
  lemma StopShowsRepair(p: Ring, first: Word, second: Word, pc: Word, target: Word)
    requires Fresh(p)
    ensures
      var (pks, q) := (Loads(first, second), Stopped(p, Loads(first, second), 4, pc, target));
      && q.glob[AC1] == first && InOrder(p.ro, Take(pks, 3))[AC1] == p.ro[AC1]
      && q.glob[R1] == InOrder(p.ro, Take(pks, 3))[R1] == second
  {
    hide Loads, Stopped, InOrder, V, LastWriter, SlotsValue, PlacedAt, NoExtra, Fresh, Take, StopKeepsOrder, Trim;
    var pks := Loads(first, second);
    TwoLoads(first, second);
    LoadSlots(first, second, 3);
    AccumulatorPlaced(pks, AC1);
    StopIsSlots(p, pks, 4, pc, target, AC1);
    InOrderIs(p.ro, pks, 2, AC1);
    Untrimmed(AC1, first);
    Untrimmed(AC1, p.ro[AC1]);
    LoadsStopR(p, first, second, pc, target);
    TakeLoads(first, second);
  }

  lemma LoadsStopR(p: Ring, first: Word, second: Word, pc: Word, target: Word)
    requires Fresh(p)
    ensures
      var (pks, q) := (Loads(first, second), Stopped(p, Loads(first, second), 4, pc, target));
      q.glob[R1] == InOrder(p.ro, Take(pks, 3))[R1] == second
  {
    hide Loads, Stopped, InOrder, V, LastWriter, PlacedAt, NoExtra, Fresh, Take, StopKeepsOrder, Trim;
    var pks := Loads(first, second);
    TwoLoads(first, second);
    LoadsPlaced(first, second);
    OnlyAccumulators(pks, R1);
    StopIsPreciseIff(p, pks, 4, pc, target, R1);
    InOrderIs(p.ro, pks, 2, R1);
    Untrimmed(R1, second);
    TakeLoads(first, second);
  }

  lemma TakeLoads(first: Word, second: Word)
    ensures Take(Loads(first, second), 3) == Take(Loads(first, second), 2)
  {}

  lemma LoadsPlaced(first: Word, second: Word)
    ensures PlacedAt(Loads(first, second), R1) && StopKeepsOrder(Loads(first, second), 4, R1)
  {
    hide E, M, L, CheckedLog;
    var pks := Loads(first, second);
    TwoLoads(first, second);
    LoadStages(first, second, 0, R1);
    LoadStages(first, second, 1, R1);
    LoadStages(first, second, 2, R1);
    assert V(pks, 2, R1) == None;
    assert LastWriter(pks, 3, R1) == 1;
    RepairedLog(first, second);
    var a, b: seq<Node> := [Node(TYP_AC, 1, first)], [Node(TYP_R, 1, second)];
    LastWriteConcat(a, b, R1);
    assert CheckedLog(pks, 2) == a + b;
    assert LastWrite(b, R1) == Some(second);
  }
}
