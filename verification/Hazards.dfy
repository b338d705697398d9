/** Free runs: the register file that a drained run leaves is the one that results from
    doing every write when its stage is reached, and when that is program order. */
module Hazards {
  import opened Registers
  import opened WriteLog
  import opened Pipeline
  import opened Drain
  import opened Stages
  import opened Slots

  /** The writes of the first n cycles: in each, EX3 of the packet two back, EX2 of the
      one before, EX1 of the newest. */
  function TimeOrder(pks: seq<Packet>, n: int): seq<Node> {
    if n <= 0 then []
    else TimeOrder(pks, n - 1) + CycleWrites(pks, n - 1)
  }

  function CycleWrites(pks: seq<Packet>, t: int): seq<Node> {
    Plain(Writes(At(pks, t - 2).late)) + Plain(At(pks, t - 1).mid) + Plain(At(pks, t).early)
  }

  lemma CycleWritesLast(pks: seq<Packet>, t: int, r: nat)
    ensures LastWrite(CycleWrites(pks, t), r) == OrElse(E(pks, t, r), OrElse(M(pks, t - 1, r), L(pks, t - 2, r)))
  {
    var late, mid := Plain(Writes(At(pks, t - 2).late)), Plain(At(pks, t - 1).mid);
    LastWriteConcat(late + mid, Plain(At(pks, t).early), r);
    LastWriteConcat(late, mid, r);
  }

  lemma {:induction false} ForwardedIsTimeOrder(p: Ring, pks: seq<Packet>, n: nat, r: nat)
    requires !IsCpp(r)
    ensures |History(p, pks, n)| == n
    ensures LastWrite(Forwarded(History(p, pks, n), n), r) == LastWrite(TimeOrder(pks, n), r)
  {
    hide MachineCycle, Run, LastWrite, CycleWrites, E, M, L, FwdAll;
    if n > 0 {
      var g, c := History(p, pks, n - 1), MachineCycle(Run(p, History(p, pks, n - 1)), pks, n - 1);
      ForwardedIsTimeOrder(p, pks, n - 1, r);
      ForwardedExtends(g, c, n - 1);
      LastWriteConcat(Forwarded(g, n - 1), c.ex1, r);
      LastWriteConcat(TimeOrder(pks, n - 1), CycleWrites(pks, n - 1), r);
      CycleWritesLast(pks, n - 1, r);
      Ex1Is(Run(p, g), pks, n - 1);
      FwdAllLast(pks, n - 1, r);
    }
  }

  /** With no hypothesis on the packets at all, a drained run leaves in the forwarded file
      what the writes leave in the order in which the stages are reached, and in the
      committed file too unless a scalar repair writes the register. */
  lemma RunIsTimeOrder(p: Ring, pks: seq<Packet>, r: nat)
    requires Fresh(p) && r < FILE_SIZE && Architectural(r)
    ensures
      var q := Run(p, History(p, pks, |pks| + 5));
      && q.ro[r] == Clean(Apply(p.ro, TimeOrder(pks, |pks| + 5)))[r]
      && (NoExtra(pks, r) ==> q.glob[r] == q.ro[r])
  {
    hide Clean, Apply, Run, History, LastWrite, TimeOrder, Forwarded, Committed, NoExtra;
    var n := |pks| + 5;
    var h := History(p, pks, n);
    if NoExtra(pks, r) { PacketsDrain(p, pks, r); }
    HistoryPrefix(p, pks, n, n);
    RingFiles(p, h);
    SettledMore(p.ro, n, Forwarded(h, n));
    forall x: nat | Decides(x, r) ensures LastWrite(Forwarded(h, n), x) == LastWrite(TimeOrder(pks, n), x) {
      ForwardedIsTimeOrder(p, pks, n, x);
    }
    SameWhereDecided(p.ro, Forwarded(h, n), TimeOrder(pks, n), r);
  }

  /** In the forwarded file CPP follows CP, up to its width, throughout every run. */
  lemma PointersFollow(p: Ring, pks: seq<Packet>, n: nat, a: nat)
    requires Fresh(p) && a < 32 && Trim(Rf(3, a), p.ro[Rf(9, a)]) == p.ro[Rf(3, a)]
    ensures var q := Run(p, History(p, pks, n)); Trim(Rf(3, a), q.ro[Rf(9, a)]) == q.ro[Rf(3, a)]
  {
    hide Clean, Apply, Run, History, LastWrite, Forwarded, Trim;
    HistoryPrefix(p, pks, n, n);
    RingFiles(p, History(p, pks, n));
    if n > 0 {
      var nodes := Forwarded(History(p, pks, n), n);
      SettledMore(p.ro, n, nodes);
      ForwardedMirrors(p, pks, n, a);
      CleanApplyAt(p.ro, nodes, Rf(3, a));
      CleanApplyAt(p.ro, nodes, Rf(9, a));
      var last := LastWrite(nodes, Rf(9, a));
      CppWidth(a, if last.Some? then last.value else p.ro[Rf(9, a)]);
      TrimTwice(Rf(3, a), p.ro[Rf(9, a)]);
    } else {
      NoCycles(p, pks);
    }
  }

  lemma NoCycles(p: Ring, pks: seq<Packet>)
    ensures Run(p, History(p, pks, 0)) == p
  {}

  lemma CppWidth(a: nat, w: Word)
    requires a < 32
    ensures Trim(Rf(9, a), w) == w
  {}

  lemma {:induction false} ForwardedMirrors(p: Ring, pks: seq<Packet>, n: nat, a: nat)
    requires a < 32
    ensures |History(p, pks, n)| == n
    ensures var nodes := Forwarded(History(p, pks, n), n); LastWrite(nodes, Rf(9, a)) == LastWrite(nodes, Rf(3, a))
  {
    hide MachineCycle, Run, LastWrite, FwdAll;
    if n > 0 {
      var g, c := History(p, pks, n - 1), MachineCycle(Run(p, History(p, pks, n - 1)), pks, n - 1);
      ForwardedMirrors(p, pks, n - 1, a);
      ForwardedExtends(g, c, n - 1);
      Ex1Is(Run(p, g), pks, n - 1);
      FwdAllMirrors(pks, n - 1, a);
      LastWriteConcat(Forwarded(g, n - 1), c.ex1, Rf(9, a));
      LastWriteConcat(Forwarded(g, n - 1), c.ex1, Rf(3, a));
    } else {
      NothingWritten(Rf(9, a));
      NothingWritten(Rf(3, a));
    }
  }

  lemma FwdAllMirrors(pks: seq<Packet>, s: int, a: nat)
    requires a < 32
    ensures LastWrite(FwdAll(pks, s), Rf(9, a)) == LastWrite(FwdAll(pks, s), Rf(3, a))
  {
    hide LastWrite, Fwd;
    var (late, mid, early) := (At(pks, s - 2).late, At(pks, s - 1).mid, At(pks, s).early);
    FwdMirrors(Writes(late), a);
    FwdMirrors(mid, a);
    FwdMirrors(early, a);
    LastWriteConcat(Fwd(Writes(late)) + Fwd(mid), Fwd(early), Rf(9, a));
    LastWriteConcat(Fwd(Writes(late)) + Fwd(mid), Fwd(early), Rf(3, a));
    LastWriteConcat(Fwd(Writes(late)), Fwd(mid), Rf(9, a));
    LastWriteConcat(Fwd(Writes(late)), Fwd(mid), Rf(3, a));
  }

  // ---- when that is program order ----

  lemma {:induction false} TimeOrderLast(pks: seq<Packet>, n: nat, r: nat)
    requires n >= LastWriter(pks, |pks|, r) + 3
    ensures LastWrite(TimeOrder(pks, n), r) ==
            var w := LastWriter(pks, |pks|, r); if w >= 0 then DrainedValue(pks, w, r) else None
    decreases n
  {
    hide LastWrite, LastWriter, CycleWrites, E, M, L;
    var w := LastWriter(pks, |pks|, r);
    LastWriterIs(pks, |pks|, r);
    if n > w + 3 {
      TimeOrderLast(pks, n - 1, r);
      QuietCycle(pks, n - 1, r);
      LastWriteConcat(TimeOrder(pks, n - 1), CycleWrites(pks, n - 1), r);
    } else if w >= 0 {
      LastThree(pks, w, r);
    } else {
      TwoQuietCycles(pks, r);
    }
  }

  lemma LaterQuiet(pks: seq<Packet>, r: nat, t: int)
    requires t > LastWriter(pks, |pks|, r) || t < 0
    ensures E(pks, t, r) == M(pks, t, r) == L(pks, t, r) == None
  {
    hide E, M, L, LastWriter;
    Quiet(pks, |pks|, r, t);
  }

  lemma QuietCycle(pks: seq<Packet>, t: int, r: nat)
    requires t - 2 > LastWriter(pks, |pks|, r)
    ensures LastWrite(CycleWrites(pks, t), r) == None
  {
    hide E, M, L, LastWriter, LastWrite, CycleWrites;
    CycleWritesLast(pks, t, r);
    LaterQuiet(pks, r, t);
    LaterQuiet(pks, r, t - 1);
    LaterQuiet(pks, r, t - 2);
  }

  /** The three cycles of the last writer. */
  lemma LastThree(pks: seq<Packet>, w: nat, r: nat)
    requires w == LastWriter(pks, |pks|, r) && V(pks, w, r).Some?
    ensures LastWrite(TimeOrder(pks, w + 3), r) == DrainedValue(pks, w, r)
  {
    hide E, M, L, LastWriter, LastWrite, CycleWrites;
    LaterQuiet(pks, r, w + 1);
    LaterQuiet(pks, r, w + 2);
    CycleWritesLast(pks, w, r);
    CycleWritesLast(pks, w + 1, r);
    CycleWritesLast(pks, w + 2, r);
    LastWriteConcat(TimeOrder(pks, w), CycleWrites(pks, w), r);
    LastWriteConcat(TimeOrder(pks, w + 1), CycleWrites(pks, w + 1), r);
    LastWriteConcat(TimeOrder(pks, w + 2), CycleWrites(pks, w + 2), r);
  }

  lemma TwoQuietCycles(pks: seq<Packet>, r: nat)
    requires LastWriter(pks, |pks|, r) == -1
    ensures LastWrite(TimeOrder(pks, 2), r) == None
  {
    hide E, M, L, LastWriter, CycleWrites;
    LaterQuiet(pks, r, 0);
    LaterQuiet(pks, r, 1);
    LaterQuiet(pks, r, -1);
    LaterQuiet(pks, r, -2);
    CycleWritesLast(pks, 0, r);
    CycleWritesLast(pks, 1, r);
    LastWriteConcat(TimeOrder(pks, 1), CycleWrites(pks, 1), r);
    LastWriteConcat(TimeOrder(pks, 0), CycleWrites(pks, 0), r);
  }

  /** Not: the last packet that writes r does so in EX1 only, and the packet before it
      writes another value to r in EX3. */
  predicate KeepsOrder(pks: seq<Packet>, r: nat) {
    var w := LastWriter(pks, |pks|, r);
    w >= 0 && M(pks, w, r) == None && L(pks, w, r) == None && L(pks, w - 1, r).Some? && E(pks, w, r).Some? ==>
      Trim(r, L(pks, w - 1, r).value) == Trim(r, E(pks, w, r).value)
  }

  /** A drained run leaves in r the in-order result if and only if the packets keep order at
      r: hazards of any other kind do no harm. */
  lemma RunIsInOrderIff(p: Ring, pks: seq<Packet>, r: nat)
    requires Fresh(p) && r < FILE_SIZE && Architectural(r) && r != CR0
    ensures
      var (q, s) := (Run(p, History(p, pks, |pks| + 5)), InOrder(p.ro, pks));
      && (q.ro[r] == s[r] <==> KeepsOrder(pks, r))
      && (NoExtra(pks, r) ==> (q.glob[r] == s[r] <==> KeepsOrder(pks, r)))
  {
    hide Clean, Apply, Run, History, LastWrite, TimeOrder, InOrder, AllNodes, E, M, L, LastWriter, Trim, NoExtra;
    DrainedIs(p, pks, r);
    InOrderIs(p.ro, pks, |pks|, r);
    LastWriterIs(pks, |pks|, r);
  }

  lemma DrainedIs(p: Ring, pks: seq<Packet>, r: nat)
    requires Fresh(p) && r < FILE_SIZE && Architectural(r) && r != CR0
    ensures
      var (q, w) := (Run(p, History(p, pks, |pks| + 5)), LastWriter(pks, |pks|, r));
      && q.ro[r] == Settle(p.ro, r, if w >= 0 then DrainedValue(pks, w, r) else None)
      && (NoExtra(pks, r) ==> q.glob[r] == q.ro[r])
  {
    hide Clean, Apply, Run, History, LastWrite, TimeOrder, DrainedValue, LastWriter, Settle, NoExtra;
    RunIsTimeOrder(p, pks, r);
    CleanApplyAt(p.ro, TimeOrder(pks, |pks| + 5), r);
    LastWriterIs(pks, |pks|, r);
    TimeOrderLast(pks, |pks| + 5, r);
  }

  /** What the first m packets mean for r. */
  function Meant(pks: seq<Packet>, m: nat, r: nat): Option<Word> {
    var w := LastWriter(pks, m, r);
    if w >= 0 then V(pks, w, r) else None
  }

  lemma InOrderIs(s: RegFile, pks: seq<Packet>, m: nat, r: nat)
    requires r < FILE_SIZE && r != CR0
    ensures InOrder(s, Take(pks, m))[r] == Settle(s, r, Meant(pks, m, r))
    ensures m >= |pks| ==> Take(pks, m) == pks
  {
    hide Clean, Apply, LastWrite, AllNodes, V, LastWriter, Settle, InOrder;
    InOrderIsAllNodes(s, pks, m);
    AllNodesLast(pks, m, r);
    CleanApplyAt(s, AllNodes(pks, m), r);
  }

  /** A free run followed by the drain ends in the in-order result in both files, wherever
      the packets keep order and no repair interferes; CR0 is decided by the predicates. */
  lemma RunIsInOrder(p: Ring, pks: seq<Packet>, r: nat)
    requires Fresh(p) && r < FILE_SIZE && Architectural(r) && NoExtra(pks, r)
    requires forall q: nat | Decides(q, r) :: KeepsOrder(pks, q)
    ensures
      var q := Run(p, History(p, pks, |pks| + 5));
      q.ro[r] == q.glob[r] == InOrder(p.ro, pks)[r]
  {
    hide Clean, Apply, Run, History, LastWrite, TimeOrder, InOrder, AllNodes, KeepsOrder, NoExtra;
    RunIsTimeOrder(p, pks, r);
    if r != CR0 {
      assert Decides(r, r);
      RunIsInOrderIff(p, pks, r);
    } else {
      InOrderIsAllNodes(p.ro, pks, |pks|);
      forall q: nat | Decides(q, r)
        ensures LastWrite(TimeOrder(pks, |pks| + 5), q) == LastWrite(AllNodes(pks, |pks|), q)
      {
        PredicateKept(pks, q);
      }
      SameWhereDecided(p.ro, TimeOrder(pks, |pks| + 5), AllNodes(pks, |pks|), r);
    }
  }

  /** Predicates are not trimmed. */
  lemma PredicateKept(pks: seq<Packet>, q: nat)
    requires P0 < q < P0 + 16 && KeepsOrder(pks, q)
    ensures LastWrite(TimeOrder(pks, |pks| + 5), q) == LastWrite(AllNodes(pks, |pks|), q)
  {
    hide LastWrite, TimeOrder, AllNodes, E, M, L, LastWriter;
    LastWriterIs(pks, |pks|, q);
    TimeOrderLast(pks, |pks| + 5, q);
    AllNodesLast(pks, |pks|, q);
  }

  // ---- accumulators that the scalar repair writes ----

  /** Whatever the repairs do, the committed register of a drained run is that of the slots,
      each of which is given by three packets. */
  lemma DrainedSlots(p: Ring, pks: seq<Packet>, r: nat)
    requires Fresh(p) && r < FILE_SIZE && r != CR0 && Architectural(r) && PlacedAt(pks, r)
    ensures Run(p, History(p, pks, |pks| + 5)).glob[r] == Settle(p.ro, r, SlotsValue(pks, |pks| + 2, r))
  {
    hide Clean, Apply, Run, History, LastWrite, Committed, Forwarded, Follows, SlotsValue, Settle, PlacedAt,
        Architectural;
    var n := |pks| + 5;
    var h := History(p, pks, n);
    HistoryPrefix(p, pks, n, n);
    RingFiles(p, h);
    SettledMore(p.ro, n, Committed(h, n - 3));
    forall s: int | s < n - 3 ensures Follows(p, pks, h, s) { HistoryFollows(p, pks, n, s); }
    SlotsLast(p, pks, h, n - 3, r);
    CleanApplyAt(p.ro, Committed(h, n - 3), r);
  }

  /** What the first m slots leave in r is what the first m packets mean. */
  predicate SlotsKeepOrder(s: RegFile, pks: seq<Packet>, m: nat, r: nat)
    requires r < FILE_SIZE
  {
    Settle(s, r, SlotsValue(pks, m, r)) == Settle(s, r, Meant(pks, m, r))
  }

  /** An accumulator is in order in the committed file if and only if the slots, with the
      entries that repairs have moved into it, leave what the packets mean; and both files
      agree if and only if they leave what was forwarded. */
  lemma AccumulatorIff(p: Ring, pks: seq<Packet>, r: nat)
    requires Fresh(p) && Accumulator(r)
    ensures
      var (q, w) := (Run(p, History(p, pks, |pks| + 5)), LastWriter(pks, |pks|, r));
      && (q.glob[r] == InOrder(p.ro, pks)[r] <==> SlotsKeepOrder(p.ro, pks, |pks| + 2, r))
      && (q.glob[r] == q.ro[r] <==>
            Settle(p.ro, r, SlotsValue(pks, |pks| + 2, r))
                == Settle(p.ro, r, if w >= 0 then DrainedValue(pks, w, r) else None))
  {
    hide Run, History, InOrder, SlotsValue, Settle, Meant, DrainedValue, LastWriter, NoExtra;
    AccumulatorPlaced(pks, r);
    DrainedSlots(p, pks, r);
    DrainedIs(p, pks, r);
    InOrderIs(p.ro, pks, |pks| + 2, r);
  }

  /** The condition for register r: that of the repaired accumulators, or order. */
  predicate InOrderAt(s: RegFile, pks: seq<Packet>, r: nat)
    requires r < FILE_SIZE
  {
    if NoExtra(pks, r) then KeepsOrder(pks, r) else SlotsKeepOrder(s, pks, |pks| + 2, r)
  }

  /** For the whole committed file: in order everywhere if and only if it is so at every
      register; CR0 follows from the predicates. */
  lemma RunIsInOrderEverywhereIff(p: Ring, pks: seq<Packet>)
    requires Fresh(p)
    ensures
      (forall r: nat | r < FILE_SIZE && Architectural(r) ::
         Run(p, History(p, pks, |pks| + 5)).glob[r] == InOrder(p.ro, pks)[r])
      <==> (forall r: nat | r < FILE_SIZE && Architectural(r) && r != CR0 :: InOrderAt(p.ro, pks, r))
  {
    hide Run, History, InOrder, InOrderAt;
    forall r: nat | r < FILE_SIZE && Architectural(r) && r != CR0
      ensures Run(p, History(p, pks, |pks| + 5)).glob[r] == InOrder(p.ro, pks)[r] <==> InOrderAt(p.ro, pks, r)
    {
      RunIsInOrderAt(p, pks, r);
    }
    if forall r: nat | r < FILE_SIZE && Architectural(r) && r != CR0 :: InOrderAt(p.ro, pks, r) {
      InOrderAtCr0(p, pks);
    }
  }

  lemma RunIsInOrderAt(p: Ring, pks: seq<Packet>, r: nat)
    requires Fresh(p) && r < FILE_SIZE && Architectural(r) && r != CR0
    ensures Run(p, History(p, pks, |pks| + 5)).glob[r] == InOrder(p.ro, pks)[r] <==> InOrderAt(p.ro, pks, r)
  {
    hide Run, History, InOrder, KeepsOrder, NoExtra, SlotsKeepOrder;
    if NoExtra(pks, r) { RunIsInOrderIff(p, pks, r); } else { OnlyAccumulators(pks, r); AccumulatorIff(p, pks, r); }
  }

  lemma InOrderAtCr0(p: Ring, pks: seq<Packet>)
    requires Fresh(p) && forall r: nat | r < FILE_SIZE && Architectural(r) && r != CR0 :: InOrderAt(p.ro, pks, r)
    ensures Run(p, History(p, pks, |pks| + 5)).glob[CR0] == InOrder(p.ro, pks)[CR0]
  {
    hide Run, History, InOrder, KeepsOrder, NoExtra, SlotsKeepOrder;
    OnlyAccumulators(pks, CR0);
    forall q: nat | Decides(q, CR0) ensures KeepsOrder(pks, q) {
      OnlyAccumulators(pks, q);
      assert Architectural(q) && InOrderAt(p.ro, pks, q);
    }
    RunIsInOrder(p, pks, CR0);
  }

  // ---- two packets that do not keep order ----

  /** R1 := late in EX3 of one packet, R1 := early in EX1 of the next. */
  function Clash(late: Word, early: Word): seq<Packet> {
    [Packet([], [], [Late(Reg(0, TYP_R, 1, late), false)], NotLate), Packet([Reg(0, TYP_R, 1, early)], [], [], NotLate)]
  }

  const R1: nat := 32 * TYP_R + 1

  lemma ClashStages(late: Word, early: Word)
    ensures
      var pks := Clash(late, early);
      && E(pks, 1, R1) == Some(early) && M(pks, 1, R1) == None && L(pks, 1, R1) == None && L(pks, 0, R1) == Some(late)
      && LastWriter(pks, |pks|, R1) == 1 && |pks| == 2
  {
    var pks := Clash(late, early);
    NopPlain();
    assert Writes(pks[0].late) == [Reg(0, TYP_R, 1, late)];
    assert Plain([Reg(0, TYP_R, 1, late)]) == [FwdNode(Reg(0, TYP_R, 1, late))];
    assert Plain(pks[1].early) == [FwdNode(Reg(0, TYP_R, 1, early))];
  }

  /** Whatever the values, the drained run of these two packets keeps the older one. */
  lemma HazardReorders(p: Ring, late: Word, early: Word)
    requires Fresh(p)
    ensures Run(p, History(p, Clash(late, early), 7)).glob[R1] == late
    ensures InOrder(p.ro, Clash(late, early))[R1] == early
  {
    hide Clash, Run, History, InOrder, E, M, L, LastWriter, NoExtra;
    var pks := Clash(late, early);
    ClashStages(late, early);
    OnlyAccumulators(pks, R1);
    DrainedIs(p, pks, R1);
    InOrderIs(p.ro, pks, |pks|, R1);
  }

  // ---- two loads that write an accumulator ----

  /** LW R1 := first, LW R1 := second. */
  function Loads(first: Word, second: Word): seq<Packet> { [Load(first), Load(second)] }

  function Load(v: Word): Packet { Packet([], [], [Late(Reg(0, TYP_R, 1, v), false)], LateOp(TYP_R, 1, true)) }

  const AC1: nat := 32 * TYP_AC + 1

  lemma LoadStages(first: Word, second: Word, t: int, r: nat)
    ensures
      var pks := Loads(first, second);
      && E(pks, t, r) == M(pks, t, r) == None
      && L(pks, t, r) == if r != R1 then None else if t == 0 then Some(first) else if t == 1 then Some(second) else None
  {
    var pks := Loads(first, second);
    NopPlain();
    if 0 <= t < 2 {
      var w := Reg(0, TYP_R, 1, if t == 0 then first else second);
      assert Writes(pks[t].late) == [w] && Plain([w]) == [FwdNode(w)];
    }
  }

  /** The log of the second load's EX2 cycle: the repair turns the first load's entry into
      an entry for AC1, and R1 goes to the end. */
  lemma RepairedLog(first: Word, second: Word)
    ensures CheckedLog(Loads(first, second), 2) == [Node(TYP_AC, 1, first), Node(TYP_R, 1, second)]
  {
    var pks := Loads(first, second);
    var w0, l := Reg(0, TYP_R, 1, first), pks[1].late[0];
    var log := [Node(TYP_R, 1, first)];
    NopPlain();
    assert Writes(pks[0].late) == [w0];
    assert Fwd([w0]) == log;
    assert FwdAll(pks, 2) == log;
    assert log[0].typ == TYP_R && log[0].addr == 1;
    assert StageNode(l.w) == Node(TYP_R, 1, second);
    var repaired := log[0 := Node(TYP_AC, 1, first)];
    assert repaired == [Node(TYP_AC, 1, first)];
    assert !HasEntry(repaired, TYP_R, 1);
    assert Checked(log, l, true) == (repaired, false);
    assert pks[1].late[..0] == [];
    assert LateEx2(log, pks[0], pks[1], []) == log;
  }

  lemma LoadSlots(first: Word, second: Word, m: nat)
    requires 3 <= m <= 4
    ensures SlotsValue(Loads(first, second), m, AC1) == Some(first)
  {
    hide CheckedLog, E, M, L;
    var pks := Loads(first, second);
    LoadStages(first, second, 0, AC1);
    LoadStages(first, second, 1, AC1);
    LoadStages(first, second, 2, AC1);
    LoadStages(first, second, 3, AC1);
    RepairedLog(first, second);
    var a, b: seq<Node> := [Node(TYP_AC, 1, first)], [Node(TYP_R, 1, second)];
    assert LastWrite(a, AC1) == Some(first) && LastWrite(b, AC1) == None;
    LastWriteConcat(a, b, AC1);
    assert CheckedLog(pks, 2) == a + b;
    assert SlotValue(pks, 2, AC1) == Some(first);
    assert At(pks, 2) == NOP;
    QuietChecks(pks, 3, AC1);
    assert SlotValue(pks, 3, AC1) == None;
    assert SlotsValue(pks, 3, AC1) == Some(first);
  }

  /** Two loads of R1, one behind the other: the drained run leaves the first one's value in
      AC1, which no packet writes and which the forwarded file does not show. */
  lemma RepairWritesAccumulator(p: Ring, first: Word, second: Word)
    requires Fresh(p)
    ensures
      var (pks, q) := (Loads(first, second), Run(p, History(p, Loads(first, second), 7)));
      && q.glob[AC1] == first
      && q.ro[AC1] == InOrder(p.ro, pks)[AC1] == p.ro[AC1]
      && q.glob[R1] == q.ro[R1] == InOrder(p.ro, pks)[R1] == second
  {
    hide *;
    LoadsDrainAc(p, first, second);
    LoadsDrainR(p, first, second);
  }

  lemma LoadsDrainAc(p: Ring, first: Word, second: Word)
    requires Fresh(p)
    ensures
      var (pks, q) := (Loads(first, second), Run(p, History(p, Loads(first, second), 7)));
      q.glob[AC1] == first && q.ro[AC1] == InOrder(p.ro, pks)[AC1] == p.ro[AC1]
  {
    hide Loads, Run, History, InOrder, V, DrainedValue, LastWriter, NoExtra, SlotsValue, PlacedAt, Fresh, Trim;
    var pks := Loads(first, second);
    TwoLoads(first, second);
    LoadSlots(first, second, 4);
    AccumulatorPlaced(pks, AC1);
    DrainedSlots(p, pks, AC1);
    DrainedIs(p, pks, AC1);
    InOrderIs(p.ro, pks, 2, AC1);
    Untrimmed(AC1, first);
    Untrimmed(AC1, p.ro[AC1]);
  }

  lemma LoadsDrainR(p: Ring, first: Word, second: Word)
    requires Fresh(p)
    ensures
      var (pks, q) := (Loads(first, second), Run(p, History(p, Loads(first, second), 7)));
      q.glob[R1] == q.ro[R1] == InOrder(p.ro, pks)[R1] == second
  {
    hide Loads, Run, History, InOrder, V, DrainedValue, LastWriter, NoExtra, Fresh, Trim;
    var pks := Loads(first, second);
    TwoLoads(first, second);
    OnlyAccumulators(pks, R1);
    DrainedIs(p, pks, R1);
    InOrderIs(p.ro, pks, 2, R1);
    Untrimmed(R1, second);
  }

  lemma Untrimmed(r: nat, w: Word)
    requires r == AC1 || r == R1
    ensures Trim(r, w) == w
  {}

  lemma TwoLoads(first: Word, second: Word)
    ensures
      var pks := Loads(first, second);
      && |pks| == 2 && LastWriter(pks, 2, AC1) == -1 && LastWriter(pks, 2, R1) == 1
      && DrainedValue(pks, 1, R1) == V(pks, 1, R1) == Some(second)
  {
    hide E, M, L;
    LoadStages(first, second, 0, AC1);
    LoadStages(first, second, 1, AC1);
    LoadStages(first, second, 0, R1);
    LoadStages(first, second, 1, R1);
    assert LastWriter(Loads(first, second), 1, AC1) == -1;
  }
}
