/** Drain: what is forwarded is what is committed, three cycles later, with no
    assumption about hazards (pac-exec.cpp:793-826, pac-dsp.cpp:297-320). */
module Drain {
  import opened Registers
  import opened WriteLog
  import opened Pipeline

  /** If cycle t forwards nothing to r, it changes no write to r in the older slots. */
  predicate Paired(h: seq<Cycle>, t: nat, r: nat)
    requires t < |h|
  {
    LastWrite(h[t].ex1, r) == None ==>
      LastWrite(h[t].ex2, r) == LastWrite(Ex1(h, t - 1), r) && LastWrite(h[t].ex3, r) == None
  }

  predicate AllPaired(h: seq<Cycle>, r: nat) { forall t: nat | t < |h| :: Paired(h, t, r) }

  lemma {:induction false} UntouchedIff(nodes: seq<Node>, r: nat)
    ensures LastWrite(nodes, r) == None <==> forall i | 0 <= i < |nodes| :: !Touches(nodes[i], r)
  {
    if nodes != [] { UntouchedIff(nodes[..|nodes| - 1], r); }
  }

  lemma AppendUntouched(a: seq<Node>, b: seq<Node>, r: nat)
    requires LastWrite(b, r) == None
    ensures LastWrite(a + b, r) == LastWrite(a, r)
  {
    LastWriteConcat(a, b, r);
  }

  /** A cycle that does not forward r does not change the last write to r of older slots. */
  lemma {:induction false} CommittedQuiet(h: seq<Cycle>, c: Cycle, m: int, r: nat)
    requires m <= |h| && LastWrite(c.ex3, r) == None && LastWrite(c.ex2, r) == LastWrite(Ex1(h, |h| - 1), r)
    ensures LastWrite(Committed(h + [c], m), r) == LastWrite(Committed(h, m), r)
    decreases m + 2
  {
    hide Slot, LastWrite;
    if m > -2 {
      CommittedQuiet(h, c, m - 1, r);
      SlotGrows(h, c, m - 1);
      if m == |h| { OpenSlot(h); }
      if m == |h| - 1 { AppendUntouched(Slot(h, m - 1), c.ex3, r); }
      LastWriteConcat(Committed(h, m - 1), Slot(h, m - 1), r);
      LastWriteConcat(Committed(h + [c], m - 1), Slot(h + [c], m - 1), r);
    }
  }

  lemma OpenSlot(h: seq<Cycle>)
    ensures Slot(h, |h| - 1) == Ex1(h, |h| - 1)
  {}

  /** The last forwarded write to a register is its last write over all slots. */
  lemma {:induction false} ForwardedIsCommitted(h: seq<Cycle>, r: nat)
    requires AllPaired(h, r)
    ensures LastWrite(Committed(h, |h|), r) == LastWrite(Forwarded(h, |h|), r)
  {
    hide Slot, LastWrite, Paired;
    if h != [] {
      var n := |h| - 1;
      var g, c := h[..n], h[n];
      assert h == g + [c];
      PairedPrefix(h, n, r);
      ForwardedIsCommitted(g, r);
      OpenSlot(h);
      ForwardedExtends(g, c, n);
      LastWriteConcat(Forwarded(g, n), c.ex1, r);
      LastWriteConcat(Committed(h, n), c.ex1, r);
      PairedLast(h, g, r);
      if LastWrite(c.ex1, r) == None { CommittedQuiet(g, c, n, r); }
    } else {
      assert Slot(h, -1) == [] && Slot(h, -2) == [] by { EmptySlots(); }
      assert Committed(h, -2) == [] && Committed(h, -1) == [] && Committed(h, 0) == [];
    }
  }

  lemma PairedPrefix(h: seq<Cycle>, n: nat, r: nat)
    requires AllPaired(h, r) && n <= |h|
    ensures AllPaired(h[..n], r)
  {
    hide LastWrite;
    forall t: nat | t < n ensures Paired(h[..n], t, r) { assert Paired(h, t, r); }
  }

  lemma PairedLast(h: seq<Cycle>, g: seq<Cycle>, r: nat)
    requires h != [] && g == h[..|h| - 1] && AllPaired(h, r)
    ensures
      var c := h[|h| - 1];
      LastWrite(c.ex1, r) == None ==>
        LastWrite(c.ex2, r) == LastWrite(Ex1(g, |g| - 1), r) && LastWrite(c.ex3, r) == None
  {
    hide LastWrite;
    assert Paired(h, |h| - 1, r);
  }

  lemma EmptySlots()
    ensures Slot([], -1) == [] && Slot([], -2) == []
  {}

  /** Cycle t writes nothing. */
  predicate Idle(h: seq<Cycle>, t: nat)
    requires t < |h|
  {
    h[t].ex1 == [] && h[t].ex3 == [] && h[t].ex2 == Ex1(h, t - 1)
  }

  predicate EndsIdle(h: seq<Cycle>) {
    |h| >= 3 && Idle(h, |h| - 1) && Idle(h, |h| - 2) && Idle(h, |h| - 3)
  }

  lemma IdleSlots(h: seq<Cycle>)
    requires EndsIdle(h)
    ensures Slot(h, |h| - 1) == [] && Slot(h, |h| - 2) == [] && Slot(h, |h| - 3) == []
  {}

  lemma IdleTail(h: seq<Cycle>)
    requires EndsIdle(h)
    ensures Committed(h, |h|) == Committed(h, |h| - 3)
  {
    hide Slot;
    IdleSlots(h);
    UnfoldLogs(h, 0, |h|);
    UnfoldLogs(h, 0, |h| - 1);
    UnfoldLogs(h, 0, |h| - 2);
  }

  /** The registers that decide register r after a clean-up: itself, but P1..P15 for CR0. */
  predicate Decides(q: int, r: nat) { if r == CR0 then P0 < q < P0 + 16 else q == r }

  /** Three cycles without writes make the committed file equal the forwarded one. */
  lemma DrainedFilesAgree(p: Ring, h: seq<Cycle>, r: nat)
    requires Fresh(p) && EndsIdle(h) && r < FILE_SIZE
    requires forall q: nat | Decides(q, r) :: AllPaired(h, q)
    ensures Run(p, h).glob[r] == Run(p, h).ro[r]
  {
    hide Slot, LastWrite, Committed, Forwarded, Clean, Apply, Run, AllPaired, EndsIdle;
    AtLeastThree(h);
    RingFiles(p, h);
    IdleTail(h);
    SettledMore(p.ro, |h|, Forwarded(h, |h|));
    SettledMore(p.ro, |h|, Committed(h, |h| - 3));
    var a, b := Committed(h, |h| - 3), Forwarded(h, |h|);
    forall q: nat | Decides(q, r) ensures LastWrite(a, q) == LastWrite(b, q) {
      ForwardedIsCommitted(h, q);
    }
    SameWhereDecided(p.ro, a, b, r);
  }

  lemma AtLeastThree(h: seq<Cycle>)
    requires EndsIdle(h)
    ensures |h| >= 3
  {}

  lemma SameWhereDecided(s: RegFile, a: seq<Node>, b: seq<Node>, r: nat)
    requires r < FILE_SIZE && forall q: nat | Decides(q, r) :: LastWrite(a, q) == LastWrite(b, q)
    ensures Clean(Apply(s, a))[r] == Clean(Apply(s, b))[r]
  {
    hide LastWrite, Clean, Apply;
    assert r != CR0 ==> Decides(r, r);
    assert r == CR0 ==> forall q: nat | P0 < q < P0 + 16 :: Decides(q, r);
    SameLastWrites(s, a, b, r);
  }

  /** Cycle t writes in EX1 only. */
  predicate EarlyOnly(h: seq<Cycle>, t: nat)
    requires t < |h|
  {
    h[t].ex3 == [] && h[t].ex2 == Ex1(h, t - 1)
  }

  lemma {:induction false} EarlySlots(h: seq<Cycle>, g: seq<Cycle>, m: int)
    requires forall t: nat | t < |h| :: EarlyOnly(h, t)
    requires m <= |g| <= |h| && g == h[..|g|]
    ensures Committed(h, m) == Forwarded(g, m)
    decreases m + 2
  {
    if m > -2 {
      EarlySlots(h, g, m - 1);
      if 0 <= m < |h| { assert EarlyOnly(h, m); }
      if 0 <= m + 1 < |h| { assert EarlyOnly(h, m + 1); }
      assert Slot(h, m - 1) == Ex1(g, m - 1);
    }
  }

  /** With EX1 writers only, the committed file is the forwarded file of three cycles earlier. */
  lemma CommitLagsByThree(p: Ring, h: seq<Cycle>)
    requires Fresh(p) && |h| > 3
    requires forall t: nat | t < |h| :: EarlyOnly(h, t)
    ensures Run(p, h).glob == Run(p, h[..|h| - 3]).ro
  {
    hide Slot, Committed, Forwarded, Clean, Apply, Run, EarlyOnly;
    var g := h[..|h| - 3];
    RingFiles(p, h);
    RingFiles(p, g);
    EarlySlots(h, g, |h| - 3);
  }

  // ---- the machine's own cycles are paired ----

  /** P16..P31 and R16..R31: registers that only a misplaced late copy names. */
  predicate Spare(r: int) { 176 <= r < 192 || 208 <= r < 224 }

  /** The copies of a misplaced late write go to spare registers, and those of any other
      write never do. */
  lemma MisplacedIsSpare(w: Write)
    requires w.Reg?
    ensures Spare(Target(StageNode(w))) <==> !WellPlaced(w)
    ensures !Spare(Target(FwdNode(w)))
  {}

  /** Where the forwarded entry of a late write does not touch r, its copies do not. */
  lemma CopyUntouched(w: Write, n: Node, log: seq<Node>, r: nat)
    requires w.Reg? && !Spare(r) && LastWrite(FwdEntries(w), r) == None
    requires n in Stage2Entries(w) || n in Stage3Entries(log, w)
    ensures !Touches(n, r)
  {
    UntouchedIff(FwdEntries(w), r);
    MisplacedIsSpare(w);
    CopiesAgreeIff(w);
  }

  lemma FwdSplit(ws: seq<Write>, w: Write, r: nat)
    ensures LastWrite(Fwd(ws + [w]), r) == OrElse(LastWrite(FwdEntries(w), r), LastWrite(Fwd(ws), r))
  {
    hide LastWrite, FwdEntries;
    assert (ws + [w])[..|ws|] == ws;
    LastWriteConcat(Fwd(ws), FwdEntries(w), r);
  }

  lemma {:induction false} Late3Untouched(log: seq<Node>, ls: seq<LateReg>, r: nat)
    requires !Spare(r) && LastWrite(Fwd(Writes(ls)), r) == None
    ensures LastWrite(Late3(log, ls), r) == None
  {
    hide LastWrite, FwdEntries, Stage3Entries, Fwd, StageNode;
    if ls != [] {
      var front, w := ls[..|ls| - 1], ls[|ls| - 1].w;
      assert Writes(ls) == Writes(front) + [w];
      FwdSplit(Writes(front), w, r);
      Late3Untouched(log, front, r);
      var es := Stage3Entries(log + Late3(log, front) + [StageNode(w)], w);
      forall i | 0 <= i < |es| ensures !Touches(es[i], r) {
        CopyUntouched(w, es[i], log + Late3(log, front) + [StageNode(w)], r);
      }
      UntouchedIff(es, r);
      AppendUntouched(Late3(log, front), es, r);
    } else {
      UntouchedIff([], r);
    }
  }

  lemma {:induction false} Mid2Untouched(ws: seq<MidReg>, r: nat)
    requires !Spare(r) && LastWrite(Fwd(ws), r) == None
    ensures LastWrite(Mid2(ws), r) == None
  {
    hide LastWrite, FwdEntries, Stage2Entries, Fwd;
    if ws != [] {
      var front, w := ws[..|ws| - 1], ws[|ws| - 1];
      assert ws == front + [w];
      FwdSplit(front, w, r);
      Mid2Untouched(front, r);
      forall i | 0 <= i < |Stage2Entries(w)| ensures !Touches(Stage2Entries(w)[i], r) {
        CopyUntouched(w, Stage2Entries(w)[i], [], r);
      }
      UntouchedIff(Stage2Entries(w), r);
      AppendUntouched(Mid2(front), Stage2Entries(w), r);
    } else {
      UntouchedIff([], r);
    }
  }

  lemma {:induction false} ReplaceUntouched(log: seq<Node>, i: nat, n: Node, r: nat)
    requires i < |log| && !Touches(log[i], r) && !Touches(n, r)
    ensures LastWrite(log[i := n], r) == LastWrite(log, r)
  {
    if i < |log| - 1 {
      assert log[i := n][..|log| - 1] == log[..|log| - 1][i := n];
      ReplaceUntouched(log[..|log| - 1], i, n, r);
    }
  }

  /** The conflict check concerns r only through its own register and the accumulator that
      a repair writes. */
  lemma CheckedUntouched(log: seq<Node>, l: LateReg, repair: bool, r: nat)
    requires !Touches(StageNode(l.w), r) && (repair ==> 32 * TYP_AC + StageNode(l.w).addr != r)
    ensures LastWrite(Checked(log, l, repair).0, r) == LastWrite(log, r)
  {
    var n := StageNode(l.w);
    if repair && HasEntry(log, n.typ, n.addr) {
      var i := FirstEntry(log, n.typ, n.addr);
      ReplaceUntouched(log, i, Node(TYP_AC, n.addr, log[i].data), r);
    }
  }

  /** Late writes that do not forward r, and repair nothing into r, leave the writes to r in
      the EX2 log as they are. */
  lemma {:induction false} LateEx2Untouched(log: seq<Node>, wb: Packet, ex3: Packet, ls: seq<LateReg>, r: nat)
    requires !Spare(r) && LastWrite(Fwd(Writes(ls)), r) == None
    requires forall j | 0 <= j < |ls| && Repairs(wb, ex3, ls[j].w) :: 32 * TYP_AC + StageNode(ls[j].w).addr != r
    ensures LastWrite(LateEx2(log, wb, ex3, ls), r) == LastWrite(log, r)
  {
    hide LastWrite, FwdEntries, Stage2Entries, Fwd, StageNode, Checked;
    if ls != [] {
      var front, l := ls[..|ls| - 1], ls[|ls| - 1];
      assert Writes(ls) == Writes(front) + [l.w];
      FwdSplit(Writes(front), l.w, r);
      LateEx2Untouched(log, wb, ex3, front, r);
      var before := LateEx2(log, wb, ex3, front);
      FirstCopy(l.w);
      forall i | 0 <= i < |Stage2Entries(l.w)| ensures !Touches(Stage2Entries(l.w)[i], r) {
        CopyUntouched(l.w, Stage2Entries(l.w)[i], [], r);
      }
      CheckedUntouched(before, l, Repairs(wb, ex3, l.w), r);
      UntouchedIff(Stage2Entries(l.w), r);
      AppendUntouched(Checked(before, l, Repairs(wb, ex3, l.w)).0, Stage2Entries(l.w), r);
    }
  }

  lemma FirstCopy(w: Write)
    requires w.Reg?
    ensures Stage2Entries(w) != [] && Stage2Entries(w)[0] == StageNode(w)
  {}

  lemma {:induction false} HistoryPrefix(p: Ring, pks: seq<Packet>, n: nat, t: nat)
    requires t <= n
    ensures |History(p, pks, n)| == n
    ensures History(p, pks, n)[..t] == History(p, pks, t)
    ensures t < n ==> History(p, pks, n)[t] == MachineCycle(Run(p, History(p, pks, t)), pks, t)
  {
    hide MachineCycle, Run;
    if t < n {
      HistoryPrefix(p, pks, n - 1, t);
      assert History(p, pks, n)[..t] == History(p, pks, n - 1)[..t];
    } else if n > 0 {
      HistoryPrefix(p, pks, n - 1, n - 1);
    }
  }

  /** In a run from empty logs, the EX2 log before a cycle is what the cycle before forwarded. */
  lemma Ex2LogIs(p: Ring, pks: seq<Packet>, t: nat)
    requires Fresh(p)
    ensures |History(p, pks, t)| == t && Log(Run(p, History(p, pks, t)), 2) == Ex1(History(p, pks, t), t - 1)
  {
    hide Run, Slot, Log;
    HistoryPrefix(p, pks, t, t);
    RingLogs(p, History(p, pks, t), 2);
    OpenSlot(History(p, pks, t));
  }

  lemma CyclePaired(q: Ring, pks: seq<Packet>, t: int, r: nat)
    requires !Spare(r) && NoExtra(pks, r)
    ensures
      var c := MachineCycle(q, pks, t);
      LastWrite(c.ex1, r) == None ==> LastWrite(c.ex2, r) == LastWrite(Log(q, 2), r) && LastWrite(c.ex3, r) == None
  {
    hide LateEx2, Late3, Mid2, Fwd, LastWrite, Log;
    var late, mid, early := At(pks, t - 2).late, At(pks, t - 1).mid, At(pks, t).early;
    LastWriteConcat(Fwd(Writes(late)) + Fwd(mid), Fwd(early), r);
    LastWriteConcat(Fwd(Writes(late)), Fwd(mid), r);
    if LastWrite(MachineCycle(q, pks, t).ex1, r) == None {
      Late3Untouched(Log(q, 1), late, r);
      Mid2Untouched(mid, r);
      assert 0 <= t - 2 < |pks| ==> NoExtraIn(At(pks, t - 3), pks[t - 2], r);
      LateEx2Untouched(Log(q, 2), At(pks, t - 3), At(pks, t - 2), late, r);
      AppendUntouched(LateEx2(Log(q, 2), At(pks, t - 3), At(pks, t - 2), late), Mid2(mid), r);
    }
  }

  lemma HistoryPaired(p: Ring, pks: seq<Packet>, n: nat, r: nat)
    requires Fresh(p) && !Spare(r) && NoExtra(pks, r)
    ensures |History(p, pks, n)| == n && AllPaired(History(p, pks, n), r)
  {
    hide MachineCycle, Run, LastWrite, Log, History, NoExtra;
    HistoryPrefix(p, pks, n, n);
    forall t: nat | t < n ensures Paired(History(p, pks, n), t, r) {
      HistoryPrefix(p, pks, n, t);
      Ex2LogIs(p, pks, t);
      CyclePaired(Run(p, History(p, pks, t)), pks, t, r);
      assert Ex1(History(p, pks, n), t - 1) == Ex1(History(p, pks, n)[..t], t - 1);
    }
  }

  lemma NopCycle(q: Ring, pks: seq<Packet>, t: int)
    requires t >= |pks| + 2
    ensures MachineCycle(q, pks, t) == Cycle([], Log(q, 2), [])
  {
    assert Writes([]) == [];
  }

  lemma HistoryEndsIdle(p: Ring, pks: seq<Packet>)
    requires Fresh(p)
    ensures EndsIdle(History(p, pks, |pks| + 5))
  {
    hide MachineCycle, Run, Log, History;
    var n := |pks| + 5;
    HistoryPrefix(p, pks, n, n);
    forall t | n - 3 <= t < n
      ensures Idle(History(p, pks, n), t)
    {
      HistoryPrefix(p, pks, n, t);
      Ex2LogIs(p, pks, t);
      NopCycle(Run(p, History(p, pks, t)), pks, t);
      assert Ex1(History(p, pks, n), t - 1) == Ex1(History(p, pks, n)[..t], t - 1);
    }
  }

  /** Any packets, hazards, write conflicts and misplaced late writes included: five cycles
      after the last packet entered EX1 the forwarded and the committed files agree, but for
      the registers that only misplaced copies name and the accumulators that repairs write. */
  lemma PacketsDrain(p: Ring, pks: seq<Packet>, r: nat)
    requires Fresh(p) && r < FILE_SIZE && !Spare(r) && NoExtra(pks, r)
    ensures Run(p, History(p, pks, |pks| + 5)).glob[r] == Run(p, History(p, pks, |pks| + 5)).ro[r]
  {
    hide AllPaired, Run, History, EndsIdle, NoExtra;
    HistoryEndsIdle(p, pks);
    forall q: nat | Decides(q, r) ensures AllPaired(History(p, pks, |pks| + 5), q) {
      OnlyAccumulators(pks, q);
      HistoryPaired(p, pks, |pks| + 5, q);
    }
    DrainedFilesAgree(p, History(p, pks, |pks| + 5), r);
  }
}
