/** Instruction fetch, branch delay slots and the debugger: the exec table ring, the fetch
    PC and the delay-slot counter (sc-pac-if-direct.cpp, pac-dsp.cpp, sc-pac-ex2.cpp),
    against a delayed-branch machine that executes one packet at a time. */
module Fetch {

  type Addr = a: int | 0 <= a <= 0xFFFF_FFFF

  datatype Outcome = NotTaken | Taken(to: Addr)

  /** What fetching and executing a packet tell the control logic: the address of the
      next packet in memory, whether slot 0 holds a branch opcode, and what the branch
      does as the k-th packet executed. */
  datatype Program = Program(next: Addr -> Addr, branch: Addr -> bool, outcome: (Addr, nat) -> Outcome)

  /** One executed packet; a branch also records the fetch PC that it links. */
  datatype Executed = Executed(pc: Addr, link: Outcome)

  // ---- reference: one packet at a time, five delay slots ----

  /** `left` packets remain before control moves to `target`. */
  datatype Isa = Isa(pc: Addr, left: nat, target: Addr)

  function Skip(p: Program, pc: Addr, n: nat): Addr
    decreases n
  {
    if n == 0 then pc else Skip(p, p.next(pc), n - 1)
  }

  function Decide(p: Program, pc: Addr, k: nat): Outcome { if p.branch(pc) then p.outcome(pc, k) else NotTaken }

  function IsaStep(p: Program, s: Isa, k: nat): Isa {
    match Decide(p, s.pc, k)
    case Taken(to) => Isa(p.next(s.pc), 5, to)
    case NotTaken =>
      if s.left == 0 then Isa(p.next(s.pc), 0, s.target)
      else if s.left == 1 then Isa(s.target, 0, s.target)
      else Isa(p.next(s.pc), s.left - 1, s.target)
  }

  function IsaRun(p: Program, s: Isa, n: nat): Isa { if n == 0 then s else IsaStep(p, IsaRun(p, s, n - 1), n - 1) }

  /** A branch links the packet after its five slots. */
  function IsaExecutes(p: Program, s: Isa): Executed {
    Executed(s.pc, if p.branch(s.pc) then Taken(Skip(p, s.pc, 6)) else NotTaken)
  }

  function IsaTrace(p: Program, s: Isa, n: nat): seq<Executed> {
    if n == 0 then [] else IsaTrace(p, s, n - 1) + [IsaExecutes(p, IsaRun(p, s, n - 1))]
  }

  /** No delay slot holds a branch, and no packet lies at the address that marks a bubble. */
  ghost predicate SlotsPlain(p: Program, s: Isa) { forall n: nat :: SlotPlain(p, IsaRun(p, s, n)) }

  predicate SlotPlain(p: Program, s: Isa) { s.left <= 5 && (s.left > 0 ==> !p.branch(s.pc)) && s.pc != BUBBLE_PC }

  // ---- the machine ----

  const NORMAL: nat := 0xFFFF_FFFF
  const BREAK: nat := 0x8000_0000
  const BUBBLE_PC: Addr := 0xFFFF_FFFF

  /** An exec_table entry: a fetched packet, the bubble behind a taken branch or from a
      reset, or the zeroes of `clear_pipeline`. */
  datatype Entry = Fetched(pc: Addr) | Bubble | Cleared

  function PcOf(e: Entry): Addr { match e case Fetched(pc) => pc case Bubble => BUBBLE_PC case Cleared => 0 }

  datatype RawState = State(wb: nat, exec: seq<Entry>, fetchPc: Addr, occur: bool, target: Addr,
                            sm: nat, pipeEmpty: int, tmp: int, halted: bool, done: seq<Executed>)

  type State = s: RawState | s.wb < 8 && |s.exec| == 8
    witness State(0, seq(8, _ => Cleared), 0, false, 0, NORMAL, 0, 0, true, [])

  /** The entry k slots after WB: 2 is EX2, 3 is EX1, 7 was fetched last. */
  function Slot(s: State, k: nat): Entry { s.exec[(s.wb + k) % 8] }

  predicate Breaking(sm: nat) { sm / BREAK % 2 == 1 }

  function Push(s: State, e: Entry): State { s.(exec := s.exec[s.wb := e], wb := (s.wb + 1) % 8) }

  /** The delay-slot counter after a fetch (the three-way test of `sc_pac_pipeline_if`). */
  function Count(s: State, isStep: bool): State {
    if s.sm == NORMAL then s
    else if isStep then
      if s.sm > 0 && (s.sm - 1) % 256 == 0 then s.(sm := NORMAL, fetchPc := s.target) else s.(sm := Decrement(s.sm))
    else if Breaking(s.sm) then
      if s.pipeEmpty == 0 then s
      else
        var t := s.(tmp := s.tmp - 1, pipeEmpty := s.pipeEmpty - 1,
                    sm := if s.pipeEmpty == 1 then s.sm - BREAK else s.sm);
        if t.tmp == 0 then t.(occur := true, fetchPc := s.target) else t
    else if s.sm > 0 && (s.sm - 1) % 256 == 0 then s.(sm := NORMAL)
    else s.(sm := Decrement(s.sm))
  }

  /** A 32-bit decrement. */
  function Decrement(sm: nat): nat { if sm == 0 then NORMAL else sm - 1 }

  /** `sc_pac_pipeline_if` while no TRAP is pending. */
  function PipelineIf(p: Program, s: State, isStep: bool): State {
    if s.occur then Push(s, Bubble).(occur := false)
    else Count(Push(s, Fetched(s.fetchPc)).(fetchPc := p.next(s.fetchPc)), isStep)
  }

  /** The branch functions of EX2; `link` is the fetch PC that they read. */
  function Branch(p: Program, s: State, pc: Addr, link: Addr): State {
    var s1 := s.(done := s.done + [Executed(pc, if p.branch(pc) then Taken(link) else NotTaken)]);
    match Decide(p, pc, |s.done|)
    case Taken(to) => s1.(fetchPc := to, target := to, sm := 5, occur := true)
    case NotTaken => s1
  }

  /** A cycle of the run loop: EX2, then IF. */
  function Cycle(p: Program, s: State): State {
    PipelineIf(p, if Slot(s, 2).Fetched? then Branch(p, s, Slot(s, 2).pc, s.fetchPc) else s, false)
  }

  function IntProcess(s: State, pc: Addr): State {
    var s1 := s.(exec := seq(8, _ => Cleared), wb := 0, fetchPc := pc, halted := true);
    if s.sm == NORMAL then s1
    else
      var sm := if Breaking(s.sm) then s.sm else s.sm + BREAK;
      s1.(sm := sm, pipeEmpty := 5, tmp := sm % 256)
  }

  /** Where a stop leaves the PC: EX2's, or EX1's if that is all ones, or that of the
      first table entry. */
  function StopPc(s: State): Addr {
    if PcOf(Slot(s, 2)) != BUBBLE_PC then PcOf(Slot(s, 2))
    else if PcOf(Slot(s, 3)) != BUBBLE_PC then PcOf(Slot(s, 3))
    else PcOf(s.exec[0])
  }

  function Halt(s: State): State { IntProcess(s, StopPc(s)) }

  /** `pac_soc_step`: one fetch, one execution with the fetch PC moved over five packets
      while a branch is in EX2, then the common stop. */
  function Step(p: Program, s: State): State {
    var pc := s.fetchPc;
    var s1 := PipelineIf(p, s.(wb := 0), true);
    var s2 := if s1.exec[0].Fetched?
              then Branch(p, s1, s1.exec[0].pc, Skip(p, s1.fetchPc, 5)).(fetchPc := s1.fetchPc)
              else s1;
    var s3 := if s2.occur then s2.(occur := false, fetchPc := p.next(pc)) else s2;
    IntProcess(s3, s3.fetchPc)
  }

  /** Debugger and clock: a cycle or a stop needs a running core, a resume or a step a
      halted one; anything else is ignored. */
  datatype Event = Resume | Run | StopNow | StepOne

  function Act(p: Program, s: State, e: Event): State {
    match e
    case Resume => s.(halted := false)
    case Run => if s.halted then s else Cycle(p, s)
    case StopNow => if s.halted then s else Halt(s)
    case StepOne => if s.halted then Step(p, s) else s
  }

  function Actions(p: Program, s: State, es: seq<Event>): State {
    if es == [] then s else Act(p, Actions(p, s, es[..|es| - 1]), es[|es| - 1])
  }

  /** No stop comes while the pipeline refills behind an earlier stop, or before the first
      fetch after a reset. */
  predicate StopsLand(p: Program, s: State, es: seq<Event>) {
    forall n | 0 <= n < |es| && es[n] == StopNow :: Lands(Actions(p, s, es[..n]))
  }

  predicate Lands(s: State) { s.halted || HoldsPacket(s) }

  /** One of the entries that a stop looks at, in that order, is a packet. */
  predicate HoldsPacket(s: State) {
    Slot(s, 2).Fetched? || (Slot(s, 2) == Bubble && (Slot(s, 3).Fetched? || s.exec[0].Fetched?))
  }

  // ---- the invariant ----

  /** The i-th entry from `s.pc` on: the remaining slots, the bubble, then the target. */
  function Stream(p: Program, s: Isa, i: nat): Entry {
    if s.left == 0 || i < s.left then Fetched(Skip(p, s.pc, i))
    else if i == s.left then Bubble
    else Fetched(Skip(p, s.target, i - s.left - 1))
  }

  /** After a reset, the first packet fetched is the first entry of the table. */
  predicate FirstFill(p: Program, s: State, r: Isa, j: nat) {
    s.wb == j && s.exec[0] == if j == 0 then Bubble else Stream(p, r, 0)
  }

  /** The last j entries are the first j of the stream; before them come the zeroes of a
      refill, the bubbles of a reset, or the one bubble that a finished branch leaves. */
  ghost predicate InStep(p: Program, s: State, r: Isa, j: nat) {
    && j <= 6
    && (forall k | 8 - j <= k < 8 :: Slot(s, k) == Stream(p, r, k - 8 + j))
    && ((forall k | 2 <= k < 8 - j :: Slot(s, k) == Cleared)
        || (r.left == 0 && (forall k | 2 <= k < 8 - j :: Slot(s, k) == Bubble) && (j == 5 || FirstFill(p, s, r, j))))
  }

  function Fetches(left: nat, j: nat): nat { if j <= left || j == 0 then j else j - 1 }

  /** The fetch PC, the pending bubble and the delay-slot counter. */
  ghost predicate Controlled(p: Program, s: State, r: Isa, j: nat) {
    if r.left == 0 then s.fetchPc == Skip(p, r.pc, j) && !s.occur && s.sm == NORMAL
    else
      var f := Fetches(r.left, j);
      && r.left <= 5 && s.target == r.target
      && s.occur == (j == r.left)
      && s.fetchPc == (if j < r.left then Skip(p, r.pc, j)
                       else if j == r.left then r.target
                       else Skip(p, r.target, j - r.left - 1))
      && (if f >= 5 then s.sm == r.left else s.sm == BREAK + r.left && s.pipeEmpty == 5 - f && s.tmp == r.left - f)
  }

  ghost predicate Sync(p: Program, s: State, r: Isa, j: nat) {
    && InStep(p, s, r, j) && Controlled(p, s, r, j)
    && (s.halted ==> j == 0 && s.wb == 0)
  }

  ghost predicate Synced(p: Program, s: State, r: Isa) { exists j: nat :: Sync(p, s, r, j) }

  lemma PushSlot(s: State, e: Entry, k: nat)
    requires k < 8
    ensures Slot(Push(s, e), k) == if k == 7 then e else Slot(s, k + 1)
  {
    assert ((s.wb + 1) % 8 + k) % 8 == (s.wb + k + 1) % 8;
    assert k < 7 ==> (s.wb + k + 1) % 8 != s.wb;
  }

  lemma SameSlots(p: Program, s: State, t: State, r: Isa, j: nat)
    requires InStep(p, s, r, j) && t.exec == s.exec && t.wb == s.wb
    ensures InStep(p, t, r, j)
  {
    forall k | 2 <= k < 8 ensures Slot(t, k) == Slot(s, k) {}
  }

  lemma {:induction false} SkipMore(p: Program, pc: Addr, n: nat)
    ensures Skip(p, pc, n + 1) == p.next(Skip(p, pc, n))
    decreases n
  {
    if n > 0 { SkipMore(p, p.next(pc), n - 1); }
  }

  /** One more entry of the stream enters while EX2 holds no packet of it. */
  lemma PushRefill(p: Program, s: State, r: Isa, j: nat, e: Entry)
    requires InStep(p, s, r, j) && j < 6 && e == Stream(p, r, j)
    ensures InStep(p, Push(s, e), r, j + 1)
  {
    var t := Push(s, e);
    forall k | 2 <= k < 8 ensures Slot(t, k) == if k == 7 then e else Slot(s, k + 1) { PushSlot(s, e, k); }
  }

  /** The packet in EX2 leaves, the stream of its successor continues. */
  lemma PushShift(p: Program, s: State, r: Isa, r2: Isa, e: Entry)
    requires InStep(p, s, r, 6)
    requires forall i: nat | i < 5 :: Stream(p, r2, i) == Stream(p, r, i + 1)
    requires e == Stream(p, r2, 5)
    ensures InStep(p, Push(s, e), r2, 6)
  {
    var t := Push(s, e);
    forall k | 2 <= k < 8 ensures Slot(t, k) == Stream(p, r2, k - 2) {
      PushSlot(s, e, k);
      if k < 7 { assert Slot(s, k + 1) == Stream(p, r, k - 1); }
    }
  }

  /** The fifth slot leaves: the bubble is in EX2 with the target behind it. */
  lemma PushLast(p: Program, s: State, r: Isa, r2: Isa, e: Entry)
    requires InStep(p, s, r, 6) && r.left == 1 && r2 == Isa(r.target, 0, r.target)
    requires e == Stream(p, r2, 4)
    ensures InStep(p, Push(s, e), r2, 5)
  {
    var t := Push(s, e);
    forall k | 2 <= k < 8 ensures Slot(t, k) == if k == 2 then Bubble else Stream(p, r2, k - 3) {
      PushSlot(s, e, k);
      if k < 7 { assert Slot(s, k + 1) == Stream(p, r, k - 1); }
    }
  }

  // ---- a running cycle ----

  /** EX2 holds nothing to execute: the pipeline takes in the next entry. */
  lemma RefillCycle(p: Program, s: State, r: Isa, j: nat)
    requires Sync(p, s, r, j) && j < 6 && !s.halted
    ensures Cycle(p, s).done == s.done && Sync(p, Cycle(p, s), r, j + 1)
  {
    assert !Slot(s, 2).Fetched?;
    PushRefill(p, s, r, j, Stream(p, r, j));
    SameSlots(p, Push(s, Stream(p, r, j)), Cycle(p, s), r, j + 1);
    if r.left == 0 || j < r.left {
      SkipMore(p, r.pc, j);
    } else if j > r.left {
      SkipMore(p, r.target, j - r.left - 1);
    }
  }

  /** EX2 holds the next packet of the reference machine, and executes it. */
  lemma ExecuteCycle(p: Program, s: State, r: Isa)
    requires !s.halted && Sync(p, s, r, 6) && SlotPlain(p, r)
    ensures Cycle(p, s).done == s.done + [IsaExecutes(p, r)]
    ensures Synced(p, Cycle(p, s), IsaStep(p, r, |s.done|))
  {
    assert Slot(s, 2) == Stream(p, r, 0) == Fetched(r.pc);
    CycleDone(p, s, r.pc);
    if Decide(p, r.pc, |s.done|).Taken? {
      TakenCycle(p, s, r);
    } else if r.left == 0 {
      PlainCycle(p, s, r);
    } else if r.left == 1 {
      LastSlotCycle(p, s, r);
    } else {
      SlotCycle(p, s, r);
    }
  }

  lemma CycleDone(p: Program, s: State, pc: Addr)
    requires Slot(s, 2) == Fetched(pc)
    ensures Cycle(p, s).done == s.done + [Executed(pc, if p.branch(pc) then Taken(s.fetchPc) else NotTaken)]
  {}

  lemma TakenCycle(p: Program, s: State, r: Isa)
    requires !s.halted && Sync(p, s, r, 6) && SlotPlain(p, r) && Decide(p, r.pc, |s.done|).Taken?
    ensures Sync(p, Cycle(p, s), IsaStep(p, r, |s.done|), 6)
  {
    var r2 := IsaStep(p, r, |s.done|);
    assert Slot(s, 2) == Stream(p, r, 0);
    var s1 := Branch(p, s, r.pc, s.fetchPc);
    SameSlots(p, s, s1, r, 6);
    PushShift(p, s1, r, r2, Bubble);
    SameSlots(p, Push(s1, Bubble), Cycle(p, s), r2, 6);
  }

  lemma PlainCycle(p: Program, s: State, r: Isa)
    requires !s.halted && Sync(p, s, r, 6) && r.left == 0 && Decide(p, r.pc, |s.done|) == NotTaken
    ensures Sync(p, Cycle(p, s), IsaStep(p, r, |s.done|), 6)
  {
    var r2 := IsaStep(p, r, |s.done|);
    assert Slot(s, 2) == Stream(p, r, 0);
    var s1 := Branch(p, s, r.pc, s.fetchPc);
    SameSlots(p, s, s1, r, 6);
    SkipMore(p, r.pc, 6);
    PushShift(p, s1, r, r2, Fetched(s.fetchPc));
    SameSlots(p, Push(s1, Fetched(s.fetchPc)), Cycle(p, s), r2, 6);
  }

  lemma SlotCycle(p: Program, s: State, r: Isa)
    requires !s.halted && Sync(p, s, r, 6) && 2 <= r.left <= 5 && Decide(p, r.pc, |s.done|) == NotTaken
    ensures Sync(p, Cycle(p, s), IsaStep(p, r, |s.done|), 6)
  {
    var r2 := IsaStep(p, r, |s.done|);
    assert Slot(s, 2) == Stream(p, r, 0);
    var s1 := Branch(p, s, r.pc, s.fetchPc);
    SameSlots(p, s, s1, r, 6);
    SkipMore(p, r.target, 6 - r.left - 1);
    PushShift(p, s1, r, r2, Fetched(s.fetchPc));
    SameSlots(p, Push(s1, Fetched(s.fetchPc)), Cycle(p, s), r2, 6);
  }

  lemma LastSlotCycle(p: Program, s: State, r: Isa)
    requires !s.halted && Sync(p, s, r, 6) && r.left == 1 && Decide(p, r.pc, |s.done|) == NotTaken
    ensures Sync(p, Cycle(p, s), IsaStep(p, r, |s.done|), 5)
  {
    var r2 := IsaStep(p, r, |s.done|);
    assert Slot(s, 2) == Stream(p, r, 0);
    var s1 := Branch(p, s, r.pc, s.fetchPc);
    SameSlots(p, s, s1, r, 6);
    SkipMore(p, r.target, 4);
    PushLast(p, s1, r, r2, Fetched(s.fetchPc));
    SameSlots(p, Push(s1, Fetched(s.fetchPc)), Cycle(p, s), r2, 5);
  }

  // ---- stop ----

  lemma ClearedSync(p: Program, s: State, r: Isa)
    requires s.halted && s.wb == 0 && s.exec == seq(8, _ => Cleared) && Controlled(p, s, r, 0)
    ensures Sync(p, s, r, 0)
  {}

  lemma StopPcIs(p: Program, s: State, r: Isa, j: nat)
    requires Sync(p, s, r, j) && r.pc != BUBBLE_PC
    ensures StopPc(s) == if HoldsPacket(s) then r.pc else if Slot(s, 2) == Cleared then 0 else BUBBLE_PC
  {
    assert j == 6 ==> Slot(s, 2) == Stream(p, r, 0);
    assert j == 5 ==> Slot(s, 3) == Stream(p, r, 0);
    if j < 5 { assert Slot(s, 2) == Slot(s, 3); }
  }

  /** A stop resumes at the packet that was next exactly when one of the entries it looks
      at is a packet: not in the refill behind an earlier stop, which saves PC 0, and not
      before the first fetch after a reset, which saves the bubble's PC. */
  lemma StopResumesIff(p: Program, s: State, r: Isa, j: nat)
    requires Sync(p, s, r, j) && !s.halted && r.pc != BUBBLE_PC
    ensures Synced(p, Halt(s), r) <==> HoldsPacket(s) || (Slot(s, 2) == Cleared && r.pc == 0 && !s.occur)
    ensures Halt(s).done == s.done
  {
    StopPcIs(p, s, r, j);
    NoPending(p, s, r, j);
    var t := Halt(s);
    if HoldsPacket(s) || (Slot(s, 2) == Cleared && r.pc == 0 && !s.occur) {
      assert Controlled(p, t, r, 0);
      ClearedSync(p, t, r);
    } else {
      HaltedAt(p, t, r);
    }
  }

  /** No bubble is pending while one of the entries that a stop looks at is a packet. */
  lemma NoPending(p: Program, s: State, r: Isa, j: nat)
    requires Sync(p, s, r, j)
    ensures HoldsPacket(s) ==> !s.occur
  {
    assert j < 6 && r.left > 0 ==> Slot(s, 2) == Cleared;
  }

  /** A halted core is in step only at its own PC. */
  lemma HaltedAt(p: Program, t: State, r: Isa)
    requires t.halted
    ensures Synced(p, t, r) ==> !t.occur && t.fetchPc == r.pc
  {}

  // ---- single step ----

  lemma StepIs(p: Program, s: State, r: Isa)
    requires Sync(p, s, r, 0) && s.halted && SlotPlain(p, r)
    ensures Step(p, s).done == s.done + [IsaExecutes(p, r)]
    ensures Sync(p, Step(p, s), IsaStep(p, r, |s.done|), 0)
  {
    var r2 := IsaStep(p, r, |s.done|);
    assert !s.occur && s.fetchPc == r.pc && s.wb == 0;
    assert PipelineIf(p, s, true).exec[0] == Fetched(r.pc);
    assert Skip(p, r.pc, 6) == Skip(p, p.next(r.pc), 5);
    var t := Step(p, s);
    assert Controlled(p, t, r2, 0);
    ClearedSync(p, t, r2);
  }

  // ---- every sequence of cycles, stops and steps ----

  lemma ResumeSync(p: Program, s: State, r: Isa, j: nat)
    requires Sync(p, s, r, j)
    ensures Sync(p, s.(halted := false), r, j)
  {
    SameSlots(p, s, s.(halted := false), r, j);
  }

  lemma ActSynced(p: Program, s: State, r: Isa, e: Event)
    requires Synced(p, s, r) && SlotPlain(p, r) && (e == StopNow ==> Lands(s))
    ensures
      || (Act(p, s, e).done == s.done && Synced(p, Act(p, s, e), r))
      || (Act(p, s, e).done == s.done + [IsaExecutes(p, r)] && Synced(p, Act(p, s, e), IsaStep(p, r, |s.done|)))
  {
    hide Cycle, Halt, Step, IsaStep, IsaExecutes;
    var j: nat :| Sync(p, s, r, j);
    match e
    case Resume => ResumeSync(p, s, r, j);
    case Run => if !s.halted { if j < 6 { RefillCycle(p, s, r, j); } else { ExecuteCycle(p, s, r); } }
    case StopNow => if !s.halted { StopResumesIff(p, s, r, j); }
    case StepOne => if s.halted { StepIs(p, s, r); }
  }

  /** Debug transparency: whatever the sequence of cycles, stops and steps, the packets
      executed so far, and the addresses that branches link, are a prefix of the trace of
      the delayed-branch machine; stops and steps inside delay slots included. */
  lemma {:induction false} DebugIsTransparent(p: Program, s: State, r: Isa, es: seq<Event>)
    requires Synced(p, s, r) && s.done == [] && SlotsPlain(p, r) && StopsLand(p, s, es)
    ensures
      var t := Actions(p, s, es);
      t.done == IsaTrace(p, r, |t.done|) && Synced(p, t, IsaRun(p, r, |t.done|))
    decreases |es|
  {
    hide Act, Synced, SlotPlain, IsaExecutes, IsaStep, Lands;
    if es != [] {
      var n := |es| - 1;
      var front := es[..n];
      assert forall i | 0 <= i <= n :: front[..i] == es[..i];
      DebugIsTransparent(p, s, r, front);
      var t := Actions(p, s, front);
      assert SlotPlain(p, IsaRun(p, r, |t.done|));
      assert es[n] == StopNow ==> Lands(Actions(p, s, es[..n]));
      ActSynced(p, t, IsaRun(p, r, |t.done|), es[n]);
    }
  }

  // ---- the start states ----

  /** `pac_soc_reset`, and then the PC set by the debugger, which clears nothing. */
  function AfterReset(pc: Addr, target: Addr): State {
    State(0, seq(8, _ => Bubble), pc, false, target, NORMAL, 0, 0, true, [])
  }

  /** The PC set on a core that a stop or a step has halted outside delay slots. */
  function AfterSetPc(pc: Addr, target: Addr): State {
    State(0, seq(8, _ => Cleared), pc, false, target, NORMAL, 0, 0, true, [])
  }

  lemma StartSynced(p: Program, s: State, pc: Addr, target: Addr)
    requires s == AfterReset(pc, target) || s == AfterSetPc(pc, target)
    ensures Sync(p, s, Isa(pc, 0, target), 0)
  {}

  /** Debug transparency of a whole session: from a reset or from a PC set by the debugger,
      the packets executed are those of the delayed-branch machine from that PC on. */
  lemma SessionIsTransparent(p: Program, s: State, pc: Addr, target: Addr, es: seq<Event>)
    requires s == AfterReset(pc, target) || s == AfterSetPc(pc, target)
    requires SlotsPlain(p, Isa(pc, 0, target)) && StopsLand(p, s, es)
    ensures
      var t := Actions(p, s, es);
      t.done == IsaTrace(p, Isa(pc, 0, target), |t.done|)
  {
    hide Actions, StopsLand, SlotsPlain, Synced;
    StartSynced(p, s, pc, target);
    SyncedBy(p, s, Isa(pc, 0, target), 0);
    DebugIsTransparent(p, s, Isa(pc, 0, target), es);
  }

  lemma SyncedBy(p: Program, s: State, r: Isa, j: nat)
    requires Sync(p, s, r, j)
    ensures Synced(p, s, r)
  {}

  /** After a reset, a stop after any number of cycles but none lands, the first refill
      included. */
  lemma FirstFillLands(p: Program, pc: Addr, target: Addr, n: nat)
    requires n <= 6
    ensures Sync(p, Cycles(p, AfterReset(pc, target).(halted := false), n), Isa(pc, 0, target), n)
    ensures HoldsPacket(Cycles(p, AfterReset(pc, target).(halted := false), n)) <==> n > 0
  {
    var s := AfterReset(pc, target).(halted := false);
    StartSynced(p, AfterReset(pc, target), pc, target);
    ResumeSync(p, AfterReset(pc, target), Isa(pc, 0, target), 0);
    FillFrom(p, s, Isa(pc, 0, target), 0, n);
    FillHolds(p, Cycles(p, s, n), Isa(pc, 0, target), n);
  }

  /** The bubbles of a reset are ahead of the stream. */
  ghost predicate Filling(p: Program, s: State, r: Isa, j: nat) {
    Sync(p, s, r, j) && !s.halted && FirstFill(p, s, r, j) && forall k | 2 <= k < 8 - j :: Slot(s, k) == Bubble
  }

  lemma FillStep(p: Program, s: State, r: Isa, j: nat)
    requires Filling(p, s, r, j) && r.left == 0 && j < 6
    ensures Filling(p, Cycle(p, s), r, j + 1) && Cycle(p, s).done == s.done
  {
    RefillCycle(p, s, r, j);
    assert Slot(s, 2) == Bubble;
    var e, t := Stream(p, r, j), Cycle(p, s);
    assert t.exec == Push(s, e).exec && t.wb == Push(s, e).wb;
    forall k | 2 <= k < 8 - (j + 1) ensures Slot(t, k) == Bubble {
      PushSlot(s, e, k);
      assert Slot(t, k) == Slot(Push(s, e), k) == Slot(s, k + 1);
    }
  }

  lemma {:induction false} FillFrom(p: Program, s: State, r: Isa, j: nat, n: nat)
    requires Filling(p, s, r, j) && r.left == 0 && j + n <= 6
    ensures Filling(p, Cycles(p, s, n), r, j + n)
    decreases n
  {
    hide Filling, Cycle;
    if n > 0 {
      FillStep(p, s, r, j);
      FillFrom(p, Cycle(p, s), r, j + 1, n - 1);
    }
  }

  lemma FillHolds(p: Program, s: State, r: Isa, j: nat)
    requires Filling(p, s, r, j) && r.left == 0
    ensures HoldsPacket(s) <==> j > 0
  {
    if j == 6 { assert Slot(s, 2) == Stream(p, r, 0); } else { assert Slot(s, 2) == Bubble; }
    if j < 5 { assert Slot(s, 3) == Bubble; }
  }

  /** A stop one cycle after a resume: right behind a reset, PC 0 behind a stop. */
  lemma StopAfterOne(p: Program, s: State)
    requires s.halted && s.wb == 0 && s.sm == NORMAL && !s.occur && s.fetchPc != BUBBLE_PC
    requires s.exec == seq(8, _ => Bubble) || s.exec == seq(8, _ => Cleared)
    ensures
      var t := Act(p, Act(p, Act(p, s, Resume), Run), StopNow);
      t == s.(exec := seq(8, _ => Cleared), fetchPc := if s.exec[0] == Bubble then s.fetchPc else 0)
  {}

  lemma ActionsOn(p: Program, s: State, es: seq<Event>, e: Event)
    ensures Actions(p, s, es + [e]) == Act(p, Actions(p, s, es), e)
  {
    assert (es + [e])[..|es|] == es;
  }

  lemma ThreeActions(p: Program, s: State, es: seq<Event>, a: Event, b: Event, c: Event)
    ensures Actions(p, s, es + [a, b, c]) == Act(p, Act(p, Act(p, Actions(p, s, es), a), b), c)
  {
    hide Act, Actions;
    ActionsOn(p, s, es, a);
    ActionsOn(p, s, es + [a], b);
    ActionsOn(p, s, es + [a] + [b], c);
    assert es + [a, b, c] == es + [a] + [b] + [c];
  }

  /** A session from a reset whose second stop comes too soon: the step after it executes
      the packet at address 0 instead of the packet at the PC. */
  lemma StopInRefillFails(p: Program, pc: Addr)
    requires pc != 0 && pc != BUBBLE_PC
    ensures
      var es := [Resume, Run, StopNow, Resume, Run, StopNow, StepOne];
      var t := Actions(p, AfterReset(pc, 0), es);
      t.done == [IsaExecutes(p, Isa(0, 0, 0))] && t.done != IsaTrace(p, Isa(pc, 0, 0), 1)
  {
    hide Act, Actions;
    var s := AfterReset(pc, 0);
    var s1, s2 := AfterSetPc(pc, 0), AfterSetPc(0, 0);
    NoActions(p, s);
    ThreeActions(p, s, [], Resume, Run, StopNow);
    StopAfterOne(p, s);
    ThreeActions(p, s, [Resume, Run, StopNow], Resume, Run, StopNow);
    assert [] + [Resume, Run, StopNow] == [Resume, Run, StopNow];
    StopAfterOne(p, s1);
    ActionsOn(p, s, [Resume, Run, StopNow] + [Resume, Run, StopNow], StepOne);
    assert [Resume, Run, StopNow] + [Resume, Run, StopNow] + [StepOne]
        == [Resume, Run, StopNow, Resume, Run, StopNow, StepOne];
    StepFromPc(p, s2);
    FirstOfTrace(p, Isa(pc, 0, 0));
  }

  lemma FirstOfTrace(p: Program, r: Isa)
    ensures |IsaTrace(p, r, 1)| == 1 && IsaTrace(p, r, 1)[0].pc == r.pc
  {
    assert IsaTrace(p, r, 0) == [] && IsaRun(p, r, 0) == r;
  }

  lemma NoActions(p: Program, s: State)
    ensures Actions(p, s, []) == s
  {}

  lemma StepFromPc(p: Program, s: State)
    requires s == AfterSetPc(s.fetchPc, s.target)
    ensures Act(p, s, StepOne).done == [IsaExecutes(p, Isa(s.fetchPc, 0, s.target))]
  {}

  function Cycles(p: Program, s: State, n: nat): State
    decreases n
  {
    if n == 0 then s else Cycles(p, Cycle(p, s), n - 1)
  }

  /** Progress: after at most six cycles of refill, the next cycle executes the packet
      that the reference machine executes next. */
  lemma {:induction false} RunningExecutes(p: Program, s: State, r: Isa, j: nat)
    requires Sync(p, s, r, j) && SlotPlain(p, r) && !s.halted
    ensures Cycles(p, s, 6 - j).done == s.done && Sync(p, Cycles(p, s, 6 - j), r, 6)
    ensures Cycle(p, Cycles(p, s, 6 - j)).done == s.done + [IsaExecutes(p, r)]
    decreases 6 - j
  {
    hide Cycle, Sync, IsaStep, IsaExecutes;
    AtMostSix(p, s, r, j);
    if j < 6 {
      RefillCycle(p, s, r, j);
      StillRunning(p, s);
      RunningExecutes(p, Cycle(p, s), r, j + 1);
    } else {
      ExecuteCycle(p, s, r);
    }
  }

  lemma StillRunning(p: Program, s: State)
    ensures Cycle(p, s).halted == s.halted
  {}

  lemma AtMostSix(p: Program, s: State, r: Isa, j: nat)
    requires Sync(p, s, r, j)
    ensures j <= 6
  {}

  // ---- the control logic, updated in place ----

  class FetchUnit {
    var wb: nat
    const exec: array<Entry>
    var fetchPc: Addr
    var occur: bool
    var target: Addr
    var sm: nat
    var pipeEmpty: int
    var tmp: int
    var halted: bool
    var done: seq<Executed>    // the packets that have passed EX2

    ghost predicate Valid()
      reads this
    {
      wb < 8 && exec.Length == 8
    }

    ghost function View(): State
      reads this, exec
      requires Valid()
    {
      State(wb, exec[..], fetchPc, occur, target, sm, pipeEmpty, tmp, halted, done)
    }

    /** A core after a reset, with the PC that the debugger has set. */
    constructor (pc: Addr)
      ensures Valid() && fresh(exec) && View() == AfterReset(pc, 0)
    {
      wb, fetchPc, occur, target, sm, pipeEmpty, tmp, halted, done := 0, pc, false, 0, NORMAL, 0, 0, true, [];
      exec := new Entry[8](_ => Bubble);
    }

    method Fill(e: Entry)
      requires Valid()
      modifies this`wb, exec
      ensures Valid() && View() == Push(old(View()), e)
    {
      exec[wb] := e;
      wb := (wb + 1) % 8;
    }

    method CountSlot(isStep: bool)
      requires Valid()
      modifies this`sm, this`fetchPc, this`occur, this`pipeEmpty, this`tmp
      ensures Valid() && View() == Count(old(View()), isStep)
    {
      if isStep && sm != NORMAL {
        sm := Decrement(sm);
        if sm % 256 == 0 {
          fetchPc := target;
          sm := NORMAL;
        }
      } else if sm != NORMAL && Breaking(sm) {
        if pipeEmpty != 0 {
          tmp, pipeEmpty := tmp - 1, pipeEmpty - 1;
          if tmp == 0 {
            occur, fetchPc := true, target;
          }
          if pipeEmpty == 0 {
            sm := sm - BREAK;
          }
        }
      } else if sm != NORMAL {
        sm := Decrement(sm);
        if sm % 256 == 0 {
          sm := NORMAL;
        }
      }
    }

    method FetchNext(p: Program, isStep: bool)
      requires Valid()
      modifies this, exec
      ensures Valid() && View() == PipelineIf(p, old(View()), isStep)
    {
      if occur {
        occur := false;
        Fill(Bubble);
      } else {
        Fill(Fetched(fetchPc));
        fetchPc := p.next(fetchPc);
        CountSlot(isStep);
      }
    }

    /** EX2 of a packet: a taken branch redirects the fetch and opens its delay slots. */
    method ExecuteBranch(p: Program, pc: Addr)
      requires Valid()
      modifies this
      ensures Valid() && View() == Branch(p, old(View()), pc, old(fetchPc))
    {
      var k := |done|;
      done := done + [Executed(pc, if p.branch(pc) then Taken(fetchPc) else NotTaken)];
      if p.branch(pc) {
        var outcome := p.outcome(pc, k);
        match outcome {
          case Taken(to) => fetchPc, target, sm, occur := to, to, 5, true;
          case NotTaken =>
        }
      }
    }

    method RunCycle(p: Program)
      requires Valid()
      modifies this, exec
      ensures Valid() && View() == Cycle(p, old(View()))
    {
      var e := exec[(wb + 2) % 8];
      if e.Fetched? {
        ExecuteBranch(p, e.pc);
      }
      FetchNext(p, false);
    }

    /** `SET_ISS_RUN`. */
    method Restart()
      requires Valid()
      modifies this`halted
      ensures Valid() && View() == old(View()).(halted := false)
    {
      halted := false;
    }

    method StopAt(pc: Addr)
      requires Valid()
      modifies this, exec
      ensures Valid() && View() == IntProcess(old(View()), pc)
    {
      forall i | 0 <= i < 8 { exec[i] := Cleared; }
      wb, halted := 0, true;
      if sm != NORMAL {
        if !Breaking(sm) {
          sm := sm + BREAK;
        }
        pipeEmpty, tmp := 5, sm % 256;
      }
      fetchPc := pc;
      assert exec[..] == seq(8, _ => Cleared);
    }

    method Stop()
      requires Valid()
      modifies this, exec
      ensures Valid() && View() == Halt(old(View()))
    {
      var pc := PcOf(exec[(wb + 2) % 8]);
      if pc == BUBBLE_PC { pc := PcOf(exec[(wb + 3) % 8]); }
      if pc == BUBBLE_PC { pc := PcOf(exec[0]); }
      StopAt(pc);
    }

    /** Move the fetch PC over five packets, as it stands in a run when EX2 reads it. */
    method SkipFive(p: Program)
      requires Valid()
      modifies this`fetchPc
      ensures Valid() && View() == old(View()).(fetchPc := Skip(p, old(fetchPc), 5))
    {
      for i := 0 to 5
        invariant Skip(p, fetchPc, 5 - i) == Skip(p, old(fetchPc), 5)
      {
        fetchPc := p.next(fetchPc);
      }
    }

    method ExecuteStepped(p: Program, pc: Addr)
      requires Valid()
      modifies this
      ensures Valid()
      ensures View() == Branch(p, old(View()), pc, Skip(p, old(fetchPc), 5)).(fetchPc := old(fetchPc))
    {
      hide Skip;
      var resume := fetchPc;
      SkipFive(p);
      ExecuteBranch(p, pc);
      fetchPc := resume;
    }

    method SingleStep(p: Program)
      requires Valid()
      modifies this, exec
      ensures Valid() && View() == Step(p, old(View()))
    {
      hide IntProcess, PipelineIf, Skip, Branch;
      var pc := fetchPc;
      wb := 0;
      FetchNext(p, true);
      var e := exec[0];
      if e.Fetched? {
        ExecuteStepped(p, e.pc);
      }
      if occur {
        occur, fetchPc := false, p.next(pc);
      }
      StopAt(fetchPc);
    }

    /** The simulator's loop under a debugger. */
    method Perform(p: Program, es: seq<Event>)
      requires Valid()
      modifies this, exec
      ensures Valid() && View() == Actions(p, old(View()), es)
    {
      hide Cycle, Step, Halt;
      ghost var s := View();
      for i := 0 to |es|
        invariant Valid() && View() == Actions(p, s, es[..i])
      {
        assert es[..i + 1][..i] == es[..i];
        match es[i] {
          case Resume => Restart();
          case Run => if !halted { RunCycle(p); }
          case StopNow => if !halted { Stop(); }
          case StepOne => if halted { SingleStep(p); }
        }
      }
      assert es[..|es|] == es;
    }
  }
}
