/** Packets, the writers of the three execution stages, and what a run, a stop and a
    single step leave in the committed file (pac-exec.cpp, pac-dsp.cpp, sc-pac-ex1/2/3.cpp). */
module Pipeline {
  import opened Registers
  import opened WriteLog

  // ---- writers ----

  /** One register write of an instruction: a register of the issuing cluster, or a bit
      of its status word. */
  datatype RawWrite =
    | Reg(cluster: nat, typ: nat, num: nat, data: Word)
    | Psr(cluster: nat, idx: nat, bit: nat, data: Word)

  type Write = w: RawWrite | WriteOk(w) witness Reg(0, 0, 0, 0)

  predicate WriteOk(w: RawWrite) {
    && w.cluster <= 4
    && (w.Reg? ==> w.typ <= 8 && w.num <= 15)
    && (w.Psr? ==> w.idx <= 1 && w.bit <= 6)
  }

  /** The entry of `regfile_write`, `regfile_l_write` or `psr_write` in the EX1 log. */
  function FwdNode(w: Write): Node {
    match w
    case Reg(cluster, typ, num, data) =>
      Node(typ, if cluster >= 3 && typ != TYP_P && typ != TYP_R then num + 16 else num, data)
    case Psr(cluster, idx, bit, data) =>
      var i := if cluster == 0 then 0 else if cluster <= 2 then idx + 1 else idx + 3;
      Node(TYP_PSR, bit + 8 * i, if data == 0 then 0 else 1)
  }

  /** The entry of `stage2_l_write` or `stage3_l_write`. */
  function StageNode(w: Write): Node
    requires w.Reg?
  {
    Node(w.typ, if w.cluster >= 3 then w.num + 16 else w.num, w.data)
  }

  function CppNode(n: Node): Node
    requires n.typ == TYP_CP
  {
    Node(TYP_CPP, n.addr, n.data)
  }

  predicate WellPlaced(w: Write) {
    w.Reg? && (w.cluster < 3 || (w.typ != TYP_P && w.typ != TYP_R))
  }

  /** The late copies of a result name the forwarded register exactly when the write is
      not to a predicate or scalar register from clusters 3 and 4. */
  lemma CopiesAgreeIff(w: Write)
    requires w.Reg?
    ensures FwdNode(w) == StageNode(w) <==> WellPlaced(w)
  {
    if !WellPlaced(w) { assert FwdNode(w).addr == w.num && StageNode(w).addr == w.num + 16; }
  }

  function FwdEntries(w: Write): seq<Node> {
    if w.Reg? && w.typ == TYP_CP then [CppNode(FwdNode(w)), FwdNode(w)] else [FwdNode(w)]
  }

  function Stage2Entries(w: Write): seq<Node>
    requires w.Reg?
  {
    if w.typ == TYP_CP then [StageNode(w), CppNode(StageNode(w))] else [StageNode(w)]
  }

  /** `stage3_l_write` does not log CPP when the EX3 log already holds an entry for it. */
  function Stage3Entries(log: seq<Node>, w: Write): seq<Node>
    requires w.Reg?
  {
    if w.typ == TYP_CP && !HasEntry(log, TYP_CPP, StageNode(w).addr)
    then [StageNode(w), CppNode(StageNode(w))] else [StageNode(w)]
  }

  /** Where a write goes: RF[typ][num], with the upper half for clusters 3 and 4 unless the
      register is shared, and one status word for cluster 0 and two for each pair. */
  lemma NamesRegister(w: Write)
    ensures w.Reg? ==>
      && FwdNode(w).data == w.data
      && Target(FwdNode(w)) ==
         Rf(w.typ, if w.cluster <= 2 || w.typ == TYP_P || w.typ == TYP_R then w.num else w.num + 16)
    ensures w.Psr? ==>
      && FwdNode(w).data == (if w.data == 0 then 0 else 1)
      && Target(FwdNode(w)) ==
         PsrBit(if w.cluster == 0 then 0 else if w.cluster <= 2 then 1 + w.idx else 3 + w.idx, w.bit)
  {}

  /** Clusters 1 and 2 are one side, 3 and 4 the other; cluster 0 has the lower half. */
  function Side(cluster: nat): nat { if cluster <= 2 then 0 else 1 }

  /** Two writes name the same register exactly when they should. */
  lemma SameRegister(v: Write, w: Write)
    ensures Target(FwdNode(v)) == Target(FwdNode(w)) <==>
      (v.Reg? && w.Reg? && v.typ == w.typ && v.num == w.num
         && (Side(v.cluster) == Side(w.cluster) || v.typ == TYP_P || v.typ == TYP_R))
      || (v.Psr? && w.Psr? && v.bit == w.bit
         && if v.cluster == 0 || w.cluster == 0 then v.cluster == w.cluster
            else Side(v.cluster) == Side(w.cluster) && v.idx == w.idx)
  {
    hide FwdNode, Target;
    if v.Reg? && w.Reg? {
      SameRf(v, w);
    } else if v.Psr? && w.Psr? {
      SameBit(v, w);
    } else {
      NamesRegister(v);
      NamesRegister(w);
    }
  }

  lemma SameRf(v: Write, w: Write)
    requires v.Reg? && w.Reg?
    ensures Target(FwdNode(v)) == Target(FwdNode(w)) <==>
      v.typ == w.typ && v.num == w.num && (Side(v.cluster) == Side(w.cluster) || v.typ == TYP_P || v.typ == TYP_R)
  {
    hide FwdNode, Target;
    NamesRegister(v);
    NamesRegister(w);
  }

  lemma SameBit(v: Write, w: Write)
    requires v.Psr? && w.Psr?
    ensures Target(FwdNode(v)) == Target(FwdNode(w)) <==>
      v.bit == w.bit
      && if v.cluster == 0 || w.cluster == 0 then v.cluster == w.cluster
         else Side(v.cluster) == Side(w.cluster) && v.idx == w.idx
  {
    hide FwdNode, Target;
    NamesRegister(v);
    NamesRegister(w);
  }

  predicate HasEntry(log: seq<Node>, typ: nat, addr: nat) {
    exists i | 0 <= i < |log| :: log[i].typ == typ && log[i].addr == addr
  }

  /** A write of the EX3 stage; `hit` says whether an operand of the instruction in EX2
      names the same CP or CPP register, which is all that the conflict check of a CP
      write looks at. */
  datatype Late = Late(w: Write, hit: bool)

  type LateReg = l: Late | l.w.Reg? witness Late(Reg(0, 0, 0, 0), false)

  type MidReg = w: Write | w.Reg? witness Reg(0, 0, 0, 0)

  /** The answer of the first loop of `write_conflict_check`. */
  predicate Conflict(log: seq<Node>, l: LateReg) {
    if l.w.typ != TYP_CP then HasEntry(log, l.w.typ, StageNode(l.w).addr) else log != [] && l.hit
  }

  /** Unless the write is to CP, the check answers whether some entry is for its register. */
  lemma ConflictIs(log: seq<Node>, l: LateReg)
    requires l.w.typ != TYP_CP
    ensures Conflict(log, l) <==> exists i | 0 <= i < |log| :: Target(log[i]) == Target(StageNode(l.w))
  {
    var n := StageNode(l.w);
    if Conflict(log, l) {
      var i :| 0 <= i < |log| && log[i].typ == n.typ && log[i].addr == n.addr;
      assert Target(log[i]) == Target(n);
    }
    if exists i | 0 <= i < |log| :: Target(log[i]) == Target(n) {
      var i :| 0 <= i < |log| && Target(log[i]) == Target(n);
      assert log[i].typ == n.typ && log[i].addr == n.addr;
    }
  }

  /** The first entry for a register. */
  function FirstEntry(log: seq<Node>, typ: nat, addr: nat): (i: nat)
    requires HasEntry(log, typ, addr)
    ensures i < |log| && log[i].typ == typ && log[i].addr == addr
    ensures forall j | 0 <= j < i :: !(log[j].typ == typ && log[j].addr == addr)
  {
    if log[0].typ == typ && log[0].addr == addr then 0
    else
      assert forall j | 1 <= j < |log| :: log[j] == log[1..][j - 1];
      1 + FirstEntry(log[1..], typ, addr)
  }

  /** `write_conflict_check`: the EX2 log that it leaves, and its answer. With the scalar
      repair, the first entry for the register becomes an accumulator entry, and another one
      decides. */
  function Checked(log: seq<Node>, l: LateReg, repair: bool): (seq<Node>, bool) {
    var n := StageNode(l.w);
    if !Conflict(log, l) then (log, false)
    else if repair && HasEntry(log, n.typ, n.addr) then
      var first := FirstEntry(log, n.typ, n.addr);
      var repaired := log[first := Node(TYP_AC, n.addr, log[first].data)];
      (repaired, HasEntry(repaired, n.typ, n.addr))
    else (log, true)
  }

  /** The EX2 log after one late write. */
  function CheckedCopy(log: seq<Node>, l: LateReg, repair: bool): seq<Node> {
    var (checked, conflict) := Checked(log, l, repair);
    if conflict then checked else checked + Stage2Entries(l.w)
  }

  /** For CP it answers whether there is any entry at all and an operand of the instruction in
      EX2 names the register. */
  lemma ConflictOfCp(log: seq<Node>, l: LateReg)
    requires l.w.typ == 3
    ensures Conflict(log, l) <==> |log| > 0 && l.hit
  {}

  /** The repair: the first entry for the register becomes one for the accumulator of the same
      number, with the same data; all others stay, and one that is left still conflicts. */
  lemma RepairMoves(log: seq<Node>, l: LateReg) returns (first: nat)
    requires l.w.typ != TYP_CP && Conflict(log, l)
    ensures first < |log| && Target(log[first]) == Target(StageNode(l.w))
    ensures forall i | 0 <= i < first :: Target(log[i]) != Target(StageNode(l.w))
    ensures
      var (after: seq<Node>, conflict) := (Checked(log, l, true).0, Checked(log, l, true).1);
      && |after| == |log| && (forall i | 0 <= i < |log| && i != first :: after[i] == log[i])
      && Target(after[first]) == Rf(1, if l.w.cluster >= 3 then l.w.num + 16 else l.w.num)
      && after[first].data == log[first].data
      && (conflict <==> exists i | 0 <= i < |after| :: Target(after[i]) == Target(StageNode(l.w)))
  {
    var n := StageNode(l.w);
    first := FirstEntry(log, n.typ, n.addr);
    var after := log[first := Node(TYP_AC, n.addr, log[first].data)];
    assert Checked(log, l, true) == (after, HasEntry(after, n.typ, n.addr));
    hide Checked;
    ConflictIs(after, l);
    forall i | 0 <= i < first ensures Target(log[i]) != Target(n) {
      assert !(log[i].typ == n.typ && log[i].addr == n.addr);
    }
  }

  /** Unless slot 0 of the packet in EX3 holds a late operation, and slot 0 of the packet in WB
      holds one that executes and writes the same register, every entry stays. */
  lemma NothingRepaired(log: seq<Node>, wb: Packet, ex3: Packet, l: LateReg)
    requires ex3.slot0.NotLate? || wb.slot0.NotLate? || !wb.slot0.executes || wb.slot0.typ != l.w.typ
        || wb.slot0.num != l.w.num
    ensures log <= CheckedCopy(log, l, Repairs(wb, ex3, l.w))
    ensures Conflict(log, l) ==> CheckedCopy(log, l, Repairs(wb, ex3, l.w)) == log
  {}

  function Fwd(ws: seq<Write>): seq<Node> {
    if ws == [] then [] else Fwd(ws[..|ws| - 1]) + FwdEntries(ws[|ws| - 1])
  }

  function Mid2(ws: seq<MidReg>): seq<Node> {
    if ws == [] then [] else Mid2(ws[..|ws| - 1]) + Stage2Entries(ws[|ws| - 1])
  }

  /** What the late writes add to an EX3 log that holds `log`. */
  function Late3(log: seq<Node>, ls: seq<LateReg>): seq<Node> {
    if ls == [] then []
    else
      var k := Late3(log, ls[..|ls| - 1]);
      k + Stage3Entries(log + k + [StageNode(ls[|ls| - 1].w)], ls[|ls| - 1].w)
  }

  function Writes(ls: seq<Late>): seq<Write> { seq(|ls|, i requires 0 <= i < |ls| => ls[i].w) }

  // ---- packets ----

  /** What scalar slot 0 of a packet holds: one of the nine late operations (loads and
      branches) with its destination and whether its predicate lets it execute, or
      something else. */
  datatype Slot0 = NotLate | LateOp(typ: nat, num: nat, executes: bool)

  datatype Packet = Packet(early: seq<Write>, mid: seq<MidReg>, late: seq<LateReg>, slot0: Slot0)

  const NOP := Packet([], [], [], NotLate)

  /** The conflict check of a late write repairs: slot 0 of the packet in EX3 is a late
      operation, and slot 0 of the packet in WB is one that writes this register. */
  predicate Repairs(wb: Packet, ex3: Packet, w: Write)
    requires w.Reg?
  {
    ex3.slot0.LateOp? && wb.slot0 == LateOp(w.typ, w.num, true)
  }

  /** What the late writes of the packet in EX3 make of an EX2 log. */
  function LateEx2(log: seq<Node>, wb: Packet, ex3: Packet, ls: seq<LateReg>): seq<Node> {
    if ls == [] then log
    else
      var l := ls[|ls| - 1];
      CheckedCopy(LateEx2(log, wb, ex3, ls[..|ls| - 1]), l, Repairs(wb, ex3, l.w))
  }

  function At(pks: seq<Packet>, t: int): Packet { if 0 <= t < |pks| then pks[t] else NOP }

  /** The writes of one cycle: EX3, then EX2, then EX1. */
  function MachineCycle(q: Ring, pks: seq<Packet>, t: int): Cycle {
    StageCycle(q, At(pks, t - 3), At(pks, t - 2), At(pks, t - 1), At(pks, t))
  }

  function StageCycle(q: Ring, wb: Packet, ex3: Packet, ex2: Packet, ex1: Packet): Cycle {
    Cycle(Late3(Log(q, 1), ex3.late), LateEx2(Log(q, 2), wb, ex3, ex3.late) + Mid2(ex2.mid),
          Fwd(Writes(ex3.late)) + Fwd(ex2.mid) + Fwd(ex1.early))
  }

  /** The cycles of a free run in which packet t is in EX1 in cycle t. */
  function History(p: Ring, pks: seq<Packet>, n: nat): seq<Cycle> {
    if n == 0 then []
    else History(p, pks, n - 1) + [MachineCycle(Run(p, History(p, pks, n - 1)), pks, n - 1)]
  }

  // ---- stop and single step ----

  /** `int_process`: save the PC and branch target, copy the file, empty every log. */
  function IntProcess(q: Ring, pc: Word, target: Word): Ring {
    var g := q.glob[CR0 + 9 := pc][CR0 + 10 := target];
    Ring(0, seq(8, _ => []), g, g)
  }

  /** The EX3 half of a cycle. */
  function StopCycle(q: Ring, wb: Packet, ex3: Packet): Cycle {
    Cycle(Late3(Log(q, 1), ex3.late), LateEx2(Log(q, 2), wb, ex3, ex3.late), Fwd(Writes(ex3.late)))
  }

  /** The breakpoint path: the EX3 stage runs, then WB and EX3 are committed. */
  function Stop(q: Ring, wb: Packet, ex3: Packet, pc: Word, target: Word): Ring {
    var q1 := AppendCycle(q, StopCycle(q, wb, ex3));
    IntProcess(UpdateRegisterFile(UpdateRegisterFile(q1, q.wb), (q.wb + 1) % 8), pc, target)
  }

  /** `update_fetch_pc` copies CP over CPP before a step. */
  function SyncCpp(s: RegFile): RegFile {
    seq(FILE_SIZE, r requires 0 <= r < FILE_SIZE => if IsCpp(r) then s[r - 192] else s[r])
  }

  /** `pac_soc_step`: the packet visits EX1, EX2 and EX3 while WB moves from 5 to 7, so
      its own log is log 0, which is then committed. There is no packet in WB. */
  function Step(q: Ring, pk: Packet, pc: Word, target: Word): Ring {
    var s := SyncCpp(q.glob);
    var l0 := q.logs[0] + Fwd(pk.early) + Mid2(pk.mid);
    var l1 := q.logs[1] + Fwd(pk.mid);
    var l2 := q.logs[2] + Fwd(Writes(pk.late));
    var logs := q.logs[0 := l0 + Late3(l0, pk.late)][1 := LateEx2(l1, NOP, pk, pk.late)][2 := l2];
    IntProcess(UpdateRegisterFile(Ring(0, logs, s, s), 0), pc, target)
  }

  // ---- in-order reference ----

  function Plain(ws: seq<Write>): seq<Node> { seq(|ws|, i requires 0 <= i < |ws| => FwdNode(ws[i])) }

  function Nodes(pk: Packet): seq<Node> { Plain(pk.early) + Plain(pk.mid) + Plain(Writes(pk.late)) }

  /** Every packet finished before the next one starts. */
  function InOrder(s: RegFile, pks: seq<Packet>): RegFile {
    if pks == [] then Clean(s) else Clean(Apply(InOrder(s, pks[..|pks| - 1]), Nodes(pks[|pks| - 1])))
  }

  function AllNodes(pks: seq<Packet>, m: int): seq<Node> {
    if m <= 0 then [] else AllNodes(pks, m - 1) + Nodes(At(pks, m - 1))
  }

  predicate WritesReg(nodes: seq<Node>, r: nat) { LastWrite(nodes, r).Some? }

  predicate WrittenLate(pk: Packet, r: nat) { WritesReg(Plain(pk.mid) + Plain(Writes(pk.late)), r) }

  /** All writes of the packet to r carry the same value. */
  predicate OneValue(nodes: seq<Node>, r: nat) {
    forall i, j | 0 <= i < |nodes| && 0 <= j < |nodes| && Touches(nodes[i], r) && Touches(nodes[j], r) ::
      ValueFor(nodes[i], r) == ValueFor(nodes[j], r)
  }

  /** The late writes of the packet to r carry one value, and so does its EX2 write if it
      has both. */
  predicate LateAgrees(pk: Packet, r: nat) {
    var (m, l) := (LastWrite(Plain(pk.mid), r), LastWrite(Plain(Writes(pk.late)), r));
    OneValue(Plain(Writes(pk.late)), r) && (m == None || l == None || m == l)
  }

  /** No register that a packet writes in EX2 or EX3 is written by a packet one or two
      places away; registers written only in EX1 are free. */
  predicate HazardFree(pks: seq<Packet>, r: nat) {
    forall i | 0 <= i < |pks| && WrittenLate(pks[i], r) ::
      && LateAgrees(pks[i], r)
      && forall j | 0 <= j < |pks| && i != j && i - 2 <= j <= i + 2 :: !WritesReg(Nodes(pks[j]), r)
  }

  /** No mid or late write of r comes from a place whose copies name another register. */
  predicate PlacedAt(pks: seq<Packet>, r: nat) {
    forall i | 0 <= i < |pks| :: PlacedIn(pks[i], r)
  }

  predicate PlacedIn(pk: Packet, r: nat) {
    && (forall j | 0 <= j < |pk.mid| :: WellPlaced(pk.mid[j]) || !Touches(FwdNode(pk.mid[j]), r))
    && (forall j | 0 <= j < |pk.late| :: WellPlaced(pk.late[j].w) || !Touches(FwdNode(pk.late[j].w), r))
  }

  // ---- what the scalar repair touches ----

  /** No repair writes accumulator r. */
  predicate NoExtra(pks: seq<Packet>, r: nat) {
    forall t | 0 <= t < |pks| :: NoExtraIn(At(pks, t - 1), pks[t], r)
  }

  predicate NoExtraIn(wb: Packet, ex3: Packet, r: nat) {
    forall j | 0 <= j < |ex3.late| && Repairs(wb, ex3, ex3.late[j].w) ::
      32 * TYP_AC + StageNode(ex3.late[j].w).addr != r
  }

  /** No repair takes away a write of r, nor writes r. */
  predicate Unrepaired(pks: seq<Packet>, r: nat) {
    forall t | 0 <= t < |pks| :: UnrepairedIn(At(pks, t - 1), pks[t], r)
  }

  predicate UnrepairedIn(wb: Packet, ex3: Packet, r: nat) {
    forall j | 0 <= j < |ex3.late| :: !RepairsAway(wb, ex3, ex3.late[j].w, r)
  }

  predicate RepairsAway(wb: Packet, ex3: Packet, w: Write, r: nat)
    requires w.Reg?
  {
    Repairs(wb, ex3, w) && (32 * TYP_AC + StageNode(w).addr == r || Touches(StageNode(w), r))
  }

  predicate Accumulator(r: int) { 32 * TYP_AC <= r < 32 * TYP_AC + 32 }

  lemma OnlyAccumulators(pks: seq<Packet>, r: nat)
    ensures !Accumulator(r) ==> NoExtra(pks, r)
  {}
}
