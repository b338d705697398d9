/** The core's write logs and register files as the simulator keeps them, updated in
    place (pac-exec.cpp, pac-dsp.cpp, sc-pac-ex3.cpp). Every method is proved against the
    ring of `WriteLog` and the packets of `Pipeline`. */
module DspCore {
  import opened Registers
  import opened WriteLog
  import opened Pipeline
  import opened Stages
  import opened PreciseStop

  /** `update_p`: predicates 1..15 from bits 1..15. */
  method UpdateP(file: array<Word>, data: Word)
    requires file.Length == FILE_SIZE
    modifies file
    ensures forall r | 0 <= r < FILE_SIZE :: file[r] == if P0 < r < P0 + 16 then Bit(data, r - P0) else old(file[r])
  {
    var d := data >> 1;
    ShiftMore(data, 0);
    hide ShiftRight;
    for i := 1 to 16
      invariant d == ShiftRight(data, i)
      invariant forall r | 0 <= r < FILE_SIZE :: file[r] == if P0 < r < P0 + i then Bit(data, r - P0) else old(file[r])
    {
      var b := LowBit(d);
      file[P0 + i] := b;
      d := d >> 1;
      ShiftMore(data, i);
    }
  }

  lemma ShiftMore(w: Word, i: nat)
    ensures ShiftRight(w, i + 1) == ShiftRight(w, i) >> 1
    ensures ShiftRight(w, 0) == w
  {}

  method LowBit(d: Word) returns (b: Word)
    ensures b == d & 1
  {
    if d & 1 != 0 {
      b := 1;
      assert d & 1 == 0 || d & 1 == 1;
    } else {
      b := 0;
    }
  }

  /** One half of `update_registerfile`: write the entries of a log into a file. */
  method WriteEntries(file: array<Word>, log: seq<Node>)
    requires file.Length == FILE_SIZE
    modifies file
    ensures file[..] == Apply(old(file[..]), log)
  {
    for i := 0 to |log|
      invariant file[..] == Apply(old(file[..]), log[..i])
    {
      ghost var before := file[..];
      var n := log[i];
      if n.typ < TYP_PSR {
        file[32 * n.typ + n.addr] := n.data;
        if n.typ == TYP_CR && n.addr == 0 {
          UpdateP(file, n.data);
        }
      } else {
        file[320 + 7 * (n.addr / 8) + n.addr % 8] := n.data;
      }
      assert file[..] == ApplyNode(before, n);
      assert log[..i + 1][..i] == log[..i];
    }
    assert log[..|log|] == log;
  }

  /** CR0 is rebuilt from the predicates. */
  method RebuildCr0(file: array<Word>)
    requires file.Length == FILE_SIZE
    modifies file
    ensures forall r | 0 <= r < FILE_SIZE :: file[r] ==
              if r == P0 then 1 else if r == CR0 then PackPredicates(old(file[..]), 16) else old(file[r])
  {
    ghost var s := file[..];
    file[P0] := 1;
    file[CR0] := 0;
    for i := 0 to 16
      invariant forall r | 0 <= r < FILE_SIZE :: file[r] ==
                  if r == P0 then 1 else if r == CR0 then PackPredicates(s, i) else s[r]
    {
      assert file[P0 + i] == if i == 0 then 1 else s[P0 + i];
      file[CR0] := file[CR0] | ShiftLeft(file[P0 + i], i);
    }
  }

  method NarrowFile(file: array<Word>)
    requires file.Length == FILE_SIZE
    modifies file
    ensures forall r | 0 <= r < FILE_SIZE :: file[r] == if r == P0 then old(file[r]) else Trim(r, old(file[r]))
  {
    NarrowWords(file);
    file[339], file[340] := 0, 0;
    file[353], file[354] := 0, 0;
  }

  function Mask(w: Word, mask: Word): Word { w & mask }

  method MaskTwo(file: array<Word>, i: nat, j: nat, mask: Word)
    requires file.Length == FILE_SIZE && i < j < FILE_SIZE
    modifies file
    ensures forall r | 0 <= r < FILE_SIZE ::
              file[r] == if r == i || r == j then Mask(old(file[r]), mask) else old(file[r])
  {
    hide Mask;
    var x, y := Mask(file[i], mask), Mask(file[j], mask);
    file[i], file[j] := x, y;
  }

  /** AMCR and CP. */
  method NarrowWords(file: array<Word>)
    requires file.Length == FILE_SIZE
    modifies file
    ensures forall r | 0 <= r < FILE_SIZE :: file[r] ==
              if r == 256 || r == 272 then old(file[r]) & 0xFFFF
              else if r == 96 || r == 97 || r == 112 || r == 113 then old(file[r]) & 0x7F
              else old(file[r])
  {
    MaskTwo(file, 256, 272, 0xFFFF);
    MaskTwo(file, 96, 97, 0x7F);
    MaskTwo(file, 112, 113, 0x7F);
  }

  /** The other half of `update_registerfile`: P[0], CR0, and the narrow registers. */
  method CleanFile(file: array<Word>)
    requires file.Length == FILE_SIZE
    modifies file
    ensures file[..] == Clean(old(file[..]))
  {
    hide PackPredicates;
    RebuildCr0(file);
    ghost var t := file[..];
    NarrowFile(file);
    forall r | 0 <= r < FILE_SIZE ensures file[r] == CleanAt(old(file[..]), r) {
      assert file[r] == if r == P0 then t[r] else Trim(r, t[r]);
    }
  }

  lemma AppendTwice(logs: seq<seq<Node>>, i: nat, a: Node, b: Node)
    requires i < |logs|
    ensures Append(Append(logs, i, [a]), i, [b]) == Append(logs, i, [a, b])
  {
    assert (logs[i] + [a]) + [b] == logs[i] + [a, b];
  }

  class Core {
    var wbIdx: nat
    const logs: array<seq<Node>>
    const ro: array<Word>
    const glob: array<Word>

    ghost predicate Valid()
      reads this
    {
      wbIdx < 8 && logs.Length == 8 && ro.Length == glob.Length == FILE_SIZE && ro != glob
    }

    ghost function View(): Ring
      reads this, logs, ro, glob
      requires Valid()
    {
      Ring(wbIdx, logs[..], ro[..], glob[..])
    }

    constructor ()
      ensures Valid() && fresh(logs) && fresh(ro) && fresh(glob)
      ensures Fresh(View()) && wbIdx == 0
      ensures forall r | 0 <= r < FILE_SIZE ::
                glob[r] == if r == P0 || r == CR0 + 1 then 1 else if r == CR0 + 2 then 0x0101 else 0
    {
      wbIdx := 0;
      logs := new seq<Node>[8](_ => []);
      ro := new Word[FILE_SIZE](r => if r == P0 || r == CR0 + 1 then 1 else if r == CR0 + 2 then 0x0101 else 0);
      glob := new Word[FILE_SIZE](r => if r == P0 || r == CR0 + 1 then 1 else if r == CR0 + 2 then 0x0101 else 0);
    }

    // ---- log writers ----

    method Log1(k: nat, n: Node)
      requires Valid() && k < 8
      modifies logs
      ensures Valid() && View() == AppendAt(old(View()), k, [n])
    {
      var idx := (wbIdx + k) % 8;
      logs[idx] := logs[idx] + [n];
    }

    /** `regfile_l_write` and `regfile_write`. */
    method RegfileLWrite(w: Write)
      requires Valid() && w.Reg?
      modifies logs
      ensures Valid() && View() == AppendAt(old(View()), 3, FwdEntries(w))
    {
      var num := w.num;
      if w.cluster / 3 != 0 && w.typ != TYP_P && w.typ != TYP_R {
        num := num + 16;
      }
      if w.typ == TYP_CP {
        Log1(3, Node(TYP_CPP, num, w.data));
      }
      Log1(3, Node(w.typ, num, w.data));
      AppendTwice(old(logs[..]), (wbIdx + 3) % 8, Node(TYP_CPP, num, w.data), Node(w.typ, num, w.data));
    }

    /** `psr_write`. */
    method PsrWrite(w: Write)
      requires Valid() && w.Psr?
      modifies logs
      ensures Valid() && View() == AppendAt(old(View()), 3, FwdEntries(w))
    {
      var idx := w.idx;
      if w.cluster == 1 || w.cluster == 2 {
        idx := idx + 1;
      } else if w.cluster == 3 || w.cluster == 4 {
        idx := idx + 3;
      } else {
        idx := 0;
      }
      Log1(3, Node(TYP_PSR, w.bit + 8 * idx, if w.data == 0 then 0 else 1));
    }

    method Stage2LWrite(w: Write)
      requires Valid() && w.Reg?
      modifies logs
      ensures Valid() && View() == AppendAt(old(View()), 2, Stage2Entries(w))
    {
      var num := w.num;
      if w.cluster / 3 != 0 {
        num := num + 16;
      }
      Log1(2, Node(w.typ, num, w.data));
      if w.typ == TYP_CP {
        Log1(2, Node(TYP_CPP, num, w.data));
      }
      AppendTwice(old(logs[..]), (wbIdx + 2) % 8, Node(w.typ, num, w.data), Node(TYP_CPP, num, w.data));
    }

    method Stage3LWrite(w: Write)
      requires Valid() && w.Reg?
      modifies logs
      ensures Valid()
      ensures View() == AppendAt(old(View()), 1, Stage3Entries(Log(old(View()), 1) + [StageNode(w)], w))
    {
      var num := w.num;
      if w.cluster / 3 != 0 {
        num := num + 16;
      }
      Log1(1, Node(w.typ, num, w.data));
      var log := logs[(wbIdx + 1) % 8];
      assert log == old(Log(View(), 1)) + [StageNode(w)];
      if w.typ == TYP_CP {
        for i := 0 to |log|
          invariant forall j | 0 <= j < i :: !(log[j].typ == TYP_CPP && log[j].addr == num)
        {
          if log[i].typ == TYP_CPP && log[i].addr == num {
            return;
          }
        }
        Log1(1, Node(TYP_CPP, num, w.data));
      }
      AppendTwice(old(logs[..]), (wbIdx + 1) % 8, Node(w.typ, num, w.data), Node(TYP_CPP, num, w.data));
    }

    /** The first loop of `write_conflict_check`. */
    method FindConflict(l: LateReg) returns (found: bool)
      requires Valid()
      ensures found == Conflict(Log(View(), 2), l)
    {
      var log := logs[(wbIdx + 2) % 8];
      var addr := if l.w.cluster > 2 then l.w.num + 16 else l.w.num;
      found := false;
      var i := 0;
      while i < |log| && !found
        invariant i <= |log|
        invariant !found ==> forall j | 0 <= j < i :: !Match(log[j], l, addr)
        invariant found ==> Conflict(log, l)
        decreases |log| - i, !found
      {
        if Match(log[i], l, addr) {
          found := true;
        } else {
          i := i + 1;
        }
      }
      if !found { NoMatch(log, l, addr); }
    }

    /** The search for an entry of the register. */
    method FindEntry(typ: nat, addr: nat) returns (i: nat)
      requires Valid()
      ensures var log := Log(View(), 2);
        if HasEntry(log, typ, addr) then i == FirstEntry(log, typ, addr) else i == |log|
    {
      var log := logs[(wbIdx + 2) % 8];
      i := 0;
      while i < |log| && !(log[i].typ == typ && log[i].addr == addr)
        invariant i <= |log| && forall j | 0 <= j < i :: !(log[j].typ == typ && log[j].addr == addr)
      {
        i := i + 1;
      }
    }

    /** Entry i of the EX2 log becomes an accumulator entry. */
    method Retype(i: nat, addr: nat)
      requires Valid() && addr < 32 && i < |Log(View(), 2)|
      modifies logs
      ensures Valid()
          && View() == WithEx2(old(View()), Log(old(View()), 2)[i := Node(TYP_AC, addr, Log(old(View()), 2)[i].data)])
    {
      var idx := (wbIdx + 2) % 8;
      logs[idx] := logs[idx][i := Node(TYP_AC, addr, logs[idx][i].data)];
    }

    /** The scalar repair. */
    method Repair(typ: nat, addr: nat) returns (ret: bool)
      requires Valid() && addr < 32
      modifies logs
      ensures Valid()
      ensures
        var log := Log(old(View()), 2);
        if !HasEntry(log, typ, addr) then View() == old(View()) && ret
        else
          var repaired := Repaired(log, typ, addr);
          View() == WithEx2(old(View()), repaired) && ret == HasEntry(repaired, typ, addr)
    {
      hide View, Log, HasEntry, WithEx2;
      ghost var q := View();
      var first := FindEntry(typ, addr);
      var n := Length();
      ret := true;
      if first < n {
        Retype(first, addr);
        Ex2Is(q, Repaired(Log(q, 2), typ, addr));
        var second := FindEntry(typ, addr);
        n := Length();
        ret := second < n;
      }
    }

    /** `write_conflict_check`; `repair` says that the instructions in EX3 and in WB are
        both scalar late writers and that the one in WB writes this register. */
    method WriteConflictCheck(l: LateReg, repair: bool) returns (ret: bool)
      requires Valid()
      modifies logs
      ensures Valid() && (View(), ret) == CheckedRing(old(View()), l, repair)
    {
      hide View, Log, Conflict, HasEntry, WithEx2, CheckedRing, Repaired;
      CheckedRingIs(View(), l, repair);
      ret := FindConflict(l);
      if ret && repair {
        ret := Repair(l.w.typ, if l.w.cluster > 2 then l.w.num + 16 else l.w.num);
      }
    }

    method Length() returns (n: nat)
      requires Valid()
      ensures n == |Log(View(), 2)|
    {
      n := |logs[(wbIdx + 2) % 8]|;
    }

    static predicate Match(n: Node, l: LateReg, addr: nat) {
      if l.w.typ != TYP_CP then n.typ == l.w.typ && n.addr == addr else l.hit
    }

    static lemma NoMatch(log: seq<Node>, l: LateReg, addr: nat)
      requires addr == StageNode(l.w).addr
      requires forall j | 0 <= j < |log| :: !Match(log[j], l, addr)
      ensures !Conflict(log, l)
    {
      if log != [] { assert !Match(log[0], l, addr); }
    }

    // ---- the three stages ----

    /** A late result (`lw_ls_ex3`, `b_sc_ex3`, ...): forwarded, copied to the EX2 log
        unless the conflict check objects, and copied to the packet's own log. */
    method LateWrite(l: LateReg, repair: bool)
      requires Valid()
      modifies logs
      ensures Valid()
      ensures View() == AfterLate(old(View()), l, repair)
    {
      hide AppendAt, Log, CheckedRing, FwdEntries, Stage2Entries, Stage3Entries;
      ghost var q := View();
      RegfileLWrite(l.w);
      ghost var q1 := View();
      OtherLog(q, 3, 1, FwdEntries(l.w));
      CheckedKeeps(q1, l, repair);
      ghost var q2 := CheckedRing(q1, l, repair).0;
      OtherLog(q2, 2, 1, Stage2Entries(l.w));
      var conflict := WriteConflictCheck(l, repair);
      if !conflict {
        Stage2LWrite(l.w);
      }
      Stage3LWrite(l.w);
    }

    /** Whether the instruction in slot 0 of EX3 and the one in slot 0 of WB make the check
        of a write repair. */
    static method IsRepaired(wb: Packet, ex3: Packet, w: Write) returns (repair: bool)
      requires w.Reg?
      ensures repair == Repairs(wb, ex3, w)
    {
      repair := false;
      if ex3.slot0.LateOp? && wb.slot0.LateOp? {
        repair := wb.slot0.typ == w.typ && wb.slot0.num == w.num && wb.slot0.executes;
      }
    }

    /** The EX3 stage, with the packet that is in WB. */
    method LateWrites(wb: Packet, ex3: Packet)
      requires Valid()
      modifies logs
      ensures Valid() && View() == AppendCycle(old(View()), StopCycle(old(View()), wb, ex3))
    {
      hide AppendCycle, AfterLate, LateCycle, Repairs;
      ghost var q := View();
      var ls := ex3.late;
      NoLates(q, wb, ex3);
      for i := 0 to |ls|
        invariant View() == AppendCycle(q, LateCycle(q, wb, ex3, ls[..i]))
      {
        var repair := IsRepaired(wb, ex3, ls[i].w);
        LateWrite(ls[i], repair);
        LateStep(q, wb, ex3, ls[..i], ls[i]);
        assert ls[..i + 1] == ls[..i] + [ls[i]];
      }
      assert ls[..|ls|] == ls;
      AllLates(q, wb, ex3);
    }

    /** The EX2 stage: every result is forwarded and copied to the packet's own log. */
    method MidWrites(ws: seq<MidReg>)
      requires Valid()
      modifies logs
      ensures Valid() && View() == AppendCycle(old(View()), MidCycle(old(View()), ws))
    {
      hide AppendCycle, AppendAt, MidCycle, FwdEntries, Stage2Entries;
      ghost var q := View();
      NoMids(q);
      for i := 0 to |ws|
        invariant View() == AppendCycle(q, MidCycle(q, ws[..i]))
      {
        RegfileLWrite(ws[i]);
        Stage2LWrite(ws[i]);
        MidStep(q, ws[..i], ws[i]);
        assert ws[..i + 1] == ws[..i] + [ws[i]];
      }
      assert ws[..|ws|] == ws;
    }

    method EarlyWrites(ws: seq<Write>)
      requires Valid()
      modifies logs
      ensures Valid() && View() == AppendCycle(old(View()), EarlyCycle(old(View()), ws))
    {
      hide AppendCycle, AppendAt, EarlyCycle, FwdEntries;
      ghost var q := View();
      NoEarlies(q);
      for i := 0 to |ws|
        invariant View() == AppendCycle(q, EarlyCycle(q, ws[..i]))
      {
        var w := ws[i];
        if w.Reg? { RegfileLWrite(w); } else { PsrWrite(w); }
        EarlyStep(q, ws[..i], w);
        assert ws[..i + 1] == ws[..i] + [w];
      }
      assert ws[..|ws|] == ws;
    }

    // ---- commit, run, stop, step ----

    method UpdateFiles(i: nat)
      requires Valid() && i < 8
      modifies this, logs, ro, glob
      ensures Valid() && View() == UpdateRegisterFile(old(View()), i)
    {
      hide Apply, Clean;
      WriteEntries(ro, logs[(i + 3) % 8]);
      WriteEntries(glob, logs[i]);
      logs[i] := [];
      CleanFile(ro);
      CleanFile(glob);
    }

    /** One turn of the run loop, for the packets in WB, EX3, EX2 and EX1. */
    method RunCycle(wb: Packet, ex3: Packet, ex2: Packet, ex1: Packet)
      requires Valid()
      modifies this, logs, ro, glob
      ensures Valid()
      ensures View() == Tick(old(View()), StageCycle(old(View()), wb, ex3, ex2, ex1))
    {
      hide UpdateRegisterFile, AppendCycle, StopCycle, MidCycle, EarlyCycle, StageCycle;
      ghost var q := View();
      LateWrites(wb, ex3);
      MidWrites(ex2.mid);
      EarlyWrites(ex1.early);
      CycleJoins(q, wb, ex3, ex2, ex1);
      UpdateFiles(wbIdx);
      TickUnfold(q, StageCycle(q, wb, ex3, ex2, ex1));
      wbIdx := (wbIdx + 1) % 8;
    }

    /** The run loop over n cycles; packet t enters EX1 in cycle t. */
    method RunCycles(pks: seq<Packet>, n: nat)
      requires Valid()
      modifies this, logs, ro, glob
      ensures Valid() && View() == Run(old(View()), History(old(View()), pks, n))
    {
      hide Tick, StageCycle;
      ghost var p := View();
      for t := 0 to n
        invariant Valid() && View() == Run(p, History(p, pks, t))
      {
        RunCycle(At(pks, t - 3), At(pks, t - 2), At(pks, t - 1), At(pks, t));
        RunMore(p, pks, t);
      }
    }

    method IntProcessFiles(pc: Word, target: Word)
      requires Valid()
      modifies this, logs, ro, glob
      ensures Valid() && View() == IntProcess(old(View()), pc, target)
    {
      glob[CR0 + 9] := pc;
      glob[CR0 + 10] := target;
      forall r | 0 <= r < FILE_SIZE { ro[r] := glob[r]; }
      assert ro[..] == glob[..] == old(glob[..])[CR0 + 9 := pc][CR0 + 10 := target];
      for i := 0 to 8
        modifies logs
        invariant forall j | 0 <= j < i :: logs[j] == []
      {
        logs[i] := [];
      }
      wbIdx := 0;
      assert logs[..] == seq(8, _ => []);
    }

    /** The breakpoint path of the run loop. */
    method StopCore(wb: Packet, ex3: Packet, pc: Word, target: Word)
      requires Valid()
      modifies this, logs, ro, glob
      ensures Valid() && View() == Stop(old(View()), wb, ex3, pc, target)
      ensures glob[SR9] == ro[SR9] == pc && glob[SR10] == ro[SR10] == target
    {
      hide UpdateRegisterFile, AppendCycle, IntProcess, StopCycle;
      ghost var q := View();
      LateWrites(wb, ex3);
      TickUnfold(q, StopCycle(q, wb, ex3));
      UpdateFiles(wbIdx);
      UpdateFiles((wbIdx + 1) % 8);
      IntProcessFiles(pc, target);
      StopSaves(q, wb, ex3, pc, target);
      assert glob[..] == View().glob && ro[..] == View().ro;
    }

    method SyncCppFiles()
      requires Valid()
      modifies ro, glob
      ensures Valid() && View() == old(View()).(ro := SyncCpp(old(View()).glob), glob := SyncCpp(old(View()).glob))
    {
      for a := 0 to 32
        invariant forall r | 0 <= r < FILE_SIZE ::
                    glob[r] == if 288 <= r < 288 + a then old(glob[r - 192]) else old(glob[r])
      {
        glob[288 + a] := glob[96 + a];
      }
      forall r | 0 <= r < FILE_SIZE { ro[r] := glob[r]; }
      assert ro[..] == glob[..] == SyncCpp(old(glob[..]));
    }

    /** `pac_soc_step`. */
    method StepCore(pk: Packet, pc: Word, target: Word)
      requires Valid()
      modifies this, logs, ro, glob
      ensures Valid() && View() == Step(old(View()), pk, pc, target)
      ensures glob[SR9] == ro[SR9] == pc && glob[SR10] == ro[SR10] == target
    {
      hide UpdateRegisterFile, IntProcess, SyncCpp, Fwd, Mid2, Late3, LateEx2, StopCycle, MidCycle, EarlyCycle;
      ghost var q := View();
      SyncCppFiles();
      wbIdx := 5;
      EarlyWrites(pk.early);
      wbIdx := 6;
      MidWrites(pk.mid);
      wbIdx := 7;
      LateWrites(NOP, pk);
      wbIdx := 0;
      StepLogs(q, SyncCpp(q.glob), pk);
      UpdateFiles(0);
      IntProcessFiles(pc, target);
      StepSaves(q, pk, pc, target);
      assert glob[..] == View().glob && ro[..] == View().ro;
    }

    // ---- what the debugger finds ----

    /** A core that has run n cycles and is then stopped shows the in-order result. */
    method RunThenStop(pks: seq<Packet>, n: nat, pc: Word, target: Word)
      requires Valid() && Fresh(View()) && n > 0
      modifies this, logs, ro, glob
      ensures Valid()
      ensures forall r: nat | StopsPrecisely(pks, r) :: glob[r] == InOrder(old(ro[..]), Take(pks, n - 1))[r]
    {
      hide Run, History, Stop, InOrder, Take, StopsPrecisely, Fresh;
      ghost var p := View();
      RunCycles(pks, n);
      StopCore(At(pks, n - 3), At(pks, n - 2), pc, target);
      StoppedIs(p, pks, n, pc, target);
      forall r: nat | StopsPrecisely(pks, r)
        ensures r < FILE_SIZE && View().glob[r] == InOrder(p.ro, Take(pks, n - 1))[r]
      {
        StopsAt(pks, r);
        StopIsPrecise(p, pks, n, pc, target, r);
      }
    }
  }

  // ---- folding the writers of a stage ----

  /** A stage on its own: the other logs stay as they are. */
  function LateCycle(q: Ring, wb: Packet, ex3: Packet, ls: seq<LateReg>): Cycle {
    Cycle(Late3(Log(q, 1), ls), LateEx2(Log(q, 2), wb, ex3, ls), Fwd(Writes(ls)))
  }

  function MidCycle(q: Ring, ws: seq<MidReg>): Cycle { Cycle([], Log(q, 2) + Mid2(ws), Fwd(ws)) }

  function EarlyCycle(q: Ring, ws: seq<Write>): Cycle { Cycle([], Log(q, 2), Fwd(ws)) }

  lemma AppendNothing(q: Ring)
    ensures AppendCycle(q, Cycle([], Log(q, 2), [])) == q
  {
    assert forall i | 0 <= i < 8 :: q.logs[i] + [] == q.logs[i];
  }

  lemma NoLates(q: Ring, wb: Packet, ex3: Packet)
    ensures AppendCycle(q, LateCycle(q, wb, ex3, ex3.late[..0])) == q
  {
    AppendNothing(q);
    NopPlain();
  }

  lemma AllLates(q: Ring, wb: Packet, ex3: Packet)
    ensures LateCycle(q, wb, ex3, ex3.late) == StopCycle(q, wb, ex3)
  {}

  lemma NoMids(q: Ring)
    ensures AppendCycle(q, MidCycle(q, [])) == q
  {
    AppendNothing(q);
    assert Log(q, 2) + [] == Log(q, 2);
  }

  lemma NoEarlies(q: Ring)
    ensures AppendCycle(q, EarlyCycle(q, [])) == q
  {
    AppendNothing(q);
  }

  function JoinCycles(a: Cycle, b: Cycle): Cycle { Cycle(a.ex3 + b.ex3, b.ex2, a.ex1 + b.ex1) }

  lemma AppendMore(q: Ring, a: Cycle, b: Cycle)
    ensures AppendCycle(AppendCycle(q, a), b) == AppendCycle(q, JoinCycles(a, b))
  {
    hide AppendCycle, Log;
    var x, y := AppendCycle(AppendCycle(q, a), b), AppendCycle(q, JoinCycles(a, b));
    forall k: nat | k < 8 ensures Log(x, k) == Log(y, k) { AppendMoreAt(q, a, b, k); }
    OnlyLogs(q, a);
    OnlyLogs(AppendCycle(q, a), b);
    OnlyLogs(q, JoinCycles(a, b));
    SameLogs(x, y);
  }

  lemma AppendMoreAt(q: Ring, a: Cycle, b: Cycle, k: nat)
    requires k < 8
    ensures Log(AppendCycle(AppendCycle(q, a), b), k) == Log(AppendCycle(q, JoinCycles(a, b)), k)
  {
    hide AppendCycle, Log;
    AppendLogs(AppendCycle(q, a), b, k);
    AppendLogs(q, a, k);
    AppendLogs(q, JoinCycles(a, b), k);
  }

  lemma OnlyLogs(q: Ring, c: Cycle)
    ensures AppendCycle(q, c) == q.(logs := AppendCycle(q, c).logs)
  {}

  lemma SameLogs(x: Ring, y: Ring)
    requires x.wb == y.wb && forall k | 0 <= k < 8 :: Log(x, k) == Log(y, k)
    ensures x.logs == y.logs
  {
    forall i | 0 <= i < 8 ensures x.logs[i] == y.logs[i] {
      var k := (i - x.wb) % 8;
      assert (x.wb + k) % 8 == i && Log(x, k) == Log(y, k);
    }
  }

  /** The EX2 log replaced. */
  function WithEx2(q: Ring, log: seq<Node>): Ring { q.(logs := q.logs[(q.wb + 2) % 8 := log]) }

  lemma Ex2Is(q: Ring, log: seq<Node>)
    ensures Log(WithEx2(q, log), 2) == log
  {}

  /** What the conflict check leaves and answers. */
  function CheckedRing(q: Ring, l: LateReg, repair: bool): (Ring, bool) {
    var (log, conflict) := Checked(Log(q, 2), l, repair);
    (WithEx2(q, log), conflict)
  }

  /** The first entry for the register becomes an accumulator entry. */
  function Repaired(log: seq<Node>, typ: nat, addr: nat): seq<Node>
    requires HasEntry(log, typ, addr) && addr < 32
  {
    var first := FirstEntry(log, typ, addr);
    log[first := Node(TYP_AC, addr, log[first].data)]
  }

  lemma CheckedRingIs(q: Ring, l: LateReg, repair: bool)
    ensures
      var (log, n) := (Log(q, 2), StageNode(l.w));
      if !Conflict(log, l) || !repair || !HasEntry(log, n.typ, n.addr)
      then CheckedRing(q, l, repair) == (q, Conflict(log, l))
      else
        var repaired := Repaired(log, n.typ, n.addr);
        CheckedRing(q, l, repair) == (WithEx2(q, repaired), HasEntry(repaired, n.typ, n.addr))
  {
    hide Conflict, HasEntry, WithEx2, Log;
    Ex2Kept(q);
  }

  lemma CheckedKeeps(q: Ring, l: LateReg, repair: bool)
    ensures Log(CheckedRing(q, l, repair).0, 1) == Log(q, 1) && CheckedRing(q, l, repair).0.wb == q.wb
  {
    hide Checked;
  }

  lemma Ex2Kept(q: Ring)
    ensures WithEx2(q, Log(q, 2)) == q
  {}

  /** `AppendAt(q, k, nodes)`: the log k slots after WB grows. */
  function AppendAt(q: Ring, k: nat, nodes: seq<Node>): Ring
    requires k < 8
  {
    q.(logs := Append(q.logs, (q.wb + k) % 8, nodes))
  }

  lemma OtherLog(q: Ring, k: nat, j: nat, nodes: seq<Node>)
    requires k < 8 && j < 8
    ensures Log(AppendAt(q, k, nodes), j) == if j == k then Log(q, k) + nodes else Log(q, j)
  {
    assert (q.wb + k) % 8 == (q.wb + j) % 8 <==> j == k;
  }

  /** A late write with its conflict check. */
  function AfterLate(q: Ring, l: LateReg, repair: bool): Ring {
    var q1 := AppendAt(q, 3, FwdEntries(l.w));
    var (q2, conflict) := CheckedRing(q1, l, repair);
    var q3 := if conflict then q2 else AppendAt(q2, 2, Stage2Entries(l.w));
    AppendAt(q3, 1, Stage3Entries(Log(q, 1) + [StageNode(l.w)], l.w))
  }

  lemma OneAppend(q: Ring, k: nat, nodes: seq<Node>)
    requires k == 1 || k == 3
    ensures AppendAt(q, k, nodes)
        == AppendCycle(q, Cycle(if k == 1 then nodes else [], Log(q, 2), if k == 3 then nodes else []))
  {
    var c := Cycle(if k == 1 then nodes else [], Log(q, 2), if k == 3 then nodes else []);
    forall j | 0 <= j < 8 ensures Log(AppendAt(q, k, nodes), j) == Log(AppendCycle(q, c), j) {
      AppendLogs(q, c, j);
      OtherLog(q, k, j, nodes);
    }
    SameLogs(AppendAt(q, k, nodes), AppendCycle(q, c));
  }

  lemma ReplacedLog(q: Ring, log: seq<Node>, k: nat)
    requires k < 8
    ensures Log(WithEx2(q, log), k) == if k == 2 then log else Log(q, k)
  {
    assert (q.wb + 2) % 8 == (q.wb + k) % 8 <==> k == 2;
  }

  lemma OneReplace(q: Ring, log: seq<Node>)
    ensures WithEx2(q, log) == AppendCycle(q, Cycle([], log, []))
  {
    hide Log, AppendCycle;
    var c := Cycle([], log, []);
    forall k: nat | k < 8 ensures Log(WithEx2(q, log), k) == Log(AppendCycle(q, c), k) {
      AppendLogs(q, c, k);
      ReplacedLog(q, log, k);
    }
    OnlyLogs(q, c);
    SameLogs(WithEx2(q, log), AppendCycle(q, c));
  }

  lemma AppendIsReplace(q: Ring, nodes: seq<Node>)
    ensures AppendAt(q, 2, nodes) == WithEx2(q, Log(q, 2) + nodes)
  {}

  lemma ReplaceTwice(q: Ring, a: seq<Node>, b: seq<Node>)
    ensures WithEx2(WithEx2(q, a), b) == WithEx2(q, b)
  {}

  lemma AfterLateIsCycle(q: Ring, l: LateReg, repair: bool)
    ensures AfterLate(q, l, repair) ==
            AppendCycle(q, Cycle(Stage3Entries(Log(q, 1) + [StageNode(l.w)], l.w),
                                 CheckedCopy(Log(q, 2), l, repair),
                                 FwdEntries(l.w)))
  {
    hide AppendCycle, Stage3Entries, Stage2Entries, FwdEntries, Checked, AppendAt, WithEx2, StageNode, Log;
    var s3, s2, s1 := Stage3Entries(Log(q, 1) + [StageNode(l.w)], l.w), Stage2Entries(l.w), FwdEntries(l.w);
    var copy := CheckedCopy(Log(q, 2), l, repair);
    var q1 := AppendAt(q, 3, s1);
    OtherLog(q, 3, 2, s1);
    var q3 := WithEx2(q1, copy);
    var (log, conflict) := Checked(Log(q, 2), l, repair);
    Ex2Is(q1, log);
    AppendIsReplace(WithEx2(q1, log), s2);
    ReplaceTwice(q1, log, log + s2);
    assert AfterLate(q, l, repair) == AppendAt(q3, 1, s3);
    OneAppend(q, 3, s1);
    OneReplace(q1, copy);
    Ex2Is(q1, copy);
    OneAppend(q3, 1, s3);
    AppendMore(q, Cycle([], Log(q, 2), s1), Cycle([], copy, []));
    AppendMore(q, Cycle([], copy, s1), Cycle(s3, copy, []));
    EmptyJoins(s1, s3, Log(q, 2), copy);
  }

  lemma EmptyJoins(s1: seq<Node>, s3: seq<Node>, a: seq<Node>, b: seq<Node>)
    ensures JoinCycles(Cycle([], a, s1), Cycle([], b, [])) == Cycle([], b, s1)
    ensures JoinCycles(Cycle([], a, s1), Cycle(s3, b, [])) == Cycle(s3, b, s1)
    ensures [] + s1 == s1 + [] == s1 && [] + s3 == s3 + [] == s3
  {}

  lemma LateStep(q: Ring, wb: Packet, ex3: Packet, ls: seq<LateReg>, l: LateReg)
    ensures AfterLate(AppendCycle(q, LateCycle(q, wb, ex3, ls)), l, Repairs(wb, ex3, l.w))
         == AppendCycle(q, LateCycle(q, wb, ex3, ls + [l]))
  {
    hide AppendCycle, Stage3Entries, CheckedCopy, FwdEntries, Log, Late3, LateEx2, Fwd, Repairs, StageNode, AfterLate;
    var repair := Repairs(wb, ex3, l.w);
    var q1 := AppendCycle(q, LateCycle(q, wb, ex3, ls));
    AfterLateIsCycle(q1, l, repair);
    AppendLogs(q, LateCycle(q, wb, ex3, ls), 1);
    AppendLogs(q, LateCycle(q, wb, ex3, ls), 2);
    UnfoldLate(Log(q, 1), Log(q, 2), wb, ex3, ls, l);
    AppendMore(q, LateCycle(q, wb, ex3, ls), Cycle(Stage3Entries(Log(q1, 1) + [StageNode(l.w)], l.w),
                                                  CheckedCopy(Log(q1, 2), l, repair),
                                                  FwdEntries(l.w)));
  }

  lemma UnfoldLate(l1: seq<Node>, l2: seq<Node>, wb: Packet, ex3: Packet, ls: seq<LateReg>, l: LateReg)
    ensures Late3(l1, ls + [l]) == Late3(l1, ls) + Stage3Entries(l1 + Late3(l1, ls) + [StageNode(l.w)], l.w)
    ensures LateEx2(l2, wb, ex3, ls + [l]) == CheckedCopy(LateEx2(l2, wb, ex3, ls), l, Repairs(wb, ex3, l.w))
    ensures Fwd(Writes(ls + [l])) == Fwd(Writes(ls)) + FwdEntries(l.w)
  {
    assert (ls + [l])[..|ls|] == ls;
    assert Writes(ls + [l])[..|ls|] == Writes(ls);
  }

  lemma UnfoldWrites(ws: seq<Write>, w: Write)
    ensures Fwd(ws + [w]) == Fwd(ws) + FwdEntries(w)
  {
    assert (ws + [w])[..|ws|] == ws;
  }

  lemma UnfoldMid(ws: seq<MidReg>, w: MidReg)
    ensures Mid2(ws + [w]) == Mid2(ws) + Stage2Entries(w)
  {
    assert (ws + [w])[..|ws|] == ws;
  }

  lemma MidStep(q: Ring, ws: seq<MidReg>, w: MidReg)
    ensures AppendAt(AppendAt(AppendCycle(q, MidCycle(q, ws)), 3, FwdEntries(w)), 2, Stage2Entries(w))
         == AppendCycle(q, MidCycle(q, ws + [w]))
  {
    hide AppendCycle, Stage2Entries, FwdEntries, Mid2, Fwd, AppendAt, WithEx2, Log;
    var (c, s1, s2) := (MidCycle(q, ws), FwdEntries(w), Stage2Entries(w));
    var log := Log(q, 2) + Mid2(ws) + s2;
    var q1 := AppendCycle(q, c);
    var q2 := AppendAt(q1, 3, s1);
    AppendLogs(q, c, 2);
    OneAppend(q1, 3, s1);
    OtherLog(q1, 3, 2, s1);
    AppendIsReplace(q2, s2);
    OneReplace(q2, log);
    AppendMore(q1, Cycle([], c.ex2, s1), Cycle([], log, []));
    AppendMore(q, c, Cycle([], log, s1));
    EmptyJoins(s1, [], c.ex2, log);
    UnfoldWrites(ws, w);
    UnfoldMid(ws, w);
    assert log == Log(q, 2) + (Mid2(ws) + s2);
  }

  lemma EarlyStep(q: Ring, ws: seq<Write>, w: Write)
    ensures AppendAt(AppendCycle(q, EarlyCycle(q, ws)), 3, FwdEntries(w)) == AppendCycle(q, EarlyCycle(q, ws + [w]))
  {
    hide AppendCycle, FwdEntries, Fwd, AppendAt, Log;
    var c := EarlyCycle(q, ws);
    AppendLogs(q, c, 2);
    OneAppend(AppendCycle(q, c), 3, FwdEntries(w));
    AppendMore(q, c, Cycle([], Log(q, 2), FwdEntries(w)));
    UnfoldWrites(ws, w);
    EmptyJoins([], [], [], []);
  }

  /** The three stages of a cycle, one after the other, are one. */
  lemma CycleJoins(q: Ring, wb: Packet, ex3: Packet, ex2: Packet, ex1: Packet)
    ensures
      var q1 := AppendCycle(q, StopCycle(q, wb, ex3));
      var q2 := AppendCycle(q1, MidCycle(q1, ex2.mid));
      AppendCycle(q2, EarlyCycle(q2, ex1.early)) == AppendCycle(q, StageCycle(q, wb, ex3, ex2, ex1))
  {
    hide AppendCycle, Late3, LateEx2, Mid2, Fwd, Log;
    var a := StopCycle(q, wb, ex3);
    var q1 := AppendCycle(q, a);
    var b := MidCycle(q1, ex2.mid);
    var q2 := AppendCycle(q1, b);
    AppendLogs(q, a, 2);
    AppendLogs(q1, b, 2);
    AppendMore(q, a, b);
    AppendMore(q, JoinCycles(a, b), EarlyCycle(q2, ex1.early));
    EmptyJoins([], a.ex3, [], []);
  }

  lemma TickUnfold(q: Ring, c: Cycle)
    ensures Tick(q, c) == UpdateRegisterFile(AppendCycle(q, c), q.wb).(wb := (q.wb + 1) % 8)
    ensures AppendCycle(q, c).wb == q.wb
    ensures UpdateRegisterFile(AppendCycle(q, c), q.wb).wb == q.wb
  {
    hide Clean, Apply;
  }

  lemma RunMore(p: Ring, pks: seq<Packet>, t: nat)
    ensures
      var q := Run(p, History(p, pks, t));
      Tick(q, StageCycle(q, At(pks, t - 3), At(pks, t - 2), At(pks, t - 1), At(pks, t)))
          == Run(p, History(p, pks, t + 1))
  {
    hide Tick;
    var h := History(p, pks, t + 1);
    assert h[..|h| - 1] == History(p, pks, t);
  }

  lemma EarlyLogs(q: Ring, ws: seq<Write>)
    requires q.wb == 5
    ensures AppendCycle(q, EarlyCycle(q, ws)) == q.(logs := q.logs[0 := q.logs[0] + Fwd(ws)])
  {
    hide Fwd;
    assert forall i | 0 <= i < 8 :: q.logs[i] + [] == q.logs[i];
  }

  lemma MidLogs(q: Ring, ws: seq<MidReg>)
    requires q.wb == 6
    ensures AppendCycle(q, MidCycle(q, ws)) == q.(logs := q.logs[0 := q.logs[0] + Mid2(ws)][1 := q.logs[1] + Fwd(ws)])
  {
    hide Fwd, Mid2;
    assert forall i | 0 <= i < 8 :: q.logs[i] + [] == q.logs[i];
  }

  lemma LateLogs(q: Ring, wb: Packet, ex3: Packet)
    requires q.wb == 7
    ensures
      var l2 := q.logs[2] + Fwd(Writes(ex3.late));
      var late := LateEx2(q.logs[1], wb, ex3, ex3.late);
      AppendCycle(q, StopCycle(q, wb, ex3))
          == q.(logs := q.logs[0 := q.logs[0] + Late3(q.logs[0], ex3.late)][1 := late][2 := l2])
  {
    hide Fwd, Late3, LateEx2, Writes;
  }

  /** The stages of a step change logs 0, 1 and 2, as `Step` says. */
  lemma StepLogs(q: Ring, s: RegFile, pk: Packet)
    ensures
      var l0 := q.logs[0] + Fwd(pk.early) + Mid2(pk.mid);
      var l1 := q.logs[1] + Fwd(pk.mid);
      var q0 := Ring(5, q.logs, s, s);
      var q1 := AppendCycle(q0, EarlyCycle(q0, pk.early)).(wb := 6);
      var q2 := AppendCycle(q1, MidCycle(q1, pk.mid)).(wb := 7);
      var l2 := q.logs[2] + Fwd(Writes(pk.late));
      var logs := q.logs[0 := l0 + Late3(l0, pk.late)][1 := LateEx2(l1, NOP, pk, pk.late)][2 := l2];
      AppendCycle(q2, StopCycle(q2, NOP, pk)).(wb := 0) == Ring(0, logs, s, s)
  {
    hide Fwd, Mid2, Late3, LateEx2, AppendCycle, EarlyCycle, MidCycle, StopCycle, Writes;
    var l0 := q.logs[0] + Fwd(pk.early) + Mid2(pk.mid);
    var l1 := q.logs[1] + Fwd(pk.mid);
    var q0 := Ring(5, q.logs, s, s);
    EarlyLogs(q0, pk.early);
    var q1 := Ring(6, q.logs[0 := q.logs[0] + Fwd(pk.early)], s, s);
    MidLogs(q1, pk.mid);
    var q2 := Ring(7, q.logs[0 := l0][1 := l1], s, s);
    assert q1.logs[0 := l0][1 := l1] == q2.logs;
    LateLogs(q2, NOP, pk);
    assert q2.logs[0 := l0 + Late3(l0, pk.late)][1 := LateEx2(l1, NOP, pk, pk.late)]
        == q.logs[0 := l0 + Late3(l0, pk.late)][1 := LateEx2(l1, NOP, pk, pk.late)];
  }
}
