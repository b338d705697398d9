/** What each stage of a packet writes to one register, and the in-order reference that
    runs, stops and steps are compared with. */
module Stages {
  import opened Registers
  import opened WriteLog
  import opened Pipeline
  import opened Drain

  // ---- the stage logs, register by register ----

  lemma {:induction false} FwdLast(ws: seq<Write>, r: nat)
    requires !IsCpp(r)
    ensures LastWrite(Fwd(ws), r) == LastWrite(Plain(ws), r)
  {
    hide LastWrite, FwdNode, NodeOk, IsCpp;
    if ws != [] {
      var k := |ws| - 1;
      if ws[k].Reg? { NodeTyp(ws[k]); }
      FwdLast(ws[..k], r);
      assert Plain(ws) == Plain(ws[..k]) + [FwdNode(ws[k])];
      SingleEntry(Fwd(ws[..k]), FwdEntries(ws[k]), FwdNode(ws[k]), r);
      LastWriteConcat(Plain(ws[..k]), [FwdNode(ws[k])], r);
    } else {
      assert Plain(ws) == [];
    }
  }

  /** A CPP companion entry is invisible outside CPP. */
  lemma SingleEntry(a: seq<Node>, es: seq<Node>, n: Node, r: nat)
    requires !IsCpp(r)
    requires es == [n] || (n.typ == TYP_CP && (es == [CppNode(n), n] || es == [n, CppNode(n)]))
    ensures LastWrite(a + es, r) == OrElse(LastWrite([n], r), LastWrite(a, r))
  {
    LastWriteConcat(a, es, r);
    if es != [n] { LastWriteConcat([es[0]], [es[1]], r); assert es == [es[0]] + [es[1]]; }
  }

  lemma NodeTyp(w: Write)
    requires w.Reg?
    ensures FwdNode(w).typ == w.typ
  {}

  /** The architectural registers: not CPP, which the logs write behind CP, and not the
      spare ones, which only misplaced copies name. */
  predicate Architectural(r: nat) { !IsCpp(r) && !Spare(r) }

  /** The writes whose late copies are well placed. */
  function PlacedMid(ws: seq<MidReg>): seq<MidReg> {
    if ws == [] then [] else PlacedMid(ws[..|ws| - 1]) + if WellPlaced(ws[|ws| - 1]) then [ws[|ws| - 1]] else []
  }

  function PlacedLate(ls: seq<LateReg>): seq<LateReg> {
    if ls == [] then [] else PlacedLate(ls[..|ls| - 1]) + if WellPlaced(ls[|ls| - 1].w) then [ls[|ls| - 1]] else []
  }

  /** A copy is seen in an architectural register exactly if it is well placed. */
  lemma CopySeen(w: Write, a: seq<Node>, es: seq<Node>, r: nat)
    requires w.Reg? && Architectural(r)
    requires es == [StageNode(w)] || (w.typ == TYP_CP && es == [StageNode(w), CppNode(StageNode(w))])
    ensures LastWrite(a + es, r) ==
            if WellPlaced(w) then OrElse(LastWrite([FwdNode(w)], r), LastWrite(a, r)) else LastWrite(a, r)
  {
    if WellPlaced(w) {
      CopiesAgreeIff(w);
      NodeTyp(w);
      SingleEntry(a, es, FwdNode(w), r);
    } else {
      MisplacedIsSpare(w);
      LastWriteConcat(a, es, r);
    }
  }

  lemma {:induction false} Mid2Last(ws: seq<MidReg>, r: nat)
    requires Architectural(r)
    ensures LastWrite(Mid2(ws), r) == LastWrite(Plain(PlacedMid(ws)), r)
  {
    hide LastWrite, FwdNode, StageNode, NodeOk, WellPlaced, Architectural;
    if ws != [] {
      var k := |ws| - 1;
      var front := PlacedMid(ws[..k]);
      Mid2Last(ws[..k], r);
      CopySeen(ws[k], Mid2(ws[..k]), Stage2Entries(ws[k]), r);
      PlainMore(front, ws[k], r);
      assert front + [] == front;
    } else {
      assert Plain([]) == [];
    }
  }

  lemma PlainMore(ws: seq<Write>, w: Write, r: nat)
    ensures LastWrite(Plain(ws + [w]), r) == OrElse(LastWrite([FwdNode(w)], r), LastWrite(Plain(ws), r))
  {
    hide LastWrite, FwdNode;
    assert Plain(ws + [w]) == Plain(ws) + [FwdNode(w)];
    LastWriteConcat(Plain(ws), [FwdNode(w)], r);
  }

  lemma {:induction false} Late3Last(log: seq<Node>, ls: seq<LateReg>, r: nat)
    requires Architectural(r)
    ensures LastWrite(Late3(log, ls), r) == LastWrite(Plain(Writes(PlacedLate(ls))), r)
  {
    hide LastWrite, FwdNode, StageNode, HasEntry, NodeOk, WellPlaced, Architectural;
    if ls == [] {
      assert Plain(Writes(ls)) == [];
    } else {
      var k := |ls| - 1;
      var w, front := ls[k].w, PlacedLate(ls[..k]);
      Late3Last(log, ls[..k], r);
      CopySeen(w, Late3(log, ls[..k]), Stage3Entries(log + Late3(log, ls[..k]) + [StageNode(w)], w), r);
      PlainMore(Writes(front), w, r);
      assert Writes(front + [ls[k]]) == Writes(front) + [w];
      assert front + [] == front;
    }
  }

  // ---- CPP behind CP ----

  lemma NoCppWrites(w: Write)
    ensures FwdNode(w).typ != TYP_CPP && (w.Reg? ==> StageNode(w).typ != TYP_CPP)
  {}

  /** One entry for CP a and one for CPP a with the same data, in either order, mirror. */
  lemma PairMirrors(n: Node, es: seq<Node>, a: nat)
    requires a < 32 && n.typ != TYP_CPP
    requires if n.typ == TYP_CP then es == [CppNode(n), n] || es == [n, CppNode(n)] else es == [n]
    ensures LastWrite(es, Rf(9, a)) == LastWrite(es, Rf(3, a))
  {
    if |es| == 2 {
      assert es[..1] == [es[0]];
      assert LastWrite([es[0]], Rf(9, a)) == if es[0].typ == 9 && es[0].addr == a then Some(n.data) else None;
      assert LastWrite([es[0]], Rf(3, a)) == if es[0].typ == 3 && es[0].addr == a then Some(n.data) else None;
    }
  }

  /** Whatever is forwarded to CP is forwarded to CPP. */
  lemma {:induction false} FwdMirrors(ws: seq<Write>, a: nat)
    requires a < 32
    ensures LastWrite(Fwd(ws), Rf(9, a)) == LastWrite(Fwd(ws), Rf(3, a))
  {
    hide LastWrite, FwdNode;
    if ws != [] {
      var k := |ws| - 1;
      FwdMirrors(ws[..k], a);
      NoCppWrites(ws[k]);
      if ws[k].Reg? { NodeTyp(ws[k]); } else { StatusTyp(ws[k]); }
      PairMirrors(FwdNode(ws[k]), FwdEntries(ws[k]), a);
      LastWriteConcat(Fwd(ws[..k]), FwdEntries(ws[k]), Rf(9, a));
      LastWriteConcat(Fwd(ws[..k]), FwdEntries(ws[k]), Rf(3, a));
    } else {
      NothingWritten(Rf(9, a));
      NothingWritten(Rf(3, a));
    }
  }

  lemma StatusTyp(w: Write)
    requires w.Psr?
    ensures FwdNode(w).typ == TYP_PSR
  {}

  /** And so it is with the EX2 copies. */
  lemma {:induction false} MidMirrors(ws: seq<MidReg>, a: nat)
    requires a < 32
    ensures LastWrite(Mid2(ws), Rf(9, a)) == LastWrite(Mid2(ws), Rf(3, a))
  {
    hide LastWrite, StageNode;
    if ws != [] {
      var k := |ws| - 1;
      MidMirrors(ws[..k], a);
      NoCppWrites(ws[k]);
      StageTyp(ws[k]);
      PairMirrors(StageNode(ws[k]), Stage2Entries(ws[k]), a);
      LastWriteConcat(Mid2(ws[..k]), Stage2Entries(ws[k]), Rf(9, a));
      LastWriteConcat(Mid2(ws[..k]), Stage2Entries(ws[k]), Rf(3, a));
    } else {
      NothingWritten(Rf(9, a));
      NothingWritten(Rf(3, a));
    }
  }

  lemma StageTyp(w: Write)
    requires w.Reg?
    ensures StageNode(w).typ == w.typ && StageNode(w).data == w.data
  {}

  /** The first late write of CP a. */
  function FirstCp(ls: seq<LateReg>, a: nat): Option<Word> {
    if ls == [] then None
    else
      var l := ls[|ls| - 1];
      OrElse(FirstCp(ls[..|ls| - 1], a), if Target(StageNode(l.w)) == Rf(3, a) then Some(l.w.data) else None)
  }

  /** The EX3 copies reach CPP only if nothing in their slot has yet, and then once: the first
      of them counts. */
  lemma {:induction false} Late3Once(log: seq<Node>, ls: seq<LateReg>, a: nat)
    requires a < 32
    ensures LastWrite(Late3(log, ls), Rf(9, a)) == if HasEntry(log, TYP_CPP, a) then None else FirstCp(ls, a)
  {
    hide LastWrite, StageNode;
    if ls == [] {
      NothingWritten(Rf(9, a));
    } else {
      var (front, l) := (ls[..|ls| - 1], ls[|ls| - 1]);
      Late3Once(log, front, a);
      var k := Late3(log, front);
      var n := StageNode(l.w);
      StageTyp(l.w);
      NoCppWrites(l.w);
      CppEntries(log, k, n, a);
      LastWriteConcat(k, Stage3Entries(log + k + [n], l.w), Rf(9, a));
      CpEntry(n, a);
    }
  }

  lemma CpEntry(n: Node, a: nat)
    requires a < 32
    ensures Target(n) == Rf(3, a) <==> n.typ == TYP_CP && n.addr == a
    ensures n.typ != TYP_CPP ==> LastWrite([n], Rf(9, a)) == None
    ensures n.typ == TYP_CP ==> LastWrite([n, CppNode(n)], Rf(9, a)) == if n.addr == a then Some(n.data) else None
  {
    if n.typ == TYP_CP { assert [n, CppNode(n)][..1] == [n]; }
  }

  /** An entry for CPP a in a log is a write of it. */
  lemma CppEntries(log: seq<Node>, k: seq<Node>, n: Node, a: nat)
    requires a < 32 && n.typ != TYP_CPP
    ensures HasEntry(log + k + [n], TYP_CPP, a) <==> HasEntry(log, TYP_CPP, a) || LastWrite(k, Rf(9, a)).Some?
  {
    var all := log + k + [n];
    UntouchedIff(k, Rf(9, a));
    if HasEntry(log, TYP_CPP, a) {
      var i :| 0 <= i < |log| && log[i].typ == TYP_CPP && log[i].addr == a;
      assert all[i] == log[i];
    }
    if LastWrite(k, Rf(9, a)).Some? {
      var i :| 0 <= i < |k| && Touches(k[i], Rf(9, a));
      assert all[|log| + i] == k[i];
    }
    if HasEntry(all, TYP_CPP, a) {
      var i :| 0 <= i < |all| && all[i].typ == TYP_CPP && all[i].addr == a;
      if i < |log| { assert log[i] == all[i]; } else if i < |log| + |k| { assert Touches(k[i - |log|], Rf(9, a)); }
    }
  }

  // ---- the writes of a packet to one register, by stage ----

  function E(pks: seq<Packet>, t: int, r: nat): Option<Word> { LastWrite(Plain(At(pks, t).early), r) }

  function M(pks: seq<Packet>, t: int, r: nat): Option<Word> { LastWrite(Plain(At(pks, t).mid), r) }

  function L(pks: seq<Packet>, t: int, r: nat): Option<Word> { LastWrite(Plain(Writes(At(pks, t).late)), r) }

  /** The packet's own result for r. */
  function V(pks: seq<Packet>, t: int, r: nat): Option<Word> {
    OrElse(L(pks, t, r), OrElse(M(pks, t, r), E(pks, t, r)))
  }

  lemma NodesLast(pks: seq<Packet>, t: int, r: nat)
    ensures LastWrite(Nodes(At(pks, t)), r) == V(pks, t, r)
  {
    var pk := At(pks, t);
    LastWriteConcat(Plain(pk.early) + Plain(pk.mid), Plain(Writes(pk.late)), r);
    LastWriteConcat(Plain(pk.early), Plain(pk.mid), r);
  }

  lemma NopPlain()
    ensures Plain([]) == [] && Writes([]) == []
  {}

  lemma NopWritesNothing(pks: seq<Packet>, t: int, r: nat)
    requires t < 0 || t >= |pks|
    ensures E(pks, t, r) == M(pks, t, r) == L(pks, t, r) == None
  {
    NopPlain();
  }

  /** The last packet before m that writes r, or -1. */
  function LastWriter(pks: seq<Packet>, m: nat, r: nat): int {
    if m == 0 then -1 else if V(pks, m - 1, r).Some? then m - 1 else LastWriter(pks, m - 1, r)
  }

  lemma {:induction false} LastWriterIs(pks: seq<Packet>, m: nat, r: nat)
    ensures var w := LastWriter(pks, m, r); -1 <= w < m && (w >= 0 ==> V(pks, w, r).Some?)
    ensures forall t | LastWriter(pks, m, r) < t < m :: V(pks, t, r) == None
  {
    hide V;
    if m > 0 { LastWriterIs(pks, m - 1, r); }
  }

  /** Later packets, and the empty ones around the program, write nothing to r. */
  lemma Quiet(pks: seq<Packet>, m: nat, r: nat, t: int)
    requires t < 0 || t >= |pks| || LastWriter(pks, m, r) < t < m
    ensures E(pks, t, r) == M(pks, t, r) == L(pks, t, r) == None
  {
    hide E, M, L, LastWriter;
    if t < 0 || t >= |pks| {
      NopWritesNothing(pks, t, r);
    } else {
      LastWriterIs(pks, m, r);
      assert V(pks, t, r) == None;
    }
  }

  // ---- the in-order reference ----

  /** The packets before m, however many there are. */
  function Take(pks: seq<Packet>, m: int): seq<Packet> {
    if m <= 0 then [] else if m >= |pks| then pks else pks[..m]
  }

  lemma {:induction false} InOrderIsAllNodes(s: RegFile, pks: seq<Packet>, m: int)
    ensures InOrder(s, Take(pks, m)) == Clean(Apply(s, AllNodes(pks, m)))
  {
    hide Clean, Apply, Nodes;
    if m <= 0 {
      assert Apply(s, []) == s by { ApplyNothing(s); }
    } else {
      InOrderIsAllNodes(s, pks, m - 1);
      if m <= |pks| {
        assert Take(pks, m)[..m - 1] == Take(pks, m - 1) && Take(pks, m)[m - 1] == At(pks, m - 1);
        CleanAbsorbs(Apply(s, AllNodes(pks, m - 1)), Nodes(At(pks, m - 1)));
        ApplyConcat(s, AllNodes(pks, m - 1), Nodes(At(pks, m - 1)));
      } else {
        assert AllNodes(pks, m) == AllNodes(pks, m - 1) by { assert Nodes(NOP) == [] by { NopIsEmpty(); } }
      }
    }
  }

  lemma ApplyNothing(s: RegFile)
    ensures Apply(s, []) == s
  {}

  lemma NopIsEmpty()
    ensures Nodes(NOP) == []
  {}

  /** In order, the last packet that writes r decides. */
  lemma {:induction false} AllNodesLast(pks: seq<Packet>, m: nat, r: nat)
    ensures LastWrite(AllNodes(pks, m), r) == var w := LastWriter(pks, m, r); if w >= 0 then V(pks, w, r) else None
  {
    hide V, Nodes, LastWrite;
    if m > 0 {
      AllNodesLast(pks, m - 1, r);
      NodesLast(pks, m - 1, r);
      LastWriteConcat(AllNodes(pks, m - 1), Nodes(At(pks, m - 1)), r);
    } else {
      NothingWritten(r);
    }
  }

  lemma NothingWritten(r: nat)
    ensures LastWrite([], r) == None
  {}

  /** The value of a register, as its width trims it, after entries over s. */
  function Settle(s: RegFile, r: nat, v: Option<Word>): Word
    requires r < FILE_SIZE
  {
    Trim(r, if v.Some? then v.value else s[r])
  }

  lemma CleanApplyAt(s: RegFile, nodes: seq<Node>, r: nat)
    requires r < FILE_SIZE && r != CR0
    ensures Clean(Apply(s, nodes))[r] == Settle(s, r, LastWrite(nodes, r))
  {
    hide Apply;
    ApplyAt(s, nodes, r);
  }

  /** Entries with the same last writes keep two files equal at r. */
  lemma StepAgrees(s: RegFile, t: RegFile, a: seq<Node>, b: seq<Node>, r: nat)
    requires r < FILE_SIZE
    requires forall q: nat | Decides(q, r) :: q < FILE_SIZE && s[q] == t[q] && LastWrite(a, q) == LastWrite(b, q)
    ensures Clean(Apply(s, a))[r] == Clean(Apply(t, b))[r]
  {
    hide LastWrite, Apply, Clean;
    var x, y := Apply(s, a), Apply(t, b);
    forall q: nat | Decides(q, r) ensures x[q] == y[q] {
      ApplyAt(s, a, q);
      ApplyAt(t, b, q);
    }
    assert r != CR0 ==> Decides(r, r);
    assert r == CR0 ==> forall q: nat | P0 < q < P0 + 16 :: Decides(q, r);
    CleanAgrees(x, y, r);
  }

  /** Everything but CPP, the spare registers, and the two registers that hold the PC and
      the branch target. */
  predicate Observable(r: int) { 0 <= r < FILE_SIZE && Architectural(r) && r != SR9 && r != SR10 }

  const SR9: nat := CR0 + 9
  const SR10: nat := CR0 + 10
}
