/** The ring of eight write logs (pac-exec.cpp, pac-exec-def.h) and what a whole run of
    it leaves in the forwarded file `ro` and in the committed file `glob`. */
module WriteLog {
  import opened Registers

  /** What one clock cycle does to the open logs: it appends to those of the EX3 and EX1
      slots, and leaves `ex2` as the log of the EX2 slot, which it may also edit. */
  datatype Cycle = Cycle(ex3: seq<Node>, ex2: seq<Node>, ex1: seq<Node>)

  // ---- the ring ----

  datatype RawRing = Ring(wb: nat, logs: seq<seq<Node>>, ro: RegFile, glob: RegFile)

  type Ring = p: RawRing | p.wb < 8 && |p.logs| == 8
    witness Ring(0, seq(8, _ => []), seq(FILE_SIZE, _ => 0), seq(FILE_SIZE, _ => 0))

  /** The log k slots after WB. */
  function Log(p: Ring, k: nat): seq<Node> { p.logs[(p.wb + k) % 8] }

  function Append(logs: seq<seq<Node>>, i: nat, nodes: seq<Node>): seq<seq<Node>>
    requires i < |logs|
  {
    logs[i := logs[i] + nodes]
  }

  /** `update_registerfile`: forward the log three slots ahead, commit and empty log i. */
  function UpdateRegisterFile(p: Ring, i: nat): Ring
    requires i < 8
  {
    p.(ro := Clean(Apply(p.ro, p.logs[(i + 3) % 8])),
       glob := Clean(Apply(p.glob, p.logs[i])),
       logs := p.logs[i := []])
  }

  function AppendCycle(p: Ring, c: Cycle): Ring {
    p.(logs := Append(Append(p.logs, (p.wb + 1) % 8, c.ex3)[(p.wb + 2) % 8 := c.ex2], (p.wb + 3) % 8, c.ex1))
  }

  /** One turn of the run loop. */
  function Tick(p: Ring, c: Cycle): Ring {
    UpdateRegisterFile(AppendCycle(p, c), p.wb).(wb := (p.wb + 1) % 8)
  }

  function Run(p: Ring, h: seq<Cycle>): Ring {
    if h == [] then p else Tick(Run(p, h[..|h| - 1]), h[|h| - 1])
  }

  predicate Fresh(p: Ring) { (forall i | 0 <= i < 8 :: p.logs[i] == []) && p.ro == p.glob }

  // ---- what a run has appended, slot by slot ----

  function Ex1(h: seq<Cycle>, t: int): seq<Node> { if 0 <= t < |h| then h[t].ex1 else [] }

  function Ex3(h: seq<Cycle>, t: int): seq<Node> { if 0 <= t < |h| then h[t].ex3 else [] }

  /** The log of the slot that is EX1 in cycle t, EX2 in t+1 and EX3 in t+2. */
  function Slot(h: seq<Cycle>, t: int): seq<Node> {
    (if 0 <= t + 1 < |h| then h[t + 1].ex2 else Ex1(h, t)) + Ex3(h, t + 2)
  }

  /** The entries of the slots before slot m in commit order; slots -2 and -1 exist
      because cycle 0 may already hold EX3 and EX2 writes. */
  function Committed(h: seq<Cycle>, m: int): seq<Node>
    decreases m + 2
  {
    if m <= -2 then [] else Committed(h, m - 1) + Slot(h, m - 1)
  }

  /** The entries of the first m EX1 logs in forwarding order. */
  function Forwarded(h: seq<Cycle>, m: int): seq<Node> {
    if m <= 0 then [] else Forwarded(h, m - 1) + Ex1(h, m - 1)
  }

  /** The cleaned file after `nodes`; a file that no cycle has touched is not cleaned. */
  function Settled(s: RegFile, cycles: int, nodes: seq<Node>): RegFile {
    if cycles <= 0 then s else Clean(Apply(s, nodes))
  }

  lemma AppendLogs(p: Ring, c: Cycle, k: nat)
    requires k < 8
    ensures Log(AppendCycle(p, c), k) ==
            if k == 2 then c.ex2 else Log(p, k) + (if k == 1 then c.ex3 else if k == 3 then c.ex1 else [])
  {
    var i := (p.wb + k) % 8;
    assert (i == (p.wb + 1) % 8 <==> k == 1) && (i == (p.wb + 2) % 8 <==> k == 2) && (i == (p.wb + 3) % 8 <==> k == 3);
  }

  lemma TickLogs(p: Ring, c: Cycle, k: nat)
    requires k < 8
    ensures Log(Tick(p, c), k) ==
            if k == 0 then Log(p, 1) + c.ex3
            else if k == 1 then c.ex2
            else if k == 2 then Log(p, 3) + c.ex1
            else if k == 7 then [] else Log(p, k + 1)
  {
    hide Clean, Apply, AppendCycle;
    var i := (p.wb + k + 1) % 8;
    assert (Tick(p, c).wb + k) % 8 == i;
    assert i == p.wb <==> k == 7;
    if k < 7 {
      AppendLogs(p, c, k + 1);
      assert Log(p, k + 1) + [] == Log(p, k + 1);
      assert Log(Tick(p, c), k) == AppendCycle(p, c).logs[i] == Log(AppendCycle(p, c), k + 1) by { WbKept(p, c); }
    }
  }

  /** One more cycle grows the three open slots and no other. */
  lemma SlotGrows(h: seq<Cycle>, c: Cycle, t: int)
    requires t <= |h|
    ensures Slot(h + [c], t) ==
            if t == |h| then c.ex1
            else if t == |h| - 1 then c.ex2
            else if t == |h| - 2 then Slot(h, t) + c.ex3
            else Slot(h, t)
  {}

  lemma SlotStays(h: seq<Cycle>, c: Cycle, t: int)
    requires t <= |h| - 3
    ensures Slot(h + [c], t) == Slot(h, t)
  {}

  lemma WbKept(p: Ring, c: Cycle)
    ensures AppendCycle(p, c).wb == p.wb
  {}

  lemma {:induction false} CommittedExtends(h: seq<Cycle>, c: Cycle, m: int)
    requires m <= |h| - 2
    ensures Committed(h + [c], m) == Committed(h, m)
    decreases m + 2
  {
    hide Slot;
    if m > -2 {
      SlotStays(h, c, m - 1);
      CommittedExtends(h, c, m - 1);
    }
  }

  lemma {:induction false} ForwardedExtends(h: seq<Cycle>, c: Cycle, m: int)
    requires m <= |h|
    ensures Forwarded(h + [c], m) == Forwarded(h, m)
  {
    if m > 0 { ForwardedExtends(h, c, m - 1); }
  }

  lemma SettleMore(s: RegFile, cycles: int, a: seq<Node>, b: seq<Node>)
    requires cycles <= 0 ==> a == []
    ensures Clean(Apply(Settled(s, cycles, a), b)) == Clean(Apply(s, a + b))
  {
    ApplyConcat(s, a, b);
    if cycles > 0 { CleanAbsorbs(Apply(s, a), b); } else { assert a + b == b; }
  }

  lemma LogsStep(q: Ring, g: seq<Cycle>, c: Cycle, k: nat)
    requires k < 8
    requires k < 7 ==> Log(q, k + 1) == Slot(g, |g| - 2 + k)
    ensures Log(Tick(q, c), k) == Slot(g + [c], |g| - 2 + k)
  {
    hide Log, Slot, Tick;
    TickLogs(q, c, k);
    if k <= 2 { SlotGrows(g, c, |g| - 2 + k); } else { SlotBeyond(g, c, |g| - 2 + k); }
    if k == 1 || k == 2 { OpenSlots(g); }
  }

  /** The slots that no cycle has reached. */
  lemma SlotBeyond(h: seq<Cycle>, c: Cycle, t: int)
    requires t > |h|
    ensures Slot(h, t) == Slot(h + [c], t) == []
  {}

  lemma OpenSlots(h: seq<Cycle>)
    ensures Slot(h, |h|) == []
  {}

  /** The logs after n cycles hold slots n-3..n-1; the other five are empty. */
  lemma {:induction false} RingLogs(p: Ring, h: seq<Cycle>, k: nat)
    requires Fresh(p) && k < 8
    ensures Log(Run(p, h), k) == Slot(h, |h| - 3 + k)
    decreases |h|
  {
    hide Log, Slot, Tick, Fresh;
    if h != [] {
      var n := |h| - 1;
      assert h == h[..n] + [h[n]];
      if k < 7 { RingLogs(p, h[..n], k + 1); }
      LogsStep(Run(p, h[..n]), h[..n], h[n], k);
    } else {
      FreshLogs(p, k);
    }
  }

  lemma FreshLogs(p: Ring, k: nat)
    requires Fresh(p) && k < 8
    ensures Log(p, k) == [] == Slot([], k - 3)
  {}

  lemma TickFiles(q: Ring, c: Cycle)
    requires Log(q, 3) == []
    ensures Tick(q, c).ro == Clean(Apply(q.ro, c.ex1))
    ensures Tick(q, c).glob == Clean(Apply(q.glob, Log(q, 0)))
  {
    hide Clean, Apply;
    assert AppendCycle(q, c).logs[(q.wb + 3) % 8] == [] + c.ex1 == c.ex1;
    assert AppendCycle(q, c).logs[q.wb] == Log(q, 0);
  }

  /** The ring refines the slot-by-slot account of the run: where WB is, which entries
      every log holds (logs WB+3..WB+7 are empty between cycles), and both files. */
  lemma {:induction false} RingRefines(p: Ring, h: seq<Cycle>)
    requires Fresh(p)
    ensures Run(p, h).wb == (p.wb + |h|) % 8
    ensures forall k | 0 <= k < 8 :: Log(Run(p, h), k) == Slot(h, |h| - 3 + k)
    ensures forall k | 3 <= k < 8 :: Log(Run(p, h), k) == []
    ensures Run(p, h).ro == Settled(p.ro, |h|, Forwarded(h, |h|))
    ensures Run(p, h).glob == Settled(p.ro, |h|, Committed(h, |h| - 3))
  {
    forall k | 0 <= k < 8 ensures Log(Run(p, h), k) == Slot(h, |h| - 3 + k) { RingLogs(p, h, k); }
    forall k | 3 <= k < 8 ensures Log(Run(p, h), k) == [] { LateSlotEmpty(p, h, k); }
    RingFiles(p, h);
  }

  lemma LateSlotEmpty(p: Ring, h: seq<Cycle>, k: nat)
    requires Fresh(p) && 3 <= k < 8
    ensures Log(Run(p, h), k) == []
  {
    RingLogs(p, h, k);
  }

  lemma {:induction false} RingFiles(p: Ring, h: seq<Cycle>)
    requires Fresh(p)
    ensures Run(p, h).wb == (p.wb + |h|) % 8
    ensures Run(p, h).ro == Settled(p.ro, |h|, Forwarded(h, |h|))
    ensures Run(p, h).glob == Settled(p.ro, |h|, Committed(h, |h| - 3))
  {
    hide *;
    if h != [] {
      var g, c := h[..|h| - 1], h[|h| - 1];
      assert h == g + [c];
      RingFiles(p, g);
      LateSlotEmpty(p, g, 3);
      RingLogs(p, g, 0);
      RunStep(p, g, c);
      FilesStep(p, Run(p, g), g, c);
      SettledMore(p.ro, |h|, Forwarded(h, |h|));
      SettledMore(p.ro, |h|, Committed(h, |h| - 3));
      TickWb(Run(p, g), c);
    } else {
      NothingRun(p);
    }
  }

  lemma RunStep(p: Ring, g: seq<Cycle>, c: Cycle)
    ensures Run(p, g + [c]) == Tick(Run(p, g), c)
  {
    hide Tick;
    assert (g + [c])[..|g|] == g;
  }

  lemma SettledMore(s: RegFile, cycles: int, nodes: seq<Node>)
    requires cycles > 0
    ensures Settled(s, cycles, nodes) == Clean(Apply(s, nodes))
  {}

  lemma NothingRun(p: Ring)
    requires Fresh(p)
    ensures Run(p, []) == p && p.ro == p.glob
    ensures forall nodes: seq<Node> :: Settled(p.ro, 0, nodes) == p.ro
  {}

  lemma TickWb(q: Ring, c: Cycle)
    ensures Tick(q, c).wb == (q.wb + 1) % 8
  {}

  lemma FilesStep(p: Ring, q: Ring, g: seq<Cycle>, c: Cycle)
    requires q.ro == Settled(p.ro, |g|, Forwarded(g, |g|))
    requires q.glob == Settled(p.ro, |g|, Committed(g, |g| - 3))
    requires Log(q, 3) == [] && Log(q, 0) == Slot(g, |g| - 3)
    ensures Tick(q, c).ro == Clean(Apply(p.ro, Forwarded(g + [c], |g| + 1)))
    ensures Tick(q, c).glob == Clean(Apply(p.ro, Committed(g + [c], |g| - 2)))
  {
    hide *;
    var n := |g|;
    TickFiles(q, c);
    UnfoldLogs(g + [c], n + 1, n - 2);
    UnfoldLogs(g, n, n - 3);
    ForwardedExtends(g, c, n);
    SettleMore(p.ro, n, Forwarded(g, n), c.ex1);
    CommittedExtends(g, c, n - 3);
    SlotStays(g, c, n - 3);
    SettleMore(p.ro, n, Committed(g, n - 3), Slot(g, n - 3));
  }

  lemma UnfoldLogs(h: seq<Cycle>, n: int, m: int)
    ensures Forwarded(h, n) == Forwarded(h, n - 1) + Ex1(h, n - 1)
    ensures Committed(h, m) == Committed(h, m - 1) + Slot(h, m - 1)
    ensures 0 < n <= |h| ==> Ex1(h, n - 1) == h[n - 1].ex1
    ensures n <= 0 ==> Forwarded(h, n) == []
    ensures m <= -2 ==> Committed(h, m) == []
  {}
}
