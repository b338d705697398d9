/** Core-to-core mailboxes (c2cc-wrap.h, pac-c2cc-bus.h): four senders that are also four
    receivers, with a send trigger, a busy flag, accept, cancel, timeout and a back-off
    count. Runs interleave clock ticks of single cores and host register writes. */
module Mailbox {

  const DSPNUM: nat := 4

  const TX_SEND_TRIG: nat := 0
  const TX_STATUS: nat := 1
  const TX_CTRL: nat := 2
  const TX_TIMEOUT: nat := 3
  const TX_MESSAGE_0: nat := 4
  const TX_CANCEL: nat := 8
  const TX_RESERVE: nat := 11
  const RX_STATUS: nat := 16
  const SOURCE_ID: nat := 17
  const RX_MESSAGE_0: nat := 18
  const RX_ACCEPT: nat := 22

  /** The registers of one wrapper, its timeout, and its row of the arbitration table. */
  datatype RawCore = Core(regs: seq<bv32>, timeout: nat, count: nat, from: nat)

  type Core = c: RawCore | |c.regs| == 32 && c.from < DSPNUM
    witness Core(seq(32, _ => 0), 0, 0, 0)

  type System = s: seq<Core> | |s| == DSPNUM witness seq(DSPNUM, _ => Core(seq(32, _ => 0), 0, 0, 0))

  function Reset(): System { var c := Core(seq(32, _ => 0), 0, 0, 0); [c, c, c, c] }

  predicate Armed(c: Core) { c.regs[TX_SEND_TRIG] & 1 == 1 }

  predicate Busy(c: Core) { c.regs[RX_STATUS] & 3 != 0 && c.regs[RX_STATUS] & 2 != 0 }

  predicate Cancelling(c: Core) { c.regs[TX_CANCEL] & 1 == 1 }

  function DestOf(ctrl: bv32): nat { ((ctrl >> 16) & 0xf) as nat }

  function Dest(c: Core): nat { DestOf(c.regs[TX_CTRL]) }

  function TimeoutOf(v: bv32): nat { 10 * (((v & 0xff00) >> 8) as nat) * 2 * ((v & 0xf) as nat) }

  /** TX_CTRL: a destination written to bits 16..19 is the destination, whatever the others. */
  lemma DestField(ctrl: bv32, d: bv32)
    requires d <= 0xf
    ensures DestOf((ctrl & 0xfff0ffff) | (d << 16)) == d as nat
  {
    PutDest(ctrl, d);
  }

  lemma PutDest(ctrl: bv32, d: bv32)
    requires d <= 0xf
    ensures (((ctrl & 0xfff0ffff) | (d << 16)) >> 16) & 0xf == d
  {}

  /** TX_TIMEOUT: bits 8..15 times bits 0..3, in units of twenty ticks. */
  lemma TimeoutField(v: bv32, a: bv32, b: bv32)
    requires a <= 0xff && b <= 0xf
    ensures TimeoutOf((v & 0xffff00f0) | (a << 8) | b) == 20 * (a as nat) * (b as nat)
  {
    PutTimeout(v, a, b);
    var x, y := a as nat, b as nat;
    assert 10 * x * 2 * y == 20 * x * y;
  }

  lemma PutTimeout(v: bv32, a: bv32, b: bv32)
    requires a <= 0xff && b <= 0xf
    ensures ((((v & 0xffff00f0) | (a << 8) | b) & 0xff00) >> 8) == a && ((v & 0xffff00f0) | (a << 8) | b) & 0xf == b
  {}

  function Set(c: Core, r: nat, v: bv32): Core requires r < 32 { c.(regs := c.regs[r := v]) }

  function And(c: Core, r: nat, v: bv32): Core requires r < 32 { Set(c, r, c.regs[r] & v) }

  function Or(c: Core, r: nat, v: bv32): Core requires r < 32 { Set(c, r, c.regs[r] | v) }

  // ---- the operations ----

  /** A message on the bus. */
  datatype Message = Message(from: nat, body: seq<bv32>)

  function Outgoing(s: System, i: nat): (m: Message)
    requires i < DSPNUM
    ensures m.from == i && |m.body| == 4
  {
    Message(i, s[i].regs[TX_MESSAGE_0..TX_MESSAGE_0 + 4])
  }

  /** The test that would also set the low status bit compares bit 8 with 1. */
  lemma LowStatusBitNeverSet(ctrl: bv32)
    ensures ctrl & 0x100 != 1
  {}

  function Receive(c: Core, m: Message): Core
    requires m.from < DSPNUM && |m.body| == 4
  {
    Stored(Set(Or(c, RX_STATUS, 2), SOURCE_ID, m.from as bv32), m.body).(from := m.from)
  }

  function Stored(c: Core, body: seq<bv32>): Core
    requires |body| == 4
  {
    Set(Set(Set(Set(c, RX_MESSAGE_0, body[0]), RX_MESSAGE_0 + 1, body[1]), RX_MESSAGE_0 + 2, body[2]),
        RX_MESSAGE_0 + 3, body[3])
  }

  /** Core i is about to send: armed, no timeout running, no back-off. */
  predicate Sending(c: Core) { Armed(c) && c.timeout == 0 && c.count == 0 }

  function Send(s: System, i: nat): System
    requires i < DSPNUM
  {
    var to := Dest(s[i]);
    var s1 := s[i := Or(s[i], TX_STATUS, 3)];
    if to >= DSPNUM || Busy(s1[to]) then s1    // no socket beyond the last core
    else
      var s2 := s1[to := Receive(s1[to], Outgoing(s, i))];
      s2[i := And(And(s2[i], TX_SEND_TRIG, 0xfffffffe), TX_STATUS, 0xfffffffc)]
  }

  /** `c2cc_wrap_tx_thread` on a clock edge of core i. */
  function Tick(s: System, i: nat): System
    requires i < DSPNUM
  {
    var c := s[i];
    if !Armed(c) then s
    else if c.timeout > 1 then s[i := c.(timeout := c.timeout - 1)]
    else if c.timeout == 1 then
      s[i := Or(And(Or(c.(timeout := 0), TX_STATUS, 1), TX_SEND_TRIG, 0xfffffffe), TX_CANCEL, 1)]
    else if c.count == 0 then Send(s, i)
    else s[i := c.(count := c.count - 1)]
  }

  /** The writer's own registers: the timeout is loaded on a write to TX_TIMEOUT, and a
      cancel flag, written now or left over, disarms. */
  function Written(c: Core, reg: nat, v: bv32): Core
    requires reg < 32
  {
    var c1 := Set(c, reg, v);
    CancelTest(if reg == TX_TIMEOUT then c1.(timeout := TimeoutOf(v)) else c1)
  }

  function CancelTest(c: Core): Core {
    if Cancelling(c) then And(And(And(c, TX_SEND_TRIG, 0xfffffffe), TX_CANCEL, 0xfffffffe), TX_STATUS, 0xfffffffc)
        else c
  }

  /** `tx_nb_transport_fw` with a write command to register reg of core i. */
  function HostWrite(s: System, i: nat, reg: nat, v: bv32): System
    requires i < DSPNUM && reg < 32
  {
    var c := Written(s[i], reg, v);
    if reg == RX_ACCEPT then
      var s1 := s[i := And(c, RX_STATUS, 0xfffffffc)];
      s1[s1[i].from := s1[s1[i].from].(count := DSPNUM)]
    else s[i := c]
  }

  datatype RawEvent = Clock(i: nat) | Host(i: nat, reg: nat, v: bv32)

  /** Hosts write only transmit registers, with a destination that exists, and RX_ACCEPT. */
  predicate Legal(e: RawEvent) {
    && e.i < DSPNUM
    && (e.Host? ==> (e.reg <= TX_RESERVE || e.reg == RX_ACCEPT) && (e.reg == TX_CTRL ==> DestOf(e.v) < DSPNUM))
  }

  type Event = e: RawEvent | Legal(e) witness Clock(0)

  function Step(s: System, e: Event): System
  {
    match e
    case Clock(i) => Tick(s, i)
    case Host(i, reg, v) => HostWrite(s, i, reg, v)
  }

  // ---- what a step does, by cause ----

  /** The event delivers a message to core r. */
  predicate DeliversTo(s: System, e: Event, r: nat)
    requires r < DSPNUM
  {
    e.Clock? && Sending(s[e.i]) && Dest(s[e.i]) == r && !Busy(s[r])
  }

  /** The event accepts a message that core r holds. */
  predicate Accepts(s: System, e: Event, r: nat)
    requires r < DSPNUM
  {
    e.Host? && e.i == r && e.reg == RX_ACCEPT && Busy(s[r])
  }

  lemma Bits(x: bv32)
    ensures (x & 0xfffffffe) & 1 == 0 && (x | 2) & 2 != 0 && (x | 2) & 3 != 0 && (x & 0xfffffffc) & 2 == 0
    ensures (x | 3) & 2 != 0 && (x | 3) & 3 != 0
  {}

  // ---- what each operation leaves alone ----

  /** Registers of core j after a tick of core i. */
  lemma TickRegs(s: System, i: nat, j: nat, k: nat)
    requires i < DSPNUM && j < DSPNUM && k < 32
    requires k != TX_SEND_TRIG && k != TX_STATUS && k != TX_CANCEL
    ensures k < RX_STATUS || k > 21 ==> Tick(s, i)[j].regs[k] == s[j].regs[k]
    ensures !(Sending(s[i]) && Dest(s[i]) == j && !Busy(s[j])) ==> Tick(s, i)[j].regs[k] == s[j].regs[k]
  {
    hide DestOf, Armed;
    if Sending(s[i]) { SendRegs(s, i, j, k); }
  }

  lemma SendRegs(s: System, i: nat, j: nat, k: nat)
    requires i < DSPNUM && j < DSPNUM && k < 32
    requires k != TX_SEND_TRIG && k != TX_STATUS
    ensures k < RX_STATUS || k > 21 ==> Send(s, i)[j].regs[k] == s[j].regs[k]
    ensures !(Dest(s[i]) == j && !Busy(s[j])) ==> Send(s, i)[j].regs[k] == s[j].regs[k]
  {
    hide DestOf, Receive, Busy, Outgoing;
    if Dest(s[i]) < DSPNUM {
      StatusIsNotBusy(s, i);
      var s1 := s[i := Or(s[i], TX_STATUS, 3)];
      if k < RX_STATUS || k > 21 { ReceiveRegs(s1[Dest(s[i])], Outgoing(s, i), k); }
    }
  }

  lemma StatusIsNotBusy(s: System, i: nat)
    requires i < DSPNUM && Dest(s[i]) < DSPNUM
    ensures Busy(s[i := Or(s[i], TX_STATUS, 3)][Dest(s[i])]) == Busy(s[Dest(s[i])])
  {}

  lemma StatusKeepsDest(c: Core)
    ensures Dest(Or(c, TX_STATUS, 3)) == Dest(c)
  {}

  lemma ReceiveRegs(c: Core, m: Message, k: nat)
    requires m.from < DSPNUM && |m.body| == 4 && k < 32 && (k < RX_STATUS || k > 21)
    ensures Receive(c, m).regs[k] == c.regs[k]
  {}

  lemma HostRegs(s: System, i: nat, reg: nat, v: bv32, j: nat, k: nat)
    requires i < DSPNUM && reg < 32 && j < DSPNUM && k < 32
    requires k != TX_SEND_TRIG && k != TX_STATUS && k != TX_CANCEL && (k != RX_STATUS || reg != RX_ACCEPT)
    ensures HostWrite(s, i, reg, v)[j].regs[k] == if i == j && k == reg then v else s[j].regs[k]
  {
    hide TimeoutOf;
  }

  // ---- arming and busy flags, step by step ----

  /** The tick delivers core i's message. */
  predicate Delivering(s: System, i: nat)
    requires i < DSPNUM
  {
    Sending(s[i]) && Dest(s[i]) < DSPNUM && !Busy(s[Dest(s[i])])
  }

  lemma SendFlags(s: System, i: nat, j: nat)
    requires i < DSPNUM && j < DSPNUM
    ensures Armed(Send(s, i)[j]) == (Armed(s[j]) && !(j == i && Dest(s[i]) < DSPNUM && !Busy(s[Dest(s[i])])))
    ensures Busy(Send(s, i)[j]) == (Busy(s[j]) || Dest(s[i]) == j)
  {
    hide DestOf, Armed, Busy, Receive;
    var s1 := s[i := Or(s[i], TX_STATUS, 3)];
    StatusOnly(s[i]);
    if Dest(s[i]) < DSPNUM && !Busy(s1[Dest(s[i])]) {
      var s2 := s1[Dest(s[i]) := Receive(s1[Dest(s[i])], Outgoing(s, i))];
      ReceiveFlags(s1[Dest(s[i])], Outgoing(s, i));
      Disarm(s2[i]);
    }
  }

  lemma StatusOnly(c: Core)
    ensures Armed(Or(c, TX_STATUS, 3)) == Armed(c) && Busy(Or(c, TX_STATUS, 3)) == Busy(c)
  {}

  lemma Disarm(c: Core)
    ensures var d := And(And(c, TX_SEND_TRIG, 0xfffffffe), TX_STATUS, 0xfffffffc); !Armed(d) && Busy(d) == Busy(c)
  {
    Bits(c.regs[TX_SEND_TRIG]);
  }

  lemma ReceiveFlags(c: Core, m: Message)
    requires m.from < DSPNUM && |m.body| == 4
    ensures Busy(Receive(c, m)) && Armed(Receive(c, m)) == Armed(c)
  {
    Bits(c.regs[RX_STATUS]);
  }

  lemma TickFlags(s: System, i: nat, j: nat)
    requires i < DSPNUM && j < DSPNUM
    ensures Armed(Tick(s, i)[j]) == (Armed(s[j]) && !(j == i && (s[i].timeout == 1 || Delivering(s, i))))
    ensures Busy(Tick(s, i)[j]) == (Busy(s[j]) || (Sending(s[i]) && Dest(s[i]) == j))
  {
    hide DestOf, Send;
    Bits(s[i].regs[TX_SEND_TRIG]);
    if Sending(s[i]) { SendFlags(s, i, j); }
  }

  /** The cancel flag that a host write of core i meets. */
  predicate CancelSeen(c: Core, reg: nat, v: bv32) { (if reg == TX_CANCEL then v else c.regs[TX_CANCEL]) & 1 == 1 }

  /** The send trigger as the write leaves it, before the cancel test. */
  predicate TriggerWritten(c: Core, reg: nat, v: bv32) { if reg == TX_SEND_TRIG then v & 1 == 1 else Armed(c) }

  lemma WrittenFlags(c: Core, reg: nat, v: bv32)
    requires reg <= TX_RESERVE || reg == RX_ACCEPT
    ensures Armed(Written(c, reg, v)) == (TriggerWritten(c, reg, v) && !CancelSeen(c, reg, v))
    ensures Written(c, reg, v).regs[RX_STATUS] == c.regs[RX_STATUS] && Written(c, reg, v).from == c.from
  {
    hide TimeoutOf, CancelTest;
    var c1 := Set(c, reg, v);
    CancelFlags(if reg == TX_TIMEOUT then c1.(timeout := TimeoutOf(v)) else c1);
  }

  lemma CancelFlags(c: Core)
    ensures Armed(CancelTest(c)) == (Armed(c) && !Cancelling(c))
    ensures CancelTest(c).regs[RX_STATUS] == c.regs[RX_STATUS] && CancelTest(c).from == c.from
  {
    hide Armed;
    TriggerCleared(c, And(And(And(c, TX_SEND_TRIG, 0xfffffffe), TX_CANCEL, 0xfffffffe), TX_STATUS, 0xfffffffc));
  }

  lemma TriggerCleared(c: Core, d: Core)
    ensures d.regs[TX_SEND_TRIG] == c.regs[TX_SEND_TRIG] & 0xfffffffe ==> !Armed(d)
  {
    Bits(c.regs[TX_SEND_TRIG]);
  }

  lemma Released(c: Core)
    ensures var d := And(c, RX_STATUS, 0xfffffffc); Armed(d) == Armed(c) && !Busy(d)
  {
    Bits(c.regs[RX_STATUS]);
  }

  lemma HostFlags(s: System, i: nat, reg: nat, v: bv32, j: nat)
    requires i < DSPNUM && j < DSPNUM && (reg <= TX_RESERVE || reg == RX_ACCEPT)
    ensures Armed(HostWrite(s, i, reg, v)[j]) ==
            if i == j then TriggerWritten(s[i], reg, v) && !CancelSeen(s[i], reg, v) else Armed(s[j])
    ensures Busy(HostWrite(s, i, reg, v)[j]) == (Busy(s[j]) && !(i == j && reg == RX_ACCEPT))
  {
    hide Written, And, TriggerWritten, CancelSeen;
    WrittenFlags(s[i], reg, v);
    Released(Written(s[i], reg, v));
  }

  // ---- runs ----

  /** The state after a run of legal events from reset. */
  function Run(es: seq<Event>): System
  {
    if es == [] then Reset() else Step(Run(es[..|es| - 1]), es[|es| - 1])
  }

  /** The last message delivered to core r: its sender and the message registers of the
      sender when it was delivered. */
  function LastDelivered(es: seq<Event>, r: nat): (m: Message)
    requires r < DSPNUM
    ensures |m.body| == 4 && m.from < DSPNUM
  {
    if es == [] then Message(0, [0, 0, 0, 0])
    else if DeliversTo(Run(es[..|es| - 1]), es[|es| - 1], r) then Outgoing(Run(es[..|es| - 1]), es[|es| - 1].i)
    else LastDelivered(es[..|es| - 1], r)
  }

  /** The event that delivered it, or -1. */
  function LastDelivery(es: seq<Event>, r: nat): (n: int)
    requires r < DSPNUM
    ensures -1 <= n < |es|
  {
    if es == [] then -1
    else if DeliversTo(Run(es[..|es| - 1]), es[|es| - 1], r) then |es| - 1
    else LastDelivery(es[..|es| - 1], r)
  }

  function Delivered(es: seq<Event>, r: nat): nat
    requires r < DSPNUM
  {
    if es == [] then 0
    else Delivered(es[..|es| - 1], r) + if DeliversTo(Run(es[..|es| - 1]), es[|es| - 1], r) then 1 else 0
  }

  function Accepted(es: seq<Event>, r: nat): nat
    requires r < DSPNUM
  {
    if es == [] then 0
    else Accepted(es[..|es| - 1], r) + if Accepts(Run(es[..|es| - 1]), es[|es| - 1], r) then 1 else 0
  }

  /** The receive registers hold the message. */
  predicate Holding(c: Core, m: Message)
    requires m.from < DSPNUM
  {
    && c.regs[SOURCE_ID] == m.from as bv32 && c.from == m.from
    && c.regs[RX_MESSAGE_0..RX_MESSAGE_0 + 4] == m.body
  }

  /** Core r's side of a step: its receive registers change only by a delivery. */
  lemma StepReceives(s: System, e: Event, r: nat)
    requires r < DSPNUM
    ensures Busy(Step(s, e)[r]) == ((Busy(s[r]) || DeliversTo(s, e, r)) && !Accepts(s, e, r))
    ensures DeliversTo(s, e, r) ==> Holding(Step(s, e)[r], Outgoing(s, e.i))
    ensures !DeliversTo(s, e, r) ==>
            forall m: Message | m.from < DSPNUM :: Holding(s[r], m) ==> Holding(Step(s, e)[r], m)
  {
    hide DestOf, Tick, HostWrite, TimeoutOf;
    match e
    case Clock(i) =>
      TickFlags(s, i, r);
      if DeliversTo(s, e, r) { Deliver(s, i, r); } else { QuietTick(s, i, r); }
    case Host(i, reg, v) =>
      HostFlags(s, i, reg, v, r);
      HostHolds(s, i, reg, v, r);
  }

  lemma Deliver(s: System, i: nat, r: nat)
    requires i < DSPNUM && r == Dest(s[i]) < DSPNUM && Delivering(s, i)
    ensures Holding(Tick(s, i)[r], Outgoing(s, i))
  {
    hide DestOf, Receive, Outgoing, Busy, Armed;
    StatusIsNotBusy(s, i);
    var s1 := s[i := Or(s[i], TX_STATUS, 3)];
    ReceiveHolds(s1[r], Outgoing(s, i));
    TransmitBitsKeep(Receive(s1[r], Outgoing(s, i)), Outgoing(s, i));
  }

  /** A delivery, register by register: message word k of the receiver is message word k of
      the sender, and SOURCE_ID names the sender; the sender's own message stays. */
  lemma DeliveredWords(s: System, i: nat, r: nat, k: nat)
    requires i < DSPNUM && r < DSPNUM && k < 4 && Sending(s[i]) && Dest(s[i]) == r && !Busy(s[r])
    ensures Tick(s, i)[r].regs[RX_MESSAGE_0 + k] == s[i].regs[TX_MESSAGE_0 + k]
    ensures Tick(s, i)[r].regs[SOURCE_ID] == i as bv32 && Tick(s, i)[r].from == i
    ensures Tick(s, i)[r].regs[RX_STATUS] == s[r].regs[RX_STATUS] | 2
    ensures Tick(s, i)[i].regs[TX_STATUS] & 3 == 0
    ensures Tick(s, i)[i].regs[TX_MESSAGE_0 + k] == s[i].regs[TX_MESSAGE_0 + k]
  {
    hide Tick, Receive, Outgoing, Busy, Armed, DestOf;
    Deliver(s, i, r);
    HeldWord(Tick(s, i)[r], Outgoing(s, i), k);
    OutgoingWord(s, i, k);
    TickRegs(s, i, i, TX_MESSAGE_0 + k);
    DeliveredStatus(s, i, r);
  }

  lemma DeliveredStatus(s: System, i: nat, r: nat)
    requires i < DSPNUM && r < DSPNUM && Sending(s[i]) && Dest(s[i]) == r && !Busy(s[r])
    ensures Tick(s, i)[r].regs[RX_STATUS] == s[r].regs[RX_STATUS] | 2 && Tick(s, i)[i].regs[TX_STATUS] & 3 == 0
  {
    hide DestOf, Armed, Busy, Outgoing;
    StatusIsNotBusy(s, i);
    var s1 := s[i := Or(s[i], TX_STATUS, 3)];
    ReceivedStatus(s1[r], Outgoing(s, i));
    LowBitsClear(s1[r := Receive(s1[r], Outgoing(s, i))][i].regs[TX_STATUS]);
  }

  lemma ReceivedStatus(c: Core, m: Message)
    requires m.from < DSPNUM && |m.body| == 4
    ensures Receive(c, m).regs[RX_STATUS] == c.regs[RX_STATUS] | 2
  {}

  lemma LowBitsClear(x: bv32)
    ensures (x & 0xfffffffc) & 3 == 0
  {}

  /** Bit 1 of the receive status is the busy flag. */
  lemma BusyIs(c: Core)
    ensures Busy(c) <==> c.regs[RX_STATUS] & 2 == 2
  {}

  /** What a host write does besides: a timeout is loaded on a write of TX_TIMEOUT alone, and a
      cancel flag that it meets is used up, with the transmit status. */
  lemma HostEffects(s: System, i: nat, reg: nat, v: bv32)
    requires i < DSPNUM && reg < 32
    ensures HostWrite(s, i, reg, v)[i].timeout == if reg == TX_TIMEOUT then TimeoutOf(v) else s[i].timeout
    ensures CancelSeen(s[i], reg, v) ==>
      HostWrite(s, i, reg, v)[i].regs[TX_CANCEL] & 1 == 0 && HostWrite(s, i, reg, v)[i].regs[TX_STATUS] & 3 == 0
    ensures !CancelSeen(s[i], reg, v) && reg != RX_ACCEPT ==> HostWrite(s, i, reg, v)[i].regs == s[i].regs[reg := v]
  {
    hide TimeoutOf, Armed, CancelTest;
    var c1 := Set(s[i], reg, v);
    CancelEffects(if reg == TX_TIMEOUT then c1.(timeout := TimeoutOf(v)) else c1);
  }

  lemma CancelEffects(c: Core)
    ensures CancelTest(c).timeout == c.timeout && CancelTest(c).count == c.count && CancelTest(c).from == c.from
    ensures Cancelling(c) ==> CancelTest(c).regs[TX_CANCEL] & 1 == 0 && CancelTest(c).regs[TX_STATUS] & 3 == 0
    ensures !Cancelling(c) ==> CancelTest(c) == c
  {
    Bits(c.regs[TX_CANCEL]);
    LowBitsClear(c.regs[TX_STATUS]);
  }

  lemma HeldWord(c: Core, m: Message, k: nat)
    requires m.from < DSPNUM && Holding(c, m) && k < 4 && |m.body| == 4
    ensures c.regs[RX_MESSAGE_0 + k] == m.body[k]
  {
    assert c.regs[RX_MESSAGE_0..RX_MESSAGE_0 + 4][k] == c.regs[RX_MESSAGE_0 + k];
  }

  lemma OutgoingWord(s: System, i: nat, k: nat)
    requires i < DSPNUM && k < 4
    ensures Outgoing(s, i).body[k] == s[i].regs[TX_MESSAGE_0 + k]
  {}

  /** A send to a busy core changes nothing but the sender's status. */
  lemma RefusedSend(s: System, i: nat, r: nat)
    requires i < DSPNUM && r < DSPNUM && Sending(s[i]) && Dest(s[i]) == r && Busy(s[r])
    ensures Tick(s, i) == s[i := Set(s[i], TX_STATUS, s[i].regs[TX_STATUS] | 3)]
  {
    hide DestOf, Armed, Busy;
    StatusIsNotBusy(s, i);
  }

  lemma ReceiveHolds(c: Core, m: Message)
    requires m.from < DSPNUM && |m.body| == 4
    ensures Holding(Receive(c, m), m)
  {
    assert Receive(c, m).regs[RX_MESSAGE_0..RX_MESSAGE_0 + 4] == m.body;
  }

  lemma TransmitBitsKeep(c: Core, m: Message)
    requires m.from < DSPNUM && Holding(c, m)
    ensures Holding(And(And(c, TX_SEND_TRIG, 0xfffffffe), TX_STATUS, 0xfffffffc), m)
  {
    SameHolding(c, And(And(c, TX_SEND_TRIG, 0xfffffffe), TX_STATUS, 0xfffffffc));
  }

  lemma QuietTick(s: System, i: nat, r: nat)
    requires i < DSPNUM && r < DSPNUM && !(Sending(s[i]) && Dest(s[i]) == r && !Busy(s[r]))
    ensures Tick(s, i)[r].from == s[r].from
    ensures forall k | 17 <= k <= 21 :: Tick(s, i)[r].regs[k] == s[r].regs[k]
    ensures forall m: Message | m.from < DSPNUM :: Holding(s[r], m) ==> Holding(Tick(s, i)[r], m)
  {
    hide Tick, Holding, Sending, Busy, Dest;
    forall k | 17 <= k <= 21 ensures Tick(s, i)[r].regs[k] == s[r].regs[k] { TickRegs(s, i, r, k); }
    QuietFrom(s, i, r);
    SameHolding(s[r], Tick(s, i)[r]);
  }

  lemma QuietFrom(s: System, i: nat, r: nat)
    requires i < DSPNUM && r < DSPNUM && !(Sending(s[i]) && Dest(s[i]) == r && !Busy(s[r]))
    ensures Tick(s, i)[r].from == s[r].from
  {
    hide DestOf, Armed, Busy;
    if Sending(s[i]) && Dest(s[i]) < DSPNUM {
      StatusOnly(s[Dest(s[i])]);
      assert Busy(s[i := Or(s[i], TX_STATUS, 3)][Dest(s[i])]) == Busy(s[Dest(s[i])]) by { StatusOnly(s[i]); }
    }
  }

  lemma SameHolding(c: Core, d: Core)
    requires c.from == d.from && forall k | 17 <= k <= 21 :: d.regs[k] == c.regs[k]
    ensures forall m: Message | m.from < DSPNUM :: Holding(c, m) ==> Holding(d, m)
  {
    assert c.regs[RX_MESSAGE_0..RX_MESSAGE_0 + 4] == d.regs[RX_MESSAGE_0..RX_MESSAGE_0 + 4];
  }

  lemma HostHolds(s: System, i: nat, reg: nat, v: bv32, r: nat)
    requires i < DSPNUM && r < DSPNUM && (reg <= TX_RESERVE || reg == RX_ACCEPT)
    ensures forall m: Message | m.from < DSPNUM :: Holding(s[r], m) ==> Holding(HostWrite(s, i, reg, v)[r], m)
  {
    var t := HostWrite(s, i, reg, v)[r];
    assert t.from == s[r].from by { hide TimeoutOf; }
    forall k | 17 <= k <= 21 ensures t.regs[k] == s[r].regs[k] { HostRegs(s, i, reg, v, r, k); }
    hide HostWrite;
    SameHolding(s[r], t);
  }

  /** Mailbox safety. After every run from reset: the receive registers hold what the last
      sender had in its message registers when it was delivered, word by word, whether or
      not it has been accepted yet; and the deliveries to a core are its accepts of a held
      message, plus one exactly while it is busy. */
  lemma MailboxSafe(es: seq<Event>, r: nat)
    requires r < DSPNUM
    ensures
      var n := LastDelivery(es, r);
      && (Delivered(es, r) > 0 <==> n >= 0)
      && (n >= 0 ==>
            var (s, i) := (Run(es[..n]), es[n].i);
            && DeliversTo(s, es[n], r) && Run(es)[r].regs[SOURCE_ID] == i as bv32
            && forall j | RX_MESSAGE_0 <= j < RX_MESSAGE_0 + 4 ::
                 Run(es)[r].regs[j] == s[i].regs[TX_MESSAGE_0 + (j - RX_MESSAGE_0)])
      && forall k | n < k < |es| :: !DeliversTo(Run(es[..k]), es[k], r)
    ensures Delivered(es, r) == Accepted(es, r) + if Busy(Run(es)[r]) then 1 else 0
  {
    hide Run, Holding, DeliversTo, Busy, Outgoing;
    HoldsLast(es, r);
    LastDeliveryIs(es, r);
    var n := LastDelivery(es, r);
    if n >= 0 { HeldWords(Run(es)[r], Run(es[..n]), es[n].i, LastDelivered(es, r)); }
  }

  lemma HeldWords(c: Core, s: System, i: nat, m: Message)
    requires i < DSPNUM && m == Outgoing(s, i) && Holding(c, m)
    ensures c.regs[SOURCE_ID] == i as bv32
    ensures forall j | RX_MESSAGE_0 <= j < RX_MESSAGE_0 + 4 :: c.regs[j] == s[i].regs[TX_MESSAGE_0 + (j - RX_MESSAGE_0)]
  {
    hide Outgoing, Holding;
    HeldFrom(c, m);
    forall j | RX_MESSAGE_0 <= j < RX_MESSAGE_0 + 4 ensures c.regs[j] == s[i].regs[TX_MESSAGE_0 + (j - RX_MESSAGE_0)] {
      HeldWord(c, m, j - RX_MESSAGE_0);
      OutgoingWord(s, i, j - RX_MESSAGE_0);
    }
  }

  lemma HeldFrom(c: Core, m: Message)
    requires m.from < DSPNUM && Holding(c, m)
    ensures c.regs[SOURCE_ID] == m.from as bv32
  {}

  lemma {:induction false} LastDeliveryIs(es: seq<Event>, r: nat)
    requires r < DSPNUM
    ensures
      var n := LastDelivery(es, r);
      && (Delivered(es, r) > 0 <==> n >= 0)
      && (n >= 0 ==> DeliversTo(Run(es[..n]), es[n], r) && LastDelivered(es, r) == Outgoing(Run(es[..n]), es[n].i))
      && forall k | n < k < |es| :: !DeliversTo(Run(es[..k]), es[k], r)
  {
    hide Run, DeliversTo, Outgoing;
    if es != [] {
      var front := es[..|es| - 1];
      LastDeliveryIs(front, r);
      assert forall k | 0 <= k < |front| :: front[..k] == es[..k];
    }
  }

  lemma {:induction false} HoldsLast(es: seq<Event>, r: nat)
    requires r < DSPNUM
    ensures Delivered(es, r) > 0 ==> Holding(Run(es)[r], LastDelivered(es, r))
    ensures Delivered(es, r) == Accepted(es, r) + if Busy(Run(es)[r]) then 1 else 0
  {
    hide Step, Holding, DeliversTo, Accepts, Busy, Outgoing;
    if es == [] {
      NotBusyAtReset(r);
    } else {
      var front, e := es[..|es| - 1], es[|es| - 1];
      HoldsLast(front, r);
      StepReceives(Run(front), e, r);
      NotBoth(Run(front), e, r);
    }
  }

  lemma NotBusyAtReset(r: nat)
    requires r < DSPNUM
    ensures !Busy(Reset()[r])
  {}

  lemma NotBoth(s: System, e: Event, r: nat)
    requires r < DSPNUM
    ensures DeliversTo(s, e, r) ==> !Accepts(s, e, r) && !Busy(s[r])
    ensures Accepts(s, e, r) ==> Busy(s[r])
  {}

  // ---- exactly once ----

  datatype Ending = Sent | TimedOut | Cancelled | HostCleared

  datatype Mark = Arm | End(how: Ending)

  /** What the event means for core i's send trigger, by its cause. */
  function MarkOf(s: System, e: Event, i: nat): seq<Mark>
    requires i < DSPNUM
  {
    if e.i != i then []
    else match e
      case Clock(_) =>
        if Armed(s[i]) && s[i].timeout == 1 then [End(TimedOut)]
        else if Delivering(s, i) then [End(Sent)] else []
      case Host(_, reg, v) =>
        if CancelSeen(s[i], reg, v) then (if Armed(s[i]) then [End(Cancelled)] else [])
        else if Armed(s[i]) && !TriggerWritten(s[i], reg, v) then [End(HostCleared)]
        else if !Armed(s[i]) && TriggerWritten(s[i], reg, v) then [Arm] else []
  }

  function Marks(es: seq<Event>, i: nat): seq<Mark>
    requires i < DSPNUM
  {
    if es == [] then [] else Marks(es[..|es| - 1], i) + MarkOf(Run(es[..|es| - 1]), es[|es| - 1], i)
  }

  lemma MarkChangesTrigger(s: System, e: Event, i: nat)
    requires i < DSPNUM
    ensures |MarkOf(s, e, i)| <= 1
    ensures MarkOf(s, e, i) == [] ==> Armed(Step(s, e)[i]) == Armed(s[i])
    ensures MarkOf(s, e, i) == [Arm] ==> !Armed(s[i]) && Armed(Step(s, e)[i])
    ensures MarkOf(s, e, i) != [] && MarkOf(s, e, i) != [Arm] ==> Armed(s[i]) && !Armed(Step(s, e)[i])
  {
    hide Armed, Busy, DestOf, Tick, HostWrite, CancelSeen;
    match e
    case Clock(j) => TickFlags(s, j, i);
    case Host(j, reg, v) => HostFlags(s, j, reg, v, i);
  }

  predicate Alternates(ms: seq<Mark>) { forall k | 0 <= k < |ms| :: ms[k] == Arm <==> k % 2 == 0 }

  /** Every arming of a send trigger ends exactly once, by delivery, timeout, cancel or the
      host, before the next arming; the trigger is set exactly while the last is pending. */
  lemma {:induction false} ExactlyOnce(es: seq<Event>, i: nat)
    requires i < DSPNUM
    ensures Alternates(Marks(es, i))
    ensures Armed(Run(es)[i]) <==> |Marks(es, i)| % 2 == 1
  {
    hide MarkOf, Step, Armed, Alternates;
    if es == [] {
      NotArmedAtReset(i);
      NoMarks();
    } else {
      var front := es[..|es| - 1];
      ExactlyOnce(front, i);
      MarkChangesTrigger(Run(front), es[|es| - 1], i);
      AlternatesOn(Marks(front, i), MarkOf(Run(front), es[|es| - 1], i));
    }
  }

  lemma AlternatesOn(ms: seq<Mark>, more: seq<Mark>)
    requires Alternates(ms) && |more| <= 1
    requires more == [] || (more == [Arm] <==> |ms| % 2 == 0)
    ensures Alternates(ms + more)
  {}

  lemma NoMarks()
    ensures Alternates([])
  {}

  lemma NotArmedAtReset(i: nat)
    requires i < DSPNUM
    ensures !Armed(Reset()[i])
  {}

  /** The deliveries are the endings by sending, each to the sender's destination. */
  lemma SentIsDelivered(s: System, e: Event, r: nat)
    requires r < DSPNUM
    ensures DeliversTo(s, e, r) <==> MarkOf(s, e, e.i) == [End(Sent)] && Dest(s[e.i]) == r
  {
    hide Armed, Busy, DestOf, CancelSeen;
  }

  /** A timeout leaves the cancel flag set, so that the next host write of the core, unless
      it clears that flag, does not arm the trigger even if it writes it. */
  lemma TimeoutSwallowsNextArm(s: System, i: nat, v: bv32)
    requires i < DSPNUM && Armed(s[i]) && s[i].timeout == 1
    ensures !Armed(HostWrite(Tick(s, i), i, TX_SEND_TRIG, v)[i])
    ensures MarkOf(Tick(s, i), Host(i, TX_SEND_TRIG, v), i) == []
  {
    var t := Tick(s, i);
    CancelBit(s[i].regs[TX_CANCEL]);
    assert CancelSeen(t[i], TX_SEND_TRIG, v);
    TickFlags(s, i, i);
    HostFlags(t, i, TX_SEND_TRIG, v, i);
  }

  lemma CancelBit(x: bv32)
    ensures (x | 1) & 1 == 1
  {}

  // ---- timeout and back-off ----

  /** No host writes core i in events from..to-1. */
  predicate HostQuiet(es: seq<Event>, from: nat, to: nat, i: nat)
    requires from <= to <= |es|
  {
    forall j | from <= j < to :: es[j].Host? ==> es[j].i != i
  }

  lemma CountersStay(s: System, e: Event, i: nat)
    requires i < DSPNUM && e != Clock(i) && (e.Host? ==> e.i != i)
    ensures Step(s, e)[i].timeout == s[i].timeout && Armed(Step(s, e)[i]) == Armed(s[i])
    ensures (e.Host? ==> e.reg != RX_ACCEPT) ==> Step(s, e)[i].count == s[i].count
    ensures Step(s, e)[i].regs[TX_STATUS] == s[i].regs[TX_STATUS]
        && Step(s, e)[i].regs[TX_CANCEL] == s[i].regs[TX_CANCEL]
  {
    hide Busy, DestOf, TimeoutOf, CancelTest, Armed;
    match e
    case Clock(j) => TickFlags(s, j, i);
    case Host(j, reg, v) => HostFlags(s, j, reg, v, i);
  }

  lemma TimeoutTick(s: System, i: nat)
    requires i < DSPNUM && Armed(s[i]) && s[i].timeout > 0
    ensures var c := Tick(s, i)[i]; c.timeout == s[i].timeout - 1
    ensures var c := Tick(s, i)[i]; s[i].timeout > 1 ==> Armed(c)
    ensures var c := Tick(s, i)[i];
      s[i].timeout == 1 ==> !Armed(c) && c.regs[TX_STATUS] & 1 == 1 && c.regs[TX_CANCEL] & 1 == 1
  {
    TickFlags(s, i, i);
    hide Armed, Busy, DestOf;
    CancelBit(s[i].regs[TX_STATUS]);
    CancelBit(s[i].regs[TX_CANCEL]);
  }

  /** A timeout of t stops the send at the t-th tick of its core and not before, if the host
      leaves the core alone: then the trigger is clear, and the status and cancel bits set. */
  lemma {:induction false} TimeoutFires(es: seq<Event>, n: nat, m: nat, i: nat)
    requires n <= m <= |es| && i < DSPNUM && HostQuiet(es, n, m, i)
    requires Armed(StateAt(es, n)[i]) && StateAt(es, n)[i].timeout > 0
    ensures
      var (t, k, c) := (StateAt(es, n)[i].timeout, Ticks(es, n, m, i), StateAt(es, m)[i]);
      && (k < t ==> Armed(c) && c.timeout == t - k)
      && (k >= t ==> !Armed(c) && c.timeout == 0 && c.regs[TX_STATUS] & 1 == 1 && c.regs[TX_CANCEL] & 1 == 1)
  {
    hide Step, StateAt, Armed;
    if n < m {
      TimeoutFires(es, n, m - 1, i);
      NextState(es, m - 1);
      var s, e := StateAt(es, m - 1), es[m - 1];
      if e == Clock(i) {
        if Armed(s[i]) { TimeoutTick(s, i); } else { IdleTick(s, i); }
        StepIsTick(s, i);
      } else {
        CountersStay(s, e, i);
      }
    }
  }

  lemma IdleTick(s: System, i: nat)
    requires i < DSPNUM && !Armed(s[i])
    ensures Tick(s, i) == s
  {}

  lemma StepIsTick(s: System, i: nat)
    requires i < DSPNUM
    ensures Step(s, Clock(i)) == Tick(s, i)
  {}

  lemma BackOffTick(s: System, i: nat)
    requires i < DSPNUM && Armed(s[i]) && s[i].timeout == 0 && s[i].count > 0
    ensures var c := Tick(s, i)[i]; Armed(c) && c.timeout == 0 && c.count == s[i].count - 1
  {}

  /** A back-off of t keeps an armed core without timeout from sending for exactly t of its
      ticks, while no accept renews it. */
  lemma {:induction false} BackOffDelays(es: seq<Event>, n: nat, m: nat, i: nat)
    requires n <= m <= |es| && i < DSPNUM && HostQuiet(es, n, m, i)
    requires forall j | n <= j < m :: es[j].Host? ==> es[j].reg != RX_ACCEPT
    requires Armed(StateAt(es, n)[i]) && StateAt(es, n)[i].timeout == 0
    requires Ticks(es, n, m, i) <= StateAt(es, n)[i].count
    ensures StateAt(es, m)[i].count == StateAt(es, n)[i].count - Ticks(es, n, m, i)
    ensures Sending(StateAt(es, m)[i]) <==> Ticks(es, n, m, i) == StateAt(es, n)[i].count
  {
    BackOffCounts(es, n, m, i);
  }

  lemma {:induction false} BackOffCounts(es: seq<Event>, n: nat, m: nat, i: nat)
    requires n <= m <= |es| && i < DSPNUM && HostQuiet(es, n, m, i)
    requires forall j | n <= j < m :: es[j].Host? ==> es[j].reg != RX_ACCEPT
    requires Armed(StateAt(es, n)[i]) && StateAt(es, n)[i].timeout == 0
    requires Ticks(es, n, m, i) <= StateAt(es, n)[i].count
    ensures
      var c := StateAt(es, m)[i];
      Armed(c) && c.timeout == 0 && c.count == StateAt(es, n)[i].count - Ticks(es, n, m, i)
  {
    hide Step, StateAt, Armed;
    if n < m {
      BackOffCounts(es, n, m - 1, i);
      NextState(es, m - 1);
      var s, e := StateAt(es, m - 1), es[m - 1];
      if e == Clock(i) {
        BackOffTick(s, i);
        StepIsTick(s, i);
      } else {
        CountersStay(s, e, i);
      }
    }
  }

  // ---- turn-taking ----

  /** Ticks of core i among events from..to-1. */
  function Ticks(es: seq<Event>, from: nat, to: nat, i: nat): nat
    requires from <= to <= |es|
  {
    if from == to then 0 else Ticks(es, from, to - 1, i) + if es[to - 1] == Clock(i) then 1 else 0
  }

  /** Core c would send to r at its next tick. */
  predicate Waiting(c: Core, r: nat) { Sending(c) && Dest(c) == r }

  function StateAt(es: seq<Event>, k: nat): System
    requires k <= |es|
  {
    Run(es[..k])
  }

  lemma NextState(es: seq<Event>, k: nat)
    requires k < |es|
    ensures StateAt(es, k + 1) == Step(StateAt(es, k), es[k])
  {
    assert es[..k + 1][..k] == es[..k];
  }

  /** A back-off count falls by at most one a tick of its own core. */
  lemma BackOffFalls(s: System, e: Event, a: nat)
    requires a < DSPNUM
    ensures Step(s, e)[a].count >= s[a].count - (if e == Clock(a) then 1 else 0) || Step(s, e)[a].count == DSPNUM
  {
    hide Tick, HostWrite;
    match e
    case Clock(i) => TickCount(s, i, a);
    case Host(i, reg, v) => HostCount(s, i, reg, v, a);
  }

  lemma TickCount(s: System, i: nat, a: nat)
    requires i < DSPNUM && a < DSPNUM
    ensures Tick(s, i)[a].count >= s[a].count - (if i == a then 1 else 0)
  {
    hide Armed, Send;
    SendCount(s, i, a);
  }

  lemma SendCount(s: System, i: nat, a: nat)
    requires i < DSPNUM && a < DSPNUM
    ensures Send(s, i)[a].count == s[a].count
  {
    hide Busy, DestOf, Outgoing;
  }

  lemma HostCount(s: System, i: nat, reg: nat, v: bv32, a: nat)
    requires i < DSPNUM && a < DSPNUM && reg < 32
    ensures HostWrite(s, i, reg, v)[a].count == s[a].count || HostWrite(s, i, reg, v)[a].count == DSPNUM
  {
    hide TimeoutOf, CancelTest;
    CancelEffects(Set(s[i], reg, v));
    CancelEffects(Set(s[i], reg, v).(timeout := TimeoutOf(v)));
  }

  /** An accept gives the sender of the accepted message a back-off of four ticks. */
  lemma AcceptBacksOff(s: System, r: nat, v: bv32)
    requires r < DSPNUM
    ensures HostWrite(s, r, RX_ACCEPT, v)[s[r].from].count == DSPNUM
    ensures !Busy(HostWrite(s, r, RX_ACCEPT, v)[r])
  {
    HostFlags(s, r, RX_ACCEPT, v, r);
    hide TimeoutOf, Busy;
  }

  /** Until the next delivery to r, core r is free, core b has not ticked, and the back-off
      of core a has fallen by no more than its ticks. */
  lemma {:induction false} UntilDelivery(es: seq<Event>, n: nat, k: nat, r: nat, a: nat, b: nat)
    requires n < k <= |es| && r < DSPNUM && a < DSPNUM && b < DSPNUM
    requires es[n].Host? && es[n].i == r && es[n].reg == RX_ACCEPT && StateAt(es, n)[r].from == a
    requires forall j | n < j < k :: !DeliversTo(StateAt(es, j), es[j], r) && Waiting(StateAt(es, j)[b], r)
    ensures !Busy(StateAt(es, k)[r])
    ensures Ticks(es, n + 1, k, b) == 0
    ensures StateAt(es, k)[a].count + Ticks(es, n + 1, k, a) >= DSPNUM
  {
    hide Step, StateAt, Busy, Sending, Dest, Waiting;
    NextState(es, k - 1);
    if k == n + 1 {
      AcceptBacksOff(StateAt(es, n), r, es[n].v);
      StepIsHostWrite(StateAt(es, n), es[n]);
    } else {
      UntilDelivery(es, n, k - 1, r, a, b);
      var s, e := StateAt(es, k - 1), es[k - 1];
      StepReceives(s, e, r);
      BackOffFalls(s, e, a);
      if e == Clock(b) { WaitingDelivers(s, b, r); }
    }
  }

  lemma StepIsHostWrite(s: System, e: Event)
    requires e.Host?
    ensures Step(s, e) == HostWrite(s, e.i, e.reg, e.v)
  {}

  lemma WaitingDelivers(s: System, b: nat, r: nat)
    requires b < DSPNUM && r < DSPNUM && Waiting(s[b], r) && !Busy(s[r])
    ensures DeliversTo(s, Clock(b), r)
  {}

  /** Turn-taking: core r accepts a message from a in event n, and event m makes the next
      delivery to r. If another core b waits to send to r all along, and a has not got more
      than four ticks ahead of b since the accept, then that delivery is not from a. */
  lemma TurnTaking(es: seq<Event>, n: nat, m: nat, r: nat, b: nat)
    requires n < m < |es| && r < DSPNUM && b < DSPNUM
    requires es[n].i == r && Accepts(StateAt(es, n), es[n], r)
    requires DeliversTo(StateAt(es, m), es[m], r) && forall j | n < j < m :: !DeliversTo(StateAt(es, j), es[j], r)
    requires forall j | n < j <= m :: Waiting(StateAt(es, j)[b], r)
    requires
      var a := LastDelivered(es[..n], r).from;
      a != b && Ticks(es, n + 1, m + 1, a) <= Ticks(es, n + 1, m + 1, b) + DSPNUM
    ensures es[m].i != LastDelivered(es[..n], r).from
  {
    hide Step, Busy, Run, LastDelivered;
    var a := LastDelivered(es[..n], r).from;
    HoldsLast(es[..n], r);
    UntilDelivery(es, n, m, r, a, b);
  }

  lemma {:induction false} TicksSplit(es: seq<Event>, k: nat, m: nat, i: nat)
    requires k <= m <= |es|
    ensures Ticks(es, 0, k, i) + Ticks(es, k, m, i) == Ticks(es, 0, m, i)
  {
    if k < m { TicksSplit(es, k, m - 1, i); }
  }

  /** One clock ticks all cores in some order, so that two cores are never more than one
      tick apart: turn-taking then needs no further assumption about the order. */
  lemma TurnTakingInLockStep(es: seq<Event>, n: nat, m: nat, r: nat, b: nat)
    requires n < m < |es| && r < DSPNUM && b < DSPNUM
    requires es[n].i == r && Accepts(StateAt(es, n), es[n], r)
    requires DeliversTo(StateAt(es, m), es[m], r) && forall j | n < j < m :: !DeliversTo(StateAt(es, j), es[j], r)
    requires forall j | n < j <= m :: Waiting(StateAt(es, j)[b], r)
    requires LastDelivered(es[..n], r).from != b
    requires forall k: nat | k <= |es| ::
        -1 <= Ticks(es, 0, k, LastDelivered(es[..n], r).from) - Ticks(es, 0, k, b) <= 1
    ensures es[m].i != LastDelivered(es[..n], r).from
  {
    hide Accepts, DeliversTo, Waiting, StateAt, LastDelivered;
    var a := LastDelivered(es[..n], r).from;
    TicksSplit(es, n + 1, m + 1, a);
    TicksSplit(es, n + 1, m + 1, b);
    TurnTaking(es, n, m, r, b);
  }

  // ---- the registers, updated in place ----

  /** The register files of the four wrappers, one after the other, their timeouts, and
      the arbitration table that they share. */
  class Wrappers {
    const regs: array<bv32>
    const timeout: array<nat>
    const count: array<nat>
    const from: array<nat>

    ghost predicate Valid()
      reads this, from
    {
      && regs.Length == 128 && timeout.Length == count.Length == from.Length == DSPNUM
      && timeout != count && timeout != from && count != from
      && forall i | 0 <= i < DSPNUM :: from[i] < DSPNUM
    }

    ghost function CoreAt(i: nat): Core
      reads this, regs, timeout, count, from
      requires Valid() && i < DSPNUM
    {
      Core(regs[32 * i..32 * i + 32], timeout[i], count[i], from[i])
    }

    ghost function View(): System
      reads this, regs, timeout, count, from
      requires Valid()
    {
      [CoreAt(0), CoreAt(1), CoreAt(2), CoreAt(3)]
    }

    constructor ()
      ensures Valid() && View() == Reset() && fresh(regs) && fresh(timeout) && fresh(count) && fresh(from)
    {
      regs := new bv32[128](_ => 0);
      timeout := new nat[DSPNUM](_ => 0);
      count := new nat[DSPNUM](_ => 0);
      from := new nat[DSPNUM](_ => 0);
      new;
      assert forall i | 0 <= i < DSPNUM :: regs[32 * i..32 * i + 32] == seq(32, _ => 0);
    }

    method Poke(i: nat, r: nat, v: bv32)
      requires Valid() && i < DSPNUM && r < 32
      modifies regs
      ensures Valid() && View() == old(View())[i := Set(old(View())[i], r, v)]
    {
      regs[32 * i + r] := v;
      assert forall j | 0 <= j < DSPNUM && j != i :: regs[32 * j..32 * j + 32] == old(regs[32 * j..32 * j + 32]);
      assert regs[32 * i..32 * i + 32] == old(regs[32 * i..32 * i + 32])[r := v];
    }

    method Peek(i: nat, r: nat) returns (v: bv32)
      requires Valid() && i < DSPNUM && r < 32
      ensures v == View()[i].regs[r]
    {
      v := regs[32 * i + r];
    }

    method AndReg(i: nat, r: nat, v: bv32)
      requires Valid() && i < DSPNUM && r < 32
      modifies regs
      ensures Valid() && View() == old(View())[i := And(old(View())[i], r, v)]
    {
      var x := Peek(i, r);
      Poke(i, r, x & v);
    }

    method OrReg(i: nat, r: nat, v: bv32)
      requires Valid() && i < DSPNUM && r < 32
      modifies regs
      ensures Valid() && View() == old(View())[i := Or(old(View())[i], r, v)]
    {
      var x := Peek(i, r);
      Poke(i, r, x | v);
    }

    method SetTimeout(i: nat, n: nat)
      requires Valid() && i < DSPNUM
      modifies timeout
      ensures Valid() && View() == old(View())[i := old(View())[i].(timeout := n)]
    {
      timeout[i] := n;
    }

    method SetCount(i: nat, n: nat)
      requires Valid() && i < DSPNUM
      modifies count
      ensures Valid() && View() == old(View())[i := old(View())[i].(count := n)]
    {
      count[i] := n;
    }

    method SetFrom(i: nat, n: nat)
      requires Valid() && i < DSPNUM && n < DSPNUM
      modifies from
      ensures Valid() && View() == old(View())[i := old(View())[i].(from := n)]
    {
      from[i] := n;
    }

    /** The fields of the view that the methods below read directly. */
    lemma Fields(i: nat)
      requires Valid() && i < DSPNUM
      ensures View()[i].timeout == timeout[i] && View()[i].count == count[i] && View()[i].from == from[i]
    {}

    /** `rx_nb_transport_fw`: false while the receiver is busy. */
    method Accept(to: nat, m: Message) returns (completed: bool)
      requires Valid() && to < DSPNUM && m.from < DSPNUM && |m.body| == 4
      modifies regs, from
      ensures Valid() && completed == !Busy(old(View())[to])
      ensures View() == if completed then old(View())[to := Receive(old(View())[to], m)] else old(View())
    {
      hide View, CoreAt, Set, Or, Stored;
      var status := Peek(to, RX_STATUS);
      if status & 3 != 0 && status & 2 != 0 {
        return false;
      }
      OrReg(to, RX_STATUS, 2);
      Poke(to, SOURCE_ID, m.from as bv32);
      Store(to, m.body);
      SetFrom(to, m.from);
      return true;
    }

    method Store(to: nat, body: seq<bv32>)
      requires Valid() && to < DSPNUM && |body| == 4
      modifies regs
      ensures Valid() && View() == old(View())[to := Stored(old(View())[to], body)]
    {
      hide View, CoreAt, Set;
      Poke(to, RX_MESSAGE_0, body[0]);
      Poke(to, RX_MESSAGE_0 + 1, body[1]);
      Poke(to, RX_MESSAGE_0 + 2, body[2]);
      Poke(to, RX_MESSAGE_0 + 3, body[3]);
    }

    method TxSend(i: nat)
      requires Valid() && i < DSPNUM
      modifies regs, from
      ensures Valid() && View() == Send(old(View()), i)
    {
      var m := Compose(i);
      hide View, CoreAt, Receive, Outgoing, And, Or, Busy, DestOf;
      StatusKeepsDest(View()[i]);
      var ctrl := Peek(i, TX_CTRL);
      var to := DestOf(ctrl);
      OrReg(i, TX_STATUS, 3);
      if to < DSPNUM {
        var completed := Accept(to, m);
        if completed {
          ClearSent(i);
        }
      }
    }

    method ClearSent(i: nat)
      requires Valid() && i < DSPNUM
      modifies regs
      ensures Valid()
      ensures View() == old(View())[i := And(And(old(View())[i], TX_SEND_TRIG, 0xfffffffe), TX_STATUS, 0xfffffffc)]
    {
      hide View, CoreAt, And;
      AndReg(i, TX_SEND_TRIG, 0xfffffffe);
      AndReg(i, TX_STATUS, 0xfffffffc);
    }

    method Compose(i: nat) returns (m: Message)
      requires Valid() && i < DSPNUM
      ensures m == Outgoing(View(), i)
    {
      hide View, CoreAt;
      var m0 := Peek(i, TX_MESSAGE_0);
      var m1 := Peek(i, TX_MESSAGE_0 + 1);
      var m2 := Peek(i, TX_MESSAGE_0 + 2);
      var m3 := Peek(i, TX_MESSAGE_0 + 3);
      m := Message(i, [m0, m1, m2, m3]);
      assert View()[i].regs[TX_MESSAGE_0..TX_MESSAGE_0 + 4] == [m0, m1, m2, m3];
    }

    /** `c2cc_wrap_tx_thread` of wrapper i. */
    method TxThread(i: nat)
      requires Valid() && i < DSPNUM
      modifies regs, timeout, count, from
      ensures Valid() && View() == Tick(old(View()), i)
    {
      hide Send, View, CoreAt;
      var trigger := Peek(i, TX_SEND_TRIG);
      Fields(i);
      NotArmed(trigger);
      if trigger & 1 == 0 {
        return;
      }
      if timeout[i] != 0 {
        var left := timeout[i] - 1;
        SetTimeout(i, left);
        if left == 0 {
          OrReg(i, TX_STATUS, 1);
          AndReg(i, TX_SEND_TRIG, 0xfffffffe);
          OrReg(i, TX_CANCEL, 1);
        }
        return;
      }
      if count[i] == 0 {
        TxSend(i);
      } else {
        SetCount(i, count[i] - 1);
      }
    }

    static lemma NotArmed(x: bv32)
      ensures x & 1 == 0 <==> x & 1 != 1
    {}

    /** `tx_nb_transport_fw`, write command. */
    method WriteRegister(i: nat, reg: nat, v: bv32)
      requires Valid() && i < DSPNUM && reg < 32
      modifies regs, timeout, count
      ensures Valid() && View() == HostWrite(old(View()), i, reg, v)
    {
      hide TimeoutOf, View, CoreAt, CancelTest;
      Poke(i, reg, v);
      if reg == TX_TIMEOUT {
        SetTimeout(i, TimeoutOf(v));
      }
      TestCancel(i);
      if reg == RX_ACCEPT {
        AndReg(i, RX_STATUS, 0xfffffffc);
        Fields(i);
        SetCount(from[i], DSPNUM);
      }
    }

    method TestCancel(i: nat)
      requires Valid() && i < DSPNUM
      modifies regs
      ensures Valid() && View() == old(View())[i := CancelTest(old(View())[i])]
    {
      hide View, CoreAt;
      var cancel := Peek(i, TX_CANCEL);
      if cancel & 1 == 1 {
        AndReg(i, TX_SEND_TRIG, 0xfffffffe);
        AndReg(i, TX_CANCEL, 0xfffffffe);
        AndReg(i, TX_STATUS, 0xfffffffc);
      }
    }
  }
}
