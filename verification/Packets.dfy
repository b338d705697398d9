/** The variable-length instruction packet (sc-pac-if-direct.cpp, pac-dsp-def.h): a cap, the
    two-byte headers of the slots present, their tails, and broadcast copies. */
module Packets {
  import opened Arithmetic

  type Byte = b: nat | b < 256

  const SLOTS: nat := 5

  const RAW: nat := 8      // bytes of one slot's union

  // ---- the header code ----

  /** The fourteen instruction classes, in the order in which they are tested. */
  datatype Class = D6 | D3 | D7 | D5 | D2 | D1 | D4 | C5 | C4 | C2 | C3 | C1 | A | B

  /** The number of low header bits that a class fixes, as a power of two, and their value. */
  function Modulus(c: Class): nat {
    match c
    case D6 => 0x80 case D3 => 0x80
    case D7 => 0x40
    case D5 => 0x20 case D2 => 0x20 case D1 => 0x20
    case D4 => 0x10 case C5 => 0x10 case C4 => 0x10 case C2 => 0x10
    case C3 => 8 case C1 => 8 case A => 8
    case B => 4
  }

  function Pattern(c: Class): nat {
    match c
    case D6 => 0x66 case D3 => 0x26
    case D7 => 0x06
    case D5 => 0x16 case D2 => 0x1E case D1 => 0x0E
    case D4 => 0xA case C5 => 0xC case C4 => 0x2 case C2 => 0x4
    case C3 => 1 case C1 => 5 case A => 0
    case B => 3
  }

  predicate Matches(c: Class, raw: nat) { raw % Modulus(c) == Pattern(c) }

  datatype Choice = Is(c: Class) | Unknown

  /** The chain of tests in `decode_P1`. */
  function DecodeClass(raw: nat): Choice {
    if raw % 0x80 == 0x66 then Is(D6)
    else if raw % 0x80 == 0x26 then Is(D3)
    else if raw % 0x40 == 0x06 then Is(D7)
    else if raw % 0x20 == 0x16 then Is(D5)
    else if raw % 0x20 == 0x1E then Is(D2)
    else if raw % 0x20 == 0x0E then Is(D1)
    else if raw % 0x10 == 0xA then Is(D4)
    else if raw % 0x10 == 0xC then Is(C5)
    else if raw % 0x10 == 0x2 then Is(C4)
    else if raw % 0x10 == 0x4 then Is(C2)
    else if raw % 8 == 1 then Is(C3)
    else if raw % 8 == 5 then Is(C1)
    else if raw % 8 == 0 then Is(A)
    else if raw % 4 == 3 then Is(B)
    else Unknown
  }

  datatype Length = Bytes(n: nat) | Abort

  /** `length_decode`. */
  function LengthDecode(raw: nat): Length {
    if raw % 0x80 == 0x66 then Bytes(4)
    else if raw % 0x80 == 0x26 then Bytes(4)
    else if raw % 0x40 == 0x06 then Bytes(3)
    else if raw % 0x20 == 0x16 then Bytes(2)
    else if raw % 0x20 == 0x1E then Bytes(1)
    else if raw % 0x20 == 0x0E then Bytes(1)
    else if raw % 0x10 == 0xA then Bytes(2)
    else if raw % 0x10 == 0xC then Bytes(raw / 16 % 8)
    else if raw % 0x10 == 0x2 then Bytes(raw / 128 % 8)
    else if raw % 0x10 == 0x4 then (if raw / 16 % 4 == 0 then Bytes(4) else Bytes(raw / 16 % 4))
    else if raw % 8 == 1 then (if raw / 8 % 4 == 0 then Bytes(4) else Bytes(raw / 8 % 4))
    else if raw % 8 == 5 then Bytes(raw / 8 % 8)
    else if raw % 8 == 0 then Bytes(raw / 8 % 8)
    else if raw % 4 == 3 then Bytes(if raw / 4 % 2 == 1 then 1 else 2)
    else Abort
  }

  /** The tail length that a class fixes, or reads from the header. */
  function LengthOf(c: Class, raw: nat): nat {
    match c
    case D6 => 4 case D3 => 4 case D7 => 3 case D5 => 2 case D2 => 1 case D1 => 1 case D4 => 2
    case C5 => raw / 16 % 8
    case C4 => raw / 128 % 8
    case C2 => if raw / 16 % 4 == 0 then 4 else raw / 16 % 4
    case C3 => if raw / 8 % 4 == 0 then 4 else raw / 8 % 4
    case C1 => raw / 8 % 8
    case A => raw / 8 % 8
    case B => if raw / 4 % 2 == 1 then 1 else 2
  }

  /** One more low bit. */
  lemma LowBit(raw: nat, m: nat) returns (b: nat)
    requires m > 0
    ensures b < 2 && raw % (2 * m) == raw % m + b * m
  {
    b := raw / m % 2;
    var q := raw / m / 2;
    DivModFact(raw, m);
    Associate(q, 2, m);
    Distribute(q * 2, b, m);
    DivModIs(raw, 2 * m, q, raw % m + b * m);
  }

  /** The residues that the tests look at, as sums of bits. */
  lemma LowBits(raw: nat) returns (a: nat, b: nat, c: nat, d: nat, e: nat, f: nat, g: nat)
    ensures BitsOf(raw, a, b, c, d, e, f, g)
  {
    a := raw % 2;
    b := LowBit(raw, 2);
    c := LowBit(raw, 4);
    d := LowBit(raw, 8);
    e := LowBit(raw, 0x10);
    f := LowBit(raw, 0x20);
    g := LowBit(raw, 0x40);
  }

  /** The header prefixes are a complete prefix-free code: every header matches exactly one
      class, so the order of the tests does not matter and the abort is never reached; and
      both chains agree, on the class and on the tail length. */
  lemma PrefixCode(raw: nat, c: Class)
    ensures DecodeClass(raw).Is? && LengthDecode(raw).Bytes?
    ensures Matches(c, raw) <==> DecodeClass(raw) == Is(c)
    ensures LengthDecode(raw) == Bytes(LengthOf(DecodeClass(raw).c, raw)) && LengthDecode(raw).n <= 7
  {
    hide LengthDecode;
    ClassMatches(raw, c);
    SameChain(raw);
  }

  /** The class that the low bits select. */
  function ByBits(a: nat, b: nat, c: nat, d: nat, e: nat, f: nat, g: nat): Class {
    if a == 1 then (if b == 1 then B else if c == 0 then C3 else C1)
    else if b == 0 then (if c == 0 then A else if d == 0 then C2 else C5)
    else if c == 0 then (if d == 0 then C4 else D4)
    else if d == 1 then (if e == 1 then D2 else D1)
    else if e == 1 then D5
    else if f == 0 then D7
    else if g == 0 then D3 else D6
  }

  lemma ClassMatches(raw: nat, c: Class)
    ensures DecodeClass(raw).Is?
    ensures Matches(c, raw) <==> DecodeClass(raw) == Is(c)
  {
    hide DecodeClass, Matches, ByBits;
    var b0, b1, b2, b3, b4, b5, b6 := LowBits(raw);
    ChainByBits(raw, b0, b1, b2, b3, b4, b5, b6);
    MatchByBits(raw, c, b0, b1, b2, b3, b4, b5, b6);
  }

  predicate BitsOf(raw: nat, a: nat, b: nat, c: nat, d: nat, e: nat, f: nat, g: nat) {
    && a < 2 && b < 2 && c < 2 && d < 2 && e < 2 && f < 2 && g < 2
    && raw % 4 == a + 2 * b && raw % 8 == raw % 4 + 4 * c && raw % 0x10 == raw % 8 + 8 * d
    && raw % 0x20 == raw % 0x10 + 16 * e && raw % 0x40 == raw % 0x20 + 32 * f && raw % 0x80 == raw % 0x40 + 64 * g
  }

  lemma ChainByBits(raw: nat, a: nat, b: nat, c: nat, d: nat, e: nat, f: nat, g: nat)
    requires BitsOf(raw, a, b, c, d, e, f, g)
    ensures DecodeClass(raw) == Is(ByBits(a, b, c, d, e, f, g))
  {}

  lemma MatchByBits(raw: nat, k: Class, a: nat, b: nat, c: nat, d: nat, e: nat, f: nat, g: nat)
    requires BitsOf(raw, a, b, c, d, e, f, g)
    ensures Matches(k, raw) <==> k == ByBits(a, b, c, d, e, f, g)
  {}

  lemma SameChain(raw: nat)
    requires DecodeClass(raw).Is?
    ensures LengthDecode(raw) == Bytes(LengthOf(DecodeClass(raw).c, raw)) && LengthDecode(raw).n <= 7
  {}

  function Raw16(h: seq<Byte>): nat
    requires |h| == 2
  {
    h[0] as int + 256 * (h[1] as int)
  }

  function TailLength(h: seq<Byte>): (n: nat)
    requires |h| == 2
    ensures n <= 7
  {
    PrefixCode(Raw16(h), A);
    LengthDecode(Raw16(h)).n
  }

  // ---- packets ----

  /** One instruction as it is laid out: two header bytes and the tail they call for. */
  datatype RawInst = Inst(header: seq<Byte>, tail: seq<Byte>)

  type Inst = i: RawInst | |i.header| == 2 && |i.tail| == TailLength(i.header)
    witness Inst([8, 0], [0])

  /** Which of the five slots are present, their instructions, and the two broadcast bits. */
  datatype RawPacket = Packet(present: seq<bool>, insts: seq<Inst>, bls: bool, ba: bool)

  type Packet = p: RawPacket | |p.present| == |p.insts| == SLOTS
    witness Packet(seq(SLOTS, _ => false), seq(SLOTS, _ => Inst([8, 0], [0])), false, false)

  function Headers(p: Packet, k: nat): seq<Byte>
    requires k <= SLOTS
  {
    if k == 0 then [] else Headers(p, k - 1) + if p.present[k - 1] then p.insts[k - 1].header else []
  }

  function Tails(p: Packet, k: nat): seq<Byte>
    requires k <= SLOTS
  {
    if k == 0 then [] else Tails(p, k - 1) + if p.present[k - 1] then p.insts[k - 1].tail else []
  }

  function Body(p: Packet): seq<Byte> { Headers(p, SLOTS) + Tails(p, SLOTS) }

  function If(c: bool, s: seq<Byte>): seq<Byte> { if c then s else [] }

  /** The headers of the slots present, in slot order, and then their tails. */
  lemma BodyIs(p: Packet)
    ensures
      var (on, i) := (p.present, p.insts);
      Body(p) ==
      (If(on[0], i[0].header) + If(on[1], i[1].header) + If(on[2], i[2].header) + If(on[3], i[3].header)
       + If(on[4], i[4].header))
      + (If(on[0], i[0].tail) + If(on[1], i[1].tail) + If(on[2], i[2].tail) + If(on[3], i[3].tail)
         + If(on[4], i[4].tail))
  {
    hide TailLength;
    UnfoldBody(p, 1);
    UnfoldBody(p, 2);
    UnfoldBody(p, 3);
    UnfoldBody(p, 4);
    UnfoldBody(p, 5);
    hide Headers, Tails, If;
    assert [] + If(p.present[0], p.insts[0].header) == If(p.present[0], p.insts[0].header);
    assert [] + If(p.present[0], p.insts[0].tail) == If(p.present[0], p.insts[0].tail);
  }

  lemma UnfoldBody(p: Packet, k: nat)
    requires 0 < k <= SLOTS
    ensures Headers(p, k) == Headers(p, k - 1) + If(p.present[k - 1], p.insts[k - 1].header)
    ensures Tails(p, k) == Tails(p, k - 1) + If(p.present[k - 1], p.insts[k - 1].tail)
    ensures Headers(p, 0) == [] == Tails(p, 0)
  {}

  function PacketLength(p: Packet): nat { 2 + |Body(p)| }

  function Flag(b: bool): (n: nat)
    ensures n <= 1 && (n == 1) == b
  {
    if b then 1 else 0
  }

  /** The cap: bit 0 clear, five presence bits, two broadcast bits, two clear bits, length. */
  function CapOf(p: Packet): nat {
    2 * Flag(p.present[0]) + 4 * Flag(p.present[1]) + 8 * Flag(p.present[2]) + 16 * Flag(p.present[3])
    + 32 * Flag(p.present[4]) + 64 * Flag(p.bls) + 128 * Flag(p.ba) + 1024 * PacketLength(p)
  }

  // ---- decode ----

  /** A copy of n bytes into the five unions, wherever it ends; what lies beyond the last
      union is lost. */
  function Memcpy(raw: seq<Byte>, at: nat, code: seq<Byte>, idx: nat, n: nat): (r: seq<Byte>)
    requires idx + n <= |code|
    ensures |r| == |raw|
  {
    seq(|raw|, i requires 0 <= i < |raw| => if at <= i < at + n then code[idx + i - at] else raw[i])
  }

  datatype State = State(raw: seq<Byte>, idx: nat)

  function FetchHeader(s: State, on: bool, k: nat, code: seq<Byte>): (t: State)
    requires |s.raw| == RAW * SLOTS && k < SLOTS && s.idx + 2 <= |code|
    ensures |t.raw| == |s.raw| && t.idx <= s.idx + 2
  {
    if on then State(Memcpy(s.raw, RAW * k, code, s.idx, 2), s.idx + 2) else s
  }

  /** The tail length is read from the header bytes as they are in the union by then. */
  function FetchTail(s: State, on: bool, k: nat, code: seq<Byte>): (t: State)
    requires |s.raw| == RAW * SLOTS && k < SLOTS && s.idx + 7 <= |code|
    ensures |t.raw| == |s.raw| && t.idx <= s.idx + 7
  {
    if on then
      var n := TailLength(s.raw[RAW * k..RAW * k + 2]);
      State(Memcpy(s.raw, RAW * k + 2, code, s.idx, n), s.idx + n)
    else s
  }

  function HeaderPhase(present: seq<bool>, code: seq<Byte>, k: nat): (s: State)
    requires |present| == SLOTS && |code| >= 64 && k <= SLOTS
    ensures |s.raw| == RAW * SLOTS && s.idx <= 2 * k
  {
    if k == 0 then State(seq(RAW * SLOTS, _ => 0), 0)
    else FetchHeader(HeaderPhase(present, code, k - 1), present[k - 1], k - 1, code)
  }

  function TailPhase(present: seq<bool>, code: seq<Byte>, k: nat): (s: State)
    requires |present| == SLOTS && |code| >= 64 && k <= SLOTS
    ensures |s.raw| == RAW * SLOTS && s.idx <= 2 * SLOTS + 7 * k
  {
    if k == 0 then HeaderPhase(present, code, SLOTS)
    else FetchTail(TailPhase(present, code, k - 1), present[k - 1], k - 1, code)
  }

  /** Broadcast: the second load/store (arithmetic) slot is a copy of the first. */
  function Broadcast(raw: seq<Byte>, bls: bool, ba: bool): (r: seq<Byte>)
    requires |raw| == RAW * SLOTS
    ensures |r| == |raw|
  {
    var r1 := if bls then raw[..24] + raw[8..16] + raw[32..] else raw;
    if ba then r1[..32] + r1[16..24] else r1
  }

  datatype Decoded = Trap | Breakpoint | Control(func: nat) | Slots(raw: seq<Byte>, len: nat)

  /** `decode` up to the instruction fields; `bytes` is what the cache returns at the PC. */
  function Decode(bytes: seq<Byte>): Decoded
    requires |bytes| == 72
  {
    var cap := Raw16(bytes[..2]);
    if cap == 0 then Trap
    else if cap / 256 % 4 == 3 then Breakpoint
    else if cap % 2 == 1 then Control(cap / 16 % 16)
    else
      var present := [cap / 2 % 2 == 1, cap / 4 % 2 == 1, cap / 8 % 2 == 1, cap / 16 % 2 == 1, cap / 32 % 2 == 1];
      Slots(Broadcast(TailPhase(present, bytes[2..], SLOTS).raw, cap / 64 % 2 == 1, cap / 128 % 2 == 1), cap / 1024)
  }

  /** The special caps in their bytes: two zero bytes trap; both low bits of the second byte
      are a breakpoint; otherwise the low bit of the first byte is a control packet, whose
      function is its high half. The length of any other packet is in the upper six bits. */
  lemma SpecialCaps(bytes: seq<Byte>)
    requires |bytes| == 72
    ensures Decode(bytes).Trap? <==> bytes[0] == bytes[1] == 0
    ensures Decode(bytes).Breakpoint? <==> bytes[1] % 4 == 3
    ensures Decode(bytes).Control? <==> bytes[0] % 2 == 1 && bytes[1] % 4 != 3
    ensures Decode(bytes).Control? ==> Decode(bytes).func == bytes[0] / 16
    ensures Decode(bytes).Slots? ==> Decode(bytes).len == bytes[1] / 4
  {
    hide TailPhase, Broadcast;
    CapFields(bytes[0], bytes[1]);
  }

  lemma CapFields(a: Byte, b: Byte)
    ensures (a + 256 * b) / 256 % 4 == b % 4 && (a + 256 * b) % 2 == a % 2
    ensures (a + 256 * b) / 16 % 16 == a / 16 && (a + 256 * b) / 1024 == b / 4
  {}

  // ---- round trip ----

  /** Byte i of the unions when the headers of slots < h and the tails of slots < t are in. */
  function Want(p: Packet, h: nat, t: nat, i: nat): Byte
    requires i < RAW * SLOTS
  {
    var (k, j) := (i / RAW, i % RAW);
    if !p.present[k] || k >= h then 0
    else if j < 2 then p.insts[k].header[j]
    else if k < t && j - 2 < |p.insts[k].tail| then p.insts[k].tail[j - 2]
    else 0
  }

  /** The seventh tail byte of a slot, if it has one, is the first byte that the next slot
      has anyway. */
  predicate HarmlessAt(p: Packet, k: nat)
    requires k < SLOTS
  {
    p.present[k] && |p.insts[k].tail| == 7 && k < SLOTS - 1 ==>
      p.insts[k].tail[6] == Want(p, SLOTS, SLOTS, RAW * (k + 1))
  }

  /** No tail of the first n slots spills a different byte into the next slot; tails of six
      bytes or less never do. */
  predicate Harmless(p: Packet, n: nat)
    requires n <= SLOTS
  {
    forall k: nat | k < n :: HarmlessAt(p, k)
  }

  predicate Wanted(p: Packet, h: nat, t: nat, raw: seq<Byte>) {
    |raw| == RAW * SLOTS && forall i: nat | i < RAW * SLOTS :: raw[i] == Want(p, h, t, i)
  }

  /** The instruction bytes start with the body of the packet. */
  predicate Holds(p: Packet, code: seq<Byte>) { |code| >= 64 && Body(p) <= code }

  lemma {:induction false} HeadersGrow(p: Packet, k: nat, n: nat)
    requires k <= n <= SLOTS
    ensures Headers(p, k) <= Headers(p, n) && Tails(p, k) <= Tails(p, n)
    ensures |Headers(p, n)| <= 2 * n && |Tails(p, n)| <= 7 * n
  {
    if k < n { HeadersGrow(p, k, n - 1); } else if n > 0 { HeadersGrow(p, n - 1, n - 1); }
  }

  lemma HeaderBytes(p: Packet, code: seq<Byte>, k: nat)
    requires Holds(p, code) && k < SLOTS && p.present[k]
    ensures var a := |Headers(p, k)|; a + 2 <= |code| && code[a..a + 2] == p.insts[k].header
  {
    HeadersGrow(p, k + 1, SLOTS);
    var a := |Headers(p, k)|;
    assert Headers(p, k + 1)[a..a + 2] == p.insts[k].header;
    assert code[..|Body(p)|] == Body(p);
  }

  lemma TailBytes(p: Packet, code: seq<Byte>, k: nat)
    requires Holds(p, code) && k < SLOTS && p.present[k]
    ensures
      var (a, n) := (|Headers(p, SLOTS)| + |Tails(p, k)|, |p.insts[k].tail|);
      a + n <= |code| && code[a..a + n] == p.insts[k].tail
  {
    hide TailLength;
    HeadersGrow(p, k + 1, SLOTS);
    var (b, n) := (|Tails(p, k)|, |p.insts[k].tail|);
    assert Tails(p, k + 1)[b..b + n] == p.insts[k].tail;
    hide Tails, Headers;
    SliceInside(Headers(p, SLOTS), Tails(p, SLOTS), code, Tails(p, k + 1), b, n);
  }

  lemma SliceInside(h: seq<Byte>, t: seq<Byte>, code: seq<Byte>, t1: seq<Byte>, b: nat, n: nat)
    requires h + t <= code && t1 <= t && b + n <= |t1|
    ensures |h| + b + n <= |code| && code[|h| + b..|h| + b + n] == t1[b..b + n]
  {
    assert code[..|h + t|] == h + t;
    assert t[..|t1|] == t1;
  }

  lemma {:induction false} HeadersDecoded(p: Packet, code: seq<Byte>, k: nat)
    requires Holds(p, code) && k <= SLOTS
    ensures HeaderPhase(p.present, code, k).idx == |Headers(p, k)|
    ensures Wanted(p, k, 0, HeaderPhase(p.present, code, k).raw)
  {
    hide TailLength;
    if k > 0 {
      HeadersDecoded(p, code, k - 1);
      if p.present[k - 1] { HeaderBytes(p, code, k - 1); }
      var s, t := HeaderPhase(p.present, code, k - 1), HeaderPhase(p.present, code, k);
      forall i: nat | i < RAW * SLOTS ensures t.raw[i] == Want(p, k, 0, i) {
        assert s.raw[i] == Want(p, k - 1, 0, i);
        HeaderByte(p, code, k - 1, s, i);
      }
    }
  }

  lemma HeaderByte(p: Packet, code: seq<Byte>, k: nat, s: State, i: nat)
    requires k < SLOTS && i < RAW * SLOTS && |s.raw| == RAW * SLOTS && s.raw[i] == Want(p, k, 0, i)
    requires s.idx + 2 <= |code| && (p.present[k] ==> code[s.idx..s.idx + 2] == p.insts[k].header)
    ensures FetchHeader(s, p.present[k], k, code).raw[i] == Want(p, k + 1, 0, i)
  {
    if p.present[k] && RAW * k <= i < RAW * k + 2 {
      assert code[s.idx..s.idx + 2][i - RAW * k] == code[s.idx + i - RAW * k];
    }
  }

  lemma {:induction false} TailsDecoded(p: Packet, code: seq<Byte>, k: nat)
    requires k <= SLOTS && Holds(p, code) && Harmless(p, k)
    ensures TailPhase(p.present, code, k).idx == |Headers(p, SLOTS)| + |Tails(p, k)|
    ensures Wanted(p, SLOTS, k, TailPhase(p.present, code, k).raw)
  {
    hide TailLength, Want, FetchTail, Holds, Headers, Body, Memcpy, HeaderPhase, HarmlessAt;
    if k == 0 {
      HeadersDecoded(p, code, SLOTS);
    } else {
      TailsDecoded(p, code, k - 1);
      Enough(p, code);
      var s := TailPhase(p.present, code, k - 1);
      if p.present[k - 1] {
        TailBytes(p, code, k - 1);
        HeaderInPlace(p, k - 1, s.raw);
      }
      TailIdx(p, code, k - 1, s);
      forall i: nat | i < RAW * SLOTS
        ensures FetchTail(s, p.present[k - 1], k - 1, code).raw[i] == Want(p, SLOTS, k, i)
      {
        TailByte(p, code, k - 1, s, i);
      }
    }
  }

  lemma Enough(p: Packet, code: seq<Byte>)
    requires Holds(p, code)
    ensures |code| >= 64
  {}

  lemma TailIdx(p: Packet, code: seq<Byte>, k: nat, s: State)
    requires k < SLOTS && |s.raw| == RAW * SLOTS && s.idx + 7 <= |code|
    requires p.present[k] ==> s.raw[RAW * k..RAW * k + 2] == p.insts[k].header
    ensures FetchTail(s, p.present[k], k, code).idx == s.idx + if p.present[k] then |p.insts[k].tail| else 0
  {
    hide TailLength;
  }

  lemma HeaderInPlace(p: Packet, k: nat, raw: seq<Byte>)
    requires k < SLOTS && p.present[k] && Wanted(p, SLOTS, k, raw)
    ensures raw[RAW * k..RAW * k + 2] == p.insts[k].header
  {
    hide TailLength;
    assert raw[RAW * k] == Want(p, SLOTS, k, RAW * k) && raw[RAW * k + 1] == Want(p, SLOTS, k, RAW * k + 1);
  }

  lemma TailByte(p: Packet, code: seq<Byte>, k: nat, s: State, i: nat)
    requires k < SLOTS && i < RAW * SLOTS && |s.raw| == RAW * SLOTS && s.raw[i] == Want(p, SLOTS, k, i)
        && s.idx + 7 <= |code|
    requires HarmlessAt(p, k) || i != RAW * (k + 1)
    requires p.present[k] ==> s.raw[RAW * k..RAW * k + 2] == p.insts[k].header
    requires p.present[k] ==> code[s.idx..s.idx + |p.insts[k].tail|] == p.insts[k].tail
    ensures FetchTail(s, p.present[k], k, code).raw[i] == Want(p, SLOTS, k + 1, i)
  {
    hide TailLength;
    if p.present[k] && RAW * k + 2 <= i < RAW * k + 2 + |p.insts[k].tail| {
      assert code[s.idx..s.idx + |p.insts[k].tail|][i - RAW * k - 2] == code[s.idx + i - RAW * k - 2];
    }
  }

  /** The first byte of slot k + 1 once slot k has its tail, if nothing was spilt before. */
  function FirstByteAfter(p: Packet, k: nat): Byte
    requires k < SLOTS - 1
  {
    if p.present[k] && |p.insts[k].tail| == 7 then p.insts[k].tail[6] else Want(p, SLOTS, SLOTS, RAW * (k + 1))
  }

  /** Slot k gets its tail; only the byte behind it can differ from what the packet means. */
  lemma TailInPlace(p: Packet, code: seq<Byte>, k: nat, i: nat)
    requires k < SLOTS && Holds(p, code) && Harmless(p, k) && i < RAW * SLOTS
    ensures TailPhase(p.present, code, k + 1).idx == |Headers(p, SLOTS)| + |Tails(p, k + 1)|
    ensures i != RAW * (k + 1) ==> TailPhase(p.present, code, k + 1).raw[i] == Want(p, SLOTS, k + 1, i)
    ensures k < SLOTS - 1 ==> TailPhase(p.present, code, k + 1).raw[RAW * (k + 1)] == FirstByteAfter(p, k)
  {
    hide TailLength, Want, FetchTail, Holds, Headers, Body, Memcpy, HeaderPhase;
    Enough(p, code);
    TailsDecoded(p, code, k);
    var s := TailPhase(p.present, code, k);
    if p.present[k] {
      TailBytes(p, code, k);
      HeaderInPlace(p, k, s.raw);
    }
    TailIdx(p, code, k, s);
    if i != RAW * (k + 1) { TailByte(p, code, k, s, i); }
    if k < SLOTS - 1 { SpillByte(p, code, k, s); }
  }

  lemma SpillByte(p: Packet, code: seq<Byte>, k: nat, s: State)
    requires k < SLOTS - 1 && |s.raw| == RAW * SLOTS && s.idx + 7 <= |code|
    requires s.raw[RAW * (k + 1)] == Want(p, SLOTS, k, RAW * (k + 1))
    requires p.present[k] ==> s.raw[RAW * k..RAW * k + 2] == p.insts[k].header
    requires p.present[k] ==> code[s.idx..s.idx + |p.insts[k].tail|] == p.insts[k].tail
    ensures FetchTail(s, p.present[k], k, code).raw[RAW * (k + 1)] == FirstByteAfter(p, k)
  {
    hide TailLength;
    if p.present[k] && |p.insts[k].tail| == 7 {
      LongTailSpills(s, k, code);
      assert code[s.idx..s.idx + 7][6] == code[s.idx + 6];
    }
  }

  /** Later slots do not write the bytes up to and including the first one of slot k. */
  lemma {:induction false} EarlierStays(p: Packet, code: seq<Byte>, k: nat, m: nat, i: nat)
    requires Holds(p, code) && k <= m <= SLOTS && i < RAW * SLOTS && i <= RAW * k + 1
    ensures TailPhase(p.present, code, m).raw[i] == TailPhase(p.present, code, k).raw[i]
  {
    hide TailLength;
    if m > k { EarlierStays(p, code, k, m - 1, i); }
  }

  /** Slot k is complete and right. */
  predicate SlotRight(p: Packet, raw: seq<Byte>, k: nat)
    requires k < SLOTS && |raw| == RAW * SLOTS
  {
    forall i: nat | RAW * k <= i < RAW * k + RAW :: raw[i] == Want(p, SLOTS, SLOTS, i)
  }

  lemma {:induction false} FirstHarm(p: Packet, n: nat) returns (k: nat)
    requires n <= SLOTS && !Harmless(p, n)
    ensures k < n && Harmless(p, k) && !HarmlessAt(p, k)
  {
    hide HarmlessAt;
    k := n - 1;
    if !Harmless(p, n - 1) { k := FirstHarm(p, n - 1); }
  }

  /** A first harmful spill leaves the slot behind it wrong. */
  lemma SpillIsWrong(p: Packet, code: seq<Byte>, k: nat)
    requires k < SLOTS - 1 && Holds(p, code) && Harmless(p, k) && !HarmlessAt(p, k)
    ensures !SlotRight(p, TailPhase(p.present, code, SLOTS).raw, k + 1)
  {
    hide TailPhase, Want, TailLength;
    TailInPlace(p, code, k, 0);
    EarlierStays(p, code, k + 1, SLOTS, RAW * (k + 1));
  }

  lemma HarmlessSlot(p: Packet, code: seq<Byte>, k: nat)
    requires k < SLOTS && Holds(p, code) && Harmless(p, k)
    ensures SlotRight(p, TailPhase(p.present, code, SLOTS).raw, k)
  {
    hide TailPhase, TailLength, Want, HarmlessAt;
    forall i: nat | RAW * k <= i < RAW * k + RAW
      ensures TailPhase(p.present, code, SLOTS).raw[i] == Want(p, SLOTS, SLOTS, i)
    {
      TailInPlace(p, code, k, i);
      AfterOwnTail(p, code, k, i);
      OwnTailIsAll(p, k, i);
    }
  }

  lemma OwnTailIsAll(p: Packet, k: nat, i: nat)
    requires k < SLOTS && RAW * k <= i < RAW * k + RAW
    ensures Want(p, SLOTS, k + 1, i) == Want(p, SLOTS, SLOTS, i)
  {
    hide TailLength;
  }

  lemma AfterOwnTail(p: Packet, code: seq<Byte>, k: nat, i: nat)
    requires k < SLOTS && Holds(p, code) && RAW * k <= i < RAW * k + RAW
    ensures TailPhase(p.present, code, SLOTS).raw[i] == TailPhase(p.present, code, k + 1).raw[i]
  {
    hide TailPhase;
    EarlierStays(p, code, k + 1, SLOTS, i);
  }

  // ---- the last slot, behind a slot 3 whose header a spill has changed ----

  /** The tail length that slot 3 is read with. */
  function ThirdLength(p: Packet): (n: nat)
    ensures n <= 7
  {
    if p.present[3] then TailLength([FirstByteAfter(p, 2), p.insts[3].header[1]]) else 0
  }

  /** The tail bytes from slot 3 on, and what follows the packet. */
  function RestOf(p: Packet, after: seq<Byte>): seq<Byte> {
    (if p.present[3] then p.insts[3].tail else []) + (if p.present[4] then p.insts[4].tail else []) + after
  }

  function Min(a: nat, b: nat): nat { if a < b then a else b }

  /** With the length that slot 3 is read with: nothing else is spilt into slot 4, and the
      bytes taken for slot 4's tail are its own. */
  predicate LastSlotKept(p: Packet, rest: seq<Byte>) {
    var n := ThirdLength(p);
    && |rest| >= 14
    && (n == 7 ==> rest[6] == Want(p, SLOTS, SLOTS, RAW * 4))
    && (p.present[4] ==> var m := Min(|p.insts[4].tail|, 6); rest[n..n + m] == p.insts[4].tail[..m])
  }

  /** Without a harmful spill into slot 3, that is: no harmful spill into slot 4. */
  lemma LastSlotPlain(p: Packet, after: seq<Byte>)
    requires HarmlessAt(p, 2) && |RestOf(p, after)| >= 14
    ensures LastSlotKept(p, RestOf(p, after)) <==> HarmlessAt(p, 3)
  {
    hide TailLength;
    var rest := RestOf(p, after);
    OwnLength(p);
    if p.present[3] && |p.insts[3].tail| == 7 { assert rest[6] == p.insts[3].tail[6]; }
    if p.present[4] {
      var n, m := ThirdLength(p), Min(|p.insts[4].tail|, 6);
      assert rest[n..n + |p.insts[4].tail|] == p.insts[4].tail;
      assert rest[n..n + m] == rest[n..n + |p.insts[4].tail|][..m];
    }
  }

  lemma OwnLength(p: Packet)
    requires HarmlessAt(p, 2)
    ensures ThirdLength(p) == if p.present[3] then |p.insts[3].tail| else 0
  {
    hide TailLength;
    assert FirstByteAfter(p, 2) == Want(p, SLOTS, SLOTS, RAW * 3);
    assert p.present[3] ==> [FirstByteAfter(p, 2), p.insts[3].header[1]] == p.insts[3].header;
  }

  /** Slot 3's tail is fetched with the header it has by then. */
  lemma ThirdFetched(p: Packet, code: seq<Byte>, j: nat)
    requires Holds(p, code) && Harmless(p, 2) && 32 <= j < 40
    ensures
      var (s, a) := (TailPhase(p.present, code, 4), |Headers(p, SLOTS)| + |Tails(p, 3)|);
      && s.idx == a + ThirdLength(p) && a + 14 <= |code|
      && s.raw[j] == if j == 32 && ThirdLength(p) == 7 then code[a + 6] else Want(p, SLOTS, 3, j)
  {
    hide TailLength, TailPhase, Want, Headers, Tails, HarmlessAt;
    TailInPlace(p, code, 2, j);
    TailInPlace(p, code, 2, 25);
    Enough(p, code);
    Bounded(p, 3);
    var s := TailPhase(p.present, code, 3);
    OnePhase(p, code, 3);
    ThirdHeader(p);
    if p.present[3] {
      assert s.raw[24..26] == [FirstByteAfter(p, 2), p.insts[3].header[1]];
    }
    ThirdByte(p, code, s, j);
  }

  lemma OnePhase(p: Packet, code: seq<Byte>, k: nat)
    requires |code| >= 64 && k < SLOTS
    ensures TailPhase(p.present, code, k).idx + 7 <= |code|
    ensures TailPhase(p.present, code, k + 1) == FetchTail(TailPhase(p.present, code, k), p.present[k], k, code)
  {
    hide TailLength, FetchTail;
  }

  lemma Bounded(p: Packet, k: nat)
    requires k <= SLOTS
    ensures |Headers(p, SLOTS)| <= 10 && |Tails(p, k)| <= 7 * k
  {
    HeadersGrow(p, 0, SLOTS);
    HeadersGrow(p, 0, k);
  }

  lemma ThirdHeader(p: Packet)
    ensures p.present[3] ==> Want(p, SLOTS, 3, 25) == p.insts[3].header[1]
  {
    hide TailLength;
  }

  lemma ThirdByte(p: Packet, code: seq<Byte>, s: State, j: nat)
    requires |s.raw| == RAW * SLOTS && s.idx + 7 <= |code| && 32 <= j < 40 && s.raw[j] == Want(p, SLOTS, 3, j)
    requires p.present[3] ==> s.raw[24..26] == [FirstByteAfter(p, 2), p.insts[3].header[1]]
    ensures
      var t := FetchTail(s, p.present[3], 3, code);
      && t.idx == s.idx + ThirdLength(p)
      && t.raw[j] == if j == 32 && ThirdLength(p) == 7 then code[s.idx + 6] else Want(p, SLOTS, 3, j)
  {
    hide TailLength, Want, FirstByteAfter;
  }

  /** Slot 4 is right exactly when nothing was spilt into it and its tail was found. */
  lemma LastSlotIff(p: Packet, code: seq<Byte>)
    requires Holds(p, code) && Harmless(p, 2)
    ensures
      var a := |Headers(p, SLOTS)| + |Tails(p, 3)|;
      a + 14 <= |code| && (SlotRight(p, TailPhase(p.present, code, SLOTS).raw, 4) <==> LastSlotKept(p, code[a..]))
  {
    hide TailLength, TailPhase, Headers, Tails, Harmless, Want, ThirdLength, FetchTail;
    var s := TailPhase(p.present, code, 4);
    var a := |Headers(p, SLOTS)| + |Tails(p, 3)|;
    forall j: nat | 32 <= j < 40
      ensures a + 14 <= |code| && s.idx == a + ThirdLength(p)
      ensures s.raw[j] == if j == 32 && ThirdLength(p) == 7 then code[a + 6] else Want(p, SLOTS, 3, j)
    {
      ThirdFetched(p, code, j);
    }
    assert s.raw[32] == if ThirdLength(p) == 7 then code[a + 6] else Want(p, SLOTS, 3, 32);
    Enough(p, code);
    OnePhase(p, code, 4);
    LastFetched(p, code, s, a);
  }

  lemma LastFetched(p: Packet, code: seq<Byte>, s: State, a: nat)
    requires |s.raw| == RAW * SLOTS && a + 14 <= |code| && s.idx == a + ThirdLength(p) && s.idx + 7 <= |code|
    requires forall j: nat | 32 <= j < 40 ::
      s.raw[j] == if j == 32 && ThirdLength(p) == 7 then code[a + 6] else Want(p, SLOTS, 3, j)
    ensures SlotRight(p, FetchTail(s, p.present[4], 4, code).raw, 4) <==> LastSlotKept(p, code[a..])
  {
    hide TailLength, ThirdLength, FetchTail, Want, TailByteFound;
    var t := FetchTail(s, p.present[4], 4, code);
    LastWant(p);
    LastHeader(p, code, s);
    assert code[a..][6] == code[a + 6];
    assert t.raw[32] == s.raw[32] && t.raw[33] == s.raw[33];
    if p.present[4] && s.raw[32] == Want(p, SLOTS, SLOTS, 32) {
      assert s.raw[32..34] == p.insts[4].header;
      forall j: nat | 34 <= j < 40 ensures t.raw[j] == Want(p, SLOTS, SLOTS, j) <==> TailByteFound(p, code, s.idx, j) {
        LastByteIff(p, code, s, j);
      }
      TailFoundIff(p, code, a, ThirdLength(p), s.idx);
    }
  }

  /** Slot 4's own tail byte is what stands in the code. */
  predicate TailByteFound(p: Packet, code: seq<Byte>, idx: nat, j: nat)
    requires 34 <= j < 40 && idx + 7 <= |code|
  {
    j - 34 < |p.insts[4].tail| ==> code[idx + j - 34] == p.insts[4].tail[j - 34]
  }

  lemma TailFoundIff(p: Packet, code: seq<Byte>, a: nat, n: nat, idx: nat)
    requires n <= 7 && a + 14 <= |code| && idx == a + n
    ensures
      var m := Min(|p.insts[4].tail|, 6);
      code[a..][n..n + m] == p.insts[4].tail[..m] <==> forall j: nat | 34 <= j < 40 :: TailByteFound(p, code, idx, j)
  {
    hide TailLength;
    var m := Min(|p.insts[4].tail|, 6);
    var found, own := code[a..][n..n + m], p.insts[4].tail[..m];
    forall j: nat | 34 <= j < 40
      ensures TailByteFound(p, code, idx, j) <==> (j - 34 < m ==> found[j - 34] == own[j - 34])
    {}
    if forall j: nat | 34 <= j < 40 :: TailByteFound(p, code, idx, j) {
      forall i: nat | i < m ensures found[i] == own[i] { assert TailByteFound(p, code, idx, i + 34); }
    }
  }

  lemma LastByteIff(p: Packet, code: seq<Byte>, s: State, j: nat)
    requires |s.raw| == RAW * SLOTS && s.idx + 7 <= |code| && 34 <= j < 40 && s.raw[j] == Want(p, SLOTS, 3, j)
    requires p.present[4] && s.raw[32..34] == p.insts[4].header
    ensures FetchTail(s, p.present[4], 4, code).raw[j] == Want(p, SLOTS, SLOTS, j) <==> TailByteFound(p, code, s.idx, j)
  {
    hide TailLength;
  }

  /** What slot 4 means, but for its tail. */
  lemma LastWant(p: Packet)
    ensures Want(p, SLOTS, 3, 32) == Want(p, SLOTS, SLOTS, 32) && Want(p, SLOTS, 3, 33) == Want(p, SLOTS, SLOTS, 33)
    ensures p.present[4] ==> [Want(p, SLOTS, SLOTS, 32), Want(p, SLOTS, SLOTS, 33)] == p.insts[4].header
    ensures !p.present[4] ==> forall j: nat | 34 <= j < 40 :: Want(p, SLOTS, 3, j) == Want(p, SLOTS, SLOTS, j)
  {
    hide TailLength;
  }

  lemma LastHeader(p: Packet, code: seq<Byte>, s: State)
    requires |s.raw| == RAW * SLOTS && s.idx + 7 <= |code|
    ensures FetchTail(s, p.present[4], 4, code).raw[32..34] == s.raw[32..34]
    ensures !p.present[4] ==> FetchTail(s, p.present[4], 4, code) == s
  {
    hide TailLength;
  }

  /** The eight bytes of slot k: header, tail and zeroes; all zero if it is absent. */
  function SlotBytes(p: Packet, k: nat): (r: seq<Byte>)
    requires k < SLOTS
    ensures |r| == RAW
  {
    seq<Byte>(RAW, j requires 0 <= j < RAW => Want(p, SLOTS, SLOTS, RAW * k + j))
  }

  /** What the slots of a packet mean, broadcast copies included. */
  function Meaning(p: Packet): seq<Byte> {
    SlotBytes(p, 0) + SlotBytes(p, 1) + SlotBytes(p, 2)
    + SlotBytes(p, if p.bls then 1 else 3) + SlotBytes(p, if p.ba then 2 else 4)
  }

  lemma SlotBytesAre(p: Packet, k: nat)
    requires k < SLOTS && (p.present[k] ==> |p.insts[k].tail| <= 6)
    ensures SlotBytes(p, k) ==
            if p.present[k] then p.insts[k].header + p.insts[k].tail + seq(6 - |p.insts[k].tail|, _ => 0)
            else seq(RAW, _ => 0)
  {
    hide TailLength;
    var want := if p.present[k] then p.insts[k].header + p.insts[k].tail + seq(6 - |p.insts[k].tail|, _ => 0)
        else seq(RAW, _ => 0);
    forall j: nat | j < RAW ensures SlotBytes(p, k)[j] == want[j] {
      DivModIs(RAW * k + j, RAW, k, j);
      assert SlotBytes(p, k)[j] == Want(p, SLOTS, SLOTS, RAW * k + j);
    }
  }

  /** After the broadcast copies only the slots that are not overwritten matter. */
  lemma BroadcastIff(p: Packet, raw: seq<Byte>)
    requires |raw| == RAW * SLOTS
    ensures Broadcast(raw, p.bls, p.ba) == Meaning(p) <==>
      && SlotRight(p, raw, 0) && SlotRight(p, raw, 1) && SlotRight(p, raw, 2)
      && (p.bls || SlotRight(p, raw, 3)) && (p.ba || SlotRight(p, raw, 4))
  {
    hide SlotBytes, SlotRight;
    SlotRightIff(p, raw, 0);
    SlotRightIff(p, raw, 1);
    SlotRightIff(p, raw, 2);
    SlotRightIff(p, raw, 3);
    SlotRightIff(p, raw, 4);
    FiveParts(Broadcast(raw, p.bls, p.ba), SlotBytes(p, 0), SlotBytes(p, 1), SlotBytes(p, 2),
              SlotBytes(p, if p.bls then 1 else 3), SlotBytes(p, if p.ba then 2 else 4));
    BroadcastParts(raw, p.bls, p.ba);
  }

  lemma BroadcastParts(raw: seq<Byte>, bls: bool, ba: bool)
    requires |raw| == RAW * SLOTS
    ensures
      var r := Broadcast(raw, bls, ba);
      && r[0..8] == raw[0..8] && r[8..16] == raw[8..16] && r[16..24] == raw[16..24]
      && r[24..32] == (if bls then raw[8..16] else raw[24..32]) && r[32..40] == if ba then raw[16..24] else raw[32..40]
  {
    var a, b, c := raw[0..8], raw[8..16], raw[16..24];
    var d := if bls then b else raw[24..32];
    var r1 := if bls then raw[..24] + raw[8..16] + raw[32..] else raw;
    assert raw[..24] == a + b + c;
    assert r1 == a + b + c + d + raw[32..40];
    FiveParts(r1, a, b, c, d, raw[32..40]);
    assert r1[..32] == a + b + c + d;
    var e := if ba then c else raw[32..40];
    assert Broadcast(raw, bls, ba) == a + b + c + d + e;
    FiveParts(Broadcast(raw, bls, ba), a, b, c, d, e);
  }

  lemma FiveParts(r: seq<Byte>, a: seq<Byte>, b: seq<Byte>, c: seq<Byte>, d: seq<Byte>, e: seq<Byte>)
    requires |r| == 40 && |a| == |b| == |c| == |d| == |e| == 8
    ensures r == a + b + c + d + e
        <==> r[0..8] == a && r[8..16] == b && r[16..24] == c && r[24..32] == d && r[32..40] == e
  {
    var all := a + b + c + d + e;
    assert all[0..8] == a && all[8..16] == b && all[16..24] == c && all[24..32] == d && all[32..40] == e;
    assert r == r[0..8] + r[8..16] + r[16..24] + r[24..32] + r[32..40];
  }

  lemma SlotRightIff(p: Packet, raw: seq<Byte>, k: nat)
    requires k < SLOTS && |raw| == RAW * SLOTS
    ensures SlotRight(p, raw, k) <==> raw[RAW * k..RAW * k + RAW] == SlotBytes(p, k)
  {
    hide Want;
    var part := raw[RAW * k..RAW * k + RAW];
    if part == SlotBytes(p, k) {
      forall i: nat | RAW * k <= i < RAW * k + RAW ensures raw[i] == Want(p, SLOTS, SLOTS, i) {
        assert part[i - RAW * k] == SlotBytes(p, k)[i - RAW * k];
      }
    }
  }

  // ---- the cap ----

  /** The bit of weight m in a number written as the lower bits, that bit, and the rest. */
  lemma BitAt(x: nat, lo: nat, m: nat, b: nat, hi: nat)
    requires lo < m && b <= 1 && x == (2 * hi + b) * m + lo
    ensures x / m % 2 == b
  {
    DivModIs(x, m, 2 * hi + b, lo);
  }

  lemma CapBits(a: nat, b: nat, c: nat, d: nat, e: nat, f: nat, g: nat, n: nat, cap: nat)
    requires a <= 1 && b <= 1 && c <= 1 && d <= 1 && e <= 1 && f <= 1 && g <= 1
    requires cap == 2 * a + 4 * b + 8 * c + 16 * d + 32 * e + 64 * f + 128 * g + 1024 * n
    ensures cap / 2 % 2 == a && cap / 4 % 2 == b && cap / 8 % 2 == c && cap / 16 % 2 == d
    ensures cap / 32 % 2 == e && cap / 64 % 2 == f && cap / 128 % 2 == g
    ensures cap % 2 == 0 && cap / 256 % 4 == 0 && cap / 1024 == n
  {
    BitAt(cap, 0, 2, a, b + 2 * c + 4 * d + 8 * e + 16 * f + 32 * g + 256 * n);
    BitAt(cap, 2 * a, 4, b, c + 2 * d + 4 * e + 8 * f + 16 * g + 128 * n);
    BitAt(cap, 2 * a + 4 * b, 8, c, d + 2 * e + 4 * f + 8 * g + 64 * n);
    BitAt(cap, 2 * a + 4 * b + 8 * c, 16, d, e + 2 * f + 4 * g + 32 * n);
    BitAt(cap, 2 * a + 4 * b + 8 * c + 16 * d, 32, e, f + 2 * g + 16 * n);
    BitAt(cap, 2 * a + 4 * b + 8 * c + 16 * d + 32 * e, 64, f, g + 8 * n);
    BitAt(cap, 2 * a + 4 * b + 8 * c + 16 * d + 32 * e + 64 * f, 128, g, 4 * n);
    var low := a + 2 * b + 4 * c + 8 * d + 16 * e + 32 * f + 64 * g;
    DivModIs(cap, 256, 4 * n, 2 * low);
    DivModIs(cap, 1024, n, 2 * low);
    DivModIs(cap, 2, low + 512 * n, 0);
  }

  /** The bytes of a packet in memory. */
  function Encode(p: Packet): seq<Byte>
    requires PacketLength(p) < 64
  {
    CapBytes(p) + Body(p)
  }

  function CapBytes(p: Packet): (r: seq<Byte>)
    requires PacketLength(p) < 64
    ensures |r| == 2 && Raw16(r) == CapOf(p)
  {
    [CapOf(p) % 256, CapOf(p) / 256]
  }

  /** The packet can be read back: no harmful spill into slots 1 and 2, nor into slots 3
      and 4 unless a broadcast copy overwrites them; a spill into an overwritten slot 3
      matters only through the tail length that it gives that slot. */
  predicate Recovered(p: Packet, after: seq<Byte>) {
    && HarmlessAt(p, 0) && HarmlessAt(p, 1) && (p.bls || HarmlessAt(p, 2))
    && (p.ba || LastSlotKept(p, RestOf(p, after)))
  }

  /** The same in simpler words when no slot 3 is overwritten, and in any case enough: no
      harmful spill at all, as when every tail has six bytes or less. */
  lemma RecoveredPlain(p: Packet, after: seq<Byte>)
    requires PacketLength(p) + |after| == 72
    ensures !p.bls ==> (Recovered(p, after) <==> Harmless(p, if p.ba then 3 else SLOTS))
    ensures Harmless(p, SLOTS) ==> Recovered(p, after)
    ensures (forall k: nat | k < SLOTS && p.present[k] :: |p.insts[k].tail| <= 6) ==> Recovered(p, after)
  {
    HarmlessUpTo(p);
    RestIs(p, after);
    hide TailLength, LastSlotKept, RestOf, Harmless, Want;
    if HarmlessAt(p, 2) { LastSlotPlain(p, after); }
  }

  lemma HarmlessUpTo(p: Packet)
    ensures HarmlessAt(p, 4)
    ensures Harmless(p, 2) <==> HarmlessAt(p, 0) && HarmlessAt(p, 1)
    ensures Harmless(p, 3) <==> Harmless(p, 2) && HarmlessAt(p, 2)
    ensures Harmless(p, SLOTS) <==> Harmless(p, 3) && HarmlessAt(p, 3)
  {
    hide TailLength, Want;
  }

  /** Packet layout round trip, for every choice of slots, instructions and broadcast bits:
      decoding the encoded packet, whatever bytes follow it in memory, gives each slot its
      bytes and the packet its length, if and only if `Recovered`. */
  lemma RoundTrip(p: Packet, after: seq<Byte>)
    requires PacketLength(p) < 64 && PacketLength(p) + |after| == 72
    ensures Decode(Encode(p) + after) == Slots(Meaning(p), PacketLength(p)) <==> Recovered(p, after)
  {
    hide TailLength, Meaning, Broadcast, TailPhase, HarmlessAt, SlotRight, LastSlotKept, RestOf, Decode, Encode;
    var code := Body(p) + after;
    DecodeEncoded(p, after);
    BroadcastIff(p, TailPhase(p.present, code, SLOTS).raw);
    HarmlessUpTo(p);
    if Harmless(p, 2) {
      HarmlessSlot(p, code, 0);
      HarmlessSlot(p, code, 1);
      HarmlessSlot(p, code, 2);
      if HarmlessAt(p, 2) { HarmlessSlot(p, code, 3); } else { SpillIsWrong(p, code, 2); }
      LastSlotIff(p, code);
      RestIs(p, after);
    } else {
      var k := FirstHarm(p, 2);
      SpillIsWrong(p, code, k);
    }
  }

  /** What follows slot 2's tail. */
  lemma RestIs(p: Packet, after: seq<Byte>)
    requires PacketLength(p) + |after| == 72
    ensures
      var a := |Headers(p, SLOTS)| + |Tails(p, 3)|;
      a <= |Body(p) + after| && (Body(p) + after)[a..] == RestOf(p, after) && |RestOf(p, after)| >= 14
  {
    hide TailLength;
    Bounded(p, 3);
    var t3 := if p.present[3] then p.insts[3].tail else [];
    var t4 := if p.present[4] then p.insts[4].tail else [];
    assert Tails(p, 5) == Tails(p, 4) + t4 && Tails(p, 4) == Tails(p, 3) + t3;
    hide Tails, Headers;
    Regroup(Headers(p, SLOTS), Tails(p, 3), t3, t4, after);
  }

  lemma Regroup(h: seq<Byte>, t: seq<Byte>, a: seq<Byte>, b: seq<Byte>, c: seq<Byte>)
    ensures h + (t + a + b) + c == (h + t) + (a + b + c)
    ensures (h + (t + a + b) + c)[|h| + |t|..] == a + b + c
  {
    assert h + (t + a + b) + c == (h + t) + (a + b + c);
  }

  lemma DecodeEncoded(p: Packet, after: seq<Byte>)
    requires PacketLength(p) < 64 && PacketLength(p) + |after| == 72
    ensures Holds(p, Body(p) + after) && |Encode(p) + after| == 72
    ensures Decode(Encode(p) + after) ==
            Slots(Broadcast(TailPhase(p.present, Body(p) + after, SLOTS).raw, p.bls, p.ba), PacketLength(p))
  {
    hide TailLength, Broadcast, TailPhase, CapOf, Body, Raw16;
    var bytes := Encode(p) + after;
    assert bytes[..2] == CapBytes(p);
    CapRead(p);
    assert bytes[2..] == Body(p) + after;
  }

  lemma CapRead(p: Packet)
    ensures
      var cap := CapOf(p);
      && cap != 0 && cap / 256 % 4 != 3 && cap % 2 != 1 && cap / 1024 == PacketLength(p)
      && [cap / 2 % 2 == 1, cap / 4 % 2 == 1, cap / 8 % 2 == 1, cap / 16 % 2 == 1, cap / 32 % 2 == 1] == p.present
      && (cap / 64 % 2 == 1) == p.bls && (cap / 128 % 2 == 1) == p.ba
  {
    hide Body, Flag;
    CapBits(Flag(p.present[0]), Flag(p.present[1]), Flag(p.present[2]), Flag(p.present[3]), Flag(p.present[4]),
            Flag(p.bls), Flag(p.ba), PacketLength(p), CapOf(p));
  }

  /** A seven-byte tail does not fit: its last byte lands in the first header byte of the
      next slot, before the length of that slot is read, whatever the state. */
  lemma LongTailSpills(s: State, k: nat, code: seq<Byte>)
    requires |s.raw| == RAW * SLOTS && k < SLOTS - 1 && s.idx + 7 <= |code|
    requires TailLength(s.raw[RAW * k..RAW * k + 2]) == 7
    ensures FetchTail(s, true, k, code).raw[RAW * (k + 1)] == code[s.idx + 6]
  {}

  /** Tails of six bytes or less leave the other slots alone. */
  lemma ShortTailStays(s: State, k: nat, code: seq<Byte>, i: nat)
    requires |s.raw| == RAW * SLOTS && k < SLOTS && s.idx + 7 <= |code| && i < RAW * SLOTS
    requires TailLength(s.raw[RAW * k..RAW * k + 2]) <= 6 && i / RAW != k
    ensures FetchTail(s, true, k, code).raw[i] == s.raw[i]
  {
    hide TailLength;
  }

  lemma {:induction false} OnlyFirst(p: Packet, k: nat)
    requires p.present == [true, false, false, false, false] && 1 <= k <= SLOTS
    ensures Headers(p, k) == p.insts[0].header && Tails(p, k) == p.insts[0].tail
  {
    hide TailLength;
    if k > 1 { OnlyFirst(p, k - 1); } else { assert Headers(p, 0) == [] && Tails(p, 0) == []; }
  }

  /** A packet of one scalar instruction with a tail that fits. */
  lemma OneInstruction(inst: Inst, after: seq<Byte>)
    requires |inst.tail| <= 6 && |after| == 68 - |inst.tail|
    ensures
      var p := Packet([true, false, false, false, false], seq(SLOTS, _ => inst), false, false);
      PacketLength(p) == 4 + |inst.tail| && |Encode(p) + after| == 72
      && Decode(Encode(p) + after) == Slots(inst.header + inst.tail + seq(38 - |inst.tail|, _ => 0), 4 + |inst.tail|)
  {
    hide TailLength, Decode, Headers, Tails;
    var p := Packet([true, false, false, false, false], seq(SLOTS, _ => inst), false, false);
    OnlyFirst(p, SLOTS);
    RecoveredPlain(p, after);
    RoundTrip(p, after);
    OneMeaning(p);
  }

  /** A packet that is not read back: the seventh tail byte of a scalar instruction alone in
      its packet turns up in the empty slot 1. */
  lemma SpillDecodes(after: seq<Byte>)
    requires |after| == 61
    ensures
      var p := Packet([true, false, false, false, false], seq(SLOTS, _ => SevenByte()), false, false);
      && PacketLength(p) == 11 && |Encode(p) + after| == 72
      && Decode(Encode(p) + after) != Slots(Meaning(p), 11)
      && Decode(Encode(p) + after).Slots? && Decode(Encode(p) + after).raw[8] == 1 && Meaning(p)[8] == 0
  {
    var p := Packet([true, false, false, false, false], seq(SLOTS, _ => SevenByte()), false, false);
    OnlyFirst(p, SLOTS);
    SevenSpills(p);
    hide TailLength, Decode, Headers, Tails, HarmlessAt, Broadcast, Meaning, TailPhase, Want;
    HarmlessUpTo(p);
    RoundTrip(p, after);
    DecodeEncoded(p, after);
    TailInPlace(p, Body(p) + after, 0, 0);
    EarlierStays(p, Body(p) + after, 1, SLOTS, 8);
    BroadcastParts(TailPhase(p.present, Body(p) + after, SLOTS).raw, false, false);
    EighthByte(Broadcast(TailPhase(p.present, Body(p) + after, SLOTS).raw, false, false),
        TailPhase(p.present, Body(p) + after, SLOTS).raw);
  }

  lemma EighthByte(r: seq<Byte>, raw: seq<Byte>)
    requires |r| == |raw| == 40 && r[8..16] == raw[8..16]
    ensures r[8] == raw[8]
  {
    assert r[8] == r[8..16][0];
  }

  function SevenByte(): Inst {
    assert TailLength([56, 0]) == 7;
    Inst([56, 0], [0, 0, 0, 0, 0, 0, 1])
  }

  lemma SevenSpills(p: Packet)
    requires p.present == [true, false, false, false, false] && p.insts[0] == SevenByte() && !p.bls && !p.ba
    ensures !HarmlessAt(p, 0) && FirstByteAfter(p, 0) == 1 && Meaning(p)[8] == 0
  {
    assert Want(p, SLOTS, SLOTS, 8) == 0;
    assert Meaning(p)[8] == SlotBytes(p, 1)[0];
  }

  lemma OneMeaning(p: Packet)
    requires p.present == [true, false, false, false, false] && !p.bls && !p.ba && |p.insts[0].tail| <= 6
    ensures Meaning(p) == p.insts[0].header + p.insts[0].tail + seq(38 - |p.insts[0].tail|, _ => 0)
  {
    hide TailLength, SlotBytes;
    forall k | 0 <= k < SLOTS { SlotBytesAre(p, k); }
  }

  // ---- decode, step by step ----

  method CopyInto(raw: array<Byte>, at: nat, code: seq<Byte>, idx: nat, n: nat)
    requires idx + n <= |code|
    modifies raw
    ensures raw[..] == Memcpy(old(raw[..]), at, code, idx, n)
  {
    for i := 0 to n
      invariant raw[..] == Memcpy(old(raw[..]), at, code, idx, i)
    {
      if at + i < raw.Length {
        raw[at + i] := code[idx + i];
      }
    }
  }

  method FetchHeaderInto(raw: array<Byte>, on: bool, k: nat, code: seq<Byte>, idx: nat) returns (next: nat)
    requires raw.Length == RAW * SLOTS && k < SLOTS && idx + 2 <= |code|
    modifies raw
    ensures State(raw[..], next) == FetchHeader(State(old(raw[..]), idx), on, k, code)
  {
    next := idx;
    if on {
      CopyInto(raw, RAW * k, code, idx, 2);
      next := idx + 2;
    }
  }

  method FetchTailInto(raw: array<Byte>, on: bool, k: nat, code: seq<Byte>, idx: nat) returns (next: nat)
    requires raw.Length == RAW * SLOTS && k < SLOTS && idx + 7 <= |code|
    modifies raw
    ensures State(raw[..], next) == FetchTail(State(old(raw[..]), idx), on, k, code)
  {
    hide TailLength, Memcpy;
    next := idx;
    if on {
      var n := TailLength(raw[RAW * k..RAW * k + 2]);
      CopyInto(raw, RAW * k + 2, code, idx, n);
      next := idx + n;
    }
  }

  method FetchAll(present: seq<bool>, code: seq<Byte>) returns (raw: array<Byte>)
    requires |present| == SLOTS && |code| >= 64
    ensures fresh(raw) && raw[..] == TailPhase(present, code, SLOTS).raw && raw.Length == RAW * SLOTS
  {
    hide FetchHeader, FetchTail;
    raw := new Byte[RAW * SLOTS](_ => 0);
    assert raw[..] == seq<Byte>(RAW * SLOTS, _ => 0);
    var idx := 0;
    for k := 0 to SLOTS
      invariant State(raw[..], idx) == HeaderPhase(present, code, k)
    {
      idx := FetchHeaderInto(raw, present[k], k, code, idx);
    }
    for k := 0 to SLOTS
      invariant State(raw[..], idx) == TailPhase(present, code, k)
    {
      idx := FetchTailInto(raw, present[k], k, code, idx);
    }
  }

  method DecodePacket(bytes: seq<Byte>) returns (r: Decoded)
    requires |bytes| == 72
    ensures r == Decode(bytes)
  {
    hide Broadcast, TailPhase;
    var cap := Raw16(bytes[..2]);
    if cap == 0 {
      return Trap;
    }
    if cap / 256 % 4 == 3 {
      return Breakpoint;
    }
    if cap % 2 == 1 {
      return Control(cap / 16 % 16);
    }
    var present := [cap / 2 % 2 == 1, cap / 4 % 2 == 1, cap / 8 % 2 == 1, cap / 16 % 2 == 1, cap / 32 % 2 == 1];
    var raw := FetchAll(present, bytes[2..]);
    r := Slots(Broadcast(raw[..], cap / 64 % 2 == 1, cap / 128 % 2 == 1), cap / 1024);
  }
}
