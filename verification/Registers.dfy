/** The register file of one DSP core, the write-log entries that update it, and
    the clean-up that follows every commit (pac-dsp-def.h, pac-exec.cpp).

    RF[10][32] and PSR[5][7] are laid out in one sequence: RF[t][a] at 32*t+a,
    PSR[i][b] at 320+7*i+b. */
module Registers {

  type Word = bv64

  const TYP_AC: nat := 1
  const TYP_CP: nat := 3
  const TYP_P: nat := 5
  const TYP_R: nat := 6
  const TYP_CR: nat := 7
  const TYP_CPP: nat := 9
  const TYP_PSR: nat := 10

  const FILE_SIZE: nat := 355
  const P0: nat := 160
  const CR0: nat := 224

  type RegFile = s: seq<Word> | |s| == FILE_SIZE witness seq(FILE_SIZE, _ => 0)

  /** One `write_node_t`. */
  datatype RawNode = Node(typ: nat, addr: nat, data: Word)

  type Node = n: RawNode | NodeOk(n) witness Node(0, 0, 0)

  predicate NodeOk(n: RawNode) {
    && n.typ <= TYP_PSR
    && (n.typ < TYP_PSR ==> n.addr < 32)
    && (n.typ == TYP_PSR ==> n.addr < 40 && n.addr % 8 < 7)
  }

  /** The register that an entry names. */
  function Target(n: Node): (r: nat)
    ensures r < FILE_SIZE
  {
    if n.typ < TYP_PSR then 32 * n.typ + n.addr else 320 + 7 * (n.addr / 8) + n.addr % 8
  }

  predicate IsCpp(r: nat) { 288 <= r < 320 }

  /** An entry for CR0 also rewrites the predicates P1..P15 (`update_p`). */
  predicate Touches(n: Node, r: nat) {
    r == Target(n) || (Target(n) == CR0 && P0 < r < P0 + 16)
  }

  function Up(w: Word): Word { w << 1 }

  function Down(w: Word): Word { w >> 1 }

  function Or(a: Word, b: Word): Word { a | b }

  function And(a: Word, b: Word): Word { a & b }

  /** w << i and w >> i, one position at a time. */
  function ShiftLeft(w: Word, i: nat): Word { if i == 0 then w else Up(ShiftLeft(w, i - 1)) }

  function ShiftRight(w: Word, i: nat): Word { if i == 0 then w else Down(ShiftRight(w, i - 1)) }

  function Bit(w: Word, i: nat): Word { And(ShiftRight(w, i), 1) }

  /** What an entry leaves in a register that it touches. */
  function ValueFor(n: Node, r: nat): Word
    requires Touches(n, r)
  {
    if r == Target(n) then n.data else Bit(n.data, r - P0)
  }

  function ApplyNode(s: RegFile, n: Node): RegFile {
    seq(FILE_SIZE, r requires 0 <= r < FILE_SIZE => if Touches(n, r) then ValueFor(n, r) else s[r])
  }

  /** Entries take effect in log order. */
  function Apply(s: RegFile, nodes: seq<Node>): RegFile {
    if nodes == [] then s else ApplyNode(Apply(s, nodes[..|nodes| - 1]), nodes[|nodes| - 1])
  }

  // ---- clean-up after a commit ----

  /** OR of P[i] << i for i < k, with P[0] read as 1. */
  function PackPredicates(s: RegFile, k: nat): Word
    requires k <= 16
  {
    if k == 0 then 0
    else Or(PackPredicates(s, k - 1), ShiftLeft(if k == 1 then 1 else s[P0 + k - 1], k - 1))
  }

  /** The field width of every register but CR0. */
  function Trim(r: nat, w: Word): Word {
    if r == P0 then 1
    else if r == 339 || r == 340 || r == 353 || r == 354 then 0    // LS_PSR is 5 bits wide
    else if r == 256 || r == 272 then w & 0xFFFF                   // AMCR is 16 bits wide
    else if r == 96 || r == 97 || r == 112 || r == 113 then w & 0x7F  // CP is 7 bits wide
    else w
  }

  function CleanAt(s: RegFile, r: nat): Word
    requires r < FILE_SIZE
  {
    if r == CR0 then PackPredicates(s, 16) else Trim(r, s[r])
  }

  function Clean(s: RegFile): RegFile {
    seq(FILE_SIZE, r requires 0 <= r < FILE_SIZE => CleanAt(s, r))
  }

  // ---- last write per register ----

  datatype Option<+T> = None | Some(value: T)

  /** The value that the last entry touching r leaves in it. */
  function LastWrite(nodes: seq<Node>, r: nat): Option<Word> {
    if nodes == [] then None
    else if Touches(nodes[|nodes| - 1], r) then Some(ValueFor(nodes[|nodes| - 1], r))
    else LastWrite(nodes[..|nodes| - 1], r)
  }

  function OrElse(a: Option<Word>, b: Option<Word>): Option<Word> { if a.Some? then a else b }

  lemma {:induction false} ApplyAt(s: RegFile, nodes: seq<Node>, r: nat)
    requires r < FILE_SIZE
    ensures Apply(s, nodes)[r] == match LastWrite(nodes, r) case None => s[r] case Some(v) => v
  {
    if nodes != [] { ApplyAt(s, nodes[..|nodes| - 1], r); }
  }

  lemma {:induction false} LastWriteConcat(a: seq<Node>, b: seq<Node>, r: nat)
    ensures LastWrite(a + b, r) == OrElse(LastWrite(b, r), LastWrite(a, r))
  {
    if b == [] {
      assert a + b == a;
    } else {
      assert (a + b)[..|a + b| - 1] == a + b[..|b| - 1];
      LastWriteConcat(a, b[..|b| - 1], r);
    }
  }

  lemma {:induction false} ApplyConcat(s: RegFile, a: seq<Node>, b: seq<Node>)
    ensures Apply(s, a + b) == Apply(Apply(s, a), b)
  {
    if b == [] {
      assert a + b == a;
    } else {
      assert (a + b)[..|a + b| - 1] == a + b[..|b| - 1];
      ApplyConcat(s, a, b[..|b| - 1]);
    }
  }

  lemma {:induction false} PackDepends(s: RegFile, t: RegFile, k: nat)
    requires k <= 16
    requires forall q | P0 < q < P0 + 16 :: s[q] == t[q]
    ensures PackPredicates(s, k) == PackPredicates(t, k)
  {
    if k > 0 { PackDepends(s, t, k - 1); }
  }

  /** Register files that agree everywhere but on P0 and CR0, which `Clean` derives,
      are cleaned to the same file. */
  lemma CleanAgrees(s: RegFile, t: RegFile, r: nat)
    requires r < FILE_SIZE
    requires r != CR0 ==> r == P0 || s[r] == t[r]
    requires r == CR0 ==> forall q | P0 < q < P0 + 16 :: s[q] == t[q]
    ensures Clean(s)[r] == Clean(t)[r]
  {
    if r == CR0 { PackDepends(s, t, 16); }
  }

  lemma TrimTwice(r: nat, w: Word)
    ensures Trim(r, Trim(r, w)) == Trim(r, w)
  {
    assert (w & 0xFFFF) & 0xFFFF == w & 0xFFFF;
    assert (w & 0x7F) & 0x7F == w & 0x7F;
  }

  lemma CleanAbsorbsAt(s: RegFile, nodes: seq<Node>, r: nat)
    requires r < FILE_SIZE && r != CR0
    ensures Clean(Apply(Clean(s), nodes))[r] == Clean(Apply(s, nodes))[r]
  {
    ApplyAt(s, nodes, r);
    ApplyAt(Clean(s), nodes, r);
    assert Clean(s)[r] == Trim(r, s[r]);
    TrimTwice(r, s[r]);
  }

  lemma CleanAbsorbsCr0(s: RegFile, nodes: seq<Node>)
    ensures Clean(Apply(Clean(s), nodes))[CR0] == Clean(Apply(s, nodes))[CR0]
  {
    hide PackPredicates, Apply;
    forall q | P0 < q < P0 + 16 ensures Apply(Clean(s), nodes)[q] == Apply(s, nodes)[q] {
      ApplyAt(s, nodes, q);
      ApplyAt(Clean(s), nodes, q);
    }
    CleanAgrees(Apply(Clean(s), nodes), Apply(s, nodes), CR0);
  }

  /** Cleaning between two batches of entries is not observable after the last clean-up. */
  lemma CleanAbsorbs(s: RegFile, nodes: seq<Node>)
    ensures Clean(Apply(Clean(s), nodes)) == Clean(Apply(s, nodes))
  {
    hide Clean, Apply;
    CleanAbsorbsCr0(s, nodes);
    forall r | 0 <= r < FILE_SIZE
      ensures Clean(Apply(Clean(s), nodes))[r] == Clean(Apply(s, nodes))[r]
    {
      if r != CR0 { CleanAbsorbsAt(s, nodes, r); }
    }
  }

  /** Two logs with the same last write to every register outside `except` leave the
      same values outside `except` once cleaned. */
  lemma SameLastWrites(s: RegFile, a: seq<Node>, b: seq<Node>, r: nat)
    requires r < FILE_SIZE
    requires r != CR0 ==> LastWrite(a, r) == LastWrite(b, r)
    requires r == CR0 ==> forall q | P0 < q < P0 + 16 :: LastWrite(a, q) == LastWrite(b, q)
    ensures Clean(Apply(s, a))[r] == Clean(Apply(s, b))[r]
  {
    ApplyAt(s, a, r);
    ApplyAt(s, b, r);
    if r == CR0 {
      forall q | P0 < q < P0 + 16 ensures Apply(s, a)[q] == Apply(s, b)[q] {
        ApplyAt(s, a, q);
        ApplyAt(s, b, q);
      }
    }
    CleanAgrees(Apply(s, a), Apply(s, b), r);
  }

  // ---- CR0, bit by bit ----

  lemma OrDown(a: Word, b: Word)
    ensures Down(Or(a, b)) == Or(Down(a), Down(b))
  {}

  lemma OrLow(a: Word, b: Word)
    ensures And(Or(a, b), 1) == Or(And(a, 1), And(b, 1))
  {}

  lemma Distribute(a: Word, b: Word, c: Word)
    ensures c & (a | b) == (c & a) | (c & b)
  {}

  lemma AndOr(a: Word, b: Word, c: Word)
    ensures And(c, Or(a, b)) == Or(And(c, a), And(c, b))
  {
    hide And, Or;
    Distribute(a, b, c);
    Unwrap(a, b);
    Unwrap(c, a);
    Unwrap(c, b);
    Unwrap(c, a | b);
    Unwrap(c & a, c & b);
  }

  lemma Unwrap(a: Word, b: Word)
    ensures And(a, b) == a & b && Or(a, b) == a | b
  {}

  lemma UpAnd(a: Word, b: Word)
    ensures Up(And(Down(a), b)) == And(a, Up(b))
  {}

  lemma NoBit(a: Word)
    ensures Or(a, 0) == a && Or(0, a) == a && And(a, 0) == 0 && And(Up(a), 1) == 0
  {}

  lemma Constants(x: Word)
    ensures Down(0) == 0 == Up(0) && And(0, 1) == 0 && Down(1) == 0 && And(1, 1) == 1
    ensures x <= 0x8000 ==> Down(Up(x)) == x
  {}

  lemma {:induction false} ShiftFirst(w: Word, i: nat)
    ensures ShiftRight(w, i + 1) == ShiftRight(Down(w), i)
  {
    hide Down;
    if i > 0 { ShiftFirst(w, i - 1); }
  }

  lemma {:induction false} ShiftOfOr(a: Word, b: Word, i: nat)
    ensures ShiftRight(Or(a, b), i) == Or(ShiftRight(a, i), ShiftRight(b, i))
  {
    hide Down, Or;
    if i > 0 {
      ShiftOfOr(a, b, i - 1);
      OrDown(ShiftRight(a, i - 1), ShiftRight(b, i - 1));
    }
  }

  lemma BitOfOr(a: Word, b: Word, i: nat)
    ensures Bit(Or(a, b), i) == Or(Bit(a, i), Bit(b, i))
  {
    hide ShiftRight, Or, And;
    ShiftOfOr(a, b, i);
    OrLow(ShiftRight(a, i), ShiftRight(b, i));
  }

  lemma {:induction false} ZeroShifts(i: nat)
    ensures ShiftRight(0, i) == 0 == ShiftLeft(0, i) && Bit(0, i) == 0
  {
    hide Up, Down, And;
    Constants(0);
    if i > 0 { ZeroShifts(i - 1); }
  }

  /** The powers of two up to bit 15. */
  lemma Powers()
    ensures ShiftLeft(1, 0) == 1 && ShiftLeft(1, 1) == 2 && ShiftLeft(1, 2) == 4 && ShiftLeft(1, 3) == 8
    ensures ShiftLeft(1, 4) == 16 && ShiftLeft(1, 5) == 32 && ShiftLeft(1, 6) == 64 && ShiftLeft(1, 7) == 128
    ensures ShiftLeft(1, 8) == 0x100 && ShiftLeft(1, 9) == 0x200 && ShiftLeft(1, 10) == 0x400
    ensures ShiftLeft(1, 11) == 0x800 && ShiftLeft(1, 12) == 0x1000 && ShiftLeft(1, 13) == 0x2000
    ensures ShiftLeft(1, 14) == 0x4000 && ShiftLeft(1, 15) == 0x8000
  {
    assert ShiftLeft(1, 2) == 4;
    assert ShiftLeft(1, 4) == 16;
    assert ShiftLeft(1, 6) == 64;
    assert ShiftLeft(1, 8) == 0x100;
    assert ShiftLeft(1, 10) == 0x400;
    assert ShiftLeft(1, 12) == 0x1000;
    assert ShiftLeft(1, 14) == 0x4000;
  }

  lemma PowerBound(n: nat)
    requires n < 16
    ensures ShiftLeft(1, n) <= 0x8000
  {
    hide ShiftLeft;
    Powers();
  }

  /** One bit, shifted into place. */
  lemma {:induction false} BitOfPower(n: nat, i: nat)
    requires n < 16
    ensures Bit(ShiftLeft(1, n), i) == if i == n then 1 else 0
  {
    hide Up, Down, And;
    Constants(1);
    if i > 0 {
      ShiftFirst(ShiftLeft(1, n), i - 1);
      if n > 0 {
        PowerBound(n - 1);
        Constants(ShiftLeft(1, n - 1));
        BitOfPower(n - 1, i - 1);
      } else {
        ZeroShifts(i - 1);
      }
    } else if n > 0 {
      NoBit(ShiftLeft(1, n - 1));
    }
  }

  lemma PlacedBit(b: Word, n: nat, i: nat)
    requires n < 16 && b <= 1
    ensures Bit(ShiftLeft(b, n), i) == if i == n then b else 0
  {
    hide ShiftLeft, Bit;
    ZeroShifts(n);
    ZeroShifts(i);
    BitOfPower(n, i);
    ZeroOrOne(b);
  }

  lemma ZeroOrOne(b: Word)
    requires b <= 1
    ensures b == 0 || b == 1
  {}

  /** P1..P15 are 0 or 1. */
  predicate PredicatesOk(s: RegFile) { forall r | P0 < r < P0 + 16 :: s[r] <= 1 }

  lemma {:induction false} PackedBit(s: RegFile, k: nat, i: nat)
    requires k <= 16 && PredicatesOk(s)
    ensures Bit(PackPredicates(s, k), i) == if i >= k then 0 else if i == 0 then 1 else s[P0 + i]
  {
    hide ShiftLeft, Bit, Or;
    if k == 0 {
      ZeroShifts(i);
    } else {
      var b: Word := if k == 1 then 1 else s[P0 + k - 1];
      PackedBit(s, k - 1, i);
      PlacedBit(b, k - 1, i);
      BitOfOr(PackPredicates(s, k - 1), ShiftLeft(b, k - 1), i);
      NoBit(Bit(PackPredicates(s, k - 1), i));
      NoBit(Bit(ShiftLeft(b, k - 1), i));
    }
  }

  /** CR0 after a clean-up: bit i is P[i], bit 0 is set, and there is nothing above bit 15. */
  lemma Cr0Bits(s: RegFile, i: nat)
    requires PredicatesOk(s)
    ensures Bit(Clean(s)[CR0], i) == if i >= 16 then 0 else if i == 0 then 1 else s[P0 + i]
    ensures 0 < i < 16 ==> Clean(s)[P0 + i] == s[P0 + i]
    ensures Clean(s)[P0] == 1
  {
    hide PackPredicates, Bit;
    PackedBit(s, 16, i);
    assert Clean(s)[CR0] == PackPredicates(s, 16);
  }

  /** Bit k of w, put back in place. */
  lemma {:induction false} BitInPlace(w: Word, k: nat)
    ensures ShiftLeft(Bit(w, k), k) == And(w, ShiftLeft(1, k))
    decreases k
  {
    hide Up, Down, And;
    if k > 0 {
      ShiftFirst(w, k - 1);
      BitInPlace(Down(w), k - 1);
      UpAnd(w, ShiftLeft(1, k - 1));
    }
  }

  /** The low k bits. */
  function LowMask(k: nat): Word { if k == 0 then 0 else Or(LowMask(k - 1), ShiftLeft(1, k - 1)) }

  lemma {:induction false} PackedWord(s: RegFile, w: Word, k: nat)
    requires k <= 16 && forall r | P0 < r < P0 + 16 :: s[r] == Bit(w, r - P0)
    ensures PackPredicates(s, k) == And(Or(w, 1), LowMask(k))
  {
    hide Bit, Or, And, Up;
    var v := Or(w, 1);
    if k == 0 {
      NoBit(v);
    } else {
      PackedWord(s, w, k - 1);
      AndOr(LowMask(k - 1), ShiftLeft(1, k - 1), v);
      BitInPlace(w, k - 1);
      if k > 1 { AboveFirst(w, ShiftLeft(1, k - 2)); } else { FirstBit(w); }
    }
  }

  lemma AboveFirst(w: Word, t: Word)
    ensures And(Or(w, 1), Up(t)) == And(w, Up(t))
  {}

  lemma FirstBit(w: Word)
    ensures And(Or(w, 1), 1) == 1
  {}

  lemma {:induction false} LowMaskIs()
    ensures LowMask(16) == 0xFFFF
  {
    hide ShiftLeft;
    Powers();
    assert LowMask(2) == 3;
    assert LowMask(4) == 0xF;
    assert LowMask(6) == 0x3F;
    assert LowMask(8) == 0xFF;
    assert LowMask(10) == 0x3FF;
    assert LowMask(12) == 0xFFF;
    assert LowMask(14) == 0x3FFF;
  }

  /** What a write of w makes of CR0. */
  function Cr0Word(w: Word): Word { (w & 0xFFFE) | 1 }

  lemma LowSixteen(w: Word)
    ensures And(Or(w, 1), 0xFFFF) == Cr0Word(w)
  {
    Sixteen(w);
  }

  lemma Sixteen(w: Word)
    ensures (w | 1) & 0xFFFF == (w & 0xFFFE) | 1
  {}

  /** A write of CR0, cleaned up: bits 1..15 go to P1..P15 and stay in CR0, and bit 0 reads 1. */
  lemma Cr0RoundTrip(s: RegFile, w: Word)
    ensures
      var t := Clean(Apply(s, [Node(TYP_CR, 0, w)]));
      && t[CR0] == Cr0Word(w) && t[P0] == 1
      && forall r | P0 < r < P0 + 16 :: t[r] == Bit(w, r - P0)
  {
    hide PackPredicates, Apply, Bit, Clean, Cr0Word;
    var u := Apply(s, [Node(TYP_CR, 0, w)]);
    forall r | P0 < r < P0 + 16 ensures u[r] == Bit(w, r - P0) { WrittenPredicate(s, w, r); }
    PackedPredicates(u, w);
  }

  lemma WrittenPredicate(s: RegFile, w: Word, r: nat)
    requires P0 < r < P0 + 16
    ensures Apply(s, [Node(TYP_CR, 0, w)])[r] == Bit(w, r - P0)
  {
    hide Apply, Bit;
    ApplyAt(s, [Node(TYP_CR, 0, w)], r);
  }

  lemma PackedPredicates(u: RegFile, w: Word)
    requires forall r | P0 < r < P0 + 16 :: u[r] == Bit(w, r - P0)
    ensures Clean(u)[CR0] == Cr0Word(w) && Clean(u)[P0] == 1
    ensures forall r | P0 < r < P0 + 16 :: Clean(u)[r] == u[r]
  {
    hide *;
    PackedWord(u, w, 16);
    LowMaskIs();
    LowSixteen(w);
    CleanPredicates(u);
  }

  lemma CleanPredicates(u: RegFile)
    ensures Clean(u)[CR0] == PackPredicates(u, 16) && Clean(u)[P0] == 1
    ensures forall r | P0 < r < P0 + 16 :: Clean(u)[r] == u[r]
  {
    hide PackPredicates;
  }

  /** The register RF[typ][addr], and the status bit PSR[bank][bit]. */
  function Rf(typ: nat, addr: nat): nat { 32 * typ + addr }

  function PsrBit(bank: nat, bit: nat): nat { 320 + 7 * bank + bit }

  /** The field widths: AMCR has 16 bits, CP has 7, LS_PSR has 5; nothing else but CR0 and P0
      is touched. */
  lemma NarrowRegisters(s: RegFile, r: nat)
    requires r < FILE_SIZE && r != CR0 && r != P0
    ensures r == Rf(8, 0) || r == Rf(8, 16) ==> Clean(s)[r] == s[r] % 0x1_0000
    ensures r == Rf(3, 0) || r == Rf(3, 1) || r == Rf(3, 16) || r == Rf(3, 17) ==> Clean(s)[r] == s[r] % 0x80
    ensures r == PsrBit(2, 5) || r == PsrBit(2, 6) || r == PsrBit(4, 5) || r == PsrBit(4, 6) ==> Clean(s)[r] == 0
    ensures r / 32 != 3 && r / 32 != 8 && r < 320 ==> Clean(s)[r] == s[r]
    ensures r / 32 == 3 && r % 16 >= 2 ==> Clean(s)[r] == s[r]
    ensures r / 32 == 8 && r % 16 >= 1 ==> Clean(s)[r] == s[r]
    ensures r >= 320 && (r - 320) % 7 < 5 ==> Clean(s)[r] == s[r]
    ensures r >= 320 && ((r - 320) / 7 % 2 == 1 || r < 327) ==> Clean(s)[r] == s[r]
  {
    Masks(s[r]);
  }

  lemma Masks(w: Word)
    ensures w & 0xFFFF == w % 0x1_0000 && w & 0x7F == w % 0x80
  {}
}
