/** Saturating additions and subtractions on 32-, 16- and 8-bit lanes, and bit-field insert
    and extract (sc-pac-ex1.cpp, pac-exec.cpp, pac-exec-def.h). Registers are 32-bit
    patterns; every wrap of the original arithmetic is written out. */
module Lanes {
  import opened Arithmetic

  type Word32 = w: nat | w < 0x1_0000_0000

  function Clamp(x: int, lo: int, hi: int): int { if x < lo then lo else if x > hi then hi else x }

  /** A bit pattern read as a signed number of 32, 16 or 8 bits. */
  function S32(x: int): int { var u := x % 0x1_0000_0000; if u < 0x8000_0000 then u else u - 0x1_0000_0000 }

  function S16(x: int): int { var u := x % 0x1_0000; if u < 0x8000 then u else u - 0x1_0000 }

  function S8(x: int): int { var u := x % 0x100; if u < 0x80 then u else u - 0x100 }

  function U32(x: int): Word32 { x % 0x1_0000_0000 }

  function Hi16(x: Word32): nat { x / 0x1_0000 }

  function Lo16(x: Word32): nat { x % 0x1_0000 }

  /** Byte k of a word, from the least significant. */
  function ByteOf(x: Word32, k: nat): nat
    requires k < 4
  {
    if k == 0 then x % 0x100 else if k == 1 then x / 0x100 % 0x100
    else if k == 2 then x / 0x1_0000 % 0x100 else x / 0x100_0000
  }

  // ---- 32 bits ----

  /** `detect_overflow`: the sign of the wrapped sum against the signs of the operands. */
  predicate DetectOverflow(sum: int, a: int, b: int) {
    (S32(a) >= 0 && S32(b) >= 0 && S32(sum) < 0) || (S32(a) < 0 && S32(b) < 0 && S32(sum) >= 0)
  }

  lemma SignedRange(x: int)
    ensures -0x8000_0000 <= S32(x) < 0x8000_0000
    ensures -0x8000_0000 <= x < 0x8000_0000 ==> S32(x) == x
    ensures 0x8000_0000 <= x < 0x1_0000_0000 ==> S32(x) == x - 0x1_0000_0000
    ensures -0x1_0000_0000 <= x < -0x8000_0000 ==> S32(x) == x + 0x1_0000_0000
  {}

  lemma Pattern(x: int)
    ensures S32(U32(x)) == S32(x)
  {}

  /** `adds`, register operands. */
  method Adds(a: Word32, b: Word32) returns (r: Word32)
    ensures S32(r) == Clamp(S32(a) + S32(b), -0x8000_0000, 0x7fff_ffff)
  {
    hide S32, U32;
    var s1, s2 := S32(a), S32(b);
    SignedRange(a);
    SignedRange(b);
    SignedRange(s1);
    SignedRange(s2);
    var sum := s1 + s2;
    SignedRange(sum);
    if DetectOverflow(sum, s1, s2) {
      if s1 < 0 {
        sum := -0x8000_0000;
      } else {
        sum := 0x7fff_ffff;
      }
      SignedRange(sum);
    }
    r := U32(sum);
    Pattern(sum);
  }

  /** `addcs`: with the carry of the status word. */
  method Addcs(a: Word32, b: Word32, carry: nat) returns (r: Word32)
    requires carry <= 1
    ensures S32(r) == Clamp(S32(a) + S32(b) + carry, -0x8000_0000, 0x7fff_ffff)
  {
    hide S32, U32;
    var s1, s2 := S32(a), S32(b);
    SignedRange(a);
    SignedRange(b);
    SignedRange(s1);
    SignedRange(s2);
    var sum := s1 + s2 + carry;
    SignedRange(sum);
    var overflow := DetectOverflow(sum, s1, s2);
    if carry == 1 && ((s1 == 0x7fff_ffff && S32(s2) > -1) || (s2 == 0x7fff_ffff && S32(s1) > -1)) {
      overflow := true;
    }
    if overflow {
      if S32(sum) < 0 {
        sum := 0x7fff_ffff;
      } else {
        sum := -0x8000_0000;
      }
      SignedRange(sum);
    }
    r := U32(sum);
    Pattern(sum);
  }

  /** `detect_overflow_sub`, which asks for strictly signed operands. */
  predicate DetectOverflowSub(diff: int, a: int, b: int) {
    (S32(a) > 0 && S32(b) < 0 && S32(diff) < 0) || (S32(a) < 0 && S32(b) > 0 && S32(diff) >= 0)
  }

  /** `subs`, register operands: saturating but for 0 - (-2^31). The test meant for that
      subtrahend compares the sign-extended operand with the 32-bit pattern. */
  method Subs(a: Word32, b: Word32) returns (r: Word32)
    ensures S32(r) == Clamp(S32(a) - S32(b), -0x8000_0000, 0x7fff_ffff) <==> !(a == 0 && b == 0x8000_0000)
    ensures a == 0 && b == 0x8000_0000 ==> S32(r) == -0x8000_0000
  {
    ZeroOrMin(a);
    ZeroOrMin(b);
    hide S32, U32;
    var s1, s2 := S32(a), S32(b);
    SignedRange(a);
    SignedRange(b);
    SignedRange(s1);
    SignedRange(s2);
    var diff := s1 - s2;
    SignedRange(diff);
    var overflow := (if s2 < 0 then s2 + 0x1_0000_0000_0000_0000 else s2) == 0x8000_0000 && s1 >= 0;
    if overflow || DetectOverflowSub(diff, s1, s2) {
      if s1 < 0 {
        diff := -0x8000_0000;
      } else {
        diff := 0x7fff_ffff;
      }
      SignedRange(diff);
    }
    r := U32(diff);
    Pattern(diff);
  }

  lemma ZeroOrMin(x: Word32)
    ensures (x == 0) == (S32(x) == 0) && (x == 0x8000_0000) == (S32(x) == -0x8000_0000)
  {}

  // ---- 16 bits ----

  /** The two result lanes in one word. */
  function Pack16(hi: int, lo: int): (r: Word32)
    ensures Hi16(r) == hi % 0x1_0000 && Lo16(r) == lo % 0x1_0000
  {
    (hi % 0x1_0000) * 0x1_0000 + lo % 0x1_0000
  }

  lemma Range16(x: int)
    ensures -0x8000 <= S16(x) < 0x8000 && S16(x % 0x1_0000) == S16(x)
    ensures -0x8000 <= x < 0x8000 ==> S16(x) == x
    ensures 0x8000 <= x < 0x1_8000 ==> S16(x) == x - 0x1_0000
    ensures 0 <= x < 0x1_0000 ==> S16(x) == x || S16(x) == x - 0x1_0000
    ensures 0x1_8000 <= x < 0x2_0000 ==> S16(x) == x - 0x2_0000
  {}

  method SaturateSum16(s: int) returns (r: int)
    ensures S16(r) == Clamp(s, -0x8000, 0x7fff)
  {
    r := s;
    if s > 0x7fff {
      r := 0x7fff;
    } else if s < -0x8000 {
      r := 0x8000;
    }
    Range16(r);
  }

  /** `addds`: two signed lanes. */
  method Addds(a: Word32, b: Word32) returns (r: Word32)
    ensures S16(Hi16(r)) == Clamp(S16(Hi16(a)) + S16(Hi16(b)), -0x8000, 0x7fff)
    ensures S16(Lo16(r)) == Clamp(S16(Lo16(a)) + S16(Lo16(b)), -0x8000, 0x7fff)
  {
    hide S16;
    var d1 := SaturateSum16(S16(Hi16(a)) + S16(Hi16(b)));
    var d2 := SaturateSum16(S16(Lo16(a)) + S16(Lo16(b)));
    Range16(d1);
    Range16(d2);
    r := Pack16(d1, d2);
  }

  /** One lane of `subds`: the difference in 17 bits, overflow from the wrapped sign bits
      and the two special tests, then saturation by the sign of the wrapped difference. */
  method SubtractLane16(x: nat, y: nat) returns (d: int)
    requires x < 0x1_0000 && y < 0x1_0000
    ensures S16(d) == Clamp(S16(x) - S16(y), -0x8000, 0x7fff)
  {
    hide S16;
    Range16(x);
    Range16(y);
    d := x + (0xffff - y) + 1;
    Range16(d);
    DifferenceSign(x, y);
    var overflow := y == 0x8000 && x / 0x8000 == 0;
    overflow := overflow || (S16(x) > 0 && S16(y) < 0 && S16(d) < 0) || (S16(x) < 0 && S16(y) > 0 && S16(d) >= 0);
    if overflow {
      if S16(d) > 0 {
        d := 0x8000;
      } else {
        d := 0x7fff;
      }
      Range16(d);
    }
  }

  lemma DifferenceSign(x: nat, y: nat)
    requires x < 0x1_0000 && y < 0x1_0000
    ensures S16(x + (0xffff - y) + 1) == S16(S16(x) - S16(y))
    ensures (x / 0x8000 == 0) == (S16(x) >= 0) && (y == 0x8000) == (S16(y) == -0x8000)
    ensures
      var e := S16(x) - S16(y);
      S16(e) == if e < -0x8000 then e + 0x1_0000 else if e > 0x7fff then e - 0x1_0000 else e
  {}

  /** `subds`: two signed lanes. */
  method Subds(a: Word32, b: Word32) returns (r: Word32)
    ensures S16(Hi16(r)) == Clamp(S16(Hi16(a)) - S16(Hi16(b)), -0x8000, 0x7fff)
    ensures S16(Lo16(r)) == Clamp(S16(Lo16(a)) - S16(Lo16(b)), -0x8000, 0x7fff)
  {
    hide S16;
    var d1 := SubtractLane16(Hi16(a), Hi16(b));
    var d2 := SubtractLane16(Lo16(a), Lo16(b));
    Range16(d1);
    Range16(d2);
    r := Pack16(d1, d2);
  }

  /** `subuds`: two unsigned lanes; a missing carry out of a lane means a borrow. */
  method Subuds(a: Word32, b: Word32) returns (r: Word32)
    ensures Hi16(r) == Clamp(Hi16(a) - Hi16(b), 0, 0xffff)
    ensures Lo16(r) == Clamp(Lo16(a) - Lo16(b), 0, 0xffff)
  {
    var d1 := Hi16(a) + (0xffff - Hi16(b)) + 1;
    var d2 := Lo16(a) + (0xffff - Lo16(b)) + 1;
    if d1 < 0x1_0000 && Hi16(b) != 0 {
      d1 := 0;
    }
    if d2 < 0x1_0000 && Lo16(b) != 0 {
      d2 := 0;
    }
    r := Pack16(d1, d2);
  }

  // ---- 8 bits ----

  /** Four bytes in one word. */
  function Pack8(b3: int, b2: int, b1: int, b0: int): (r: Word32)
    ensures ByteOf(r, 3) == b3 % 0x100 && ByteOf(r, 2) == b2 % 0x100 && ByteOf(r, 1) == b1 % 0x100
        && ByteOf(r, 0) == b0 % 0x100
  {
    Unpack8(b3 % 0x100, b2 % 0x100, b1 % 0x100, b0 % 0x100);
    (b3 % 0x100) * 0x100_0000 + (b2 % 0x100) * 0x1_0000 + (b1 % 0x100) * 0x100 + b0 % 0x100
  }

  lemma Unpack8(x3: nat, x2: nat, x1: nat, x0: nat)
    requires x3 < 0x100 && x2 < 0x100 && x1 < 0x100 && x0 < 0x100
    ensures
      var w := x3 * 0x100_0000 + x2 * 0x1_0000 + x1 * 0x100 + x0;
      && w < 0x1_0000_0000 && w / 0x100_0000 == x3 && w / 0x1_0000 % 0x100 == x2 && w / 0x100 % 0x100 == x1
          && w % 0x100 == x0
  {
    var w := x3 * 0x100_0000 + x2 * 0x1_0000 + x1 * 0x100 + x0;
    DivModIs(w, 0x100_0000, x3, x2 * 0x1_0000 + x1 * 0x100 + x0);
    DivModIs(w, 0x1_0000, x3 * 0x100 + x2, x1 * 0x100 + x0);
    DivModIs(w, 0x100, x3 * 0x1_0000 + x2 * 0x100 + x1, x0);
    DivModIs(x3 * 0x100 + x2, 0x100, x3, x2);
    DivModIs(x3 * 0x1_0000 + x2 * 0x100 + x1, 0x100, x3 * 0x100 + x2, x1);
  }

  lemma Range8(x: int)
    ensures S8(x % 0x100) == S8(x)
    ensures -0x80 <= x < 0x80 ==> S8(x) == x
    ensures x == 0x80 ==> S8(x) == -0x80
  {}

  method SaturateSum8(s: int) returns (r: int)
    ensures S8(r) == Clamp(s, -0x80, 0x7f)
  {
    if s > 0x7f {
      r := 0x7f;
    } else if s < -0x80 {
      r := 0x80;
    } else {
      r := s % 0x100;
    }
    Range8(s);
    Range8(r);
  }

  /** `addqs`: four signed lanes. */
  method Addqs(a: Word32, b: Word32) returns (r: Word32)
    ensures forall k | 0 <= k < 4 :: S8(ByteOf(r, k)) == Clamp(S8(ByteOf(a, k)) + S8(ByteOf(b, k)), -0x80, 0x7f)
  {
    hide S8, ByteOf;
    var d3 := SaturateSum8(S8(ByteOf(a, 3)) + S8(ByteOf(b, 3)));
    var d2 := SaturateSum8(S8(ByteOf(a, 2)) + S8(ByteOf(b, 2)));
    var d1 := SaturateSum8(S8(ByteOf(a, 1)) + S8(ByteOf(b, 1)));
    var d0 := SaturateSum8(S8(ByteOf(a, 0)) + S8(ByteOf(b, 0)));
    Range8(d3);
    Range8(d2);
    Range8(d1);
    Range8(d0);
    r := Pack8(d3, d2, d1, d0);
  }

  method SubtractLane8(x: nat, y: nat) returns (d: int)
    requires x < 0x100 && y < 0x100
    ensures d % 0x100 == Clamp(x - y, 0, 0xff)
  {
    d := x + (0xff - y) + 1;
    if d < 0x100 && y != 0 {
      d := 0;
    }
  }

  lemma ByteRange(x: Word32, k: nat)
    requires k < 4
    ensures ByteOf(x, k) < 0x100
  {}

  /** `subuqs`: four unsigned lanes. */
  method Subuqs(a: Word32, b: Word32) returns (r: Word32)
    ensures forall k | 0 <= k < 4 :: ByteOf(r, k) == Clamp(ByteOf(a, k) - ByteOf(b, k), 0, 0xff)
  {
    hide ByteOf;
    forall x: Word32, k: nat | k < 4 ensures ByteOf(x, k) < 0x100 { ByteRange(x, k); }
    var d3 := SubtractLane8(ByteOf(a, 3), ByteOf(b, 3));
    var d2 := SubtractLane8(ByteOf(a, 2), ByteOf(b, 2));
    var d1 := SubtractLane8(ByteOf(a, 1), ByteOf(b, 1));
    var d0 := SubtractLane8(ByteOf(a, 0), ByteOf(b, 0));
    r := Pack8(d3, d2, d1, d0);
  }

  // ---- bit fields ----

  /** A 64-bit pattern, bit k at index k. */
  type Bits = s: seq<bool> | |s| == 64 witness seq(64, _ => false)

  function Shl(x: Bits, n: nat): Bits { seq(64, k requires 0 <= k < 64 => k >= n && x[k - n]) }

  function Shr(x: Bits, n: nat): Bits { seq(64, k requires 0 <= k < 64 => k + n < 64 && x[k + n]) }

  /** The arithmetic shift of the mask macros. */
  function Sar(x: Bits, n: nat): Bits { seq(64, k requires 0 <= k < 64 => if k + n < 64 then x[k + n] else x[63]) }

  function Not(x: Bits): Bits { seq(64, k requires 0 <= k < 64 => !x[k]) }

  function Xor(x: Bits, y: Bits): Bits { seq(64, k requires 0 <= k < 64 => x[k] != y[k]) }

  function And(x: Bits, y: Bits): Bits { seq(64, k requires 0 <= k < 64 => x[k] && y[k]) }

  function Or(x: Bits, y: Bits): Bits { seq(64, k requires 0 <= k < 64 => x[k] || y[k]) }

  /** 0x8000000000000000. */
  function TopBit(): Bits { seq(64, k => k == 63) }

  function UpperMask(v: nat): Bits
    requires 1 <= v <= 64
  {
    Sar(TopBit(), v - 1)
  }

  function LowerMask(v: nat): Bits
    requires v <= 63
  {
    Not(Sar(TopBit(), 63 - v))
  }

  /** `MASK_GEN64`. */
  function MaskGen(upper: nat, lower: nat): Bits
    requires 1 <= upper <= 64 && lower <= 63
  {
    Not(Xor(UpperMask(upper), LowerMask(lower)))
  }

  /** The mask covers exactly the bits between its bounds. */
  lemma MaskIs(upper: nat, lower: nat, k: nat)
    requires 1 <= upper <= 64 && lower <= 64 - upper && lower <= 63 && k < 64
    ensures MaskGen(upper, lower)[k] <==> lower <= k < 64 - upper
  {}

  /** `insert`: the low `width` bits of src at `offset` of dst. */
  function Insert(src: Bits, dst: Bits, width: nat, offset: nat): Bits
    requires 1 <= width && offset + width <= 63
  {
    Or(And(dst, Not(MaskGen(63 - (width + offset - 1), offset))), Shl(And(src, MaskGen(63 - (width - 1), 0)), offset))
  }

  /** `extractu`. */
  function Extractu(x: Bits, width: nat, offset: nat): Bits
    requires offset + width <= 64
  {
    if width == 0 then seq(64, _ => false) else Shr(Shl(x, 64 - offset - width), 64 - width)
  }

  /** A register narrower than an accumulator is read as its low 32 bits. */
  function Low32(x: Bits): Bits { seq(64, k requires 0 <= k < 64 => k < 32 && x[k]) }

  lemma InsertIs(src: Bits, dst: Bits, width: nat, offset: nat, k: nat)
    requires 1 <= width && offset + width <= 63 && k < 64
    ensures Insert(src, dst, width, offset)[k] == if offset <= k < offset + width then src[k - offset] else dst[k]
  {
    hide MaskGen;
    MaskIs(63 - (width + offset - 1), offset, k);
    if k >= offset { MaskIs(63 - (width - 1), 0, k - offset); }
  }

  /** Insert then extract returns the low bits of the source, and insert leaves every bit
      outside the field alone. */
  lemma InsertThenExtract(src: Bits, dst: Bits, width: nat, offset: nat)
    requires 1 <= width && offset + width <= 32
    ensures forall k | 0 <= k < 64 ::
              Extractu(Low32(Insert(src, dst, width, offset)), width, offset)[k] == (k < width && src[k])
    ensures forall k | 0 <= k < 64 && !(offset <= k < offset + width) :: Insert(src, dst, width, offset)[k] == dst[k]
  {
    hide Insert;
    forall k: nat | k < 64
      ensures Insert(src, dst, width, offset)[k] == if offset <= k < offset + width then src[k - offset] else dst[k]
    {
      InsertIs(src, dst, width, offset, k);
    }
  }

  /** Extracting a field and inserting it back changes nothing. */
  lemma ExtractThenInsert(x: Bits, width: nat, offset: nat)
    requires 1 <= width && offset + width <= 32
    ensures Insert(Extractu(Low32(x), width, offset), x, width, offset) == x
  {
    hide Insert;
    forall k: nat | k < 64 ensures Insert(Extractu(Low32(x), width, offset), x, width, offset)[k] == x[k] {
      InsertIs(Extractu(Low32(x), width, offset), x, width, offset, k);
    }
  }
}
