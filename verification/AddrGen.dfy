/** Load/store address generation (pac-exec.cpp): the post-increment address registers in
    bit-reversed and in circular mode. */
module AddrGen {
  import opened Arithmetic

  const HALF: nat := 0x1_0000

  const WORD: nat := 0x1_0000_0000

  function Pow2(k: nat): (p: nat)
    ensures p > 0
  {
    if k == 0 then 1 else 2 * Pow2(k - 1)
  }

  // ---- bit reversal ----

  /** The low k bits of x in reverse order. */
  function Rev(k: nat, x: nat): nat {
    if k == 0 then 0 else (if x % 2 == 1 then Pow2(k - 1) else 0) + Rev(k - 1, x / 2)
  }

  lemma Unfold(k: nat, x: nat)
    requires k > 0
    ensures Rev(k, x) == (if x % 2 == 1 then Pow2(k - 1) else 0) + Rev(k - 1, x / 2)
    ensures Pow2(k) == 2 * Pow2(k - 1)
  {}

  lemma {:induction false} RevBound(k: nat, x: nat)
    ensures Rev(k, x) < Pow2(k)
  {
    if k > 0 { RevBound(k - 1, x / 2); }
  }

  /** Bit k of x is the lowest of its k + 1 bits reversed. */
  lemma {:induction false} RevTop(k: nat, x: nat)
    ensures Rev(k + 1, x) == 2 * Rev(k, x) + (x / Pow2(k)) % 2
  {
    hide Rev, Pow2;
    Unfold(k + 1, x);
    if k > 0 {
      Unfold(k, x);
      RevTop(k - 1, x / 2);
      DivTwice(x, 2, Pow2(k - 1));
    } else {
      RevNone(x);
      RevNone(x / 2);
    }
  }

  lemma RevNone(x: nat)
    ensures Rev(0, x) == 0 && Pow2(0) == 1
  {}

  /** z is x plus j-bit-aligned y: its lowest bit and the rest. */
  lemma Halve(x: nat, y: nat, j: nat)
    requires j > 0
    ensures y * Pow2(j) >= 0 && y * Pow2(j - 1) >= 0
    ensures (x + y * Pow2(j)) % 2 == x % 2 && (x + y * Pow2(j)) / 2 == x / 2 + y * Pow2(j - 1)
  {
    hide Pow2;
    Unfold(j, 0);
    NotNegative(y, Pow2(j));
    NotNegative(y, Pow2(j - 1));
    Associate(y, Pow2(j - 1), 2);
    assert y * Pow2(j) == 2 * (y * Pow2(j - 1));
  }

  /** Reversing j + k bits reverses the two fields and swaps them. */
  lemma {:induction false} RevSplit(j: nat, k: nat, x: nat, y: nat)
    requires x < Pow2(j)
    ensures y * Pow2(j) >= 0
    ensures Rev(j + k, x + y * Pow2(j)) == Rev(k, y) + Rev(j, x) * Pow2(k)
  {
    hide Rev, Pow2;
    if j > 0 {
      Halve(x, y, j);
      Unfold(j, x);
      Unfold(j + k, x + y * Pow2(j));
      RevSplit(j - 1, k, x / 2, y);
      PowSum(j - 1, k);
      Distribute(Pow2(j - 1), Rev(j - 1, x / 2), Pow2(k));
    } else {
      RevNone(x);
    }
  }

  lemma {:induction false} PowSum(j: nat, k: nat)
    ensures Pow2(j + k) == Pow2(j) * Pow2(k)
  {
    if j > 0 {
      PowSum(j - 1, k);
      Associate(2, Pow2(j - 1), Pow2(k));
    }
  }

  /** Only the low j bits matter. */
  lemma {:induction false} RevLow(j: nat, x: nat, y: nat)
    ensures y * Pow2(j) >= 0
    ensures Rev(j, x + y * Pow2(j)) == Rev(j, x)
  {
    hide Rev, Pow2;
    NotNegative(y, Pow2(j));
    if j > 0 {
      Halve(x, y, j);
      Unfold(j, x);
      Unfold(j, x + y * Pow2(j));
      RevLow(j - 1, x / 2, y);
    } else {
      RevNone(x);
      RevNone(x + y * Pow2(j));
    }
  }

  lemma RevMod(j: nat, x: nat)
    ensures Rev(j, x % Pow2(j)) == Rev(j, x)
  {
    hide Rev, Pow2;
    DivModFact(x, Pow2(j));
    RevLow(j, x % Pow2(j), x / Pow2(j));
  }

  /** Reversal undoes itself. */
  lemma {:induction false} RevTwice(k: nat, x: nat)
    requires x < Pow2(k)
    ensures Rev(k, Rev(k, x)) == x
  {
    hide Rev, Pow2;
    if k > 0 {
      Unfold(k, x);
      RevTwice(k - 1, x / 2);
      RevBound(k - 1, x / 2);
      RevSplit(k - 1, 1, Rev(k - 1, x / 2), x % 2);
      RevOne(x % 2);
    } else {
      RevNone(x);
      RevNone(0);
    }
  }

  lemma RevOne(b: nat)
    requires b < 2
    ensures Rev(1, b) == b && Pow2(1) == 2
  {
    RevNone(b / 2);
  }

  /** `bit_reverse`: bit i goes to bit 31 - i, then everything moves down. */
  method BitReverse(data: nat, width: nat) returns (u: nat)
    requires 0 < width <= 32
    ensures u == Rev(width, data)
  {
    hide Rev, Pow2;
    u := 0;
    var d := data;
    RevNone(data);
    for i := 0 to width
      invariant d == data / Pow2(i)
      invariant u == Rev(i, data) * Pow2(32 - i)
    {
      RevTop(i, data);
      Place(Rev(i, data), d % 2, 31 - i);
      Unfold(i + 1, 0);
      DivTwice(data, Pow2(i), 2);
      if d % 2 == 1 {
        u := u + Pow2(31 - i);
      }
      d := d / 2;
    }
    DivModIs(u, Pow2(32 - width), Rev(width, data), 0);
    u := u / Pow2(32 - width);
  }

  lemma Place(r: nat, b: nat, k: nat)
    requires b < 2
    ensures (2 * r + b) * Pow2(k) == r * Pow2(k + 1) + if b == 1 then Pow2(k) else 0
  {
    hide Pow2;
    Unfold(k + 1, 0);
    Associate(r, 2, Pow2(k));
    Distribute(2 * r, b, Pow2(k));
  }

  // ---- bit-reversed addressing ----

  /** The register after one access: the high half is kept, the low halves of register and
      step are added in reversed order. */
  function NextReversed(addr: nat, step: nat): nat {
    addr / HALF * HALF + Rev(16, Rev(16, addr) + Rev(16, step))
  }

  function ReversedAddr(a0: nat, step: nat, i: nat): nat {
    if i == 0 then a0 else NextReversed(ReversedAddr(a0, step, i - 1), step)
  }

  lemma HalfIsPow()
    ensures Pow2(16) == HALF
  {
    assert Pow2(4) == 16;
    PowSum(4, 4);
    PowSum(8, 8);
  }

  lemma RevHalf(x: nat)
    ensures Rev(16, x) < HALF && Rev(16, x % HALF) == Rev(16, x)
    ensures x < HALF ==> Rev(16, Rev(16, x)) == x
  {
    hide Rev, Pow2;
    HalfIsPow();
    RevBound(16, x);
    RevMod(16, x);
    if x < HALF { RevTwice(16, x); }
  }

  /** One access, seen in reversed order: an addition modulo 2^16. */
  lemma NextReversedIs(addr: nat, step: nat)
    ensures
      var s := (Rev(16, addr) + Rev(16, step)) % HALF;
      && NextReversed(addr, step) == addr / HALF * HALF + Rev(16, s)
      && NextReversed(addr, step) / HALF == addr / HALF
      && Rev(16, NextReversed(addr, step)) == s
  {
    hide Rev, Pow2;
    var s := Rev(16, addr) + Rev(16, step);
    RevHalf(s);
    RevHalf(s % HALF);
    RevHalf(addr / HALF * HALF + Rev(16, s));
  }

  /** The reversed low half after i accesses. */
  function Counted(a0: nat, step: nat, i: nat): int { (Rev(16, a0) + i * Rev(16, step)) % HALF }

  lemma CountedMore(a0: nat, step: nat, i: nat)
    requires i > 0
    ensures (Counted(a0, step, i - 1) + Rev(16, step)) % HALF == Counted(a0, step, i)
  {
    hide Rev;
    OneMore(Rev(16, a0), i, Rev(16, step), HALF);
  }

  lemma CountedNone(a0: nat, step: nat)
    ensures Counted(a0, step, 0) == Rev(16, a0) && a0 / HALF * HALF + Rev(16, Counted(a0, step, 0)) == a0
  {
    hide Rev, Pow2;
    RevHalf(a0);
    RevHalf(a0 % HALF);
  }

  /** The i-th address: counting in reversed order, in the low half. */
  lemma {:induction false} ReversedAddrIs(a0: nat, step: nat, i: nat)
    ensures i * Rev(16, step) >= 0 && Counted(a0, step, i) >= 0
    ensures ReversedAddr(a0, step, i) == a0 / HALF * HALF + Rev(16, Counted(a0, step, i))
    ensures Rev(16, ReversedAddr(a0, step, i)) == Counted(a0, step, i)
    ensures ReversedAddr(a0, step, i) / HALF == a0 / HALF
  {
    hide Rev, Pow2, NextReversed, Counted;
    NotNegative(i, Rev(16, step));
    if i == 0 {
      CountedNone(a0, step);
    } else {
      ReversedAddrIs(a0, step, i - 1);
      NextReversedIs(ReversedAddr(a0, step, i - 1), step);
      CountedMore(a0, step, i);
    }
  }

  /** A step of half the block walks an aligned block of 2^k addresses in bit-reversed
      order: address i is the start plus the reversal of i. */
  lemma ReversedBlock(a0: nat, k: nat, i: nat)
    requires 1 <= k <= 16 && i < Pow2(k) && a0 % Pow2(k) == 0
    ensures ReversedAddr(a0, Pow2(k - 1), i) == a0 + Rev(k, i)
  {
    hide Rev, Pow2, ReversedAddr;
    HalfIsPow();
    PowSum(16 - k, k);
    AlignedLow(a0, Pow2(k), Pow2(16 - k));
    var y := (a0 % HALF) / Pow2(k);
    AlignedReversed(a0, k, y);
    StepReversed(k);
    ReversedAddrIs(a0, Pow2(k - 1), i);
    BlockLow(k, y, i);
  }

  lemma BlockLow(k: nat, y: nat, i: nat)
    requires k <= 16 && i < Pow2(k) && y < Pow2(16 - k)
    ensures i * Pow2(16 - k) >= 0
    ensures Rev(16, (Rev(16 - k, y) + i * Pow2(16 - k)) % HALF) == Rev(k, i) + y * Pow2(k)
  {
    hide Rev, Pow2;
    NotNegative(i, Pow2(16 - k));
    BlockInHalf(k, y, i);
    BlockReversed(k, y, i);
    SmallRemainder(Rev(16 - k, y) + i * Pow2(16 - k), HALF);
  }

  lemma BlockInHalf(k: nat, y: nat, i: nat)
    requires k <= 16 && i < Pow2(k)
    ensures Rev(16 - k, y) + i * Pow2(16 - k) < HALF
  {
    hide Rev, Pow2;
    HalfIsPow();
    PowSum(k, 16 - k);
    RevBound(16 - k, y);
    Below(i, Pow2(k), Rev(16 - k, y), Pow2(16 - k));
  }

  lemma BlockReversed(k: nat, y: nat, i: nat)
    requires k <= 16 && y < Pow2(16 - k) && i * Pow2(16 - k) >= 0
    ensures Rev(16, Rev(16 - k, y) + i * Pow2(16 - k)) == Rev(k, i) + y * Pow2(k)
  {
    hide Rev, Pow2;
    RevBound(16 - k, y);
    RevSplit(16 - k, k, Rev(16 - k, y), i);
    RevTwice(16 - k, y);
  }

  lemma SmallRemainder(v: nat, n: nat)
    requires v < n
    ensures v % n == v
  {}

  /** Reversing an aligned start leaves the field above the block, reversed. */
  lemma AlignedReversed(a0: nat, k: nat, y: nat)
    requires k <= 16 && a0 % HALF == y * Pow2(k)
    ensures Rev(16, a0) == Rev(16 - k, y)
  {
    hide Rev, Pow2;
    RevHalf(a0);
    RevZero(k);
    RevSplit(k, 16 - k, 0, y);
  }

  lemma {:induction false} RevZero(k: nat)
    ensures Rev(k, 0) == 0
  {
    if k > 0 { RevZero(k - 1); }
  }

  lemma AlignedLow(a0: nat, p: nat, n: nat)
    requires p > 0 && n > 0 && a0 % p == 0 && HALF == n * p
    ensures a0 % HALF == (a0 % HALF) / p * p && (a0 % HALF) / p < n
  {
    var q := a0 / p;
    DivModFact(a0, p);
    DivModFact(q, n);
    var m := q % n;
    Distribute(q / n * n, m, p);
    Associate(q / n, n, p);
    MulOrder(m, n, p);
    NotNegative(m, p);
    DivModIs(a0, HALF, q / n, m * p);
    DivModIs(m * p, p, m, 0);
  }

  lemma StepReversed(k: nat)
    requires 1 <= k <= 16
    ensures Rev(16, Pow2(k - 1)) == Pow2(16 - k)
  {
    hide Rev, Pow2;
    RevZero(k - 1);
    RevSplit(k - 1, 17 - k, 0, 1);
    Unfold(17 - k, 1);
    RevZero(16 - k);
  }

  lemma Below(i: nat, n: nat, r: nat, p: nat)
    requires i < n && r < p
    ensures r + i * p < n * p
  {
    MulOrder(i, n, p);
  }

  /** Address i of the walk over a block of 2^k. */
  function BlockAddr(a0: nat, k: nat, i: nat): nat
    requires k > 0
  {
    ReversedAddr(a0, Pow2(k - 1), i)
  }

  /** The block is visited within bounds, without repetition, and completely. */
  lemma ReversedBlockIsPermutation(a0: nat, k: nat)
    requires 1 <= k <= 16 && a0 % Pow2(k) == 0
    ensures forall i: nat | i < Pow2(k) :: a0 <= BlockAddr(a0, k, i) < a0 + Pow2(k)
    ensures forall i: nat, j: nat | i < Pow2(k) && j < Pow2(k) && BlockAddr(a0, k, i) == BlockAddr(a0, k, j) :: i == j
    ensures forall b: nat | b < Pow2(k) :: Rev(k, b) < Pow2(k) && BlockAddr(a0, k, Rev(k, b)) == a0 + b
  {
    hide Rev, Pow2, ReversedAddr;
    forall i: nat | i < Pow2(k)
      ensures BlockAddr(a0, k, i) == a0 + Rev(k, i) && Rev(k, Rev(k, i)) == i && Rev(k, i) < Pow2(k)
    {
      ReversedBlock(a0, k, i);
      RevTwice(k, i);
      RevBound(k, i);
    }
    forall i: nat, j: nat | i < Pow2(k) && j < Pow2(k) && BlockAddr(a0, k, i) == BlockAddr(a0, k, j)
      ensures i == j
    {
      ReversedBlock(a0, k, i);
      ReversedBlock(a0, k, j);
      RevTwice(k, i);
      RevTwice(k, j);
    }
  }

  // ---- circular addressing ----

  const HIGH: nat := 0xFFFF_0000

  /** A register or immediate read as `short`. */
  function Short(x: nat): int { if x % HALF < 0x8000 then x % HALF else x % HALF - HALF }

  /** The register after one access: base, end and offset are sign-extended halves, and all
      arithmetic is in 32 bits. */
  function NextCircular(addr: nat, b: nat, e: nat, o: nat): nat {
    var base, end, offset := Short(b) % WORD, Short(e) % WORD, Short(o) % WORD;
    addr / HALF * HALF + Wrapped((addr + offset) % WORD, base, end, Short(offset) > 0) % HALF
  }

  /** The bounds test and the wrap. */
  function Wrapped(tmp: nat, base: nat, end: nat, up: bool): nat {
    if up then (if tmp > (end - 1) % HALF then (tmp - end + base) % WORD else tmp)
    else if tmp < base % HALF || tmp >= WORD / 2 then (tmp - base + end) % WORD else tmp
  }

  lemma ShortFacts(x: nat)
    ensures Short(x) % WORD == x % HALF + if Short(x) < 0 then HIGH else 0
    ensures Short(x) % WORD % HALF == x % HALF && Short(Short(x) % WORD) == Short(x)
    ensures -0x8000 <= Short(x) < 0x8000
  {}

  /** The low half survives reduction to 32 bits and sign extension. */
  lemma LowWrap(x: int, y: int)
    requires x == y || x == y + HIGH || x == y - HIGH
    ensures x % WORD % HALF == y % HALF
  {}

  lemma EndMinusOne(end: nat)
    requires 0 < end % HALF
    ensures (end - 1) % HALF == end % HALF - 1
  {}

  lemma Sum(addr: nat, s: int)
    requires addr < HALF && -0x8000 <= s < 0x8000
    ensures (addr + s % WORD) % WORD == if addr + s < 0 then addr + s + WORD else addr + s
  {}

  lemma WrappedUp(t: nat, base: nat, end: nat)
    requires base < WORD && end < WORD && 0 < end % HALF && t < 2 * HALF
    requires (base < HALF || base >= HIGH) && (end < HALF || end >= HIGH)
    ensures Wrapped(t, base, end, true) % HALF ==
      if t < end % HALF then t else (t - end % HALF + base % HALF) % HALF
  {
    EndMinusOne(end);
    HalfOf(base);
    HalfOf(end);
    LowWrap(t - end + base, t - end % HALF + base % HALF);
  }

  lemma HalfOf(x: nat)
    requires x < HALF || HIGH <= x < WORD
    ensures x % HALF == if x < HALF then x else x - HIGH
  {}

  lemma WrappedDown(t: int, base: nat, end: nat)
    requires base < WORD && end < WORD && -0x8000 <= t < HALF
    requires (base < HALF || base >= HIGH) && (end < HALF || end >= HIGH)
    ensures Wrapped(if t < 0 then t + WORD else t, base, end, false) % HALF ==
      if t >= base % HALF then t else (t - base % HALF + end % HALF) % HALF
  {
    HalfOf(base);
    HalfOf(end);
    LowWrap((if t < 0 then t + WORD else t) - base + end, (if t < 0 then t + WORD else t) - base % HALF + end % HALF);
    ShiftWord(t - base % HALF + end % HALF);
  }

  lemma ShiftWord(y: int)
    ensures (y + WORD) % HALF == y % HALF
  {}

  lemma NextUnfold(addr: nat, b: nat, e: nat, o: nat)
    requires addr < HALF
    ensures NextCircular(addr, b, e, o) ==
            Wrapped((addr + Short(o) % WORD) % WORD, Short(b) % WORD, Short(e) % WORD, Short(o) > 0) % HALF
  {
    hide Short, Wrapped;
    ShortFacts(o);
  }

  /** A `short` as a 32-bit word. */
  lemma ShortWord(x: nat)
    ensures 0 <= Short(x) % WORD < WORD && (Short(x) % WORD < HALF || Short(x) % WORD >= HIGH)
    ensures Short(x) % WORD % HALF == x % HALF
  {
    hide Short;
    ShortFacts(x);
  }

  lemma NextCircularIs(addr: nat, b: nat, e: nat, o: nat)
    requires b % HALF <= addr < e % HALF
    ensures
      var t := addr + Short(o);
      NextCircular(addr, b, e, o) ==
        if Short(o) > 0 then (if t < e % HALF then t else (t - e % HALF + b % HALF) % HALF)
        else if t >= b % HALF then t else (t - b % HALF + e % HALF) % HALF
  {
    hide Short, Wrapped, NextCircular;
    NextUnfold(addr, b, e, o);
    ShortWord(b);
    ShortWord(e);
    ShortFacts(o);
    Sum(addr, Short(o));
    var t := addr + Short(o);
    if Short(o) > 0 {
      WrappedUp(t, Short(b) % WORD, Short(e) % WORD);
    } else {
      WrappedDown(t, Short(b) % WORD, Short(e) % WORD);
    }
  }

  /** The bounds test compares all 32 bits with 16-bit bounds. Above the first 64 KB, a step up
      therefore wraps even inside the window, and a step down never does; the high half of the
      register stays in any case. */
  lemma CircularAbove(addr: nat, b: nat, e: nat, o: nat)
    requires addr < WORD
    ensures NextCircular(addr, b, e, o) / HALF == addr / HALF
    ensures
      var (t, low) := (addr + Short(o), NextCircular(addr, b, e, o) % HALF);
      && (Short(o) > 0 && HALF <= t < WORD && e % HALF > 0 ==> low == (t - e % HALF + b % HALF) % HALF)
      && (Short(o) <= 0 && HALF <= t < WORD / 2 ==> low == t % HALF)
  {
    hide Short, Wrapped;
    ShortWord(b);
    ShortWord(e);
    ShortFacts(o);
    HighKept(addr, Wrapped((addr + Short(o) % WORD) % WORD, Short(b) % WORD, Short(e) % WORD, Short(o) > 0) % HALF);
    var t := addr + Short(o);
    if HALF <= t < WORD {
      SumAbove(addr, Short(o));
      WrappedAbove(t, Short(b) % WORD, Short(e) % WORD);
    }
  }

  lemma HighKept(addr: nat, low: nat)
    requires low < HALF
    ensures (addr / HALF * HALF + low) / HALF == addr / HALF && (addr / HALF * HALF + low) % HALF == low
  {}

  lemma SumAbove(addr: nat, s: int)
    requires addr < WORD && -0x8000 <= s < 0x8000 && 0 <= addr + s < WORD
    ensures (addr + s % WORD) % WORD == addr + s
  {}

  lemma WrappedAbove(t: nat, base: nat, end: nat)
    requires HALF <= t < WORD && base < WORD && end < WORD
    requires (base < HALF || base >= HIGH) && (end < HALF || end >= HIGH)
    ensures end % HALF > 0 ==> Wrapped(t, base, end, true) % HALF == (t - end % HALF + base % HALF) % HALF
    ensures t < WORD / 2 ==> Wrapped(t, base, end, false) == t
  {
    HalfOf(base);
    HalfOf(end);
    if end % HALF > 0 { EndMinusOne(end); }
    LowWrap2(t, base, end);
  }

  lemma LowWrap2(t: nat, base: nat, end: nat)
    requires (base < HALF || base >= HIGH) && (end < HALF || end >= HIGH) && base < WORD && end < WORD
    ensures (t - end + base) % WORD % HALF == (t - end % HALF + base % HALF) % HALF
  {
    HalfOf(base);
    HalfOf(end);
    LowWrap(t - end + base, t - end % HALF + base % HALF);
  }

  lemma WindowStep(addr: int, base: int, end: int, s: int)
    requires 0 <= base <= addr < end <= HALF && -(end - base) <= s <= end - base
    ensures
      var t := addr + s;
      var next := if s > 0 then (if t < end then t else (t - end + base) % HALF)
                  else if t >= base then t else (t - base + end) % HALF;
      next == base + (addr - base + s) % (end - base) && base <= next < end
  {
    ModOnce(addr - base + s, end - base);
  }

  /** One step in the window [base, end). */
  lemma CircularStep(addr: nat, b: nat, e: nat, o: nat)
    requires b % HALF <= addr < e % HALF && -(e % HALF - b % HALF) <= Short(o) <= e % HALF - b % HALF
    ensures NextCircular(addr, b, e, o) == b % HALF + (addr - b % HALF + Short(o)) % (e % HALF - b % HALF)
    ensures b % HALF <= NextCircular(addr, b, e, o) < e % HALF
  {
    hide Short, NextCircular;
    WindowStep(addr, b % HALF, e % HALF, Short(o));
    NextCircularIs(addr, b, e, o);
  }

  /** Every address of the window steps into the window exactly when the offset is no
      larger than the window. */
  lemma CircularStaysIff(b: nat, e: nat, o: nat)
    requires b % HALF < e % HALF
    ensures
      (forall addr: nat | b % HALF <= addr < e % HALF :: b % HALF <= NextCircular(addr, b, e, o) < e % HALF)
      <==> -(e % HALF - b % HALF) <= Short(o) <= e % HALF - b % HALF
  {
    hide Short, NextCircular;
    var base, end := b % HALF, e % HALF;
    ShortFacts(o);
    if Short(o) > end - base {
      NextCircularIs(end - 1, b, e, o);
      assert !(base <= NextCircular(end - 1, b, e, o) < end);
    } else if Short(o) < -(end - base) {
      NextCircularIs(base, b, e, o);
      assert !(base <= NextCircular(base, b, e, o) < end);
    } else {
      forall addr: nat | base <= addr < end
        ensures base <= NextCircular(addr, b, e, o) < end
      {
        CircularStep(addr, b, e, o);
      }
    }
  }

  function CircularAddr(a0: nat, b: nat, e: nat, o: nat, i: nat): nat {
    if i == 0 then a0 else NextCircular(CircularAddr(a0, b, e, o, i - 1), b, e, o)
  }

  /** The i-th address: a walk modulo the window, for both signs of the offset. */
  lemma {:induction false} CircularAddrIs(a0: nat, b: nat, e: nat, o: nat, i: nat)
    requires b % HALF <= a0 < e % HALF && -(e % HALF - b % HALF) <= Short(o) <= e % HALF - b % HALF
    ensures CircularAddr(a0, b, e, o, i) == b % HALF + (a0 - b % HALF + i * Short(o)) % (e % HALF - b % HALF)
    ensures b % HALF <= CircularAddr(a0, b, e, o, i) < e % HALF
  {
    hide Short, NextCircular;
    var base, d := b % HALF, e % HALF - b % HALF;
    if i == 0 {
      DivModIs(a0 - base, d, 0, a0 - base);
    } else {
      CircularAddrIs(a0, b, e, o, i - 1);
      CircularStep(CircularAddr(a0, b, e, o, i - 1), b, e, o);
      OneMore(a0 - base, i, Short(o), d);
    }
  }

  lemma OneMore(x: int, i: nat, s: int, d: int)
    requires i > 0 && d > 0
    ensures ((x + (i - 1) * s) % d + s) % d == (x + i * s) % d
  {
    Distribute(i - 1, 1, s);
    ModAdd(x + (i - 1) * s, s, d);
  }

  // ---- ls_addr_gen ----

  datatype Mode = BitReversed(step: nat) | Circular(base: nat, end: nat, offset: nat)

  /** The post-increment modes of `ls_addr_gen`: the access uses the register as it is, and
      the register moves on. */
  method LsAddrGen(addr: nat, mode: Mode) returns (memoryAddr: nat, register: nat)
    ensures memoryAddr == addr
    ensures mode.BitReversed? ==> register == NextReversed(addr, mode.step)
    ensures mode.Circular? ==> register == NextCircular(addr, mode.base, mode.end, mode.offset)
  {
    memoryAddr := addr;
    match mode {
      case BitReversed(step) =>
        var tmp := BitReverse(step, 16);
        var r := BitReverse(addr, 16);
        tmp := r + tmp;
        tmp := BitReverse(tmp, 16);
        register := addr / HALF * HALF + tmp;
      case Circular(b, e, o) =>
        register := UpdateCircular(addr, b, e, o);
    }
  }

  method UpdateCircular(addr: nat, b: nat, e: nat, o: nat) returns (register: nat)
    ensures register == NextCircular(addr, b, e, o)
  {
    hide Short;
    var base, end, offset := Short(b) % WORD, Short(e) % WORD, Short(o) % WORD;
    var tmp := (addr + offset) % WORD;
    if Short(offset) > 0 {
      if tmp > (end - 1) % HALF {
        tmp := (tmp - end + base) % WORD;
      }
    } else {
      if tmp < base % HALF || tmp >= WORD / 2 {
        tmp := (tmp - base + end) % WORD;
      }
    }
    register := addr / HALF * HALF + tmp % HALF;
  }
}
