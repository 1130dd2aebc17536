/** The 128-bit unsigned arithmetic of src/libs/zbxalgo/int128.c, built from 64-bit words that wrap around. */
module Int128 {
  import opened Arithmetic

  const WORD: nat := 0x1_0000_0000_0000_0000

  datatype U128 = U128(hi: nat, lo: nat)

  ghost predicate Valid(u: U128) {
    u.hi < WORD && u.lo < WORD
  }

  ghost function Value(u: U128): (r: nat) {
    u.hi * WORD + u.lo
  }

  // ----- Powers of two and bitwise or -----

  lemma {:induction false} Pow2Adds(a: nat, b: nat)
    ensures Pow2(a + b) == Pow2(a) * Pow2(b)
  {
    if a > 0 {
      Pow2Adds(a - 1, b);
      assert Pow2(a) * Pow2(b) == 2 * (Pow2(a - 1) * Pow2(b));
    }
  }

  lemma Pow2Sixteen()
    ensures Pow2(16) == 0x1_0000
  {
    assert Pow2(2) == 4;
    Pow2Adds(2, 2);
    Pow2Adds(4, 4);
    Pow2Adds(8, 8);
  }

  lemma Pow2Words()
    ensures Pow2(32) == 0x1_0000_0000 && Pow2(63) == 0x8000_0000_0000_0000
  {
    Pow2Sixteen();
    Pow2Adds(16, 16);
    Pow2Adds(32, 32);
    assert Pow2(64) == 2 * Pow2(63);
  }

  /** Bitwise or, bit by bit. */
  function Or(a: nat, b: nat): (r: nat)
    decreases a + b
  {
    if a == 0 && b == 0 then 0
    else 2 * Or(a / 2, b / 2) + if a % 2 == 1 || b % 2 == 1 then 1 else 0
  }

  /** Bit k of a number, the last bit being bit 0. */
  predicate Bit(n: nat, k: nat) {
    if k == 0 then n % 2 == 1 else Bit(n / 2, k - 1)
  }

  /** A bit is set exactly when it is set in one of the operands. */
  lemma {:induction false} OrIsBitwise(a: nat, b: nat, k: nat)
    ensures Bit(Or(a, b), k) <==> Bit(a, k) || Bit(b, k)
  {
    if a == 0 && b == 0 {
      ZeroHasNoBits(k);
    } else {
      HalfOfOr(Or(a / 2, b / 2), a % 2 == 1 || b % 2 == 1);
      if k > 0 {
        OrIsBitwise(a / 2, b / 2, k - 1);
      }
    }
  }

  lemma HalfOfOr(half: nat, odd: bool)
    ensures var n := 2 * half + if odd then 1 else 0;
            n / 2 == half && (n % 2 == 1 <==> odd)
  {
  }

  lemma {:induction false} ZeroHasNoBits(k: nat)
    ensures !Bit(0, k)
  {
    if k > 0 {
      ZeroHasNoBits(k - 1);
    }
  }

  lemma {:induction false} OrWithZero(a: nat)
    ensures Or(a, 0) == a
  {
    if a > 0 {
      OrWithZero(a / 2);
    }
  }

  lemma HalvesOfMultiple(q: nat, p: nat)
    ensures (2 * p * q) / 2 == p * q && (2 * p * q) % 2 == 0
  {
    assert 2 * p * q == 2 * (p * q);
  }

  /** Bits that do not meet are added. */
  lemma {:induction false} OrIsSum(q: nat, b: nat, k: nat)
    requires b < Pow2(k)
    ensures Or(Pow2(k) * q, b) == Pow2(k) * q + b
    decreases k
  {
    if k == 0 {
      OrWithZero(q);
    } else {
      HalvesOfMultiple(q, Pow2(k - 1));
      OrIsSum(q, b / 2, k - 1);
    }
  }

  // ----- Addition and subtraction -----

  function Increment(base: U128, v: U128): (r: U128) {
    var lo := (base.lo + v.lo) % WORD;
    var carry := if base.lo > lo then 1 else 0;
    U128((base.hi + carry + v.hi) % WORD, lo)
  }

  function Decrement(base: U128, v: U128): (r: U128) {
    var lo := (base.lo - v.lo) % WORD;
    var borrow := if base.lo < lo then 1 else 0;
    U128((base.hi - borrow - v.hi) % WORD, lo)
  }

  lemma WrapOnce(x: nat)
    requires x < 2 * WORD
    ensures x % WORD == if x < WORD then x else x - WORD
  {
  }

  lemma IncrementAdds(base: U128, v: U128)
    requires Valid(base) && Valid(v)
    ensures Valid(Increment(base, v))
    ensures var sum := Value(base) + Value(v);
            Value(Increment(base, v)) == if sum < WORD * WORD then sum else sum - WORD * WORD
  {
    WrapOnce(base.lo + v.lo);
    WrapOnce(base.hi + (if base.lo + v.lo < WORD then 0 else 1) + v.hi);
  }

  lemma BorrowOnce(x: int)
    requires -(WORD as int) <= x < WORD
    ensures x % WORD == if x < 0 then x + WORD else x
  {
  }

  lemma DecrementSubtracts(base: U128, v: U128)
    requires Valid(base) && Valid(v)
    ensures Valid(Decrement(base, v))
    ensures var diff := Value(base) - Value(v);
            Value(Decrement(base, v)) == if diff >= 0 then diff else diff + WORD * WORD
  {
    BorrowOnce(base.lo - v.lo);
    BorrowOnce(base.hi - (if base.lo < v.lo then 1 else 0) - v.hi);
  }

  // ----- Shifts, by the distances the multiplication and the division use -----

  const HALF: nat := 0x1_0000_0000
  const TOP: nat := 0x8000_0000_0000_0000

  function ShiftLeft32(base: U128): (r: U128) {
    U128(Or(base.hi * HALF % WORD, base.lo / HALF), base.lo * HALF % WORD)
  }

  function ShiftLeft64(base: U128): (r: U128) {
    U128(base.lo, 0)
  }

  function ShiftRight1(base: U128): (r: U128) {
    U128(base.hi / 2, Or(base.hi * TOP % WORD, base.lo / 2))
  }

  /** A word shifted left by 32: its upper half falls off. */
  lemma UpperHalfFallsOff(x: nat)
    requires x < WORD
    ensures x / HALF < HALF && x * HALF % WORD == HALF * (x % HALF)
    ensures x * HALF == WORD * (x / HALF) + HALF * (x % HALF)
  {
    DivisionIsUnique(x * HALF, WORD, x / HALF, HALF * (x % HALF));
  }

  lemma LowerHalfStays(x: nat)
    requires x < HALF
    ensures x * HALF % WORD == HALF * x
  {
    DivisionIsUnique(x * HALF, WORD, 0, HALF * x);
  }

  lemma ShiftLeft32Multiplies(base: U128)
    requires Valid(base) && base.hi < HALF
    ensures Valid(ShiftLeft32(base)) && Value(ShiftLeft32(base)) == Value(base) * HALF
  {
    Pow2Words();
    UpperHalfFallsOff(base.lo);
    LowerHalfStays(base.hi);
    OrIsSum(base.hi, base.lo / HALF, 32);
  }

  /** A word shifted left by 63: only its last bit remains, on top. */
  lemma LastBitRemains(x: nat)
    ensures x * TOP % WORD == TOP * (x % 2)
    ensures x * TOP == WORD * (x / 2) + TOP * (x % 2)
  {
    DivisionIsUnique(x * TOP, WORD, x / 2, TOP * (x % 2));
  }

  lemma ShiftRight1Halves(base: U128)
    requires Valid(base)
    ensures Valid(ShiftRight1(base)) && Value(ShiftRight1(base)) == Value(base) / 2
  {
    Pow2Words();
    LastBitRemains(base.hi);
    OrIsSum(base.hi % 2, base.lo / 2, 63);
  }

  // ----- Multiplication -----

  /** Adds low + high * 2^32, shifted by 0 or 32 bits, to base. */
  function AddParts(base: U128, low: nat, high: nat, shifted: bool): (r: U128) {
    if shifted then Increment(Increment(base, ShiftLeft32(U128(0, low))), ShiftLeft64(U128(0, high)))
    else Increment(Increment(base, U128(0, low)), ShiftLeft32(U128(0, high)))
  }

  /** Adds value * factor, shifted by 0 or 32 bits, to base; the factor is a 32-bit word. */
  function MultiplyAdd(base: U128, value: nat, factor: nat, shifted: bool): (r: U128) {
    AddParts(base, (value % HALF) * factor, (value / HALF) * factor, shifted)
  }

  function Multiply(value: nat, factor: nat): (r: U128) {
    MultiplyAdd(MultiplyAdd(U128(0, 0), value, factor % HALF, false), value, factor / HALF, true)
  }

  lemma MulMono(a: nat, b: nat, y: nat)
    requires a <= b
    ensures a * y <= b * y && y * a <= y * b
  {
  }

  lemma ProductFits(x: nat, y: nat, p: nat, q: nat)
    requires x < p && y < q
    ensures x * y < p * q
  {
    MulMono(y, q, x);
    MulMono(x + 1, p, q);
  }

  lemma SplitProduct(value: nat, factor: nat)
    ensures value * factor == (value % HALF) * factor + (value / HALF) * factor * HALF
  {
    var low, high := value % HALF, value / HALF;
    assert value == low + HALF * high;
    assert (low + HALF * high) * factor == low * factor + HALF * high * factor;
    assert HALF * high * factor == high * factor * HALF;
  }

  lemma TwoIncrements(base: U128, x: U128, y: U128)
    requires Valid(base) && Valid(x) && Valid(y) && Value(base) + Value(x) + Value(y) < WORD * WORD
    ensures Valid(Increment(Increment(base, x), y))
    ensures Value(Increment(Increment(base, x), y)) == Value(base) + Value(x) + Value(y)
  {
    IncrementAdds(base, x);
    IncrementAdds(Increment(base, x), y);
  }

  /** A number shifted by 0 or 32 bits. */
  ghost function Shifted(n: nat, shifted: bool): (r: nat) {
    if shifted then n * HALF else n
  }

  lemma AddPartsAdds(base: U128, low: nat, high: nat, shifted: bool)
    requires Valid(base) && low < WORD && high < WORD
    requires Value(base) + Shifted(low + high * HALF, shifted) < WORD * WORD
    ensures Valid(AddParts(base, low, high, shifted))
    ensures Value(AddParts(base, low, high, shifted)) == Value(base) + Shifted(low + high * HALF, shifted)
  {
    if shifted {
      ShiftLeft32Multiplies(U128(0, low));
      TwoIncrements(base, ShiftLeft32(U128(0, low)), ShiftLeft64(U128(0, high)));
    } else {
      ShiftLeft32Multiplies(U128(0, high));
      TwoIncrements(base, U128(0, low), ShiftLeft32(U128(0, high)));
    }
  }

  lemma MultiplyAddAdds(base: U128, value: nat, factor: nat, shifted: bool)
    requires Valid(base) && value < WORD && factor < HALF
    requires Value(base) + Shifted(value * factor, shifted) < WORD * WORD
    ensures Valid(MultiplyAdd(base, value, factor, shifted))
    ensures Value(MultiplyAdd(base, value, factor, shifted)) == Value(base) + Shifted(value * factor, shifted)
  {
    ProductFits(value % HALF, factor, HALF, HALF);
    ProductFits(value / HALF, factor, HALF, HALF);
    var low, high := (value % HALF) * factor, (value / HALF) * factor;
    assert value * factor == low + high * HALF by {
      SplitProduct(value, factor);
    }
    AddPartsAdds(base, low, high, shifted);
  }

  lemma SplitFactor(value: nat, factor: nat)
    requires value < WORD && factor < WORD
    ensures value * factor == value * (factor % HALF) + Shifted(value * (factor / HALF), true) < WORD * WORD
  {
    ProductFits(value, factor, WORD, WORD);
    SplitProduct(factor, value);
  }

  /** The four partial products add up to the full 128-bit product. */
  lemma MultiplyIsExact(value: nat, factor: nat)
    requires value < WORD && factor < WORD
    ensures Valid(Multiply(value, factor)) && Value(Multiply(value, factor)) == value * factor
  {
    SplitFactor(value, factor);
    MultiplyAddAdds(U128(0, 0), value, factor % HALF, false);
    MultiplyAddAdds(MultiplyAdd(U128(0, 0), value, factor % HALF, false), value, factor / HALF, true);
  }

  // ----- Division -----

  predicate Less(a: U128, b: U128) {
    if a.hi != b.hi then a.hi < b.hi else a.lo < b.lo
  }

  lemma LessCompares(a: U128, b: U128)
    requires Valid(a) && Valid(b)
    ensures Less(a, b) <==> Value(a) < Value(b)
  {
  }

  lemma Regroup(p: nat, n: nat)
    ensures 2 * p * n == p * (2 * n) == 2 * (p * n)
  {
  }

  lemma Collect(v: nat, a: nat, b: nat)
    ensures v * a + v * b == v * (a + b)
  {
  }

  /** The quotient found so far, its n-th multiple of the mask p, and room for the bits still to come. */
  ghost predicate QuotientSoFar(q: nat, p: nat, n: nat) {
    && q == p * n
    && q + (if n % 2 == 0 then 2 * p else p) <= WORD
  }

  /**
   What the shift-and-subtract loop keeps: the divisor is the 64-bit value v scaled by the mask p, the quotient
   bits found so far lie above the mask unless the remainder is already below the divisor, and what has been
   taken off the dividend is v times the quotient.
   */
  ghost predicate Dividing(v: nat, high: nat, q: nat, p: nat, n: nat, divisor: nat, rem: nat, dividend: nat) {
    && divisor == v * p && QuotientSoFar(q, p, n)
    && rem < 2 * divisor && (n % 2 == 0 || rem < divisor)
    && dividend == v * (high * WORD + q) + rem
  }

  lemma HalveDivisor(v: nat, high: nat, q: nat, p: nat, n: nat, divisor: nat, rem: nat, dividend: nat)
    requires Dividing(v, high, q, 2 * p, n, divisor, rem, dividend) && rem < divisor
    ensures Dividing(v, high, q, p, 2 * n, divisor / 2, rem, dividend)
  {
    Regroup(p, n);
    Regroup(p, v);
    assert divisor == 2 * (v * p);
  }

  lemma EvenMultiple(p: nat, n: nat)
    requires n % 2 == 0
    ensures p * n == 2 * p * (n / 2)
  {
    Regroup(p, n / 2);
  }

  lemma SubtractDivisor(v: nat, high: nat, q: nat, m: nat, n: nat, divisor: nat, rem: nat, dividend: nat)
    requires Dividing(v, high, q, Pow2(m), n, divisor, rem, dividend) && divisor <= rem
    ensures Or(q, Pow2(m)) == q + Pow2(m)
    ensures Dividing(v, high, q + Pow2(m), Pow2(m), n + 1, divisor, rem - divisor, dividend)
  {
    EvenMultiple(Pow2(m), n);
    assert Pow2(m + 1) == 2 * Pow2(m);
    OrIsSum(n / 2, Pow2(m), m + 1);
    Collect(Pow2(m), n, 1);
    Collect(v, high * WORD + q, Pow2(m));
  }

  lemma FinishOr(q: nat, m: nat, n: nat, rest: nat)
    requires QuotientSoFar(q, Pow2(m), n)
    requires rest < if n % 2 == 0 then 2 * Pow2(m) else Pow2(m)
    ensures Or(q, rest) == q + rest < WORD
  {
    if n % 2 == 0 {
      EvenMultiple(Pow2(m), n);
      assert Pow2(m + 1) == 2 * Pow2(m);
      OrIsSum(n / 2, rest, m + 1);
    } else {
      OrIsSum(n, rest, m);
    }
  }

  lemma RestBound(v: nat, p: nat, n: nat, rem: nat)
    requires 0 < v && rem < 2 * (v * p) && (n % 2 == 0 || rem < v * p)
    ensures rem / v < if n % 2 == 0 then 2 * p else p
  {
    if n % 2 == 0 {
      Regroup(p, v);
      QuotientIsBelow(rem, v, 2 * p);
    } else {
      QuotientIsBelow(rem, v, p);
    }
  }

  lemma FinishQuotient(v: nat, whole: nat, rem: nat, dividend: nat)
    requires 0 < v && dividend == v * whole + rem
    ensures dividend / v == whole + rem / v
  {
    Collect(v, whole, rem / v);
    DivisionIsUnique(dividend, v, whole + rem / v, rem % v);
  }

  lemma FinishDivision(v: nat, high: nat, q: nat, m: nat, n: nat, divisor: nat, rem: nat, dividend: nat)
    requires 0 < v && Dividing(v, high, q, Pow2(m), n, divisor, rem, dividend)
    ensures Or(q, rem / v) == q + rem / v < WORD
    ensures dividend / v == high * WORD + (q + rem / v)
  {
    RestBound(v, Pow2(m), n, rem);
    FinishOr(q, m, n, rem / v);
    FinishQuotient(v, high * WORD + q, rem, dividend);
  }

  /** While the remainder has more than 64 bits the mask cannot reach its last bit below it. */
  lemma MaskRemains(v: nat, m: nat, divisor: nat, rem: nat)
    requires v < WORD && divisor == v * Pow2(m) && WORD <= rem < divisor
    ensures m > 0 && Pow2(m) == 2 * Pow2(m - 1)
  {
    assert m == 0 ==> Pow2(m) == 1;
  }

  lemma StartDivision(hi: nat, lo: nat, v: nat)
    requires 0 < v < WORD && hi < WORD && lo < WORD
    ensures Pow2(63) == TOP
    ensures Dividing(v, hi / v, 0, TOP, 0, v * TOP, (hi % v) * WORD + lo, hi * WORD + lo)
  {
    Pow2Words();
    assert hi == v * (hi / v) + hi % v;
    assert (v * (hi / v) + hi % v) * WORD == v * (hi / v * WORD) + (hi % v) * WORD;
    MulMono(hi % v + 1, v, WORD);
  }

  /** The inner loop: halves the divisor until it no longer exceeds the remainder. */
  method AlignDivisor(rem: U128, start: U128, startMask: nat, v: nat,
                      ghost high: nat, ghost q: nat, ghost m0: nat, ghost n0: nat, ghost dividend: nat)
    returns (divisor: U128, mask: nat, ghost m: nat, ghost n: nat)
    requires v < WORD && Valid(rem) && rem.hi != 0 && Valid(start) && startMask == Pow2(m0)
    requires Dividing(v, high, q, startMask, n0, Value(start), Value(rem), dividend)
    ensures Valid(divisor) && mask == Pow2(m)
    ensures Dividing(v, high, q, mask, n, Value(divisor), Value(rem), dividend)
    ensures Value(divisor) <= Value(rem)
  {
    divisor, mask, m, n := start, startMask, m0, n0;
    while Less(rem, divisor)
      invariant Valid(divisor) && mask == Pow2(m)
      invariant Dividing(v, high, q, mask, n, Value(divisor), Value(rem), dividend)
      decreases m
    {
      LessCompares(rem, divisor);
      MaskRemains(v, m, Value(divisor), Value(rem));
      HalveDivisor(v, high, q, Pow2(m - 1), n, Value(divisor), Value(rem), dividend);
      ShiftRight1Halves(divisor);
      divisor, mask := ShiftRight1(divisor), mask / 2;
      m, n := m - 1, 2 * n;
    }
    LessCompares(rem, divisor);
  }

  /** Shift-and-subtract division computes the quotient, and never shifts the mask out. */
  method Divide(dividend: U128, v: nat) returns (result: U128)
    requires Valid(dividend) && 0 < v < WORD
    ensures Valid(result) && Value(result) == Value(dividend) / v
  {
    if dividend.hi == 0 {
      QuotientFits(dividend.lo, v);
      return U128(0, dividend.lo / v);
    }
    var high := dividend.hi / v;
    QuotientFits(dividend.hi, v);
    var rem := U128(dividend.hi % v, dividend.lo);
    result := DivideLow(dividend, rem, high, v);
  }

  function Quotient(x: nat, v: nat): (r: nat)
    requires v > 0
  {
    x / v
  }

  lemma QuotientFits(x: nat, v: nat)
    requires 0 < v
    ensures x / v <= x && x % v <= x
  {
    MulMono(1, v, x / v);
  }

  lemma StartAligned(dividend: U128, v: nat)
    requires Valid(dividend) && 0 < v < WORD
    ensures Valid(ShiftRight1(U128(v, 0))) && Pow2(63) == TOP
    ensures Dividing(v, dividend.hi / v, 0, TOP, 0, Value(ShiftRight1(U128(v, 0))),
                     Value(U128(dividend.hi % v, dividend.lo)), Value(dividend))
  {
    StartDivision(dividend.hi, dividend.lo, v);
    ShiftRight1Halves(U128(v, 0));
  }

  lemma SubtractAligned(v: nat, high: nat, q: nat, m: nat, n: nat, divisor: U128, rem: U128, dividend: nat)
    requires 0 < v && Valid(divisor) && Valid(rem) && Value(divisor) <= Value(rem)
    requires Dividing(v, high, q, Pow2(m), n, Value(divisor), Value(rem), dividend)
    ensures Or(q, Pow2(m)) == q + Pow2(m)
    ensures Valid(Decrement(rem, divisor)) && Value(Decrement(rem, divisor)) < Value(rem)
    ensures Dividing(v, high, q + Pow2(m), Pow2(m), n + 1, Value(divisor), Value(Decrement(rem, divisor)), dividend)
  {
    SubtractDivisor(v, high, q, m, n, Value(divisor), Value(rem), dividend);
    DecrementSubtracts(rem, divisor);
    MulMono(1, Pow2(m), v);
  }

  /** The outer loop: subtracts the aligned divisor until the remainder fits 64 bits. */
  method DivideLow(dividend: U128, start: U128, high: nat, v: nat) returns (result: U128)
    requires Valid(dividend) && 0 < v < WORD && high == dividend.hi / v < WORD
    requires start == U128(dividend.hi % v, dividend.lo) && Valid(start)
    ensures Valid(result) && Value(result) == Value(dividend) / v
  {
    var mask, q, rem, divisor := TOP, 0, start, U128(v, 0);
    ghost var m: nat, n: nat := 63, 0;
    StartAligned(dividend, v);
    divisor := ShiftRight1(divisor);
    while rem.hi != 0
      invariant Valid(rem) && Valid(divisor) && mask == Pow2(m)
      invariant Dividing(v, high, q, mask, n, Value(divisor), Value(rem), Value(dividend))
      decreases Value(rem)
    {
      divisor, mask, m, n := AlignDivisor(rem, divisor, mask, v, high, q, m, n, Value(dividend));
      SubtractAligned(v, high, q, m, n, divisor, rem, Value(dividend));
      rem := Decrement(rem, divisor);
      q := Or(q, mask);
      n := n + 1;
    }
    FinishDivision(v, high, q, m, n, Value(divisor), Value(rem), Value(dividend));
    result := U128(high, Or(q, Quotient(rem.lo, v)));
  }
}
