/**
 The 64-step shift-and-subtract division of lib/ia32/math.c (DivU64x32), one machine
 instruction at a time: `Dividend` is two 32-bit words, the remainder a third, and the
 bit shifted out of the remainder is lost.
 */
module Division {
  import opened Words

  const TWO_31: int := 0x8000_0000
  const TWO_32: int := 0x1_0000_0000
  const TWO_63: int := 0x8000_0000_0000_0000

  type U32 = x: int | 0 <= x < 0x1_0000_0000

  datatype Registers = Registers(low: U32, high: U32, rem: U32) {
    function Dividend(): U64 {
      high * TWO_32 + low
    }
  }

  /** rcl by one: the shifted word and the carry out. */
  function Rcl(word: U32, carry: bool): (U32, bool) {
    ((2 * word + if carry then 1 else 0) % TWO_32, word >= TWO_31)
  }

  /** shl, rcl, rcl; the last carry is lost. */
  function ShiftLeft(r: Registers): Registers {
    var (low, c0) := Rcl(r.low, false);
    var (high, c1) := Rcl(r.high, c0);
    Registers(low, high, Rcl(r.rem, c1).0)
  }

  /** One turn of the loop: the quotient's next bit enters at the low end. */
  function Step(r: Registers, divisor: U32): Registers {
    var s := ShiftLeft(r);
    if s.rem >= divisor then
      Registers((s.low + 1) % TWO_32, s.high, s.rem - divisor)
    else
      s
  }

  function Steps(r: Registers, divisor: U32, n: nat): Registers {
    if n == 0 then r else Step(Steps(r, divisor, n - 1), divisor)
  }

  function Start(dividend: U64): Registers {
    Registers(dividend % TWO_32, dividend / TWO_32, 0)
  }

  /** The registers DivU64x32 ends with. */
  function Divide(dividend: U64, divisor: U32): Registers {
    Steps(Start(dividend), divisor, 64)
  }

  /** Some turn shifts a one out of the remainder. */
  ghost predicate LosesBit(dividend: U64, divisor: U32) {
    exists n: nat :: n < 64 && Steps(Start(dividend), divisor, n).rem >= TWO_31
  }

  // ----- one step -----

  lemma {:induction false} RclMeans(word: U32, carry: bool)
    ensures Rcl(word, carry).0 == 2 * word + (if carry then 1 else 0) - if word >= TWO_31 then TWO_32 else 0
  {
  }

  /** The two words shift as one 64-bit word. */
  lemma {:induction false} DividendShifts(r: Registers)
    ensures ShiftLeft(r).Dividend() == 2 * r.Dividend() - if r.Dividend() >= TWO_63 then TWO_64 else 0
    ensures ShiftLeft(r).low < TWO_32 - 1 && (r.high >= TWO_31 <==> r.Dividend() >= TWO_63)
  {
    RclMeans(r.low, false);
    RclMeans(r.high, r.low >= TWO_31);
  }

  /** Its top bit enters the remainder, whose own top bit is dropped; then at most one
      subtraction. */
  lemma {:induction false} StepMeans(r: Registers, divisor: U32)
    requires divisor != 0
    ensures var top := if r.Dividend() >= TWO_63 then 1 else 0;
            var full := 2 * r.rem + top - if r.rem >= TWO_31 then TWO_32 else 0;
            var one := if full >= divisor then 1 else 0;
            && Step(r, divisor).Dividend() == 2 * r.Dividend() - top * TWO_64 + one
            && Step(r, divisor).rem == full - one * divisor
  {
    DividendShifts(r);
    RclMeans(r.rem, r.high >= TWO_31);
  }

  /** v shifted left k times, without bound. */
  function Shl(v: nat, k: nat): nat {
    if k == 0 then v else 2 * Shl(v, k - 1)
  }

  lemma {:induction false} ShlAdds(v: nat, w: nat, k: nat)
    ensures Shl(v + w, k) == Shl(v, k) + Shl(w, k)
  {
    if k > 0 { ShlAdds(v, w, k - 1); }
  }

  lemma {:induction false} ShlIsMonotone(v: nat, w: nat, k: nat)
    requires v <= w
    ensures Shl(v, k) <= Shl(w, k)
  {
    ShlAdds(v, w - v, k);
  }

  lemma {:induction false} ShlTwice(v: nat, j: nat, k: nat)
    ensures Shl(Shl(v, j), k) == Shl(v, j + k)
  {
    if k > 0 { ShlTwice(v, j, k - 1); }
  }

  lemma {:induction false} ShlByNine(v: nat)
    ensures Shl(v, 9) == 512 * v
  {
    assert Shl(v, 1) == 2 * v;
    assert Shl(v, 3) == 8 * v;
    assert Shl(v, 5) == 32 * v;
    assert Shl(v, 7) == 128 * v;
  }

  lemma {:induction false} ShlOfOne()
    ensures Shl(1, 63) == TWO_63
  {
    ShlByNine(1);
    ShlTwice(1, 9, 9);
    ShlByNine(0x200);
    ShlTwice(1, 18, 9);
    ShlByNine(0x4_0000);
    ShlTwice(1, 27, 9);
    ShlByNine(0x800_0000);
    ShlTwice(1, 36, 9);
    ShlByNine(0x10_0000_0000);
    ShlTwice(1, 45, 9);
    ShlByNine(0x2000_0000_0000);
    ShlTwice(1, 54, 9);
    ShlByNine(0x40_0000_0000_0000);
  }

  lemma {:induction false} ShlOfZero(k: nat)
    ensures Shl(0, k) == 0
  {
    if k > 0 { ShlOfZero(k - 1); }
  }

  /** Where the loop stands: the dividend's top digits `hi` are consumed, the quotient
      digits `q` found so far sit below the digits `lo` still to come. */
  datatype Position = Position(hi: nat, lo: nat, q: nat)

  ghost predicate At(dividend: U64, r: Registers, k: nat, x: Position)
    requires k <= 64
  {
    && dividend == Shl(x.hi, 64 - k) + x.lo && x.lo < Shl(1, 64 - k)
    && r.Dividend() == Shl(x.lo, k) + x.q && x.q < Shl(1, k)
  }

  /** The dividend register's top bit is the next digit to come. */
  lemma {:induction false} TopDigit(v: U64, k: nat, p: nat, lo: nat, q: nat)
    requires k < 64 && p == Shl(1, 63 - k)
    requires q < Shl(1, k) && v == Shl(lo, k) + q
    ensures v >= TWO_63 <==> lo >= p
    ensures lo >= p ==> Shl(lo - p, k) == Shl(lo, k) - TWO_63
  {
    ShlTwice(1, 63 - k, k);
    ShlOfOne();
    if lo >= p {
      ShlAdds(p, lo - p, k);
    } else {
      ShlAdds(lo, p - lo, k);
      ShlIsMonotone(1, p - lo, k);
    }
  }

  function NextPosition(x: Position, p: nat, one: bool): Position {
    Position(2 * x.hi + if x.lo >= p then 1 else 0,
             if x.lo >= p then x.lo - p else x.lo,
             2 * x.q + if one then 1 else 0)
  }

  lemma {:induction false} DigitsMove(dividend: U64, k: nat, x: Position, p: nat, one: bool)
    requires k < 64 && p == Shl(1, 63 - k)
    requires dividend == Shl(x.hi, 64 - k) + x.lo && x.lo < Shl(1, 64 - k)
    ensures var y := NextPosition(x, p, one);
            dividend == Shl(y.hi, 63 - k) + y.lo && y.lo < p
  {
    ShlAdds(x.hi, x.hi, 63 - k);
    ShlAdds(2 * x.hi, 1, 63 - k);
  }

  lemma {:induction false} Advance(dividend: U64, divisor: U32, r: Registers, k: nat, x: Position)
    returns (one: bool, y: Position)
    requires divisor != 0 && k < 64 && At(dividend, r, k, x)
    ensures At(dividend, Step(r, divisor), k + 1, y) && y == NextPosition(x, Shl(1, 63 - k), one)
    ensures var full := 2 * r.rem + (y.hi - 2 * x.hi) - if r.rem >= TWO_31 then TWO_32 else 0;
            one == (full >= divisor) && Step(r, divisor).rem == full - if one then divisor as int else 0
  {
    var p := Shl(1, 63 - k);
    StepMeans(r, divisor);
    TopDigit(r.Dividend(), k, p, x.lo, x.q);
    one := 2 * r.rem + (if x.lo >= p then 1 else 0) - (if r.rem >= TWO_31 then TWO_32 else 0) >= divisor;
    y := NextPosition(x, p, one);
    DigitsMove(dividend, k, x, p, one);
  }

  // ----- right as long as no bit is lost -----

  /** a * d, by repeated addition. */
  function Times(a: nat, d: nat): nat {
    if a == 0 then 0 else Times(a - 1, d) + d
  }

  lemma {:induction false} TimesAdds(a: nat, b: nat, d: nat)
    ensures Times(a + b, d) == Times(a, d) + Times(b, d)
  {
    if b > 0 { TimesAdds(a, b - 1, d); }
  }

  lemma {:induction false} TimesIsProduct(a: nat, d: nat)
    ensures Times(a, d) == a * d
  {
    if a > 0 {
      TimesIsProduct(a - 1, d);
      assert (a - 1) * d == a * d - d;
    }
  }

  lemma {:induction false} TimesAreUnique(q: nat, r: nat, x: nat, y: nat, d: nat)
    requires Times(q, d) + r == Times(x, d) + y && r < d
    ensures x <= q
    ensures y < d ==> q == x && r == y
  {
    if q > 0 && x > 0 {
      TimesAreUnique(q - 1, r, x - 1, y, d);
    }
  }

  lemma {:induction false} DivisionByTimes(n: nat, d: nat)
    requires d > 0
    ensures n == Times(n / d, d) + n % d && n % d < d
  {
    TimesIsProduct(n / d, d);
  }

  lemma {:induction false} QuotientIs(n: nat, d: nat, q: nat, r: nat)
    requires n == Times(q, d) + r && r < d
    ensures n / d == q && n % d == r
  {
    DivisionByTimes(n, d);
    TimesAreUnique(q, r, n / d, n % d, d);
  }

  lemma {:induction false} QuotientIsAtLeast(n: nat, d: nat, q: nat)
    requires d > 0 && Times(q, d) <= n
    ensures q <= n / d
  {
    DivisionByTimes(n, d);
    TimesAreUnique(n / d, n % d, q, n - Times(q, d), d);
  }

  ghost predicate Exact(r: Registers, divisor: U32, x: Position) {
    x.hi == Times(x.q, divisor) + r.rem && r.rem < divisor
  }

  lemma {:induction false} DigitIsExact(r: Registers, s: Registers, divisor: U32, x: Position, y: Position, one: bool)
    requires Exact(r, divisor, x) && 2 * x.hi <= y.hi <= 2 * x.hi + 1
    requires y.q == 2 * x.q + if one then 1 else 0
    requires one == (2 * r.rem + (y.hi - 2 * x.hi) >= divisor)
    requires s.rem == 2 * r.rem + (y.hi - 2 * x.hi) - if one then divisor as int else 0
    ensures Exact(s, divisor, y)
  {
    TimesAdds(x.q, x.q, divisor);
  }

  lemma {:induction false} StartsAt(dividend: U64)
    ensures At(dividend, Start(dividend), 0, Position(0, dividend, 0))
  {
    ShlOfZero(64);
    ShlOfOne();
    assert Shl(1, 64) == 2 * Shl(1, 63);
  }

  lemma {:induction false} StepsAreExact(dividend: U64, divisor: U32, k: nat) returns (x: Position)
    requires divisor != 0 && k <= 64
    requires forall n: nat :: n < k ==> Steps(Start(dividend), divisor, n).rem < TWO_31
    ensures At(dividend, Steps(Start(dividend), divisor, k), k, x)
    ensures Exact(Steps(Start(dividend), divisor, k), divisor, x)
  {
    if k == 0 {
      x := Position(0, dividend, 0);
      StartsAt(dividend);
    } else {
      var w := StepsAreExact(dividend, divisor, k - 1);
      var r := Steps(Start(dividend), divisor, k - 1);
      var one;
      one, x := Advance(dividend, divisor, r, k - 1, w);
      DigitIsExact(r, Step(r, divisor), divisor, w, x, one);
    }
  }

  // ----- wrong as soon as one is lost -----

  /** The digits found by step k stay the quotient's leading digits. */
  lemma {:induction false} LeadingDigitsStay(dividend: U64, divisor: U32, k: nat, x: Position, n: nat)
    returns (y: Position)
    requires divisor != 0 && k <= n <= 64
    requires At(dividend, Steps(Start(dividend), divisor, k), k, x)
    ensures At(dividend, Steps(Start(dividend), divisor, n), n, y)
    ensures y.q < Shl(x.q + 1, n - k)
    decreases n
  {
    if n == k {
      y := x;
    } else {
      var w := LeadingDigitsStay(dividend, divisor, k, x, n - 1);
      var one;
      one, y := Advance(dividend, divisor, Steps(Start(dividend), divisor, n - 1), n - 1, w);
    }
  }

  lemma {:induction false} FirstLoss(dividend: U64, divisor: U32, n: nat) returns (k: nat)
    requires n < 64 && Steps(Start(dividend), divisor, n).rem >= TWO_31
    ensures k <= n && Steps(Start(dividend), divisor, k).rem >= TWO_31
    ensures forall j: nat :: j < k ==> Steps(Start(dividend), divisor, j).rem < TWO_31
  {
    k := 0;
    while Steps(Start(dividend), divisor, k).rem < TWO_31
      invariant k <= n
      invariant forall j: nat :: j < k ==> Steps(Start(dividend), divisor, j).rem < TWO_31
      decreases n - k
    {
      k := k + 1;
    }
  }

  lemma {:induction false} ShlOfTimes(a: nat, d: nat, k: nat)
    ensures Shl(Times(a, d), k) == Times(Shl(a, k), d)
  {
    if k > 0 {
      ShlOfTimes(a, d, k - 1);
      TimesAdds(Shl(a, k - 1), Shl(a, k - 1), d);
    }
  }

  lemma {:induction false} LeadingDigitsDecide(dividend: U64, divisor: U32, k: nat, x: Position) returns (q: nat)
    requires divisor != 0 && k <= 64 && At(dividend, Steps(Start(dividend), divisor, k), k, x)
    ensures q == Shl(x.q + 1, 64 - k) && Divide(dividend, divisor).Dividend() < q
  {
    var z := LeadingDigitsStay(dividend, divisor, k, x, 64);
    q := Shl(x.q + 1, 64 - k);
    assert z.lo == 0;
    ShlOfZero(64);
  }

  /** The turn that loses a bit finds a 0 where the quotient has a 1, for good. */
  lemma {:induction false} LossIsFinal(dividend: U64, divisor: U32, n: nat) returns (q: nat)
    requires divisor != 0 && n < 64 && Steps(Start(dividend), divisor, n).rem >= TWO_31
    ensures Divide(dividend, divisor).Dividend() < q && Times(q, divisor) <= dividend
  {
    hide Step, Shl;
    var k := FirstLoss(dividend, divisor, n);
    var x := StepsAreExact(dividend, divisor, k);
    var one, y := Advance(dividend, divisor, Steps(Start(dividend), divisor, k), k, x);
    assert !one && y.q == 2 * x.q;
    q := LeadingDigitsDecide(dividend, divisor, k + 1, y);
    assert y.hi >= Times(y.q + 1, divisor) by {
      TimesAdds(x.q, x.q, divisor);
    }
    ShlIsMonotone(Times(y.q + 1, divisor), y.hi, 63 - k);
    ShlOfTimes(y.q + 1, divisor, 63 - k);
  }

  /** On every input: the quotient and remainder are right if and only if no turn lost a
      bit of the remainder, and otherwise the quotient is too small. */
  lemma {:induction false} RightIffNothingLost(dividend: U64, divisor: U32)
    requires divisor != 0
    ensures var r := Divide(dividend, divisor);
            && (r.Dividend() == dividend / divisor <==> !LosesBit(dividend, divisor))
            && (!LosesBit(dividend, divisor) ==> r.rem == dividend % divisor)
            && r.Dividend() <= dividend / divisor
  {
    if LosesBit(dividend, divisor) {
      var n: nat :| n < 64 && Steps(Start(dividend), divisor, n).rem >= TWO_31;
      var q := LossIsFinal(dividend, divisor, n);
      QuotientIsAtLeast(dividend, divisor, q);
    } else {
      var x := StepsAreExact(dividend, divisor, 64);
      assert Shl(x.hi, 0) == x.hi && x.lo == 0;
      ShlOfZero(64);
      QuotientIs(dividend, divisor, x.q, Divide(dividend, divisor).rem);
    }
  }

  // ----- the inputs that lose a bit -----

  function PowerOfTwo(n: nat): (p: nat)
    ensures p > 0 && p == Shl(1, n)
  {
    if n == 0 then 1 else 2 * PowerOfTwo(n - 1)
  }

  /** Dividing some dividend / 2^n, n from 1 to 63, leaves a remainder of 2^31 or more. */
  ghost predicate HasLargeRemainder(dividend: U64, divisor: U32)
    requires divisor != 0
  {
    exists n: nat :: 0 < n < 64 && dividend / PowerOfTwo(n) % divisor >= 0x8000_0000
  }

  lemma {:induction false} ShlIsTimes(v: nat, n: nat)
    ensures Shl(v, n) == Times(v, PowerOfTwo(n))
  {
    if v == 0 {
      ShlOfZero(n);
    } else {
      ShlIsTimes(v - 1, n);
      ShlAdds(v - 1, 1, n);
    }
  }

  /** While no bit was lost, the remainder after k turns is that of the dividend's top k
      bits. */
  lemma {:induction false} RemainderOfTopBits(dividend: U64, divisor: U32, k: nat)
    requires divisor != 0 && k <= 64
    requires forall n: nat :: n < k ==> Steps(Start(dividend), divisor, n).rem < TWO_31
    ensures Steps(Start(dividend), divisor, k).rem == dividend / PowerOfTwo(64 - k) % divisor
  {
    var x := StepsAreExact(dividend, divisor, k);
    ShlIsTimes(x.hi, 64 - k);
    QuotientIs(dividend, PowerOfTwo(64 - k), x.hi, x.lo);
    QuotientIs(x.hi, divisor, x.q, Steps(Start(dividend), divisor, k).rem);
  }

  /** What a caller can tell beforehand: some turn loses a bit, and the result is wrong, if
      and only if one of these remainders is large. */
  lemma {:induction false} WrongIffLargeRemainder(dividend: U64, divisor: U32)
    requires divisor != 0
    ensures LosesBit(dividend, divisor) <==> HasLargeRemainder(dividend, divisor)
    ensures Divide(dividend, divisor).Dividend() != dividend / divisor <==> HasLargeRemainder(dividend, divisor)
  {
    RightIffNothingLost(dividend, divisor);
    if n: nat :| n < 64 && Steps(Start(dividend), divisor, n).rem >= TWO_31 {
      var k := FirstLoss(dividend, divisor, n);
      RemainderOfTopBits(dividend, divisor, k);
      assert k > 0;
    } else if n: nat :| 0 < n < 64 && dividend / PowerOfTwo(n) % divisor >= TWO_31 {
      RemainderOfTopBits(dividend, divisor, 64 - n);
    }
  }

  // ----- which divisors are safe -----

  lemma {:induction false} RemaindersStayBelowDivisor(dividend: U64, divisor: U32, n: nat)
    requires 0 < divisor <= TWO_31
    ensures Steps(Start(dividend), divisor, n).rem < divisor
  {
    if n > 0 {
      RemaindersStayBelowDivisor(dividend, divisor, n - 1);
      StepMeans(Steps(Start(dividend), divisor, n - 1), divisor);
    }
  }

  lemma {:induction false} SmallDivisorsLoseNothing(dividend: U64, divisor: U32)
    requires 0 < divisor <= TWO_31
    ensures !LosesBit(dividend, divisor)
  {
    forall n: nat | n < 64
      ensures Steps(Start(dividend), divisor, n).rem < TWO_31
    {
      RemaindersStayBelowDivisor(dividend, divisor, n);
    }
  }

  lemma {:induction false} LastDigit(dividend: U64, divisor: U32, x: Position)
    requires divisor > TWO_31 && dividend == 2 * divisor - 1
    requires dividend == Shl(x.hi, 1) + x.lo && x.lo < Shl(1, 1)
    requires Exact(Steps(Start(dividend), divisor, 63), divisor, x)
    ensures Steps(Start(dividend), divisor, 63).rem == divisor - 1
  {
    assert Shl(x.hi, 1) == 2 * x.hi && Shl(1, 1) == 2;
    if x.q > 0 {
      assert false;
    }
  }

  /** A divisor above 2^31 goes wrong on 2 * divisor - 1. */
  lemma {:induction false} LargeDivisorsLose(divisor: U32)
    requires divisor > TWO_31
    ensures LosesBit(2 * divisor - 1, divisor)
  {
    var dividend := 2 * divisor - 1;
    var n := 0;
    while n < 63 && Steps(Start(dividend), divisor, n).rem < TWO_31
      invariant n <= 63
      invariant forall j: nat :: j < n ==> Steps(Start(dividend), divisor, j).rem < TWO_31
    {
      n := n + 1;
    }
    if n == 63 {
      var x := StepsAreExact(dividend, divisor, 63);
      LastDigit(dividend, divisor, x);
    }
  }

  /** The divisors that divide every dividend correctly are exactly those up to 2^31. */
  lemma {:induction false} SafeDivisorsAreUpTo2Pow31(divisor: U32)
    requires divisor != 0
    ensures (forall dividend: U64 :: Divide(dividend, divisor).Dividend() == dividend / divisor) <==> divisor <= 0x8000_0000
  {
    forall dividend: U64
      ensures divisor <= TWO_31 ==> Divide(dividend, divisor).Dividend() == dividend / divisor
    {
      if divisor <= TWO_31 {
        SmallDivisorsLoseNothing(dividend, divisor);
        RightIffNothingLost(dividend, divisor);
      }
    }
    if divisor > TWO_31 {
      LargeDivisorsLose(divisor);
      RightIffNothingLost(2 * divisor - 1, divisor);
    }
  }

  // ----- the loop -----

  method DivU64x32(dividend: U64, divisor: U32) returns (quotient: U64, remainder: U32)
    requires divisor != 0
    ensures quotient == Divide(dividend, divisor).Dividend() && remainder == Divide(dividend, divisor).rem
    ensures divisor <= 0x8000_0000 ==> quotient == dividend / divisor && remainder == dividend % divisor
  {
    var r := Start(dividend);
    var bit := 0;
    while bit < 64
      invariant 0 <= bit <= 64
      invariant r == Steps(Start(dividend), divisor, bit)
    {
      var (low, c0) := Rcl(r.low, false);
      var (high, c1) := Rcl(r.high, c0);
      var (rem, lost) := Rcl(r.rem, c1);
      if rem >= divisor {
        low, rem := (low + 1) % TWO_32, rem - divisor;
      }
      r := Registers(low, high, rem);
      bit := bit + 1;
    }
    if divisor <= TWO_31 {
      SmallDivisorsLoseNothing(dividend, divisor);
      RightIffNothingLost(dividend, divisor);
    }
    return r.Dividend(), r.rem;
  }
}
