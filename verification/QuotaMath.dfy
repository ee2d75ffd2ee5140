/**
 Conversions of computed prices to quota: bounded, with a record of every value that had
 to be clamped. Prices are 64-bit floating-point numbers or exact decimals; decimals are
 rounded to an integer and then pass through a 64-bit floating-point number too.
 */
module QuotaMath {
  import opened Wrappers

  const MAX_QUOTA := 0x7FFF_FFFF
  const MIN_QUOTA := -0x8000_0000
  const MAX_WALLET_QUOTA := 0x1F_FFFF_FFFF_FFFF

  // ------------------------------------------------------------ floating-point numbers

  /** A value of a floating-point variable; finite ones are real numbers. */
  datatype Float = NaN | Infinite(negative: bool) | Finite(value: real)

  predicate Above(f: Float, bound: int) {
    match f
    case NaN => false
    case Infinite(negative) => !negative
    case Finite(x) => x > bound as real
  }

  predicate Below(f: Float, bound: int) {
    match f
    case NaN => false
    case Infinite(negative) => negative
    case Finite(x) => x < bound as real
  }

  const TWO_53 := 0x20_0000_0000_0000

  function Pow2(n: nat): (p: nat)
    ensures p > 0
  {
    if n == 0 then 1 else 2 * Pow2(n - 1)
  }

  /** The distance between neighbouring floating-point numbers near n: 53 bits are kept. */
  function Spacing(n: nat): (u: nat)
    ensures u > 0
  {
    if n < TWO_53 then 1 else 2 * Spacing(n / 2)
  }

  lemma {:induction false} SpacingIsPower(n: nat)
    ensures exists k: nat :: Spacing(n) == Pow2(k)
    decreases n
  {
    if n < TWO_53 {
      assert Spacing(n) == Pow2(0);
    } else {
      SpacingIsPower(n / 2);
      var k: nat :| Spacing(n / 2) == Pow2(k);
      assert Spacing(n) == Pow2(k + 1);
    }
  }

  /** To the nearest multiple of the spacing, and to the even one from halfway. */
  function Nearest(n: nat): nat {
    var u := Spacing(n);
    var q, rest := n / u, n % u;
    if 2 * rest < u || (2 * rest == u && q % 2 == 0) then Times(q, u) else Times(q + 1, u)
  }

  /** It is a multiple of the spacing, and at most half of it away. */
  lemma NearestIsClose(n: nat)
    ensures exists q: nat :: Nearest(n) == Times(q, Spacing(n))
    ensures -(Spacing(n) as int) <= 2 * (Nearest(n) - n) <= Spacing(n)
  {
    var u := Spacing(n);
    var q, rest := n / u, n % u;
    Division(n, u);
    OneMore(q, u);
    assert Nearest(n) == Times(q, u) || Nearest(n) == Times(q + 1, u);
  }

  /** From halfway it is the even multiple. */
  lemma NearestIsEven(n: nat)
    requires 2 * (n % Spacing(n)) == Spacing(n)
    ensures exists q: nat :: q % 2 == 0 && Nearest(n) == Times(q, Spacing(n))
  {
    hide Spacing, Times;
    var q := n / Spacing(n);
    assert if q % 2 == 0 then Nearest(n) == Times(q, Spacing(n)) else Nearest(n) == Times(q + 1, Spacing(n));
  }

  function Times(q: nat, u: nat): nat {
    q * u
  }

  lemma Division(n: nat, u: nat)
    requires u > 0
    ensures n == Times(n / u, u) + n % u
  {
  }

  lemma OneMore(q: nat, u: nat)
    ensures Times(q + 1, u) == Times(q, u) + u
  {
  }

  /** From this number on, 2^1024 - 2^970, the nearest floating-point number is infinite. */
  const OVERFLOW: nat := 0x3F_FFFF_FFFF_FFFF * Pow2(970)

  /** The floating-point number nearest to an integer. */
  function FloatOf(n: int): Float {
    var size: nat := if n < 0 then -n else n;
    if size >= OVERFLOW then Infinite(n < 0)
    else Finite(if n < 0 then -(Nearest(size) as real) else Nearest(size) as real)
  }

  lemma {:induction false} SpacingOfLarge(n: nat)
    requires n >= TWO_53
    ensures Spacing(n) >= 2 && TWO_53 / 2 <= n / Spacing(n) < TWO_53
    decreases n
  {
    if n / 2 >= TWO_53 {
      SpacingOfLarge(n / 2);
    }
    HalfFirst(n, Spacing(n / 2));
  }

  lemma HalfFirst(n: nat, u: nat)
    requires u > 0
    ensures n / (2 * u) == (n / 2) / u
  {
    var q, r := (n / 2) / u, (n / 2) % u;
    assert n / 2 == q * u + r;
    var rest := 2 * r + n % 2;
    assert n == q * (2 * u) + rest && 0 <= rest < 2 * u;
    Quotient(n, 2 * u, q, rest);
  }

  lemma Quotient(n: nat, d: nat, q: nat, r: nat)
    requires d > 0 && n == q * d + r && r < d
    ensures n / d == q
  {
    var other, rest := n / d, n % d;
    assert other * d + rest == q * d + r;
    if other < q {
      Apart(other, q, d);
    } else if q < other {
      Apart(q, other, d);
    }
  }

  lemma Apart(small: nat, large: nat, d: nat)
    requires small < large
    ensures small * d + d <= large * d
  {
    var more: nat := large - small - 1;
    calc {
      large * d;
      (small + 1 + more) * d;
      small * d + d + more * d;
    }
  }

  /** Small integers are kept as they are, and large ones stay large. */
  lemma NearestOf(n: nat)
    ensures n <= TWO_53 ==> Nearest(n) == n
    ensures n >= TWO_53 ==> Nearest(n) >= TWO_53
  {
    if n == TWO_53 {
      assert Spacing(n / 2) == 1;
      assert Spacing(n) == 2;
    } else if n > TWO_53 {
      var u := Spacing(n);
      SpacingOfLarge(n);
      Product(n / u, u);
    }
  }

  lemma Product(q: nat, u: nat)
    requires q >= TWO_53 / 2 && u >= 2
    ensures q * u >= TWO_53 && (q + 1) * u >= TWO_53
  {
    assert q * u >= q * 2;
    assert (q + 1) * u == q * u + u;
  }

  lemma OverflowIsLarge()
    ensures OVERFLOW > TWO_53
  {
    hide Pow2;
    Multiple(0x3F_FFFF_FFFF_FFFF, Pow2(970));
  }

  lemma Multiple(a: nat, b: nat)
    requires b > 0
    ensures a * b >= a
  {
  }

  /** What comparing a converted integer with an exactly representable bound decides. */
  lemma FloatOfCompares(n: int, bound: int)
    requires -TWO_53 < bound < TWO_53
    ensures Above(FloatOf(n), bound) <==> n > bound
    ensures Below(FloatOf(n), bound) <==> n < bound
    ensures -TWO_53 <= n <= TWO_53 ==> FloatOf(n) == Finite(n as real)
  {
    OverflowIsLarge();
    NearestOf(if n < 0 then -n else n);
  }

  // ------------------------------------------------------------------ saturation

  datatype ClampKind = Overflow | Underflow | NotANumber

  datatype Clamp = Clamp(kind: ClampKind, original: Float, clamped: int)

  datatype Result = Quota(quota: int) | Rejected(clamp: Clamp)

  function Truncate(x: real): int {
    if x >= 0.0 then x.Floor else -((-x).Floor)
  }

  function Saturate(f: Float, max: int, min: int): (int, Option<Clamp>) {
    if f.NaN? then (0, Some(Clamp(NotANumber, f, 0)))
    else if Above(f, max) then (max, Some(Clamp(Overflow, f, max)))
    else if Below(f, min) then (min, Some(Clamp(Underflow, f, min)))
    else (Truncate(f.value), None)
  }

  function Strict(checked: (int, Option<Clamp>)): Result {
    match checked.1
    case Some(clamp) => Rejected(clamp)
    case None => Quota(checked.0)
  }

  function FromFloat(f: Float): (int, Option<Clamp>) {
    Saturate(f, MAX_QUOTA, MIN_QUOTA)
  }

  /** To the nearest integer, halves away from zero. */
  function Round(x: real): int {
    if x >= 0.0 then (x + 0.5).Floor else -((-x + 0.5).Floor)
  }

  function RoundFloat(f: Float): Float {
    match f
    case Finite(x) => Finite(Round(x) as real)
    case _ => f
  }

  function FromRounded(f: Float): (int, Option<Clamp>) {
    FromFloat(RoundFloat(f))
  }

  function FromDecimal(d: real): (int, Option<Clamp>) {
    FromFloat(FloatOf(Round(d)))
  }

  function WalletFromDecimal(d: real): Result {
    Strict(Saturate(FloatOf(Round(d)), MAX_WALLET_QUOTA, -MAX_WALLET_QUOTA))
  }

  // ------------------------------------------------------------------ properties

  function Abs(x: real): real {
    if x < 0.0 then -x else x
  }

  function Bounded(n: int, max: int, min: int): int {
    if n > max then max else if n < min then min else n
  }

  /** Rounding gives the one nearest integer, and of two the one further from zero. */
  lemma RoundIsNearest(x: real, n: int)
    ensures n == Round(x) <==>
      Abs(x - n as real) < 0.5 || (Abs(x - n as real) == 0.5 && Abs(n as real) > Abs(x))
  {
    var y := Abs(x) + 0.5;
    var r := y.Floor;
    assert r as real <= y < r as real + 1.0;
    var m := if x >= 0.0 then n else -n;
    assert n == Round(x) <==> m == r;
    assert Abs(x - n as real) == Abs(Abs(x) - m as real);
    if m < r {
      assert m as real <= r as real - 1.0;
    } else if m > r {
      assert m as real >= r as real + 1.0;
    }
  }

  /** Truncating goes to the integer next to a value on the side of zero. */
  lemma TruncateIs(x: real, n: int)
    ensures n == Truncate(x) <==>
      Abs(n as real) <= Abs(x) < Abs(n as real) + 1.0 && (x >= 0.0 ==> n >= 0) && (x < 0.0 ==> n <= 0)
  {
    var m := Abs(x).Floor;
    assert m as real <= Abs(x) < m as real + 1.0;
    var k := if n < 0 then -n else n;
    assert Abs(n as real) == k as real;
    if k < m {
      assert k as real + 1.0 <= m as real;
    } else if k > m {
      assert k as real >= m as real + 1.0;
    }
  }

  lemma TruncateBetween(x: real, max: int, min: int)
    requires min <= 0 <= max
    ensures x > max as real ==> Truncate(x) >= max
    ensures x < min as real ==> Truncate(x) <= min
    ensures min as real <= x <= max as real ==> min <= Truncate(x) <= max
  {
  }

  /**
   Every conversion yields a quota in bounds: the truncated value brought into them. A clamp
   is recorded exactly when the value itself was out of bounds or not a number.
   */
  lemma SaturateIs(f: Float, max: int, min: int)
    requires min <= 0 <= max
    ensures var (quota, clamp) := Saturate(f, max, min);
      && min <= quota <= max
      && (clamp.None? <==> f.Finite? && min as real <= f.value <= max as real)
      && (clamp.Some? ==> clamp.value.original == f && clamp.value.clamped == quota)
      && (f.NaN? ==> clamp.Some? && clamp.value.kind == NotANumber)
      && (f.Infinite? ==> clamp.Some? && clamp.value.kind == if f.negative then Underflow else Overflow)
      && (f.Finite? && clamp.Some? ==> clamp.value.kind == if f.value > max as real then Overflow else Underflow)
      && (f.Finite? ==> quota == Bounded(Truncate(f.value), max, min))
      && (f.NaN? ==> quota == 0)
      && (f.Infinite? ==> quota == if f.negative then min else max)
  {
    if f.Finite? {
      TruncateBetween(f.value, max, min);
    }
  }

  /** A larger price never becomes a smaller quota. */
  lemma SaturateIsMonotone(x: real, y: real, max: int, min: int)
    requires min <= 0 <= max && x <= y
    ensures Saturate(Finite(x), max, min).0 <= Saturate(Finite(y), max, min).0
  {
    SaturateIs(Finite(x), max, min);
    SaturateIs(Finite(y), max, min);
    TruncateIsMonotone(x, y);
  }

  lemma TruncateIsMonotone(x: real, y: real)
    requires x <= y
    ensures Truncate(x) <= Truncate(y)
  {
  }

  lemma SaturateInteger(n: int, max: int, min: int)
    requires -TWO_53 < min <= 0 <= max < TWO_53
    ensures var (quota, clamp) := Saturate(FloatOf(n), max, min);
      quota == Bounded(n, max, min) && (clamp.Some? <==> n > max || n < min)
  {
    FloatOfCompares(n, max);
    FloatOfCompares(n, min);
    SaturateIs(FloatOf(n), max, min);
  }

  /** A decimal price is its rounded value clamped to 32 bits, recorded exactly when out of range. */
  lemma FromDecimalIs(d: real)
    ensures var (quota, clamp) := FromDecimal(d);
      && (Round(d) > 2147483647 ==> quota == 2147483647) && (Round(d) < -2147483648 ==> quota == -2147483648)
      && (-2147483648 <= Round(d) <= 2147483647 ==> quota == Round(d))
      && (clamp.Some? <==> Round(d) > 2147483647 || Round(d) < -2147483648)
  {
    SaturateInteger(Round(d), MAX_QUOTA, MIN_QUOTA);
  }

  /** A wallet value is accepted exactly when its rounded value is in the safe range, and is then exact. */
  lemma WalletIsExact(d: real)
    ensures WalletFromDecimal(d).Quota? <==> -9007199254740991 <= Round(d) <= 9007199254740991
    ensures WalletFromDecimal(d).Quota? ==> WalletFromDecimal(d).quota == Round(d)
  {
    SaturateInteger(Round(d), MAX_WALLET_QUOTA, -MAX_WALLET_QUOTA);
  }

  /** One integer further and the floating-point step is no longer exact. */
  lemma BeyondIsInexact()
    ensures FloatOf(TWO_53 + 1) == FloatOf(TWO_53)
  {
    hide Pow2;
    OverflowIsLarge();
    assert Spacing(TWO_53 / 2) == 1;
    assert Spacing(TWO_53) == 2 && Spacing(TWO_53 + 1) == 2;
  }

  /** A price gives the same quota and the same clamp as a floating-point number and as a decimal. */
  lemma RoundingAgrees(x: real)
    ensures FromRounded(Finite(x)).0 == FromDecimal(x).0
    ensures match (FromRounded(Finite(x)).1, FromDecimal(x).1)
      case (None, None) => true
      case (Some(a), Some(b)) =>
        a.kind == b.kind && a.clamped == b.clamped && (-TWO_53 <= Round(x) <= TWO_53 ==> a.original == b.original)
      case _ => false
  {
    FromDecimalIs(x);
    FloatOfCompares(Round(x), MAX_QUOTA);
    FloatOfCompares(Round(x), MIN_QUOTA);
    SaturateIs(RoundFloat(Finite(x)), MAX_QUOTA, MIN_QUOTA);
    assert Truncate(Round(x) as real) == Round(x);
  }

  /** Strict conversion gives the checked quota if it was not clamped, and otherwise the clamp. */
  lemma StrictIs(f: Float)
    ensures Strict(FromFloat(f)).Quota? <==> f.Finite? && -2147483648.0 <= f.value <= 2147483647.0
    ensures Strict(FromFloat(f)).Quota? ==> Strict(FromFloat(f)).quota == Truncate(f.value)
    ensures Strict(FromFloat(f)).Rejected? ==> Some(Strict(FromFloat(f)).clamp) == FromFloat(f).1
  {
    SaturateIs(f, MAX_QUOTA, MIN_QUOTA);
  }

  /** Strict conversion of a decimal, and of a rounded float, gives the rounded value exactly in the 32-bit range. */
  lemma StrictRoundsExactly(x: real)
    ensures Strict(FromDecimal(x)).Quota? <==> -2147483648 <= Round(x) <= 2147483647
    ensures Strict(FromDecimal(x)).Quota? ==> Strict(FromDecimal(x)).quota == Round(x)
    ensures Strict(FromRounded(Finite(x))).Quota? <==> -2147483648 <= Round(x) <= 2147483647
    ensures Strict(FromRounded(Finite(x))).Quota? ==> Strict(FromRounded(Finite(x))).quota == Round(x)
  {
    FromDecimalIs(x);
    RoundingAgrees(x);
  }
}
