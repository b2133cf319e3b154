/** Fixed-point decimals (types/decimal.go).  A Dec is the integer that is 10^18 times its
    value. */
module Decimals {
  import opened CoinLists

  const PRECISION: nat := 18
  const ONE: nat := 1_000_000_000_000_000_000

  /** 2^315: more bits panic. */
  const DEC_LIMIT: nat := 0x8_000000_0000000000000000_0000000000000000_0000000000000000_0000000000000000_00000000

  predicate Fits(d: int) {
    Abs(d) < DEC_LIMIT
  }

  function Checked(d: int): Outcome<int> {
    if Fits(d) then Ok(d) else Panic
  }

  /** big.Int.Quo: division that truncates towards zero. */
  function Quotient(a: int, b: int): int
    requires b != 0
  {
    if (a < 0) == (b < 0) then Abs(a) / Abs(b) else -(Abs(a) / Abs(b))
  }

  /** Division towards zero: the quotient has the right sign, and its product with the
      divisor does not exceed the dividend but comes closer than the divisor. */
  lemma QuotientTruncates(a: int, b: int)
    requires b != 0
    ensures var q := Quotient(a, b);
            && Abs(q) * Abs(b) <= Abs(a) < (Abs(q) + 1) * Abs(b)
            && (q > 0 ==> (a > 0 <==> b > 0)) && (q < 0 ==> (a > 0 <==> b < 0))
  {
    DivisionBounds(Abs(a), Abs(b));
  }

  lemma DivisionBounds(n: nat, m: nat)
    requires m > 0
    ensures 0 <= n / m && n / m * m <= n < (n / m + 1) * m
  {
    assert n == n / m * m + n % m;
    assert (n / m + 1) * m == n / m * m + m;
  }

  // ----- chopping digits off

  function ChopAndRound(d: int): int
    decreases if d < 0 then 1 else 0
  {
    if d < 0 then -ChopAndRound(-d)
    else
      var quo, rem := d / ONE, d % ONE;
      if rem == 0 then quo
      else if rem < ONE / 2 then quo
      else if rem > ONE / 2 then quo + 1
      else if quo % 2 == 0 then quo
      else quo + 1
  }

  function ChopAndTruncate(d: int): int {
    Quotient(d, ONE)
  }

  /** `q` is the integer nearest to x/m, and the even one of two that are equally near. */
  predicate NearestEven(x: int, m: nat, q: int) {
    2 * Abs(x - q * m) <= m && (2 * Abs(x - q * m) == m ==> q % 2 == 0)
  }

  lemma MulMonotone(a: int, b: int, m: nat)
    requires a >= b
    ensures a * m >= b * m
  {}

  lemma AbsMul(a: int, b: int)
    ensures Abs(a * b) == Abs(a) * Abs(b)
  {
    if a < 0 {
      assert a * b == -(Abs(a) * b);
      assert b < 0 ==> Abs(a) * b == -(Abs(a) * Abs(b));
    } else {
      assert b < 0 ==> a * b == -(a * Abs(b));
    }
  }

  lemma Gap(q: int, r: int, m: nat)
    ensures r - q >= 2 ==> r * m - q * m >= 2 * m
    ensures r - q == 1 ==> r * m - q * m == m
  {
    assert r * m - q * m == (r - q) * m;
    if r - q >= 2 { MulMonotone(r - q, 2, m); }
  }

  lemma NearestEvenOrder(x: int, m: nat, q: int, r: int)
    requires m > 0 && NearestEven(x, m, q) && NearestEven(x, m, r)
    ensures q >= r
  {
    Gap(q, r, m);
  }

  /** There is only one such integer. */
  lemma NearestEvenUnique(x: int, m: nat, q: int, r: int)
    requires m > 0 && NearestEven(x, m, q) && NearestEven(x, m, r)
    ensures q == r
  {
    NearestEvenOrder(x, m, q, r);
    NearestEvenOrder(x, m, r, q);
  }

  /** Banker's rounding. */
  lemma ChopAndRoundIsNearest(d: int)
    ensures NearestEven(d, ONE, ChopAndRound(d))
    ensures ChopAndRound(-d) == -ChopAndRound(d)
  {
    ChopNonNegative(Abs(d));
    assert d < 0 ==> (-ChopAndRound(-d)) * ONE == -(ChopAndRound(-d) * ONE);
  }

  lemma ChopNonNegative(d: nat)
    ensures NearestEven(d, ONE, ChopAndRound(d))
  {}

  lemma ChopExact(k: int)
    ensures ChopAndRound(k * ONE) == k
  {
    ChopAndRoundIsNearest(k * ONE);
    NearestEvenUnique(k * ONE, ONE, k, ChopAndRound(k * ONE));
  }

  // ----- multiplication and division

  function Mul(d: int, d2: int): (r: Outcome<int>)
  {
    Checked(ChopAndRound(d * d2))
  }

  /** The product is the nearest decimal, ties going to the even one, and odd in its sign. */
  lemma MulIsNearest(d: int, d2: int)
    ensures var r := Mul(d, d2);
            && (r.Ok? ==> NearestEven(d * d2, ONE, r.value))
            && (r.Panic? <==> forall q :: NearestEven(d * d2, ONE, q) ==> !Fits(q))
            && Mul(-d, d2) == (if r.Ok? then Ok(-r.value) else Panic)
  {
    var x := d * d2;
    ChopAndRoundIsNearest(x);
    assert (-d) * d2 == -x;
    forall q | NearestEven(x, ONE, q) ensures q == ChopAndRound(x) {
      NearestEvenUnique(x, ONE, q, ChopAndRound(x));
    }
  }

  function Scaled(d: int): int {
    d * ONE * ONE
  }

  function QuoTruncate(d: int, d2: int): Outcome<int> {
    if d2 == 0 then Panic else Checked(ChopAndTruncate(Quotient(Scaled(d), d2)))
  }

  lemma DivideTwice(x: nat, y: nat, m: nat)
    requires y > 0 && m > 0
    ensures (x * m / y) / m == x / y
  {
    ScaledRemainder(x, y, m);
    NestedDivision(x * m, x / y, x % y * m, y, m);
  }

  lemma NestedDivision(x: nat, q: nat, r: nat, y: nat, m: nat)
    requires y > 0 && m > 0 && x == q * m * y + r && r < m * y
    ensures x / y / m == q
  {
    DivideSum(q * m, r, y);
    DivideBelow(r, m, y);
    DivisionUnique(q * m + r / y, m, q, r / y);
  }

  lemma ScaledRemainder(x: nat, y: nat, m: nat)
    requires y > 0 && m > 0
    ensures x * m == x / y * m * y + x % y * m && 0 <= x % y * m < m * y
  {
    var q, r := x / y, x % y;
    assert x * m == (q * y + r) * m == q * y * m + r * m;
    assert q * y * m == q * m * y;
    MulMonotone(y - 1, r, m);
    assert (y - 1) * m == m * y - m;
  }

  lemma DivideSum(a: nat, b: nat, y: nat)
    requires y > 0
    ensures (a * y + b) / y == a + b / y
  {
    var q, r := b / y, b % y;
    assert a * y + b == (a + q) * y + r;
    DivisionUnique(a * y + b, y, a + q, r);
  }

  lemma DivisionUnique(x: int, y: int, q: int, r: int)
    requires y > 0 && x == q * y + r && 0 <= r < y
    ensures x / y == q && x % y == r
  {
    var q', r' := x / y, x % y;
    assert x == q' * y + r';
    assert (q - q') * y == r' - r;
    assert q - q' >= 1 ==> (q - q') * y >= y;
    assert q - q' <= -1 ==> (q - q') * y <= -y;
  }

  lemma DivideBelow(a: nat, m: nat, y: nat)
    requires y > 0 && a < m * y
    ensures a / y < m
  {
    var q := a / y;
    assert q * y <= a;
    assert q >= m ==> q * y >= m * y;
  }

  /** The two-stage truncation is the direct one. */
  lemma QuoTruncateIsDirect(d: int, d2: int)
    requires d2 != 0
    ensures QuoTruncate(d, d2) == Checked(Quotient(d * ONE, d2))
  {
    DivideTwice(Abs(d) * ONE, Abs(d2), ONE);
    assert Abs(d * ONE) == Abs(d) * ONE && Abs(Scaled(d)) == Abs(d) * ONE * ONE;
    var t := Abs(Scaled(d)) / Abs(d2);
    assert Abs(Quotient(Scaled(d), d2)) == t;
    assert Abs(ChopAndTruncate(Quotient(Scaled(d), d2))) == t / ONE;
  }

  function Quo(d: int, d2: int): Outcome<int> {
    if d2 == 0 then Panic else Checked(ChopAndRound(Quotient(Scaled(d), d2)))
  }

  lemma SignedMul(q: int, b: int)
    ensures q * b == if b < 0 then -(q * Abs(b)) else q * Abs(b)
    ensures (-q) * b == -(q * b)
  {}

  /** Truncation loses less than the divisor. */
  lemma QuotientError(a: int, b: int)
    requires b != 0
    ensures Abs(Quotient(a, b) * b - a) < Abs(b)
  {
    var q, m := Abs(a) / Abs(b), Abs(a) % Abs(b);
    var p := q * Abs(b);
    assert Abs(a) == p + m && 0 <= m < Abs(b);
    SignedMul(q, b);
    assert Quotient(a, b) == if (a < 0) == (b < 0) then q else -q;
    var s := Quotient(a, b) * b;
    assert s == if a < 0 then -p else p;
  }

  /** The quotient is within half a last-place unit plus 10^-18 of one. */
  lemma QuoError(d: int, d2: int)
    ensures Quo(d, d2).Ok? ==> Abs(2 * (Quo(d, d2).value * d2 - d * ONE)) * ONE <= (ONE + 2) * Abs(d2)
  {
    if d2 != 0 {
      var t := Quotient(Scaled(d), d2);
      var r := ChopAndRound(t);
      ChopAndRoundIsNearest(t);
      QuotientError(Scaled(d), d2);
      QuoErrorSum(r, t, d, d2);
    }
  }

  lemma HalfProduct(e: int, y: int, m: nat)
    requires 2 * Abs(e) <= m
    ensures 2 * Abs(e * y) <= m * Abs(y)
  {
    AbsMul(e, y);
    MulMonotone(m, 2 * Abs(e), Abs(y));
    assert 2 * Abs(e) * Abs(y) == 2 * (Abs(e) * Abs(y));
  }

  lemma QuoErrorSum(r: int, t: int, d: int, d2: int)
    requires 2 * Abs(t - r * ONE) <= ONE && Abs(t * d2 - Scaled(d)) < Abs(d2)
    ensures Abs(2 * (r * d2 - d * ONE)) * ONE <= (ONE + 2) * Abs(d2)
  {
    var e := r * ONE - t;
    HalfProduct(e, d2, ONE);
    assert e * d2 == r * d2 * ONE - t * d2;
    var f := t * d2 - Scaled(d);
    var g := r * d2 - d * ONE;
    assert g * ONE == e * d2 + f;
    assert Abs(g) * ONE == Abs(g * ONE);
  }

  // ----- to integers

  function ToInt(i: int): Outcome<int> {
    if Abs(i) < INT_LIMIT then Ok(i) else Panic
  }

  function TruncateInt(d: int): Outcome<int> {
    ToInt(ChopAndTruncate(d))
  }

  function RoundInt(d: int): Outcome<int> {
    ToInt(ChopAndRound(d))
  }

  /** Every decimal in range has an integer part in range. */
  lemma IntegersFit(d: int)
    requires Fits(d)
    ensures TruncateInt(d) == Ok(Quotient(d, ONE))
    ensures RoundInt(d).Ok? && NearestEven(d, ONE, RoundInt(d).value)
  {
    ChopAndRoundIsNearest(d);
    assert DEC_LIMIT == INT_LIMIT * 0x800_0000_0000_0000;
    assert 0x800_0000_0000_0000 < ONE;
  }

  // ----- powers

  function Pow(k: int, n: nat): int {
    if n == 0 then 1 else k * Pow(k, n - 1)
  }

  lemma {:induction false} PowSum(k: int, m: nat, n: nat)
    ensures Pow(k, m + n) == Pow(k, m) * Pow(k, n)
  {
    if m > 0 {
      PowSum(k, m - 1, n);
      assert k * (Pow(k, m - 1) * Pow(k, n)) == k * Pow(k, m - 1) * Pow(k, n);
    }
  }

  /** An Int has at most 256 bits and a Dec at most 59 more. */
  lemma LimitsInBits()
    ensures INT_LIMIT == Pow(2, 256) && DEC_LIMIT == Pow(2, 315)
    ensures forall d :: Fits(d) <==> -Pow(2, 315) < d < Pow(2, 315)
    ensures forall i :: ToInt(i).Ok? <==> -Pow(2, 256) < i < Pow(2, 256)
  {
    hide Pow;
    SmallPowers();
    PowSum(2, 8, 8);
    PowSum(2, 16, 16);
    PowSum(2, 32, 32);
    PowSum(2, 64, 64);
    PowSum(2, 128, 128);
    PowSum(2, 32, 16);
    PowSum(2, 48, 8);
    PowSum(2, 56, 3);
    PowSum(2, 256, 59);
  }

  lemma SmallPowers()
    ensures Pow(2, 3) == 8 && Pow(2, 8) == 256
  {
    assert Pow(2, 2) == 4;
    PowSum(2, 3, 3);
    PowSum(2, 6, 2);
  }

  lemma {:induction false} PowNonzero(k: int, n: nat)
    requires k != 0
    ensures Pow(k, n) != 0
  {
    if n > 0 { PowNonzero(k, n - 1); }
  }

  /** Higher powers of an integer are not smaller. */
  lemma {:induction false} PowGrows(k: int, m: nat, n: nat)
    requires m <= n && k != 0
    ensures Abs(Pow(k, m)) <= Abs(Pow(k, n))
    decreases n
  {
    if m < n {
      PowGrows(k, m, n - 1);
      AbsMul(k, Pow(k, n - 1));
      MulMonotone(Abs(k), 1, Abs(Pow(k, n - 1)));
    }
  }

  lemma MulWhole(k: int, l: int)
    ensures Mul(k * ONE, l * ONE) == Checked(k * l * ONE)
  {
    assert k * ONE * (l * ONE) == k * l * ONE * ONE;
    ChopExact(k * l * ONE);
  }

  // ----- powers of numbers that are not whole

  /** `x` is the n-th power of d/p, scaled by p, up to n-1 halves of a last-place unit. */
  ghost predicate Close(p: nat, d: int, n: nat, x: int) {
    n > 0 && Abs(x) <= p && 2 * Abs(x * Pow(p, n - 1) - Pow(d, n)) <= (n - 1) * Pow(p, n - 1)
  }

  lemma {:induction false} PowBound(p: nat, d: int, n: nat)
    requires Abs(d) <= p
    ensures Abs(Pow(d, n)) <= Pow(p, n)
  {
    if n > 0 {
      PowBound(p, d, n - 1);
      AbsMul(d, Pow(d, n - 1));
      MulMonotone(p, Abs(d), Abs(Pow(d, n - 1)));
      MulMonotone(Pow(p, n - 1), Abs(Pow(d, n - 1)), p);
    }
  }

  lemma ProductBound(x: int, y: int, m: nat, n: nat)
    requires Abs(x) <= m && Abs(y) <= n
    ensures Abs(x * y) <= m * n
  {
    AbsMul(x, y);
    MulMonotone(m, Abs(x), Abs(y));
    MulMonotone(n, Abs(y), m);
  }

  lemma FirstTerm(p: nat, A: nat, B: nat, e: int)
    requires 2 * Abs(e) <= p
    ensures 2 * Abs(e * (A * B)) <= p * A * B
  {
    ProductBound(2 * e, A * B, p, A * B);
    assert 2 * e * (A * B) == 2 * (e * (A * B)) && p * (A * B) == p * A * B;
  }

  lemma SecondTerm(p: nat, A: nat, B: nat, x: int, e: int, t: nat)
    requires Abs(x) <= p && 2 * Abs(e) <= t * B
    ensures 2 * Abs(x * A * e) <= t * (p * A * B)
  {
    ProductBound(x, A, p, A);
    ProductBound(x * A, 2 * e, p * A, t * B);
    assert x * A * (2 * e) == 2 * (x * A * e);
    assert p * A * (t * B) == t * (p * A * B);
  }

  lemma ThirdTerm(p: nat, A: nat, B: nat, y: int, e: int, s: nat)
    requires Abs(y) <= p * B && 2 * Abs(e) <= s * A
    ensures 2 * Abs(y * e) <= s * (p * A * B)
  {
    ProductBound(y, 2 * e, p * B, s * A);
    assert y * (2 * e) == 2 * (y * e);
    assert p * B * (s * A) == s * (p * A * B);
  }

  /** Rounding errors add up: the product of approximations `x` and `y` of X/A and Y/B. */
  lemma ErrorOfProduct(p: nat, A: nat, B: nat, X: int, Y: int, x: int, y: int, z: int, s: nat, t: nat)
    ensures Abs(x) <= p && Abs(Y) <= p * B && 2 * Abs(z * p - x * y) <= p
            && 2 * Abs(x * A - X) <= s * A && 2 * Abs(y * B - Y) <= t * B ==>
              2 * Abs(z * (p * A * B) - X * Y) <= (s + t + 1) * (p * A * B)
  {
    var e1, e2, e3 := x * A - X, y * B - Y, z * p - x * y;
    if Abs(x) <= p && Abs(Y) <= p * B && 2 * Abs(e3) <= p && 2 * Abs(e1) <= s * A && 2 * Abs(e2) <= t * B {
      SplitError(p, A, B, X, Y, x, y, z);
      FirstTerm(p, A, B, e3);
      SecondTerm(p, A, B, x, e2, t);
      ThirdTerm(p, A, B, Y, e1, s);
      AddTerms(z * (p * A * B) - X * Y, e3 * (A * B), x * A * e2, Y * e1, p * A * B, s, t);
    }
  }

  lemma AddTerms(sum: int, u: int, v: int, w: int, whole: int, s: nat, t: nat)
    requires sum == u + v + w && 2 * Abs(u) <= whole && 2 * Abs(v) <= t * whole && 2 * Abs(w) <= s * whole
    ensures 2 * Abs(sum) <= (s + t + 1) * whole
  {
    assert (s + t + 1) * whole == s * whole + t * whole + whole;
  }

  lemma SplitError(p: nat, A: nat, B: nat, X: int, Y: int, x: int, y: int, z: int)
    ensures z * (p * A * B) - X * Y == (z * p - x * y) * (A * B) + x * A * (y * B - Y) + Y * (x * A - X)
  {
    assert (z * p - x * y) * (A * B) == z * (p * A * B) - x * A * (y * B);
    assert x * A * (y * B - Y) == x * A * (y * B) - x * A * Y;
    assert Y * (x * A - X) == x * A * Y - X * Y;
  }

  /** A rounded product of scaled numbers of at most one stays at most one. */
  lemma StaysSmall(p: nat, x: int, y: int, z: int)
    requires p > 0 && Abs(x) <= p && Abs(y) <= p && 2 * Abs(z * p - x * y) <= p
    ensures Abs(z) <= p
  {
    ProductBound(x, y, p, p);
    AbsMul(z, p);
    TooLarge(Abs(z), p, Abs(z * p), Abs(x * y));
  }

  lemma TooLarge(z: nat, p: nat, zp: nat, xy: nat)
    requires p > 0 && zp == z * p && xy <= p * p && 2 * zp <= 2 * xy + p
    ensures z <= p
  {
    if z > p { MulMonotone(z, p + 1, p); }
  }

  lemma CloseMul(p: nat, d: int, a: nat, b: nat, x: int, y: int, z: int)
    requires p > 0 && Abs(d) <= p
    ensures Close(p, d, a, x) && Close(p, d, b, y) && 2 * Abs(z * p - x * y) <= p ==> Close(p, d, a + b, z)
  {
    hide Pow;
    if Close(p, d, a, x) && Close(p, d, b, y) && 2 * Abs(z * p - x * y) <= p {
      StaysSmall(p, x, y, z);
      PowBound(p, d, b);
      PowScale(p, a, b);
      PowSum(d, a, b);
      PowBound(p, 0, a - 1);
      PowBound(p, 0, b - 1);
      ErrorOfProduct(p, Pow(p, a - 1), Pow(p, b - 1), Pow(d, a), Pow(d, b), x, y, z, a - 1, b - 1);
    }
  }

  lemma PowScale(p: nat, a: nat, b: nat)
    requires a > 0 && b > 0
    ensures Pow(p, b) == p * Pow(p, b - 1)
    ensures Pow(p, a + b - 1) == p * Pow(p, a - 1) * Pow(p, b - 1)
  {
    PowSum(p, a, b - 1);
    assert Pow(p, a) == p * Pow(p, a - 1);
  }

  lemma CloseStart(p: nat, d: int)
    requires Abs(d) <= p
    ensures Close(p, d, 1, d)
  {
    assert Pow(d, 1) == d * Pow(d, 0);
  }

  /** Mul of decimals of at most one. */
  lemma SmallMul(x: int, y: int)
    requires Abs(x) <= ONE && Abs(y) <= ONE
    ensures Mul(x, y).Ok? && 2 * Abs(Mul(x, y).value * ONE - x * y) <= ONE && Abs(Mul(x, y).value) <= ONE
  {
    ChopAndRoundIsNearest(x * y);
    var z := ChopAndRound(x * y);
    assert 2 * Abs(z * ONE - x * y) <= ONE;
    StaysSmall(ONE, x, y, z);
    assert ONE < DEC_LIMIT;
  }

  /** The same, or exactly one before any factor. */
  ghost predicate CloseFactor(p: nat, d: int, n: nat, x: int) {
    if n == 0 then x == p else Close(p, d, n, x)
  }

  lemma CloseStep(d0: int, a: nat, b: nat, d: int, tmp: int)
    requires Abs(d0) <= ONE && Close(ONE, d0, a, d) && CloseFactor(ONE, d0, b, tmp)
    ensures Mul(tmp, d).Ok? && Close(ONE, d0, b + a, Mul(tmp, d).value)
    ensures Mul(d, tmp) == Mul(tmp, d)
    ensures Mul(d, d).Ok? && Close(ONE, d0, 2 * a, Mul(d, d).value)
  {
    hide Mul, Pow;
    SmallMul(d, d);
    SmallMul(tmp, d);
    CloseMul(ONE, d0, a, a, d, d, Mul(d, d).value);
    MulCommutes(d, tmp);
    if b == 0 {
      MulByOne(d);
    } else {
      CloseMul(ONE, d0, b, a, tmp, d, Mul(tmp, d).value);
    }
  }

  lemma MulCommutes(x: int, y: int)
    ensures Mul(x, y) == Mul(y, x)
  {
    assert x * y == y * x;
  }

  lemma MulByOne(d: int)
    requires Abs(d) <= ONE
    ensures Mul(ONE, d) == Ok(d)
  {
    assert ONE * d == d * ONE;
    ChopExact(d);
  }

  // ----- powers of numbers of at least one

  /** `x` is at least a unit above the n-th power of a number one unit below d/p, and at
      least a unit below that of the number one unit above, all scaled by p. */
  ghost predicate Between(p: nat, d: nat, n: nat, x: int) {
    n > 0 && x >= p && Pow(d - 1, n) <= (x - 1) * Pow(p, n - 1) && (x + 1) * Pow(p, n - 1) <= Pow(d + 1, n)
  }

  lemma BetweenStart(p: nat, d: nat)
    requires d >= p
    ensures Between(p, d, 1, d)
  {
    assert Pow(d - 1, 1) == (d - 1) * Pow(d - 1, 0);
    assert Pow(d + 1, 1) == (d + 1) * Pow(d + 1, 0);
  }

  lemma {:induction false} PowPositive(k: nat, n: nat)
    requires k > 0
    ensures Pow(k, n) > 0
  {
    if n > 0 {
      PowPositive(k, n - 1);
      MulMonotone(k, 1, Pow(k, n - 1));
    }
  }

  lemma {:induction false} PowMonotone(k: nat, l: nat, n: nat)
    requires k <= l
    ensures 0 <= Pow(k, n) <= Pow(l, n)
  {
    if n > 0 {
      PowMonotone(k, l, n - 1);
      MulBounds(k, Pow(k, n - 1), l, Pow(l, n - 1));
    }
  }

  lemma MulBounds(a: nat, b: nat, u: nat, v: nat)
    requires a <= u && b <= v
    ensures 0 <= a * b <= u * v
  {
    MulMonotone(u, a, b);
    MulMonotone(v, b, u);
    MulMonotone(a, 0, b);
  }

  /** The rounded product of numbers of at least one, and the room around it. */
  lemma RoundedProduct(p: nat, x: int, y: int, z: int)
    requires p >= 2 && x >= p && y >= p && 2 * Abs(z * p - x * y) <= p
    ensures z >= p && (z + 1) * p <= (x + 1) * (y + 1) && (x - 1) * (y - 1) <= (z - 1) * p
  {
    MulBounds(p, p, x, y);
    assert (x + 1) * (y + 1) == x * y + x + y + 1;
    assert (x - 1) * (y - 1) == x * y - x - y + 1;
    assert (z + 1) * p == z * p + p && (z - 1) * p == z * p - p;
    assert (p - 1) * p == p * p - p;
    if z < p { MulMonotone(p - 1, z, p); }
  }

  lemma Regroup(u: int, v: int, A: int, B: int)
    ensures u * A * (v * B) == u * v * (A * B)
  {
    assert u * A * (v * B) == u * A * v * B;
    assert u * A * v == u * v * A;
    assert u * v * A * B == u * v * (A * B);
  }

  lemma Reassociate(w: int, p: int, A: int, B: int)
    ensures w * p * (A * B) == w * (p * A * B)
  {
    assert w * p * (A * B) == w * (p * (A * B));
    assert p * (A * B) == p * A * B;
  }

  /** The bounds of a product, from those of its factors. */
  lemma ProductBelow(A: nat, B: nat, X: nat, Y: nat, u: nat, v: nat, w: nat, p: nat)
    requires X <= u * A && Y <= v * B && u * v <= w * p
    ensures X * Y <= w * (p * A * B)
  {
    MulBounds(X, Y, u * A, v * B);
    Regroup(u, v, A, B);
    MulBounds(u * v, A * B, w * p, A * B);
    Reassociate(w, p, A, B);
  }

  lemma ProductAbove(A: nat, B: nat, X: nat, Y: nat, u: nat, v: nat, w: nat, p: nat)
    requires u * A <= X && v * B <= Y && w * p <= u * v
    ensures w * (p * A * B) <= X * Y
  {
    MulBounds(u * A, v * B, X, Y);
    Regroup(u, v, A, B);
    MulBounds(w * p, A * B, u * v, A * B);
    Reassociate(w, p, A, B);
  }

  lemma BetweenMul(p: nat, d: nat, a: nat, b: nat, x: int, y: int, z: int)
    requires 2 <= p <= d
    ensures Between(p, d, a, x) && Between(p, d, b, y) && 2 * Abs(z * p - x * y) <= p ==> Between(p, d, a + b, z)
  {
    hide Pow;
    if Between(p, d, a, x) && Between(p, d, b, y) && 2 * Abs(z * p - x * y) <= p {
      RoundedProduct(p, x, y, z);
      PowScale(p, a, b);
      PowSum(d - 1, a, b);
      PowSum(d + 1, a, b);
      PowPositive(p, a - 1);
      PowPositive(p, b - 1);
      PowMonotone(d - 1, d + 1, a);
      PowMonotone(d - 1, d + 1, b);
      ProductBelow(Pow(p, a - 1), Pow(p, b - 1), Pow(d - 1, a), Pow(d - 1, b), x - 1, y - 1, z - 1, p);
      ProductAbove(Pow(p, a - 1), Pow(p, b - 1), Pow(d + 1, a), Pow(d + 1, b), x + 1, y + 1, z + 1, p);
    }
  }

  /** A power that has reached `w`, `e` digits of the scale aside, stays above it. */
  lemma StaysBeyond(p: nat, d: nat, m: nat, n: nat, e: nat, w: nat, limit: nat)
    requires 0 < p <= d && m <= n && w > limit && Pow(d, m) >= w * Pow(p, e)
    ensures Pow(d, n) > limit * Pow(p, e + (n - m))
  {
    hide Pow;
    PowSum(d, m, n - m);
    PowSum(p, e, n - m);
    PowMonotone(p, d, n - m);
    PowPositive(p, e);
    PowPositive(p, n - m);
    PowPositive(p, e + (n - m));
    var A, B := Pow(p, e), Pow(p, n - m);
    MulBounds(w * A, B, Pow(d, m), Pow(d, n - m));
    assert w * A * B == w * (A * B);
    MulMonotone(w, limit + 1, A * B);
    assert (limit + 1) * (A * B) == limit * (A * B) + A * B;
  }

  /** An intermediate power beyond a limit takes the last one beyond it, too. */
  lemma BeyondLimit(p: nat, d: nat, m: nat, n: nat, x: int, limit: nat)
    requires 0 < p <= d && m <= n && Between(p, d, m, x) && x >= limit
    ensures Pow(d + 1, n) > limit * Pow(p, n - 1)
  {
    hide Pow;
    StaysBeyond(p, d + 1, m, n, m - 1, x + 1, limit);
  }

  /** A power of a decimal of at least one, which may be negative. */
  ghost predicate LargePower(d0: int, n: nat, x: int) {
    Between(ONE, Abs(d0), n, Abs(x)) && (x > 0 <==> d0 > 0 || n % 2 == 0)
  }

  ghost predicate LargeFactor(d0: int, n: nat, x: int) {
    if n == 0 then x == ONE else LargePower(d0, n, x)
  }

  /** The power of the decimal one unit further from zero is out of range. */
  ghost predicate Overflows(d0: int, n: nat) {
    n > 0 && Pow(Abs(d0) + 1, n) > DEC_LIMIT * Pow(ONE, n - 1)
  }

  lemma SignOfProduct(x: int, y: int)
    requires x != 0 && y != 0
    ensures x * y > 0 <==> (x > 0 <==> y > 0)
  {
    MulMonotone(Abs(x), 1, Abs(y));
    assert x * y == if x > 0 <==> y > 0 then Abs(x) * Abs(y) else -(Abs(x) * Abs(y));
  }

  /** `z` is x * y, rounded. */
  ghost predicate Near(x: int, y: int, z: int) {
    2 * Abs(z * ONE - x * y) <= ONE
  }

  lemma RoundedSign(x: int, y: int, z: int)
    requires Abs(x) >= ONE && Abs(y) >= ONE && Near(x, y, z)
    ensures Near(Abs(x), Abs(y), Abs(z))
    ensures z > 0 <==> (x > 0 <==> y > 0)
  {
    AbsMul(x, y);
    AbsMul(z, ONE);
    SignOfProduct(x, y);
    MulBounds(ONE, ONE, Abs(x), Abs(y));
  }

  lemma LargeRounded(d0: int, a: nat, b: nat, x: int, y: int)
    requires Abs(d0) >= ONE && LargePower(d0, a, x) && LargePower(d0, b, y)
    ensures LargePower(d0, a + b, ChopAndRound(x * y))
  {
    hide ChopAndRound, Between, Near;
    BetweenAtLeast(ONE, Abs(d0), a, Abs(x));
    BetweenAtLeast(ONE, Abs(d0), b, Abs(y));
    ChopIsNear(x, y);
    RoundedSign(x, y, ChopAndRound(x * y));
    BetweenNear(Abs(d0), a, b, Abs(x), Abs(y), Abs(ChopAndRound(x * y)));
    Parity(a, b);
  }

  lemma BetweenNear(d: nat, a: nat, b: nat, x: nat, y: nat, z: nat)
    requires d >= ONE && Between(ONE, d, a, x) && Between(ONE, d, b, y) && Near(x, y, z)
    ensures Between(ONE, d, a + b, z)
  {
    hide Between;
    BetweenMul(ONE, d, a, b, x, y, z);
  }

  lemma Parity(a: nat, b: nat)
    ensures (a + b) % 2 == 0 <==> (a % 2 == 0 <==> b % 2 == 0)
  {}

  lemma BetweenAtLeast(p: nat, d: nat, n: nat, x: int)
    requires Between(p, d, n, x)
    ensures n > 0 && x >= p
  {}

  lemma ChopIsNear(x: int, y: int)
    ensures Near(x, y, ChopAndRound(x * y))
  {
    ChopAndRoundIsNearest(x * y);
  }

  lemma LargeMul(d0: int, a: nat, b: nat, x: int, y: int, n: nat)
    requires Abs(d0) >= ONE && LargeFactor(d0, a, x) && LargePower(d0, b, y) && a + b <= n
    ensures var m := Mul(x, y);
            && (m.Ok? ==> LargePower(d0, a + b, m.value))
            && (m.Panic? ==> Overflows(d0, n))
  {
    hide Pow, ChopAndRound;
    if a == 0 {
      assert ONE * y == y * ONE;
      ChopExact(y);
    } else {
      LargeRounded(d0, a, b, x, y);
    }
    if Mul(x, y).Panic? { BeyondLimit(ONE, Abs(d0), a + b, n, Abs(ChopAndRound(x * y)), DEC_LIMIT); }
  }

  /** Where the loop of Power stands: d^i * tmp is the power wanted. */
  ghost predicate Powering(k: int, n: nat, d: int, i: nat, tmp: int, a: nat, b: nat) {
    d == Pow(k, a) * ONE && tmp == Pow(k, b) * ONE && a * i + b == n && a > 0
  }

  /** Power: fast exponentiation.  On whole numbers it is exact, and it panics exactly when
      the true power is out of range.  On numbers of at most one it never panics, and the
      roundings of all multiplications together stay below n-1 halves of a last-place unit.
      On numbers of at least one, up to their sign, the result is strictly between the powers
      of their neighbours, and a panic means that the upper one is out of range. */
  method Power(d0: int, n: nat, ghost k: int) returns (r: Outcome<int>)
    ensures d0 == k * ONE ==> r == Checked(Pow(k, n) * ONE)
    ensures Abs(d0) <= ONE ==> r.Ok? && CloseFactor(ONE, d0, n, r.value)
    ensures Abs(d0) >= ONE && r.Ok? ==> LargeFactor(d0, n, r.value)
    ensures Abs(d0) >= ONE && r.Panic? ==> Overflows(d0, n)
  {
    hide Mul, Close, LargePower, Overflows;
    if n == 0 { return Ok(ONE); }
    var d, tmp, i := d0, ONE, n;
    ghost var whole := d0 == k * ONE;
    ghost var small, large := Abs(d0) <= ONE, Abs(d0) >= ONE;
    ghost var a: nat, b: nat := 1, 0;
    assert Pow(k, 1) == k * Pow(k, 0);
    if small { CloseStart(ONE, d0); }
    if large { LargeStart(d0); }
    while i > 1
      invariant i > 0 && a > 0 && a * i + b == n
      invariant whole ==> Powering(k, n, d, i, tmp, a, b)
      invariant small ==> Close(ONE, d0, a, d) && CloseFactor(ONE, d0, b, tmp)
      invariant large ==> LargePower(d0, a, d) && LargeFactor(d0, b, tmp)
    {
      Halve(i, a, b);
      if small { CloseStep(d0, a, b, d, tmp); }
      if large {
        LargeMul(d0, b, a, tmp, d, n);
        LargeMul(d0, a, a, d, d, n);
      }
      if whole { PowerStep(k, n, i, a, b); }
      if i % 2 != 0 {
        var m := Mul(tmp, d);
        if m.Panic? { return Panic; }
        tmp, b := m.value, b + a;
      }
      i := i / 2;
      var sq := Mul(d, d);
      if sq.Panic? { return Panic; }
      d, a := sq.value, 2 * a;
    }
    if whole { PowerEnd(k, n, a, b); }
    if small { CloseStep(d0, a, b, d, tmp); }
    if large { LargeMul(d0, b, a, tmp, d, n); }
    MulCommutes(d, tmp);
    r := Mul(d, tmp);
  }

  lemma LargeStart(d0: int)
    requires Abs(d0) >= ONE
    ensures LargePower(d0, 1, d0)
  {
    BetweenStart(ONE, Abs(d0));
  }

  /** No intermediate power is out of range unless the last one is. */
  lemma NoEarlyPanic(k: int, m: nat, n: nat)
    requires m <= n && m > 0
    ensures !Fits(Pow(k, m) * ONE) ==> !Fits(Pow(k, n) * ONE)
  {
    if k == 0 {
      assert Pow(0, m) == 0;
    } else {
      PowGrows(k, m, n);
      AbsMul(Pow(k, m), ONE);
      AbsMul(Pow(k, n), ONE);
      MulMonotone(Abs(Pow(k, n)), Abs(Pow(k, m)), ONE);
    }
  }

  lemma Halve(i: nat, a: nat, b: nat)
    requires i > 1
    ensures 2 * a * (i / 2) + (if i % 2 != 0 then b + a else b) == a * i + b
    ensures 2 * a <= a * i
  {
    var h, odd := i / 2, i % 2;
    assert i == 2 * h + odd;
    assert a * (2 * h + odd) == 2 * a * h + a * odd;
    MulMonotone(i, 2, a);
  }

  lemma PowerStep(k: int, n: nat, i: nat, a: nat, b: nat)
    requires i > 1 && a > 0 && a * i + b == n
    ensures Mul(Pow(k, b) * ONE, Pow(k, a) * ONE) == Checked(Pow(k, b + a) * ONE)
    ensures Mul(Pow(k, a) * ONE, Pow(k, a) * ONE) == Checked(Pow(k, 2 * a) * ONE)
    ensures !Fits(Pow(k, b + a) * ONE) ==> !Fits(Pow(k, n) * ONE)
    ensures !Fits(Pow(k, 2 * a) * ONE) ==> !Fits(Pow(k, n) * ONE)
    ensures 2 * a * (i / 2) + (if i % 2 != 0 then b + a else b) == n
  {
    hide Mul, Fits, Pow;
    PowSum(k, b, a);
    PowSum(k, a, a);
    MulWhole(Pow(k, b), Pow(k, a));
    MulWhole(Pow(k, a), Pow(k, a));
    Halve(i, a, b);
    NoEarlyPanic(k, b + a, n);
    NoEarlyPanic(k, 2 * a, n);
  }

  lemma PowerEnd(k: int, n: nat, a: nat, b: nat)
    requires a + b == n
    ensures Mul(Pow(k, a) * ONE, Pow(k, b) * ONE) == Checked(Pow(k, n) * ONE)
  {
    PowSum(k, a, b);
    MulWhole(Pow(k, a), Pow(k, b));
  }
}
