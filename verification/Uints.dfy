/** Unsigned 256-bit integers and the scaled power of types/uint.go. */
module Uints {
  import opened CoinLists
  import opened Decimals

  type Uint = n: nat | n < INT_LIMIT

  /** NewUintFromBigInt: anything out of range panics. */
  function ToUint(i: int): Outcome<Uint> {
    if 0 <= i < INT_LIMIT then Ok(i) else Panic
  }

  lemma DivideShrinks(a: nat, b: nat)
    requires b > 0
    ensures 0 <= a / b <= a
  {
    var q := a / b;
    assert q * b <= a;
    MulMonotone(b, 1, if q >= 0 then q else 0);
  }

  /** Adding half the divisor first rounds to the nearest, and ties up. */
  lemma NearestQuotient(x: nat, b: nat)
    requires b > 0
    ensures var r := (x + b / 2) / b;
            2 * Abs(r * b - x) <= b && (2 * Abs(r * b - x) == b ==> r * b > x)
  {
    var r, rem := (x + b / 2) / b, (x + b / 2) % b;
    assert x + b / 2 == r * b + rem;
  }

  /** x * y / b, rounded to the nearest integer if `half` is half of b. */
  method MulScaled(x: Uint, y: Uint, b: Uint, half: Uint) returns (r: Outcome<Uint>)
    ensures b > 0 && x * y + half < INT_LIMIT ==> r == Ok((x * y + half) / b)
    ensures b == 0 || x * y + half >= INT_LIMIT ==> r == Panic
    ensures half == b / 2 && r.Ok? ==>
              2 * Abs(r.value * b - x * y) <= b && (2 * Abs(r.value * b - x * y) == b ==> r.value * b > x * y)
  {
    if b > 0 { NearestQuotient(x * y, b); }
    var product := ToUint(x * y);
    if product.Panic? { return Panic; }
    var rounded := ToUint(product.value + half);
    if rounded.Panic? || b == 0 { return Panic; }
    DivideShrinks(rounded.value, b);
    r := ToUint(rounded.value / b);
  }

  /** The room the last multiplication needs. */
  function Peak(k: nat, n: nat, b: nat): int {
    Pow(k, n) * b * b + b / 2
  }

  lemma Rearrange(p: int, q: int, b: int)
    ensures p * b * (q * b) == p * q * b * b
  {
    assert p * b * (q * b) == p * b * q * b;
    assert p * b * q == p * q * b;
  }

  /** One multiplication of scaled powers is exact. */
  lemma MulPowers(k: nat, m: nat, n: nat, b: nat)
    requires b > 0
    ensures Pow(k, m) * b * (Pow(k, n) * b) + b / 2 == Peak(k, m + n, b)
    ensures Peak(k, m + n, b) / b == Pow(k, m + n) * b
  {
    hide Pow;
    PowSum(k, m, n);
    PowNonNegative(k, m + n);
    Rearrange(Pow(k, m), Pow(k, n), b);
    PeakQuotient(Pow(k, m + n), b);
  }

  lemma PeakQuotient(p: nat, b: nat)
    requires b > 0
    ensures (p * b * b + b / 2) / b == p * b
  {
    DivideSum(p * b, b / 2, b);
  }

  lemma {:induction false} PowNonNegative(k: nat, n: nat)
    ensures Pow(k, n) >= 0
  {
    if n > 0 { PowNonNegative(k, n - 1); }
  }

  lemma PeakGrows(k: nat, m: nat, n: nat, b: nat)
    requires k > 0 && m <= n
    ensures Peak(k, m, b) <= Peak(k, n, b)
  {
    PowGrows(k, m, n);
    PowNonNegative(k, m);
    PowNonNegative(k, n);
    MulMonotone(Pow(k, n), Pow(k, m), b);
    MulMonotone(Pow(k, n) * b, Pow(k, m) * b, b);
  }

  /** The same, of scaled powers. */
  method MulScaledPowers(x: Uint, y: Uint, b: Uint, half: Uint, ghost k: nat, ghost m: nat, ghost n: nat, ghost whole: bool,
                         ghost x0: nat, ghost small: bool, ghost large: bool, ghost n0: nat)
    returns (r: Outcome<Uint>)
    requires half == b / 2 && (whole ==> b > 0 && x == Pow(k, m) * b && y == Pow(k, n) * b)
    requires small ==> 0 < x0 <= b && CloseFactor(b, x0, m, x) && Close(b, x0, n, y)
    requires large ==> 2 <= b <= x0 && 2 <= m + n <= n0 && BetweenFactor(b, x0, m, x) && Between(b, x0, n, y)
    ensures whole ==> (r.Ok? <==> Peak(k, m + n, b) < INT_LIMIT)
    ensures whole && r.Ok? ==> r.value == Pow(k, m + n) * b
    ensures small && r.Ok? ==> Close(b, x0, m + n, r.value)
    ensures small && SquareFits(b) ==> r.Ok?
    ensures large && r.Ok? ==> Between(b, x0, m + n, r.value)
    ensures large && r.Panic? ==> Exceeds(x0, b, n0)
  {
    hide Peak, Pow, Between, Exceeds;
    if whole { MulPowers(k, m, n, b); }
    r := MulScaled(x, y, b, half);
    if small { CloseProduct(x0, b, m, n, x, y); }
    if large { LargeProduct(x0, b, m, n, x, y, n0); }
  }

  /** The same, or exactly one before any factor. */
  ghost predicate BetweenFactor(p: nat, d: nat, n: nat, x: int) {
    if n == 0 then x == p else Between(p, d, n, x)
  }

  /** The power of the base one unit higher has no room for one more multiplication. */
  ghost predicate Exceeds(x0: nat, b: nat, n: nat) {
    n >= 2 && Pow(x0 + 1, n) > INT_LIMIT * Pow(b, n - 2)
  }

  /** One multiplication of powers of a base of at least one. */
  lemma LargeProduct(x0: nat, b: nat, m: nat, n: nat, x: nat, y: nat, n0: nat)
    requires 2 <= b <= x0 && 2 <= m + n <= n0 && BetweenFactor(b, x0, m, x) && Between(b, x0, n, y)
    ensures Between(b, x0, m + n, (x * y + b / 2) / b)
    ensures x * y + b / 2 >= INT_LIMIT ==> Exceeds(x0, b, n0)
  {
    hide Between, Pow;
    BetweenAtLeast(b, x0, n, y);
    if m == 0 {
      ByScale(y, b);
      PowerWithScale(x0, b, n, y);
      assert b * (y + 1) == b * y + b;
      if x * y + b / 2 >= INT_LIMIT { StaysBeyond(b, x0 + 1, n, n0, n - 2, b * (y + 1), INT_LIMIT); }
    } else {
      BetweenAtLeast(b, x0, m, x);
      NearestQuotient(x * y, b);
      BetweenMul(b, x0, m, n, x, y, (x * y + b / 2) / b);
      PowerOfProduct(x0, b, m, n, x, y);
      assert (x + 1) * (y + 1) == x * y + x + y + 1;
      if x * y + b / 2 >= INT_LIMIT { StaysBeyond(b, x0 + 1, m + n, n0, m + n - 2, (x + 1) * (y + 1), INT_LIMIT); }
    }
  }

  lemma PowerWithScale(x0: nat, b: nat, n: nat, y: nat)
    requires n >= 2 && Between(b, x0, n, y)
    ensures Pow(x0 + 1, n) >= b * (y + 1) * Pow(b, n - 2)
  {
    assert Pow(b, n - 1) == b * Pow(b, n - 2);
    hide Pow;
    Swap(b, y + 1, Pow(b, n - 2));
  }

  lemma Swap(b: int, v: int, p: int)
    ensures v * (b * p) == b * v * p
  {}

  lemma PowerOfProduct(x0: nat, b: nat, m: nat, n: nat, x: nat, y: nat)
    requires b > 0 && Between(b, x0, m, x) && Between(b, x0, n, y)
    ensures Pow(x0 + 1, m + n) >= (x + 1) * (y + 1) * Pow(b, m + n - 2)
  {
    hide Pow;
    PowSum(x0 + 1, m, n);
    PowSum(b, m - 1, n - 1);
    PowPositive(b, m - 1);
    PowPositive(b, n - 1);
    var A, B := Pow(b, m - 1), Pow(b, n - 1);
    MulBounds((x + 1) * A, (y + 1) * B, Pow(x0 + 1, m), Pow(x0 + 1, n));
    Regroup(x + 1, y + 1, A, B);
  }

  /** Numbers of at most one can be multiplied. */
  predicate SquareFits(b: nat) {
    b * b + b / 2 < INT_LIMIT
  }

  lemma CloseProduct(x0: nat, b: nat, m: nat, n: nat, x: nat, y: nat)
    requires 0 < x0 <= b
    ensures CloseFactor(b, x0, m, x) && Close(b, x0, n, y) ==>
              x * y <= b * b && Close(b, x0, m + n, (x * y + b / 2) / b)
  {
    if CloseFactor(b, x0, m, x) && Close(b, x0, n, y) {
      FactorBound(b, x0, m, x);
      FactorBound(b, x0, n, y);
      hide Pow, Close;
      ProductBound(x, y, b, b);
      if m == 0 {
        ByScale(y, b);
      } else {
        NearestQuotient(x * y, b);
        CloseMul(b, x0, m, n, x, y, (x * y + b / 2) / b);
      }
    }
  }

  lemma FactorBound(b: nat, x0: nat, n: nat, x: nat)
    requires CloseFactor(b, x0, n, x)
    ensures x <= b
  {}

  lemma ByScale(y: nat, b: nat)
    requires b > 0
    ensures (b * y + b / 2) / b == y
  {
    assert b * y == y * b;
    DivideSum(y, b / 2, b);
    DivideBelow(b / 2, 1, b);
  }

  /** One turn of the loop, in the exponents: x stands for k^a and z for k^c. */
  lemma Turn(k: nat, a: nat, c: nat, i: nat, n: nat, b: nat)
    requires k > 0 && i > 0 && 2 * a * i + c == n
    ensures Peak(k, a + a, b) <= Peak(k, n, b)
    ensures Peak(k, c + (a + a), b) <= Peak(k, n, b)
    ensures 2 * (a + a) * (i / 2) + (if i % 2 == 1 then c + (a + a) else c) == n
    ensures i == 1 ==> c + (a + a) == n
  {
    hide Peak;
    MulMonotone(i, 1, 2 * a);
    PeakGrows(k, a + a, n, b);
    PeakGrows(k, c + (a + a), n, b);
    Turns(a, c, i);
  }

  /** Where the loop stands: n turns of squaring x are left. */
  ghost predicate Raising(k: nat, n0: nat, b: nat, x: nat, z: nat, a: nat, c: nat, n: nat) {
    x == Pow(k, a) * b && z == Pow(k, c) * b && 2 * a * n + c == n0
  }

  method TurnOnce(x: Uint, z: Uint, n: nat, b: Uint, half: Uint, ghost k: nat, ghost a: nat, ghost c: nat, ghost n0: nat, ghost whole: bool,
                  ghost x0: nat, ghost small: bool, ghost large: bool)
    returns (ok: bool, x': Uint, z': Uint)
    requires n > 0 && half == b / 2 && (whole ==> k > 0 && b > 0 && Raising(k, n0, b, x, z, a, c, n))
    requires small ==> 0 < x0 <= b && Close(b, x0, a, x) && CloseFactor(b, x0, c, z)
    requires large ==> 2 <= b <= x0 && 2 * a * n + c == n0 && Between(b, x0, a, x) && BetweenFactor(b, x0, c, z)
    ensures whole && ok ==> Raising(k, n0, b, x', z', a + a, if n % 2 == 1 then c + (a + a) else c, n / 2)
    ensures whole && !ok ==> Peak(k, n0, b) >= INT_LIMIT
    ensures whole && ok && n == 1 ==> Peak(k, n0, b) < INT_LIMIT
    ensures small && SquareFits(b) ==> ok
    ensures small && ok ==> Close(b, x0, a + a, x') && CloseFactor(b, x0, if n % 2 == 1 then c + (a + a) else c, z')
    ensures large && ok ==> Between(b, x0, a + a, x') && BetweenFactor(b, x0, if n % 2 == 1 then c + (a + a) else c, z')
    ensures large && !ok ==> Exceeds(x0, b, n0)
  {
    hide Peak, Pow, Between, Exceeds;
    x', z' := x, z;
    if whole { Turn(k, a, c, n, n0, b); }
    if large {
      BetweenAtLeast(b, x0, a, x);
      MulMonotone(n, 1, 2 * a);
    }
    var sq := MulScaledPowers(x, x, b, half, k, a, a, whole, x0, small, large, n0);
    if sq.Panic? { return false, x, z; }
    x' := sq.value;
    if n % 2 == 1 {
      var zx := MulScaledPowers(z, x', b, half, k, c, a + a, whole, x0, small, large, n0);
      if zx.Panic? { return false, x', z; }
      z' := zx.value;
    }
    ok := true;
  }

  lemma RaisingStart(k: nat, n0: nat, b: nat)
    ensures Raising(k, n0, b, k * b, if n0 % 2 == 0 then b else k * b, 1, n0 % 2, n0 / 2)
  {
    assert Pow(k, 1) == k * Pow(k, 0);
  }

  lemma RaisingEnd(k: nat, n0: nat, b: nat, x: nat, z: nat, a: nat, c: nat)
    requires Raising(k, n0, b, x, z, a, c, 0)
    ensures z == Pow(k, n0) * b
  {}

  /** RelativePow raises x/b to a power, scaled by b.  On multiples of b it is exact despite
      rounding at every step, and it panics exactly when the last product does not fit.  On
      bases of at most one the roundings stay below n-1 halves of a unit, and it does not
      panic if the square of the scale fits.  On bases of at least one the result is strictly
      between the powers of their neighbours, and a panic means that the last multiplication
      has no room for the upper one. */
  method RelativePow(x0: Uint, n0: Uint, b: Uint, ghost k: nat) returns (r: Outcome<Uint>)
    ensures x0 == k * b && r.Ok? ==> r.value == Pow(k, n0) * b
    ensures x0 == k * b ==> (r.Ok? <==> x0 == 0 || n0 <= 1 || Peak(k, n0, b) < INT_LIMIT)
    ensures 0 < x0 <= b && r.Ok? ==> CloseFactor(b, x0, n0, r.value)
    ensures x0 <= b && SquareFits(b) ==> r.Ok?
    ensures 2 <= b <= x0 && r.Ok? ==> BetweenFactor(b, x0, n0, r.value)
    ensures 2 <= b <= x0 && r.Panic? ==> Exceeds(x0, b, n0)
  {
    hide Peak, Pow, Raising, Close, Between, Exceeds;
    ghost var whole, small, large := x0 == k * b, 0 < x0 <= b, 2 <= b <= x0;
    if x0 == 0 {
      if whole { ZeroBase(k, n0, b); }
      return if n0 == 0 then Ok(b) else Ok(0);
    }
    if whole {
      Factors(k, b);
      RaisingStart(k, n0, b);
    }
    if small { CloseStart(b, x0); }
    if large { BetweenStart(b, x0); }
    var x: Uint, z: Uint, n: nat := x0, if n0 % 2 == 0 then b else x0, n0 / 2;
    var half := b / 2;
    ghost var a: nat, c: nat := 1, n0 % 2;
    while n > 0
      invariant whole ==> Raising(k, n0, b, x, z, a, c, n)
      invariant small ==> Close(b, x0, a, x) && CloseFactor(b, x0, c, z)
      invariant large ==> Between(b, x0, a, x) && BetweenFactor(b, x0, c, z)
      invariant 2 * a * n + c == n0 && (n > 0 ==> n0 > 1)
      invariant whole && n == 0 ==> n0 <= 1 || Peak(k, n0, b) < INT_LIMIT
    {
      Turns(a, c, n);
      var ok, x', z' := TurnOnce(x, z, n, b, half, k, a, c, n0, whole, x0, small, large);
      if !ok { return Panic; }
      a, c := a + a, if n % 2 == 1 then c + (a + a) else c;
      x, z, n := x', z', n / 2;
    }
    if whole { RaisingEnd(k, n0, b, x, z, a, c); }
    r := Ok(z);
  }

  /** A turn keeps the exponents adding up. */
  lemma Turns(a: nat, c: nat, i: nat)
    ensures 2 * (a + a) * (i / 2) + (if i % 2 == 1 then c + (a + a) else c) == 2 * a * i + c
  {
    var h, odd := i / 2, i % 2;
    assert i == 2 * h + odd;
    assert 2 * a * (2 * h + odd) == 2 * (2 * a) * h + 2 * a * odd;
  }

  lemma Factors(k: nat, b: nat)
    requires k * b > 0
    ensures k > 0 && b > 0
  {}

  lemma ZeroBase(k: nat, n: nat, b: nat)
    requires k * b == 0
    ensures Pow(k, n) * b == if n == 0 then b else 0
  {
    if n > 0 {
      assert Pow(k, n) == k * Pow(k, n - 1);
      assert k * Pow(k, n - 1) * b == k * b * Pow(k, n - 1);
    }
  }
}
