/** Lists of coins as finite maps from denominations to amounts, for Coins and DecCoins
    alike (types/coin.go, types/dec_coin.go). */
module CoinLists {
  import opened Denoms

  datatype Coin = Coin(denom: Denom, amount: int)

  type CoinList = seq<Coin>

  /** What a call returns, or that it panics. */
  datatype Outcome<+T> = Ok(value: T) | Panic

  /** 2^256: amounts of that size, of either sign, are out of range for Int and Uint. */
  const INT_LIMIT: nat := 0x1_0000000000000000_0000000000000000_0000000000000000_0000000000000000

  function Abs(x: int): nat {
    if x < 0 then -x else x
  }

  // ----- meaning

  function Share(c: Coin, d: Denom): int {
    if c.denom == d then c.amount else 0
  }

  /** The sum of the amounts of `d` in the first `n` coins. */
  function Total(cs: CoinList, n: nat, d: Denom): int
    requires n <= |cs|
  {
    if n == 0 then 0 else Total(cs, n - 1, d) + Share(cs[n - 1], d)
  }

  function Amount(cs: CoinList, d: Denom): int {
    Total(cs, |cs|, d)
  }

  lemma TotalIsAmount(cs: CoinList)
    ensures forall d :: Total(cs, |cs|, d) == Amount(cs, d)
  {}

  /** Ascending denominations, possibly repeated. */
  ghost predicate Sorted(cs: CoinList) {
    forall i, j :: 0 <= i < j < |cs| ==> !Before(cs[j].denom, cs[i].denom)
  }

  /** Ascending denominations without repetition. */
  ghost predicate Strict(cs: CoinList) {
    forall i, j :: 0 <= i < j < |cs| ==> Before(cs[i].denom, cs[j].denom)
  }

  ghost predicate NoZeros(cs: CoinList) {
    forall i :: 0 <= i < |cs| ==> cs[i].amount != 0
  }

  ghost predicate Within(cs: CoinList, limit: nat) {
    forall i :: 0 <= i < |cs| ==> Abs(cs[i].amount) < limit
  }

  ghost predicate Has(cs: CoinList, d: Denom) {
    exists i :: 0 <= i < |cs| && cs[i].denom == d
  }

  lemma {:induction false} TotalPrefix(a: CoinList, b: CoinList, n: nat, d: Denom)
    requires n <= |a| && n <= |b| && forall i :: 0 <= i < n ==> a[i] == b[i]
    ensures Total(a, n, d) == Total(b, n, d)
  {
    if n > 0 { TotalPrefix(a, b, n - 1, d); }
  }

  lemma AmountAppend(cs: CoinList, c: Coin)
    ensures forall d :: Amount(cs + [c], d) == Amount(cs, d) + Share(c, d)
  {
    forall d ensures Amount(cs + [c], d) == Amount(cs, d) + Share(c, d) {
      TotalPrefix(cs + [c], cs, |cs|, d);
    }
  }

  lemma {:induction false} TotalConcat(a: CoinList, b: CoinList, n: nat, d: Denom)
    requires n <= |b|
    ensures Total(a + b, |a| + n, d) == Amount(a, d) + Total(b, n, d)
  {
    if n == 0 {
      TotalPrefix(a + b, a, |a|, d);
    } else {
      TotalConcat(a, b, n - 1, d);
    }
  }

  lemma AmountConcat(a: CoinList, b: CoinList)
    ensures forall d :: Amount(a + b, d) == Amount(a, d) + Amount(b, d)
  {
    forall d ensures Amount(a + b, d) == Amount(a, d) + Amount(b, d) {
      TotalConcat(a, b, |b|, d);
    }
  }

  lemma AmountSplit(cs: CoinList, n: nat)
    requires n <= |cs|
    ensures forall d :: Amount(cs, d) == Total(cs, n, d) + Amount(cs[n..], d)
  {
    assert cs == cs[..n] + cs[n..];
    AmountConcat(cs[..n], cs[n..]);
    forall d ensures Amount(cs[..n], d) == Total(cs, n, d) {
      TotalPrefix(cs[..n], cs, n, d);
    }
  }

  // ----- strict lists are finite maps

  lemma {:induction false} TotalAbsent(cs: CoinList, n: nat, d: Denom)
    requires n <= |cs| && forall i :: 0 <= i < n ==> cs[i].denom != d
    ensures Total(cs, n, d) == 0
  {
    if n > 0 { TotalAbsent(cs, n - 1, d); }
  }

  lemma {:induction false} TotalPresent(cs: CoinList, n: nat, k: nat)
    requires k < n <= |cs| && Strict(cs)
    ensures Total(cs, n, cs[k].denom) == cs[k].amount
  {
    hide Before;
    Order();
    if k == n - 1 {
      TotalAbsent(cs, n - 1, cs[k].denom);
    } else {
      TotalPresent(cs, n - 1, k);
    }
  }

  /** The amount of a denomination is that of its coin, or nothing. */
  lemma AmountOfStrict(cs: CoinList)
    requires Strict(cs)
    ensures forall k :: 0 <= k < |cs| ==> Amount(cs, cs[k].denom) == cs[k].amount
    ensures forall d :: !Has(cs, d) ==> Amount(cs, d) == 0
  {
    forall k | 0 <= k < |cs| ensures Amount(cs, cs[k].denom) == cs[k].amount { TotalPresent(cs, |cs|, k); }
    forall d | !Has(cs, d) ensures Amount(cs, d) == 0 { TotalAbsent(cs, |cs|, d); }
  }

  lemma HasNonZero(cs: CoinList)
    requires Strict(cs) && NoZeros(cs)
    ensures forall d :: Has(cs, d) <==> Amount(cs, d) != 0
  {
    AmountOfStrict(cs);
  }

  /** A strict list without zeros is determined by its amounts. */
  lemma {:induction false} SameAmountsSameList(a: CoinList, b: CoinList)
    requires Strict(a) && Strict(b) && NoZeros(a) && NoZeros(b)
    requires forall d :: Amount(a, d) == Amount(b, d)
    ensures a == b
  {
    HasNonZero(a);
    HasNonZero(b);
    AmountOfStrict(a);
    AmountOfStrict(b);
    forall i | 0 <= i < |a| && i < |b| ensures a[i].denom == b[i].denom { SameDenomAt(a, b, i); }
    NoLonger(a, b);
    NoLonger(b, a);
  }

  lemma NoLonger(a: CoinList, b: CoinList)
    requires Strict(b) && (forall d :: Has(b, d) ==> Has(a, d))
    requires forall i :: 0 <= i < |a| && i < |b| ==> a[i].denom == b[i].denom
    ensures |b| <= |a|
  {
    hide Before;
    Order();
    forall i | 0 <= i < |a| < |b| ensures a[i].denom != b[|a|].denom {
      assert Before(b[i].denom, b[|a|].denom);
    }
    assert |a| < |b| ==> Has(b, b[|a|].denom);
  }

  lemma {:induction false} SameDenomAt(a: CoinList, b: CoinList, i: nat)
    requires Strict(a) && Strict(b) && i < |a| && i < |b|
    requires forall d :: Has(a, d) <==> Has(b, d)
    ensures a[i].denom == b[i].denom
  {
    hide Before;
    Order();
    forall k | 0 <= k < i ensures a[k].denom == b[k].denom { SameDenomAt(a, b, k); }
    assert Has(a, a[i].denom) && Has(b, b[i].denom);
    var j :| 0 <= j < |b| && b[j].denom == a[i].denom;
    var k :| 0 <= k < |a| && a[k].denom == b[i].denom;
    assert j >= i && k >= i;
  }

  // ----- zero coins

  /** removeZeroCoins and removeZeroDecCoins. */
  method RemoveZeros(cs: CoinList) returns (r: CoinList)
    ensures r == Nonzero(cs, |cs|)
  {
    r := [];
    for i := 0 to |cs|
      invariant r == Nonzero(cs, i)
    {
      if cs[i].amount != 0 { r := r + [cs[i]]; }
    }
  }

  function Nonzero(cs: CoinList, n: nat): CoinList
    requires n <= |cs|
  {
    if n == 0 then [] else Nonzero(cs, n - 1) + if cs[n - 1].amount != 0 then [cs[n - 1]] else []
  }

  lemma {:induction false} NonzeroAmounts(cs: CoinList, n: nat)
    requires n <= |cs|
    ensures NoZeros(Nonzero(cs, n)) && forall d :: Amount(Nonzero(cs, n), d) == Total(cs, n, d)
  {
    if n > 0 {
      NonzeroAmounts(cs, n - 1);
      var r, c := Nonzero(cs, n - 1), cs[n - 1];
      if c.amount != 0 {
        AmountAppend(r, c);
      } else {
        assert Nonzero(cs, n) == r;
      }
    }
  }

  lemma {:induction false} NonzeroStrict(cs: CoinList, n: nat)
    requires n <= |cs| && Strict(cs)
    ensures Strict(Nonzero(cs, n))
    ensures forall i :: 0 <= i < |Nonzero(cs, n)| ==> exists k :: 0 <= k < n && cs[k] == Nonzero(cs, n)[i]
  {
    hide Before;
    if n > 0 {
      NonzeroStrict(cs, n - 1);
      assert Nonzero(cs, n - 1) + [] == Nonzero(cs, n - 1);
    }
  }

  // ----- walking along two lists

  /** All of `cs` comes before `d`. */
  ghost predicate AllBefore(cs: CoinList, d: Denom) {
    forall k :: 0 <= k < |cs| ==> Before(cs[k].denom, d)
  }

  /** Where the merge of two strict lists stands. */
  ghost predicate Aligned(a: CoinList, i: nat, b: CoinList, j: nat, sum: CoinList)
    requires i <= |a| && j <= |b|
  {
    && Strict(sum)
    && (i < |a| ==> AllBefore(sum, a[i].denom) && AllBefore(b[..j], a[i].denom))
    && (j < |b| ==> AllBefore(sum, b[j].denom) && AllBefore(a[..i], b[j].denom))
  }

  lemma PushBefore(cs: CoinList, c: Coin, d: Denom)
    requires AllBefore(cs, c.denom) && Before(c.denom, d)
    ensures AllBefore(cs + [c], d) && AllBefore(cs, d)
  {
    hide Before;
    Order();
  }

  lemma PushStrict(cs: CoinList, c: Coin)
    requires AllBefore(cs, c.denom) && Strict(cs)
    ensures Strict(cs + [c])
  {}

  /** The next coin is only in the first list. */
  lemma TakeFirst(a: CoinList, i: nat, b: CoinList, j: nat, sum: CoinList)
    requires i < |a| && j <= |b| && Strict(a) && Aligned(a, i, b, j, sum) && (j < |b| ==> Before(a[i].denom, b[j].denom))
    ensures Aligned(a, i + 1, b, j, sum) && Aligned(a, i + 1, b, j, sum + [a[i]])
  {
    hide Before;
    Order();
    assert a[..i + 1] == a[..i] + [a[i]];
    PushStrict(sum, a[i]);
    if j < |b| { PushBefore(sum, a[i], b[j].denom); }
    if i + 1 < |a| {
      PushBefore(sum, a[i], a[i + 1].denom);
      PushBefore(b[..j], a[i], a[i + 1].denom);
    }
  }

  lemma TakeSecond(a: CoinList, i: nat, b: CoinList, j: nat, sum: CoinList)
    requires i <= |a| && j < |b| && Strict(b) && Aligned(a, i, b, j, sum) && (i < |a| ==> Before(b[j].denom, a[i].denom))
    ensures Aligned(a, i, b, j + 1, sum) && Aligned(a, i, b, j + 1, sum + [b[j]])
  {
    hide Before;
    assert Aligned(b, j, a, i, sum);
    TakeFirst(b, j, a, i, sum);
  }

  /** The next coin is in both lists. */
  lemma TakeBoth(a: CoinList, i: nat, b: CoinList, j: nat, sum: CoinList, c: Coin)
    requires i < |a| && j < |b| && Strict(a) && Strict(b) && Aligned(a, i, b, j, sum)
    requires a[i].denom == b[j].denom == c.denom
    ensures Aligned(a, i + 1, b, j + 1, sum) && Aligned(a, i + 1, b, j + 1, sum + [c])
  {
    hide Before;
    Order();
    assert a[..i + 1] == a[..i] + [a[i]] && b[..j + 1] == b[..j] + [b[j]];
    PushStrict(sum, c);
    if i + 1 < |a| {
      PushBefore(sum, c, a[i + 1].denom);
      PushBefore(b[..j], b[j], a[i + 1].denom);
    }
    if j + 1 < |b| {
      PushBefore(sum, c, b[j + 1].denom);
      PushBefore(a[..i], a[i], b[j + 1].denom);
    }
  }

  lemma TotalStep(a: CoinList, i: nat)
    requires i < |a|
    ensures forall d :: Total(a, i + 1, d) == Total(a, i, d) + Share(a[i], d)
  {}

  lemma AlignedSymmetric(a: CoinList, i: nat, b: CoinList, j: nat, sum: CoinList)
    requires i <= |a| && j <= |b| && Aligned(a, i, b, j, sum)
    ensures Aligned(b, j, a, i, sum)
  {}

  // ----- lookup

  /** The recursive binary search of AmountOf. */
  function Search(cs: CoinList, d: Denom): int {
    if |cs| == 0 then 0
    else if |cs| == 1 then if cs[0].denom == d then cs[0].amount else 0
    else
      var mid := |cs| / 2;
      if Before(d, cs[mid].denom) then Search(cs[..mid], d)
      else if d == cs[mid].denom then cs[mid].amount
      else Search(cs[mid + 1..], d)
  }

  lemma AmountAround(cs: CoinList, mid: nat, d: Denom)
    requires mid < |cs|
    ensures Amount(cs, d) == Amount(cs[..mid], d) + Share(cs[mid], d) + Amount(cs[mid + 1..], d)
  {
    var low, high := cs[..mid], cs[mid + 1..];
    assert cs == (low + [cs[mid]]) + high;
    AmountConcat(low + [cs[mid]], high);
    AmountAppend(low, cs[mid]);
  }

  lemma AbsentBeside(cs: CoinList, mid: nat, d: Denom)
    requires mid < |cs| && Strict(cs)
    ensures !Before(d, cs[mid].denom) ==> Amount(cs[..mid], d) == 0
    ensures !Before(cs[mid].denom, d) ==> Amount(cs[mid + 1..], d) == 0
  {
    hide Before;
    Order();
    if !Before(d, cs[mid].denom) { TotalAbsent(cs[..mid], mid, d); }
    if !Before(cs[mid].denom, d) { TotalAbsent(cs[mid + 1..], |cs| - mid - 1, d); }
  }

  /** Binary search finds the amount. */
  lemma {:induction false} SearchIsAmount(cs: CoinList, d: Denom)
    requires Strict(cs)
    ensures Search(cs, d) == Amount(cs, d)
    decreases |cs|
  {
    hide Before;
    Order();
    if |cs| >= 2 {
      var mid := |cs| / 2;
      AmountAround(cs, mid, d);
      AbsentBeside(cs, mid, d);
      hide Amount;
      SearchIsAmount(cs[..mid], d);
      SearchIsAmount(cs[mid + 1..], d);
    } else if |cs| == 1 {
      assert Amount(cs, d) == Total(cs, 0, d) + Share(cs[0], d);
    }
  }

  /** The rule denominations have to follow, a regular expression that can be replaced. */
  type Rule = Denom -> bool

  /** AmountOf, which panics on a denomination against the rule. */
  function AmountOf(cs: CoinList, d: Denom, rule: Rule): Outcome<int> {
    if rule(d) then Ok(Search(cs, d)) else Panic
  }

  // ----- validity

  /** Strictly ascending, acceptable denominations with positive amounts. */
  ghost predicate Valid(cs: CoinList, rule: Rule) {
    Strict(cs) && forall i :: 0 <= i < |cs| ==> rule(cs[i].denom) && cs[i].amount > 0
  }

  method Validate(cs: CoinList, rule: Rule) returns (ok: bool)
    ensures ok <==> Valid(cs, rule)
  {
    hide Before;
    Order();
    if |cs| == 0 { return true; }
    if !rule(cs[0].denom) || cs[0].amount <= 0 { return false; }
    var low := cs[0].denom;
    var seen := {low};
    for i := 1 to |cs|
      invariant Valid(cs[..i], rule) && low == cs[i - 1].denom
      invariant forall d :: d in seen <==> exists k :: 0 <= k < i && cs[k].denom == d
    {
      var coin := cs[i];
      if coin.denom in seen { return false; }
      if !rule(coin.denom) { return false; }
      if !Before(low, coin.denom) { return false; }
      if coin.amount <= 0 { return false; }
      low := coin.denom;
      seen := seen + {coin.denom};
    }
    assert cs[..|cs|] == cs;
    ok := true;
  }
}
