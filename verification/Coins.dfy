/** Sets of coins with 256-bit amounts (types/coin.go, types/int.go). */
module Coins {
  import opened Denoms
  import opened CoinLists
  import opened CoinMerge

  /** A valid set of coins that Int can hold. */
  ghost predicate Proper(cs: CoinList, rule: Rule) {
    Valid(cs, rule) && Within(cs, INT_LIMIT)
  }

  lemma ValidAmounts(cs: CoinList, rule: Rule)
    requires Valid(cs, rule)
    ensures NoZeros(cs) && forall d :: Amount(cs, d) >= 0 && (Has(cs, d) <==> Amount(cs, d) > 0)
  {
    AmountOfStrict(cs);
  }

  lemma ProperAmounts(cs: CoinList, rule: Rule)
    requires Proper(cs, rule)
    ensures forall d :: 0 <= Amount(cs, d) < INT_LIMIT
  {
    AmountOfStrict(cs);
  }

  // ----- Add and Sub

  method IsSorted(cs: CoinList) returns (ok: bool)
    ensures ok <==> Sorted(cs)
  {
    hide Before;
    Order();
    var i := 1;
    while i < |cs|
      invariant 1 <= i && (|cs| > 0 ==> i <= |cs| && Sorted(cs[..i]))
    {
      if Before(cs[i].denom, cs[i - 1].denom) { return false; }
      i := i + 1;
    }
    assert cs[..|cs|] == cs;
    ok := true;
  }

  /** Add and safeAdd: unsorted lists panic, sorted ones are added pair by pair. */
  method SafeAdd(a: CoinList, b: CoinList) returns (r: Outcome<CoinList>)
    ensures r.Panic? <==> !Sorted(a) || !Sorted(b) || Clash(a, b, INT_LIMIT)
    ensures r.Ok? ==> Sorted(r.value) && forall d :: Occurrences(r.value, d) == Paired(a, b, d)
    ensures r.Ok? ==> NoZeros(r.value) && forall d :: Amount(r.value, d) == Amount(a, d) + Amount(b, d)
    ensures Strict(a) && Strict(b) ==> (r.Panic? <==> Clash(a, b, INT_LIMIT)) && (r.Ok? ==> Strict(r.value))
  {
    hide Before, Amount, Clash, Occurrences, Paired;
    if Strict(a) && Strict(b) {
      StrictIsSorted(a);
      StrictIsSorted(b);
    }
    var okA := IsSorted(a);
    if !okA { return Panic; }
    var okB := IsSorted(b);
    if !okB { return Panic; }
    r := Merge(a, b, INT_LIMIT);
    if Strict(a) && Strict(b) { MergeOfStrict(a, b, r); }
  }

  /** A strict list without zeros is valid exactly when no amount is negative and the rule
      accepts every denomination with an amount. */
  lemma ValidByAmounts(cs: CoinList, rule: Rule)
    requires Strict(cs) && NoZeros(cs)
    ensures Valid(cs, rule) <==> forall d :: Amount(cs, d) >= 0 && (Amount(cs, d) != 0 ==> rule(d))
  {
    AmountOfStrict(cs);
    if Valid(cs, rule) { ValidAmounts(cs, rule); }
    if forall d :: Amount(cs, d) >= 0 && (Amount(cs, d) != 0 ==> rule(d)) {
      forall i | 0 <= i < |cs| ensures rule(cs[i].denom) && cs[i].amount > 0 {
        assert Amount(cs, cs[i].denom) == cs[i].amount;
      }
    }
  }

  /** Add promises a valid result.  It keeps the promise exactly when the pairs of each
      denomination leave at most one amount that is not zero, which is positive, and the
      rule accepts the denomination; for strict lists, when no sum is negative and the rule
      accepts what is left. */
  method Add(a: CoinList, b: CoinList, ghost rule: Rule) returns (r: Outcome<CoinList>)
    ensures r.Ok? ==> (Valid(r.value, rule) <==> forall d :: AtMostOne(Paired(a, b, d), rule(d)))
    ensures r.Ok? && Strict(a) && Strict(b) ==>
              (Valid(r.value, rule) <==>
               forall d :: Amount(a, d) + Amount(b, d) >= 0 && (Amount(a, d) + Amount(b, d) != 0 ==> rule(d)))
    ensures Proper(a, rule) && Proper(b, rule) ==>
              && (r.Panic? <==> exists d :: Amount(a, d) + Amount(b, d) >= INT_LIMIT)
              && (r.Ok? ==> Proper(r.value, rule))
    ensures r.Ok? ==> NoZeros(r.value) && forall d :: Amount(r.value, d) == Amount(a, d) + Amount(b, d)
  {
    hide Before, Amount, Clash, Occurrences, Paired;
    r := SafeAdd(a, b);
    if r.Ok? { ValidByOccurrences(r.value, rule); }
    if r.Ok? && Strict(a) && Strict(b) {
      ValidByAmounts(r.value, rule);
    }
    if Proper(a, rule) && Proper(b, rule) { ProperSum(a, b, r, rule, INT_LIMIT); }
  }

  /** So the promise is not kept in general. */
  method AddCanReturnNegative(d: Denom, ghost rule: Rule) returns (r: Outcome<CoinList>)
    ensures r.Ok? && !Valid(r.value, rule)
  {
    var b := [Coin(d, -1)];
    r := SafeAdd([], b);
    assert Total(b, 1, d) == Total(b, 0, d) - 1;
    assert Amount(r.value, d) == -1;
    if Valid(r.value, rule) { ValidAmounts(r.value, rule); }
  }

  /** Nor for lists in which a denomination comes twice, although no sum is negative. */
  method AddKeepsRepeats(d: Denom, ghost rule: Rule) returns (r: Outcome<CoinList>)
    ensures r.Ok? && !Valid(r.value, rule) && forall e :: Amount(r.value, e) >= 0
  {
    var a := [Coin(d, 1), Coin(d, 1)];
    assert !Before(d, d) by { Order(); }
    hide Before, Paired;
    OccursTwice(d);
    assert !Clash(a, [], INT_LIMIT);
    r := SafeAdd(a, []);
    forall e ensures Amount(a, e) >= 0 && Amount([], e) == 0 {
      assert Total(a, 1, e) >= 0 && Total(a, 2, e) >= 0;
    }
    assert Paired(a, [], d) == [1, 1] by { PairedWithNone(a, d); }
    ValidByOccurrences(r.value, rule);
    assert Occurrences(r.value, d) == [1, 1];
    assert !AtMostOne(Occurrences(r.value, d), rule(d));
  }

  lemma OccursTwice(d: Denom)
    ensures Occurrences([Coin(d, 1), Coin(d, 1)], d) == [1, 1]
  {
    var a := [Coin(d, 1), Coin(d, 1)];
    assert Occ(a, 1, d) == Occ(a, 0, d) + [1];
    assert Occ(a, 2, d) == Occ(a, 1, d) + [1];
  }

  lemma PairedWithNone(a: CoinList, d: Denom)
    requires Occurrences(a, d) == [1, 1]
    ensures Paired(a, [], d) == [1, 1]
  {
    var s := PairSums(Occurrences(a, d), Occurrences([], d));
    assert s == [1, 1];
    OnesAreKept(s);
  }

  lemma OnesAreKept(s: seq<int>)
    requires s == [1, 1]
    ensures Nonzeros(s, 2) == [1, 1]
  {
    assert Nonzeros(s, 0) == [];
    assert Nonzeros(s, 1) == Nonzeros(s, 0) + [s[0]];
    assert Nonzeros(s, 2) == Nonzeros(s, 1) + [s[1]];
  }

  lemma ProperSum(a: CoinList, b: CoinList, r: Outcome<CoinList>, rule: Rule, limit: nat)
    requires Valid(a, rule) && Valid(b, rule) && Within(a, limit) && Within(b, limit) && limit > 0
    requires r.Panic? <==> Clash(a, b, limit)
    requires r.Ok? ==> Strict(r.value) && NoZeros(r.value) && forall d :: Amount(r.value, d) == Amount(a, d) + Amount(b, d)
    ensures r.Panic? <==> exists d :: Amount(a, d) + Amount(b, d) >= limit
    ensures r.Ok? ==> Valid(r.value, rule) && Within(r.value, limit)
  {
    hide Before, Amount, Clash;
    ClashOfAmounts(a, b, limit);
    ValidAmounts(a, rule);
    ValidAmounts(b, rule);
    if r.Panic? {
      var d :| Abs(Amount(a, d) + Amount(b, d)) >= limit;
      assert Amount(a, d) + Amount(b, d) >= limit;
    } else {
      forall d ensures Amount(r.value, d) >= 0 && Amount(r.value, d) < limit && (Amount(r.value, d) != 0 ==> rule(d)) {
        assert Abs(Amount(a, d) + Amount(b, d)) < limit;
        assert Amount(r.value, d) != 0 ==> Has(a, d) || Has(b, d);
      }
      ValidByAmounts(r.value, rule);
      AmountOfStrict(r.value);
    }
  }

  method Negative(cs: CoinList) returns (r: CoinList)
    ensures IsNegative(cs, r)
  {
    r := [];
    for i := 0 to |cs|
      invariant |r| == i && forall k :: 0 <= k < i ==> r[k] == Coin(cs[k].denom, -cs[k].amount)
    {
      r := r + [Coin(cs[i].denom, -cs[i].amount)];
    }
  }

  lemma {:induction false} NegativeTotal(cs: CoinList, neg: CoinList, n: nat, d: Denom)
    requires IsNegative(cs, neg) && n <= |cs|
    ensures Total(neg, n, d) == -Total(cs, n, d)
  {
    if n > 0 { NegativeTotal(cs, neg, n - 1, d); }
  }

  method IsAnyNegative(cs: CoinList) returns (r: bool)
    ensures r <==> exists i :: 0 <= i < |cs| && cs[i].amount < 0
  {
    for i := 0 to |cs|
      invariant forall k :: 0 <= k < i ==> cs[k].amount >= 0
    {
      if cs[i].amount < 0 { return true; }
    }
    r := false;
  }

  /** At least as much of everything. */
  ghost predicate Gte(a: CoinList, b: CoinList) {
    forall d :: Amount(a, d) >= Amount(b, d)
  }

  /** SafeSub: subtraction pair by pair, and whether any amount got negative. */
  method SafeSub(a: CoinList, b: CoinList) returns (r: Outcome<CoinList>, hasNeg: bool)
    ensures r.Panic? <==> !Sorted(a) || !Sorted(b) || DifferenceClash(a, b, INT_LIMIT)
    ensures r.Ok? ==> Sorted(r.value) && forall d :: Occurrences(r.value, d) == Differences(a, b, d)
    ensures r.Ok? ==> (hasNeg <==> exists d :: AnyNegative(Differences(a, b, d)))
    ensures r.Ok? ==> NoZeros(r.value) && forall d :: Amount(r.value, d) == Amount(a, d) - Amount(b, d)
    ensures r.Ok? && Strict(a) && Strict(b) ==> Strict(r.value) && (hasNeg <==> !Gte(a, b))
    ensures Strict(a) && Strict(b) && Within(a, INT_LIMIT) && Within(b, INT_LIMIT) ==>
              (r.Panic? <==> exists d :: Abs(Amount(a, d) - Amount(b, d)) >= INT_LIMIT)
  {
    hide Before, Clash, DifferenceClash, Occurrences, Paired, Differences, AnyNegative;
    var neg := Negative(b);
    forall d ensures Amount(neg, d) == -Amount(b, d) { NegativeTotal(b, neg, |b|, d); }
    DifferencesArePaired(a, b, neg, INT_LIMIT);
    r := SafeAdd(a, neg);
    if Strict(a) && Strict(b) && Within(a, INT_LIMIT) && Within(b, INT_LIMIT) {
      ClashOfAmounts(a, neg, INT_LIMIT);
      assert forall d :: Amount(a, d) - Amount(b, d) == Amount(a, d) + Amount(neg, d);
    }
    if r.Panic? { return r, false; }
    hasNeg := IsAnyNegative(r.value);
    NegativeByOccurrences(r.value);
    if Strict(a) && Strict(b) { NegativeByAmounts(r.value); }
  }

  lemma NegativeByAmounts(cs: CoinList)
    requires Strict(cs)
    ensures (exists i :: 0 <= i < |cs| && cs[i].amount < 0) <==> exists d :: Amount(cs, d) < 0
  {
    AmountOfStrict(cs);
    if i :| 0 <= i < |cs| && cs[i].amount < 0 {
      assert Amount(cs, cs[i].denom) < 0;
    }
  }

  /** Sub: it panics exactly when there is too little of something.  It promises a valid
      result and keeps the promise exactly when the pairs of each denomination leave at most
      one amount and the rule accepts the denomination. */
  method Sub(a: CoinList, b: CoinList, ghost rule: Rule) returns (r: Outcome<CoinList>)
    ensures r.Ok? <==>
              && Sorted(a) && Sorted(b) && !DifferenceClash(a, b, INT_LIMIT)
              && forall d :: !AnyNegative(Differences(a, b, d))
    ensures r.Ok? ==> Sorted(r.value) && forall d :: Occurrences(r.value, d) == Differences(a, b, d)
    ensures r.Ok? ==> (Valid(r.value, rule) <==> forall d :: AtMostOne(Differences(a, b, d), rule(d)))
    ensures Proper(a, rule) && Proper(b, rule) ==>
              && (r.Ok? <==> Gte(a, b))
              && (r.Ok? ==> Proper(r.value, rule) && forall d :: Amount(r.value, d) == Amount(a, d) - Amount(b, d))
  {
    hide Before, Amount, DifferenceClash, Occurrences, Differences, AnyNegative;
    var diff, hasNeg := SafeSub(a, b);
    if diff.Ok? { ValidByOccurrences(diff.value, rule); }
    if Proper(a, rule) && Proper(b, rule) { ProperDifference(a, b, diff, hasNeg, rule); }
    if diff.Panic? || hasNeg { return Panic; }
    r := diff;
  }

  lemma ProperDifference(a: CoinList, b: CoinList, r: Outcome<CoinList>, hasNeg: bool, rule: Rule)
    requires Proper(a, rule) && Proper(b, rule)
    requires r.Ok? ==> NoZeros(r.value) && Strict(r.value) && forall d :: Amount(r.value, d) == Amount(a, d) - Amount(b, d)
    requires r.Ok? ==> (hasNeg <==> !Gte(a, b))
    requires r.Panic? <==> exists d :: Abs(Amount(a, d) - Amount(b, d)) >= INT_LIMIT
    ensures r.Ok? && (!hasNeg ==> Proper(r.value, rule))
  {
    hide Before, Amount;
    ProperAmounts(a, rule);
    ProperAmounts(b, rule);
    ValidAmounts(a, rule);
    ValidAmounts(b, rule);
    if !hasNeg {
      forall d ensures Amount(r.value, d) >= 0 && Amount(r.value, d) < INT_LIMIT && (Amount(r.value, d) != 0 ==> rule(d)) {
        assert Amount(r.value, d) != 0 ==> Has(a, d) || Has(b, d);
      }
      ValidByAmounts(r.value, rule);
      AmountOfStrict(r.value);
    }
  }

  /** So here, too, a repeated denomination stays in a result that is promised to be valid. */
  method SubKeepsRepeats(d: Denom, ghost rule: Rule) returns (r: Outcome<CoinList>)
    ensures r.Ok? && !Valid(r.value, rule)
  {
    var a := [Coin(d, 1), Coin(d, 1)];
    assert !Before(d, d) by { Order(); }
    forall e ensures !AnyNegative(Differences(a, [], e)) && (e == d ==> Differences(a, [], e) == [1, 1]) {
      DifferenceWithNone(d, e);
    }
    assert !DifferenceClash(a, [], INT_LIMIT);
    hide Before, Differences, DifferenceClash, Occurrences;
    r := Sub(a, [], rule);
    assert !AtMostOne(Differences(a, [], d), rule(d));
  }

  lemma DifferenceWithNone(d: Denom, e: Denom)
    ensures var a := [Coin(d, 1), Coin(d, 1)];
            Differences(a, [], e) == if e == d then [1, 1] else []
  {
    var a := [Coin(d, 1), Coin(d, 1)];
    var s := PairSums(Occurrences(a, e), Negated(Occurrences([], e)));
    if e == d {
      OccursTwice(d);
      OnesAreKept(s);
    } else {
      OccAbsent(a, 2, e);
      assert s == [];
    }
  }

  /** What is added can be taken away again. */
  method AddThenSub(a: CoinList, b: CoinList, ghost rule: Rule) returns (sum: Outcome<CoinList>, r: Outcome<CoinList>)
    requires Proper(a, rule) && Proper(b, rule)
    ensures sum.Ok? ==> r == Ok(a)
  {
    hide Before, Amount;
    sum := Add(a, b, rule);
    if sum.Panic? { return Panic, Panic; }
    r := Sub(sum.value, b, rule);
    ValidAmounts(a, rule);
    if r.Ok? {
      ValidAmounts(r.value, rule);
      SameAmountsSameList(r.value, a);
    }
  }

  // ----- comparisons

  method IsAllGTE(a: CoinList, b: CoinList, rule: Rule) returns (r: Outcome<bool>)
    ensures Valid(a, rule) && Valid(b, rule) ==> r.Ok? && (r.value <==> Gte(a, b))
    ensures r.Panic? ==> exists i :: 0 <= i < |b| && !rule(b[i].denom)
  {
    hide Before, Amount, Search;
    ghost var valid := Valid(a, rule) && Valid(b, rule);
    if valid { GteByCoins(a, b, rule); }
    if |b| == 0 { return Ok(true); }
    if |a| == 0 { return Ok(false); }
    for i := 0 to |b|
      invariant valid ==> forall k :: 0 <= k < i ==> b[k].amount <= Amount(a, b[k].denom)
    {
      var amt := AmountOf(a, b[i].denom, rule);
      if amt.Panic? { return Panic; }
      if valid { SearchIsAmount(a, b[i].denom); }
      if b[i].amount > amt.value { return Ok(false); }
    }
    r := Ok(true);
  }

  lemma GteByCoins(a: CoinList, b: CoinList, rule: Rule)
    requires Valid(a, rule) && Valid(b, rule)
    ensures Gte(a, b) <==> forall k :: 0 <= k < |b| ==> b[k].amount <= Amount(a, b[k].denom)
    ensures |a| == 0 && |b| > 0 ==> !Gte(a, b)
  {
    ValidAmounts(a, rule);
    ValidAmounts(b, rule);
    AmountOfStrict(b);
    if |a| == 0 && |b| > 0 {
      assert Amount(a, b[0].denom) == 0 && Amount(b, b[0].denom) > 0;
    }
  }

  ghost predicate DenomsWithin(a: CoinList, b: CoinList) {
    forall d :: Has(a, d) ==> Has(b, d)
  }

  ghost function DenomSet(cs: CoinList, n: nat): set<Denom>
    requires n <= |cs|
  {
    if n == 0 then {} else DenomSet(cs, n - 1) + {cs[n - 1].denom}
  }

  lemma {:induction false} DenomSetMembers(cs: CoinList, n: nat, d: Denom)
    requires n <= |cs|
    ensures d in DenomSet(cs, n) <==> exists k :: 0 <= k < n && cs[k].denom == d
  {
    if n > 0 { DenomSetMembers(cs, n - 1, d); }
  }

  lemma {:induction false} DenomSetSize(cs: CoinList, n: nat)
    requires n <= |cs| && Strict(cs)
    ensures |DenomSet(cs, n)| == n
  {
    hide Before;
    Order();
    if n > 0 {
      DenomSetSize(cs, n - 1);
      DenomSetMembers(cs, n - 1, cs[n - 1].denom);
    }
  }

  lemma SubsetSize<T>(a: set<T>, b: set<T>)
    requires a <= b
    ensures |a| <= |b|
  {
    assert b == a + (b - a);
  }

  /** A longer list has a denomination the other lacks. */
  lemma LongerHasMore(a: CoinList, b: CoinList)
    requires Strict(a) && Strict(b) && DenomsWithin(a, b)
    ensures |a| <= |b|
  {
    hide Before;
    DenomSetSize(a, |a|);
    DenomSetSize(b, |b|);
    forall d | d in DenomSet(a, |a|) ensures d in DenomSet(b, |b|) {
      DenomSetMembers(a, |a|, d);
      DenomSetMembers(b, |b|, d);
      assert Has(a, d);
    }
    SubsetSize(DenomSet(a, |a|), DenomSet(b, |b|));
  }

  method DenomsSubsetOf(a: CoinList, b: CoinList, rule: Rule) returns (r: Outcome<bool>)
    ensures Valid(a, rule) && Valid(b, rule) ==> r.Ok? && (r.value <==> DenomsWithin(a, b))
    ensures r.Panic? ==> exists i :: 0 <= i < |a| && !rule(a[i].denom)
  {
    hide Before, Amount, Search;
    ghost var valid := Valid(a, rule) && Valid(b, rule);
    if valid {
      ValidAmounts(b, rule);
      if DenomsWithin(a, b) { LongerHasMore(a, b); }
    }
    if |a| > |b| { return Ok(false); }
    for i := 0 to |a|
      invariant valid ==> forall k :: 0 <= k < i ==> Has(b, a[k].denom)
    {
      var amt := AmountOf(b, a[i].denom, rule);
      if amt.Panic? { return Panic; }
      if valid {
        SearchIsAmount(b, a[i].denom);
        assert Has(a, a[i].denom);
      }
      if amt.value == 0 { return Ok(false); }
    }
    r := Ok(true);
  }

  method IsAllGT(a: CoinList, b: CoinList, rule: Rule) returns (r: Outcome<bool>)
    ensures Valid(a, rule) && Valid(b, rule) ==>
              r.Ok? && (r.value <==> |a| > 0 && forall d :: Has(b, d) ==> Amount(a, d) > Amount(b, d))
    ensures r.Panic? ==> exists i :: 0 <= i < |b| && !rule(b[i].denom)
  {
    hide Before, Amount, Search;
    ghost var valid := Valid(a, rule) && Valid(b, rule);
    if valid {
      ValidAmounts(a, rule);
      ValidAmounts(b, rule);
      AmountOfStrict(b);
    }
    if |a| == 0 { return Ok(false); }
    if |b| == 0 { return Ok(true); }
    var subset := DenomsSubsetOf(b, a, rule);
    if subset.Panic? { return Panic; }
    if !subset.value { return Ok(false); }
    for i := 0 to |b|
      invariant valid ==> forall k :: 0 <= k < i ==> Amount(a, b[k].denom) > b[k].amount
    {
      var amt := AmountOf(a, b[i].denom, rule);
      if amt.Panic? { return Panic; }
      if valid {
        SearchIsAmount(a, b[i].denom);
        assert Has(b, b[i].denom);
      }
      if amt.value <= b[i].amount { return Ok(false); }
    }
    r := Ok(true);
  }

  // ----- NewCoins

  /** Insert before the first coin with a greater denomination. */
  function Insert(c: Coin, cs: CoinList, n: nat): CoinList
    requires n <= |cs|
  {
    if n == 0 || !Before(c.denom, cs[n - 1].denom) then cs[..n] + [c] + cs[n..] else Insert(c, cs, n - 1)
  }

  function Sort(cs: CoinList, n: nat): CoinList
    requires n <= |cs|
  {
    if n == 0 then [] else var s := Sort(cs, n - 1); Insert(cs[n - 1], s, |s|)
  }

  lemma {:induction false} InsertSorted(c: Coin, cs: CoinList, n: nat)
    requires n <= |cs| && Sorted(cs) && forall k :: n <= k < |cs| ==> Before(c.denom, cs[k].denom)
    ensures Sorted(Insert(c, cs, n))
  {
    hide Before, Amount;
    Order();
    if n > 0 && Before(c.denom, cs[n - 1].denom) { InsertSorted(c, cs, n - 1); }
  }

  lemma {:induction false} InsertAmounts(c: Coin, cs: CoinList, n: nat)
    requires n <= |cs|
    ensures forall d :: Amount(Insert(c, cs, n), d) == Amount(cs, d) + Share(c, d)
  {
    hide Before, Amount;
    if n == 0 || !Before(c.denom, cs[n - 1].denom) {
      var low, high := cs[..n], cs[n..];
      assert cs == low + high;
      AmountConcat(low, high);
      AmountAppend(low, c);
      AmountConcat(low + [c], high);
    } else {
      InsertAmounts(c, cs, n - 1);
    }
  }

  lemma MultisetBetween(low: CoinList, c: Coin, high: CoinList)
    ensures multiset(low + [c] + high) == multiset(low + high) + multiset{c}
  {}

  lemma {:induction false} InsertPermutes(c: Coin, cs: CoinList, n: nat)
    requires n <= |cs|
    ensures multiset(Insert(c, cs, n)) == multiset(cs) + multiset{c}
  {
    hide Before;
    if n == 0 || !Before(c.denom, cs[n - 1].denom) {
      assert cs == cs[..n] + cs[n..];
      MultisetBetween(cs[..n], c, cs[n..]);
    } else {
      InsertPermutes(c, cs, n - 1);
    }
  }

  lemma {:induction false} SortSorted(cs: CoinList, n: nat)
    requires n <= |cs|
    ensures Sorted(Sort(cs, n)) && multiset(Sort(cs, n)) == multiset(cs[..n])
    ensures forall d :: Amount(Sort(cs, n), d) == Total(cs, n, d)
  {
    hide Before, Insert;
    if n > 0 {
      SortSorted(cs, n - 1);
      var s := Sort(cs, n - 1);
      InsertSorted(cs[n - 1], s, |s|);
      InsertAmounts(cs[n - 1], s, |s|);
      InsertPermutes(cs[n - 1], s, |s|);
      assert cs[..n] == cs[..n - 1] + [cs[n - 1]];
    }
  }

  /** Coins that can be put in order to a valid set. */
  ghost predicate Sortable(cs: CoinList, rule: Rule) {
    && (forall i :: 0 <= i < |cs| ==> rule(cs[i].denom) && cs[i].amount > 0)
    && DistinctDenoms(cs)
  }

  /** NewCoins: the coins that are not zero, in order, if that is a valid set.  A valid set
      is left as it is. */
  method NewCoins(cs: CoinList, rule: Rule) returns (r: Outcome<CoinList>)
    ensures r.Ok? ==> Valid(r.value, rule) && multiset(r.value) == multiset(Nonzero(cs, |cs|))
    ensures r.Ok? ==> forall d :: Amount(r.value, d) == Amount(cs, d)
    ensures r.Ok? <==> Sortable(Nonzero(cs, |cs|), rule)
    ensures Valid(cs, rule) ==> r == Ok(cs)
  {
    hide Before;
    var nz := RemoveZeros(cs);
    SortedIsValid(nz, rule);
    var sorted := Sort(nz, |nz|);
    NonzeroAmounts(cs, |cs|);
    SortSorted(nz, |nz|);
    assert nz[..|nz|] == nz;
    if Valid(cs, rule) { ValidIsKept(cs, sorted, rule); }
    var ok := Validate(sorted, rule);
    if !ok { return Panic; }
    r := Ok(sorted);
  }

  lemma ValidIsKept(cs: CoinList, sorted: CoinList, rule: Rule)
    requires Valid(cs, rule) && sorted == Sort(Nonzero(cs, |cs|), |Nonzero(cs, |cs|)|)
    ensures sorted == cs
  {
    hide Before, Amount, Sort, Nonzero;
    ValidIsSortable(cs, rule);
    var nz := Nonzero(cs, |cs|);
    SortedIsValid(nz, rule);
    SortSorted(nz, |nz|);
    NonzeroAmounts(cs, |cs|);
    TotalIsAmount(cs);
    TotalIsAmount(nz);
    ValidAmounts(cs, rule);
    ValidAmounts(sorted, rule);
    SameAmountsSameList(sorted, cs);
  }

  lemma SortedIsValid(nz: CoinList, rule: Rule)
    ensures Valid(Sort(nz, |nz|), rule) <==> Sortable(nz, rule)
  {
    hide Before, Sort;
    Order();
    SortSorted(nz, |nz|);
    assert nz[..|nz|] == nz;
    var s := Sort(nz, |nz|);
    if Sortable(nz, rule) { SortablePermutation(nz, s, rule); }
    if Valid(s, rule) {
      assert Sortable(s, rule);
      SortablePermutation(s, nz, rule);
    }
  }

  lemma SortablePermutation(a: CoinList, b: CoinList, rule: Rule)
    requires Sortable(a, rule) && multiset(a) == multiset(b)
    ensures Sortable(b, rule)
  {
    forall i | 0 <= i < |b| ensures rule(b[i].denom) && b[i].amount > 0 {
      assert b[i] in multiset(b);
      assert b[i] in a;
    }
    DistinctPermutation(a, b);
  }

  lemma TwiceInMultiset(b: CoinList, i: nat, j: nat)
    requires i < j < |b| && b[i] == b[j]
    ensures multiset(b)[b[i]] >= 2
  {
    assert b == b[..j] + [b[j]] + b[j + 1..];
    assert b[..j][i] == b[i];
    assert b[i] in multiset(b[..j]);
  }

  lemma OnceInMultiset(a: CoinList, c: Coin)
    requires c in a && forall i, j :: 0 <= i < j < |a| ==> a[i] != a[j]
    ensures multiset(a)[c] == 1
  {
    var i :| 0 <= i < |a| && a[i] == c;
    assert a == a[..i] + [a[i]] + a[i + 1..];
    assert c !in a[..i] && c !in a[i + 1..];
    assert multiset(a[..i])[c] == 0 && multiset(a[i + 1..])[c] == 0;
  }

  lemma ValidIsSortable(cs: CoinList, rule: Rule)
    requires Valid(cs, rule)
    ensures Sortable(Nonzero(cs, |cs|), rule)
  {
    hide Before, Sort;
    Order();
    NonzeroStrict(cs, |cs|);
    var nz := Nonzero(cs, |cs|);
    forall i | 0 <= i < |nz| ensures rule(nz[i].denom) && nz[i].amount > 0 {
      assert exists k :: 0 <= k < |cs| && cs[k] == nz[i];
    }
  }

  // ----- Max and Min

  function Larger(x: int, y: int): int {
    if y > x then y else x
  }

  function Smaller(x: int, y: int): int {
    if y < x then y else x
  }

  ghost predicate AllGood(cs: CoinList, rule: Rule) {
    forall i :: 0 <= i < |cs| ==> rule(cs[i].denom) && cs[i].amount > 0
  }

  /** The amounts of the coin about to be taken, in what has been taken. */
  lemma NotYetTaken(a: CoinList, i: nat, b: CoinList, j: nat, sum: CoinList)
    requires i < |a| && j <= |b| && Strict(a) && Aligned(a, i, b, j, sum)
    ensures Total(a, i, a[i].denom) == 0 && Total(b, j, a[i].denom) == 0
  {
    hide Before;
    Order();
    TotalAbsent(a, i, a[i].denom);
    forall k | 0 <= k < j ensures b[k].denom != a[i].denom {
      assert b[..j][k] == b[k];
    }
    TotalAbsent(b, j, a[i].denom);
  }

  /** What has been taken is combined by `f`, which is zero for nothing. */
  ghost predicate Combined(a: CoinList, i: nat, b: CoinList, j: nat, sum: CoinList, f: (int, int) -> int)
    requires i <= |a| && j <= |b|
  {
    forall d :: Amount(sum, d) == f(Total(a, i, d), Total(b, j, d))
  }

  lemma CombineFirst(a: CoinList, i: nat, b: CoinList, j: nat, sum: CoinList, taken: bool, f: (int, int) -> int)
    requires i < |a| && j <= |b| && Strict(a) && Aligned(a, i, b, j, sum) && Combined(a, i, b, j, sum, f) && f(0, 0) == 0
    requires f(a[i].amount, 0) == if taken then a[i].amount else 0
    ensures Combined(a, i + 1, b, j, if taken then sum + [a[i]] else sum, f)
  {
    hide Before, Aligned, Amount;
    NotYetTaken(a, i, b, j, sum);
    AmountAppend(sum, a[i]);
  }

  lemma CombineSecond(a: CoinList, i: nat, b: CoinList, j: nat, sum: CoinList, taken: bool, f: (int, int) -> int)
    requires i <= |a| && j < |b| && Strict(b) && Aligned(a, i, b, j, sum) && Combined(a, i, b, j, sum, f) && f(0, 0) == 0
    requires f(0, b[j].amount) == if taken then b[j].amount else 0
    ensures Combined(a, i, b, j + 1, if taken then sum + [b[j]] else sum, f)
  {
    hide Before, Aligned, Amount;
    AlignedSymmetric(a, i, b, j, sum);
    NotYetTaken(b, j, a, i, sum);
    AmountAppend(sum, b[j]);
  }

  lemma CombineBoth(a: CoinList, i: nat, b: CoinList, j: nat, sum: CoinList, c: Coin, f: (int, int) -> int)
    requires i < |a| && j < |b| && Strict(a) && Strict(b) && Aligned(a, i, b, j, sum) && Combined(a, i, b, j, sum, f) && f(0, 0) == 0
    requires a[i].denom == b[j].denom == c.denom && c.amount == f(a[i].amount, b[j].amount)
    ensures Combined(a, i + 1, b, j + 1, sum + [c], f)
  {
    hide Before, Aligned, Amount;
    NotYetTaken(a, i, b, j, sum);
    AmountAppend(sum, c);
  }

  /** Max: the pointwise maximum. */
  method Max(a: CoinList, b: CoinList, rule: Rule) returns (r: Outcome<CoinList>)
    ensures Valid(a, rule) && Valid(b, rule) ==>
              && r.Ok? && Valid(r.value, rule)
              && forall d :: Amount(r.value, d) == Larger(Amount(a, d), Amount(b, d))
  {
    hide Before, Aligned, Combined, Amount;
    ghost var valid := Valid(a, rule) && Valid(b, rule);
    var max: CoinList, i, j := [], 0, 0;
    CombineStart(a, b, Larger);
    while i < |a| && j < |b|
      invariant 0 <= i <= |a| && 0 <= j <= |b| && (valid ==> AllGood(max, rule) && Aligned(a, i, b, j, max) && Combined(a, i, b, j, max, Larger))
    {
      Trichotomy(a[i].denom, b[j].denom);
      var coinA, coinB := a[i], b[j];
      if Before(coinA.denom, coinB.denom) {
        if valid {
          TakeFirst(a, i, b, j, max);
          CombineFirst(a, i, b, j, max, true, Larger);
        }
        max, i := max + [coinA], i + 1;
      } else if coinA.denom == coinB.denom {
        var maxCoin := if coinB.amount > coinA.amount then coinB else coinA;
        if valid {
          TakeBoth(a, i, b, j, max, maxCoin);
          CombineBoth(a, i, b, j, max, maxCoin, Larger);
        }
        max, i, j := max + [maxCoin], i + 1, j + 1;
      } else {
        if valid {
          TakeSecond(a, i, b, j, max);
          CombineSecond(a, i, b, j, max, true, Larger);
        }
        max, j := max + [coinB], j + 1;
      }
    }
    while i < |a|
      invariant 0 <= i <= |a| && 0 <= j <= |b| && (i < |a| ==> j == |b|)
      invariant valid ==> AllGood(max, rule) && Aligned(a, i, b, j, max) && Combined(a, i, b, j, max, Larger)
    {
      if valid {
        TakeFirst(a, i, b, j, max);
        CombineFirst(a, i, b, j, max, true, Larger);
      }
      max, i := max + [a[i]], i + 1;
    }
    while j < |b|
      invariant 0 <= j <= |b| && (valid ==> AllGood(max, rule) && Aligned(a, i, b, j, max) && Combined(a, i, b, j, max, Larger))
    {
      if valid {
        TakeSecond(a, i, b, j, max);
        CombineSecond(a, i, b, j, max, true, Larger);
      }
      max, j := max + [b[j]], j + 1;
    }
    if valid { CombineEnd(a, b, max, Larger); }
    r := NewCoins(max, rule);
  }

  lemma CombineStart(a: CoinList, b: CoinList, f: (int, int) -> int)
    requires f(0, 0) == 0
    ensures Aligned(a, 0, b, 0, []) && Combined(a, 0, b, 0, [], f)
  {}

  lemma CombineEnd(a: CoinList, b: CoinList, sum: CoinList, f: (int, int) -> int)
    requires Aligned(a, |a|, b, |b|, sum) && Combined(a, |a|, b, |b|, sum, f)
    ensures Strict(sum) && forall d :: Amount(sum, d) == f(Amount(a, d), Amount(b, d))
  {}

  /** Min: the pointwise minimum. */
  method Min(a: CoinList, b: CoinList, rule: Rule) returns (r: Outcome<CoinList>)
    ensures Valid(a, rule) && Valid(b, rule) ==>
              && r.Ok? && Valid(r.value, rule)
              && forall d :: Amount(r.value, d) == Smaller(Amount(a, d), Amount(b, d))
  {
    hide Before, Aligned, Combined;
    ghost var valid := Valid(a, rule) && Valid(b, rule);
    var min: CoinList, i, j := [], 0, 0;
    CombineStart(a, b, Smaller);
    while i < |a| && j < |b|
      invariant 0 <= i <= |a| && 0 <= j <= |b| && (valid ==> AllGood(min, rule) && Aligned(a, i, b, j, min) && Combined(a, i, b, j, min, Smaller))
    {
      Order();
      var coinA, coinB := a[i], b[j];
      if Before(coinA.denom, coinB.denom) {
        if valid {
          TakeFirst(a, i, b, j, min);
          CombineFirst(a, i, b, j, min, false, Smaller);
        }
        i := i + 1;
      } else if coinA.denom == coinB.denom {
        var minCoin := if coinB.amount < coinA.amount then coinB else coinA;
        if valid {
          TakeBoth(a, i, b, j, min, minCoin);
          CombineBoth(a, i, b, j, min, minCoin, Smaller);
        }
        if minCoin.amount != 0 { min := min + [minCoin]; }
        i, j := i + 1, j + 1;
      } else {
        if valid {
          TakeSecond(a, i, b, j, min);
          CombineSecond(a, i, b, j, min, false, Smaller);
        }
        j := j + 1;
      }
    }
    if valid { MinEnd(a, i, b, j, min, rule); }
    r := NewCoins(min, rule);
  }

  /** What is left of the longer list is in one list only. */
  lemma MinEnd(a: CoinList, i: nat, b: CoinList, j: nat, min: CoinList, rule: Rule)
    requires i <= |a| && j <= |b| && (i == |a| || j == |b|) && Valid(a, rule) && Valid(b, rule)
    requires Aligned(a, i, b, j, min) && Combined(a, i, b, j, min, Smaller)
    ensures Strict(min) && forall d :: Amount(min, d) == Smaller(Amount(a, d), Amount(b, d))
    decreases |a| - i + |b| - j
  {
    hide Before;
    if i < |a| {
      TakeFirst(a, i, b, j, min);
      CombineFirst(a, i, b, j, min, false, Smaller);
      MinEnd(a, i + 1, b, j, min, rule);
    } else if j < |b| {
      TakeSecond(a, i, b, j, min);
      CombineSecond(a, i, b, j, min, false, Smaller);
      MinEnd(a, i, b, j + 1, min, rule);
    }
  }

  // ----- IsEqual and the lattice laws

  /** The lists agree before `k` and differ there. */
  ghost predicate DifferAt(s: CoinList, t: CoinList, k: int) {
    0 <= k < |s| && k < |t| && s[k] != t[k] && forall i :: 0 <= i < k ==> s[i] == t[i]
  }

  /** Sort: the library's sort promises no more than a sorted permutation. */
  method SortCoins(cs: CoinList) returns (s: CoinList)
    ensures Sorted(s) && multiset(s) == multiset(cs)
  {
    s := Sort(cs, |cs|);
    SortSorted(cs, |cs|);
    assert cs[..|cs|] == cs;
  }

  ghost predicate IsSortOf(s: CoinList, cs: CoinList) {
    Sorted(s) && multiset(s) == multiset(cs)
  }

  /** The answer to two sorted lists: a panic where they first differ in a denomination. */
  ghost predicate Verdict(s: CoinList, t: CoinList, r: Outcome<bool>) {
    && (r.Panic? <==> exists k :: DifferAt(s, t, k) && s[k].denom != t[k].denom)
    && (r == Ok(true) <==> s == t)
  }

  ghost predicate DistinctDenoms(cs: CoinList) {
    forall i, j :: 0 <= i < j < |cs| ==> cs[i].denom != cs[j].denom
  }

  /** IsEqual: the answer is that to the sorted lists, and a yes is only given to lists with
      the same coins.  There is more than one way to sort a list with repeated denominations,
      and just one to sort any other. */
  method IsEqual(a: CoinList, b: CoinList) returns (r: Outcome<bool>)
    ensures |a| != |b| ==> r == Ok(false)
    ensures r == Ok(true) ==> multiset(a) == multiset(b)
    ensures |a| == |b| ==> exists s, t :: IsSortOf(s, a) && IsSortOf(t, b) && Verdict(s, t, r)
    ensures |a| == |b| && DistinctDenoms(a) && DistinctDenoms(b) ==> Verdict(Sort(a, |a|), Sort(b, |b|), r)
  {
    hide Before, Sort, Verdict;
    if |a| != |b| { return Ok(false); }
    var s := SortCoins(a);
    var t := SortCoins(b);
    assert IsSortOf(s, a) && IsSortOf(t, b) && |multiset(s)| == |s| && |multiset(t)| == |t|;
    if DistinctDenoms(a) { SortIsUnique(a, s); }
    if DistinctDenoms(b) { SortIsUnique(b, t); }
    for i := 0 to |s|
      invariant forall k :: 0 <= k < i ==> s[k] == t[k]
    {
      if s[i].denom != t[i].denom {
        FirstDifference(s, t, i);
        return Panic;
      }
      if s[i].amount != t[i].amount {
        FirstDifference(s, t, i);
        return Ok(false);
      }
    }
    NoDifference(s, t);
    r := Ok(true);
  }

  lemma FirstDifference(s: CoinList, t: CoinList, i: nat)
    requires DifferAt(s, t, i)
    ensures Verdict(s, t, if s[i].denom != t[i].denom then Panic else Ok(false))
  {
    assert forall k :: DifferAt(s, t, k) ==> k == i;
  }

  lemma NoDifference(s: CoinList, t: CoinList)
    requires |s| == |t| && forall k :: 0 <= k < |s| ==> s[k] == t[k]
    ensures s == t && Verdict(s, t, Ok(true))
  {}

  /** Without repeated denominations there is one way to sort. */
  lemma SortIsUnique(cs: CoinList, s: CoinList)
    requires DistinctDenoms(cs) && Sorted(s) && multiset(s) == multiset(cs)
    ensures s == Sort(cs, |cs|)
  {
    hide Before, Sort;
    SortSorted(cs, |cs|);
    assert cs[..|cs|] == cs;
    var t := Sort(cs, |cs|);
    DistinctPermutation(cs, s);
    DistinctPermutation(cs, t);
    Order();
    assert Strict(s) && Strict(t);
    SameCoins(s, t);
    SameCoins(t, s);
    assert |multiset(s)| == |s| && |multiset(t)| == |t|;
    forall i | 0 <= i < |s| ensures s[i] == t[i] {
      SameDenomAt(s, t, i);
      assert s[i] in multiset(s) && s[i] in t;
    }
  }

  lemma SameCoins(s: CoinList, t: CoinList)
    requires multiset(s) == multiset(t)
    ensures forall d :: Has(s, d) ==> Has(t, d)
  {
    forall d | Has(s, d) ensures Has(t, d) {
      var i :| 0 <= i < |s| && s[i].denom == d;
      assert s[i] in multiset(s);
      assert s[i] in t;
    }
  }

  lemma DistinctPermutation(a: CoinList, b: CoinList)
    requires DistinctDenoms(a) && multiset(a) == multiset(b)
    ensures DistinctDenoms(b)
  {
    forall i, j | 0 <= i < j < |b| ensures b[i].denom != b[j].denom {
      assert b[i] in multiset(b) && b[j] in multiset(b);
      assert b[i] in a && b[j] in a;
      if b[i].denom == b[j].denom {
        assert b[i] == b[j];
        TwiceInMultiset(b, i, j);
        OnceInMultiset(a, b[i]);
      }
    }
  }

  lemma {:induction false} SortOfStrict(cs: CoinList, n: nat)
    requires n <= |cs| && Strict(cs)
    ensures Sort(cs, n) == cs[..n]
  {
    hide Before;
    Order();
    if n > 0 {
      SortOfStrict(cs, n - 1);
      assert cs[..n] == cs[..n - 1] + [cs[n - 1]];
    }
  }

  /** On valid sets it panics exactly when they have as many coins each and first differ in
      a denomination. */
  method IsEqualOfValid(a: CoinList, b: CoinList, ghost rule: Rule) returns (r: Outcome<bool>)
    requires Valid(a, rule) && Valid(b, rule)
    ensures r.Panic? <==> |a| == |b| && exists k :: DifferAt(a, b, k) && a[k].denom != b[k].denom
    ensures r == Ok(true) <==> a == b
  {
    hide Before, Sort;
    SortOfStrict(a, |a|);
    SortOfStrict(b, |b|);
    assert a[..|a|] == a && b[..|b|] == b;
    Order();
    r := IsEqual(a, b);
  }

  /** Different denominations make IsEqual panic instead of answering. */
  method IsEqualPanics(x: Denom, y: Denom, ghost rule: Rule) returns (r: Outcome<bool>)
    requires x != y && rule(x) && rule(y)
    ensures r.Panic?
  {
    var a, b := [Coin(x, 1)], [Coin(y, 1)];
    r := IsEqualOfValid(a, b, rule);
    assert DifferAt(a, b, 0);
  }

  method IsAllLTE(a: CoinList, b: CoinList, rule: Rule) returns (r: Outcome<bool>)
    ensures Valid(a, rule) && Valid(b, rule) ==> r.Ok? && (r.value <==> Gte(b, a))
  {
    r := IsAllGTE(b, a, rule);
  }

  /** Max is the least upper bound under IsAllLTE. */
  method MaxIsLeastUpperBound(a: CoinList, b: CoinList, c: CoinList, rule: Rule)
    returns (aBelow: Outcome<bool>, bBelow: Outcome<bool>, aUnder: Outcome<bool>, bUnder: Outcome<bool>, maxUnder: Outcome<bool>)
    requires Valid(a, rule) && Valid(b, rule) && Valid(c, rule)
    ensures aBelow == Ok(true) && bBelow == Ok(true)
    ensures aUnder.Ok? && bUnder.Ok? && maxUnder == Ok(aUnder.value && bUnder.value)
  {
    hide Before, Amount;
    var max := Max(a, b, rule);
    var m := max.value;
    aBelow := IsAllLTE(a, m, rule);
    bBelow := IsAllLTE(b, m, rule);
    aUnder := IsAllLTE(a, c, rule);
    bUnder := IsAllLTE(b, c, rule);
    maxUnder := IsAllLTE(m, c, rule);
    assert Gte(c, m) <==> Gte(c, a) && Gte(c, b) by {
      if Gte(c, m) {
        forall d ensures Amount(c, d) >= Amount(a, d) && Amount(c, d) >= Amount(b, d) { assert Amount(c, d) >= Amount(m, d); }
      }
    }
  }

  /** Min is the greatest lower bound under IsAllLTE. */
  method MinIsGreatestLowerBound(a: CoinList, b: CoinList, c: CoinList, rule: Rule)
    returns (belowA: Outcome<bool>, belowB: Outcome<bool>, underA: Outcome<bool>, underB: Outcome<bool>, underMin: Outcome<bool>)
    requires Valid(a, rule) && Valid(b, rule) && Valid(c, rule)
    ensures belowA == Ok(true) && belowB == Ok(true)
    ensures underA.Ok? && underB.Ok? && underMin == Ok(underA.value && underB.value)
  {
    hide Before, Amount;
    var min := Min(a, b, rule);
    var m := min.value;
    belowA := IsAllLTE(m, a, rule);
    belowB := IsAllLTE(m, b, rule);
    underA := IsAllLTE(c, a, rule);
    underB := IsAllLTE(c, b, rule);
    underMin := IsAllLTE(c, m, rule);
    assert Gte(m, c) <==> Gte(a, c) && Gte(b, c) by {
      if Gte(m, c) {
        forall d ensures Amount(a, d) >= Amount(c, d) && Amount(b, d) >= Amount(c, d) { assert Amount(m, d) >= Amount(c, d); }
      }
    }
  }

  /** a + b is Min(a, b) + Max(a, b): both panic, or they are equal and IsEqual says so. */
  method AddIsMinPlusMax(a: CoinList, b: CoinList, rule: Rule) returns (left: Outcome<CoinList>, right: Outcome<CoinList>, equal: Outcome<bool>)
    requires Proper(a, rule) && Proper(b, rule)
    ensures left == right && (left.Ok? ==> equal == Ok(true))
  {
    hide Before, Amount;
    var max := Max(a, b, rule);
    var min := Min(a, b, rule);
    ProperAmounts(a, rule);
    ProperAmounts(b, rule);
    AmountOfStrict(max.value);
    AmountOfStrict(min.value);
    assert Within(max.value, INT_LIMIT) by { WithinByAmounts(max.value); }
    assert Within(min.value, INT_LIMIT) by { WithinByAmounts(min.value); }
    left := Add(a, b, rule);
    right := Add(min.value, max.value, rule);
    assert forall d :: Amount(min.value, d) + Amount(max.value, d) == Amount(a, d) + Amount(b, d);
    if left.Ok? && right.Ok? {
      ValidAmounts(left.value, rule);
      ValidAmounts(right.value, rule);
      SameAmountsSameList(left.value, right.value);
      equal := IsEqualOfValid(left.value, right.value, rule);
    } else {
      equal := Panic;
    }
  }

  lemma WithinByAmounts(cs: CoinList)
    requires Strict(cs) && forall d :: Abs(Amount(cs, d)) < INT_LIMIT
    ensures Within(cs, INT_LIMIT)
  {
    AmountOfStrict(cs);
    forall i | 0 <= i < |cs| ensures Abs(cs[i].amount) < INT_LIMIT {
      assert Amount(cs, cs[i].denom) == cs[i].amount;
    }
  }
}
