/** The merge of safeAdd (types/coin.go, types/dec_coin.go), for sorted lists in which a
    denomination may come more than once.

    The occurrences of a denomination in the two lists are added in pairs, the first to the
    first, the second to the second and so on; what is left over in the longer list stays. */
module CoinMerge {
  import opened Denoms
  import opened CoinLists

  // ----- occurrences

  /** The amounts of `d` among the first `n` coins, in order. */
  function Occ(cs: CoinList, n: nat, d: Denom): seq<int>
    requires n <= |cs|
  {
    if n == 0 then [] else Occ(cs, n - 1, d) + if cs[n - 1].denom == d then [cs[n - 1].amount] else []
  }

  function Occurrences(cs: CoinList, d: Denom): seq<int> {
    Occ(cs, |cs|, d)
  }

  function Nth(x: seq<int>, k: nat): int {
    if k < |x| then x[k] else 0
  }

  /** Sums in pairs. */
  function PairSums(x: seq<int>, y: seq<int>): seq<int> {
    seq(if |x| < |y| then |y| else |x|, k requires 0 <= k => Nth(x, k) + Nth(y, k))
  }

  function Nonzeros(s: seq<int>, n: nat): seq<int>
    requires n <= |s|
  {
    if n == 0 then [] else Nonzeros(s, n - 1) + if s[n - 1] != 0 then [s[n - 1]] else []
  }

  /** The amounts of `d` in the sum of two lists. */
  function Paired(a: CoinList, b: CoinList, d: Denom): seq<int> {
    var s := PairSums(Occurrences(a, d), Occurrences(b, d));
    Nonzeros(s, |s|)
  }

  /** Some pair takes an amount out of range. */
  ghost predicate Clash(a: CoinList, b: CoinList, limit: nat) {
    exists d, k :: Clashing(Occurrences(a, d), Occurrences(b, d), k, limit)
  }

  predicate Clashing(x: seq<int>, y: seq<int>, k: nat, limit: nat) {
    k < |x| && k < |y| && Abs(x[k] + y[k]) >= limit
  }

  lemma {:induction false} OccPrefix(a: CoinList, b: CoinList, n: nat, d: Denom)
    requires n <= |a| && n <= |b| && forall i :: 0 <= i < n ==> a[i] == b[i]
    ensures Occ(a, n, d) == Occ(b, n, d)
  {
    if n > 0 { OccPrefix(a, b, n - 1, d); }
  }

  lemma OccAppend(cs: CoinList, c: Coin, d: Denom)
    ensures Occurrences(cs + [c], d) == Occurrences(cs, d) + if c.denom == d then [c.amount] else []
  {
    OccPrefix(cs + [c], cs, |cs|, d);
  }

  lemma {:induction false} OccGrows(cs: CoinList, m: nat, n: nat, d: Denom)
    requires m <= n <= |cs|
    ensures Occ(cs, m, d) <= Occ(cs, n, d)
    decreases n
  {
    if m < n { OccGrows(cs, m, n - 1, d); }
  }

  /** Where the coin at `i` is among the occurrences. */
  lemma OccAt(cs: CoinList, i: nat)
    requires i < |cs|
    ensures var d := cs[i].denom;
            var k := |Occ(cs, i, d)|;
            k < |Occurrences(cs, d)| && Occurrences(cs, d)[k] == cs[i].amount
  {
    var d := cs[i].denom;
    OccGrows(cs, i + 1, |cs|, d);
    assert Occ(cs, i + 1, d) == Occ(cs, i, d) + [cs[i].amount];
  }

  lemma {:induction false} OccAbsent(cs: CoinList, n: nat, d: Denom)
    requires n <= |cs| && forall i :: 0 <= i < n ==> cs[i].denom != d
    ensures Occ(cs, n, d) == []
  {
    if n > 0 { OccAbsent(cs, n - 1, d); }
  }

  lemma NonzerosAppend(s: seq<int>, v: int)
    ensures Nonzeros(s + [v], |s| + 1) == Nonzeros(s, |s|) + if v != 0 then [v] else []
  {
    NonzerosPrefix(s + [v], s, |s|);
  }

  lemma {:induction false} NonzerosPrefix(s: seq<int>, t: seq<int>, n: nat)
    requires n <= |s| && n <= |t| && forall i :: 0 <= i < n ==> s[i] == t[i]
    ensures Nonzeros(s, n) == Nonzeros(t, n)
  {
    if n > 0 { NonzerosPrefix(s, t, n - 1); }
  }

  // ----- where the merge stands

  /** What is behind is not after the head of the first list, and has no more of the head's
      denomination on the other side. */
  ghost predicate Behind(a: CoinList, i: nat, b: CoinList, j: nat)
    requires i <= |a| && j <= |b|
  {
    i < |a| ==>
      && (forall y :: 0 <= y < j ==> !Before(a[i].denom, b[y].denom))
      && |Occ(b, j, a[i].denom)| <= |Occ(a, i, a[i].denom)|
  }

  /** The sum so far may be followed by the head of a list. */
  ghost predicate Follows(a: CoinList, i: nat, sum: CoinList)
    requires i <= |a|
  {
    i < |a| ==> forall k :: 0 <= k < |sum| ==> !Before(a[i].denom, sum[k].denom)
  }

  /** The sum of what is behind, by denomination. */
  function PairedTo(a: CoinList, i: nat, b: CoinList, j: nat, d: Denom): seq<int>
    requires i <= |a| && j <= |b|
  {
    var s := PairSums(Occ(a, i, d), Occ(b, j, d));
    Nonzeros(s, |s|)
  }

  ghost predicate Summed(a: CoinList, i: nat, b: CoinList, j: nat, sum: CoinList)
    requires i <= |a| && j <= |b|
  {
    forall d :: Occurrences(sum, d) == PairedTo(a, i, b, j, d)
  }

  ghost predicate Clear(a: CoinList, i: nat, b: CoinList, j: nat, limit: nat)
    requires i <= |a| && j <= |b|
  {
    forall d, k :: !ClashingTo(a, i, b, j, d, k, limit)
  }

  predicate ClashingTo(a: CoinList, i: nat, b: CoinList, j: nat, d: Denom, k: nat, limit: nat)
    requires i <= |a| && j <= |b|
  {
    Clashing(Occ(a, i, d), Occ(b, j, d), k, limit)
  }

  ghost predicate Merging(a: CoinList, i: nat, b: CoinList, j: nat, sum: CoinList, limit: nat)
    requires i <= |a| && j <= |b|
  {
    && Behind(a, i, b, j) && Behind(b, j, a, i)
    && Sorted(sum) && Follows(a, i, sum) && Follows(b, j, sum)
    && Summed(a, i, b, j, sum) && Clear(a, i, b, j, limit)
  }

  lemma Symmetric(a: CoinList, i: nat, b: CoinList, j: nat, sum: CoinList, limit: nat)
    requires i <= |a| && j <= |b| && Merging(a, i, b, j, sum, limit)
    ensures Merging(b, j, a, i, sum, limit)
  {
    forall d ensures PairedTo(b, j, a, i, d) == PairedTo(a, i, b, j, d) {
      assert PairSums(Occ(b, j, d), Occ(a, i, d)) == PairSums(Occ(a, i, d), Occ(b, j, d));
    }
    forall d, k ensures !ClashingTo(b, j, a, i, d, k, limit) {
      assert !ClashingTo(a, i, b, j, d, k, limit);
    }
  }

  // ----- the next coin is taken from the first list alone

  lemma AloneBehind(a: CoinList, i: nat, b: CoinList, j: nat)
    requires i < |a| && j <= |b| && Sorted(a) && Behind(a, i, b, j) && Behind(b, j, a, i)
    requires j < |b| ==> Before(a[i].denom, b[j].denom)
    ensures Behind(a, i + 1, b, j) && Behind(b, j, a, i + 1)
  {
    hide Before;
    Order();
    if i + 1 < |a| && a[i + 1].denom != a[i].denom { OccAbsent(b, j, a[i + 1].denom); }
  }

  lemma PushFollows(a: CoinList, i: nat, sum: CoinList, c: Coin, b: CoinList, j: nat)
    requires i < |a| && j <= |b| && Sorted(a) && Sorted(sum) && c.denom == a[i].denom && Follows(a, i, sum) && Follows(b, j, sum)
    ensures Follows(a, i + 1, sum) && Follows(a, i + 1, sum + [c]) && Sorted(sum + [c])
    ensures j < |b| && !Before(b[j].denom, c.denom) ==> Follows(b, j, sum + [c])
  {
    hide Before;
    Order();
  }

  lemma AlonePaired(a: CoinList, i: nat, b: CoinList, j: nat, d: Denom)
    requires i < |a| && j <= |b| && Behind(a, i, b, j)
    ensures PairedTo(a, i + 1, b, j, d) == PairedTo(a, i, b, j, d) + if a[i].denom == d && a[i].amount != 0 then [a[i].amount] else []
  {
    if a[i].denom == d {
      var x, y := Occ(a, i, d), Occ(b, j, d);
      assert PairSums(x + [a[i].amount], y) == PairSums(x, y) + [a[i].amount];
      NonzerosAppend(PairSums(x, y), a[i].amount);
    } else {
      assert Occ(a, i + 1, d) == Occ(a, i, d);
    }
  }

  lemma AloneClear(a: CoinList, i: nat, b: CoinList, j: nat, limit: nat)
    requires i < |a| && j <= |b| && Behind(a, i, b, j) && Clear(a, i, b, j, limit)
    ensures Clear(a, i + 1, b, j, limit)
  {
    var next := i + 1;
    forall d, k ensures !ClashingTo(a, next, b, j, d, k, limit) {
      assert !ClashingTo(a, i, b, j, d, k, limit);
    }
  }

  function With(sum: CoinList, c: Coin): CoinList {
    if c.amount == 0 then sum else sum + [c]
  }

  lemma TakeAlone(a: CoinList, i: nat, b: CoinList, j: nat, sum: CoinList, limit: nat)
    requires i < |a| && j <= |b| && Sorted(a) && Merging(a, i, b, j, sum, limit)
    requires j < |b| ==> Before(a[i].denom, b[j].denom)
    ensures Merging(a, i + 1, b, j, With(sum, a[i]), limit)
  {
    hide Before, Occurrences, PairedTo;
    Order();
    AloneBehind(a, i, b, j);
    PushFollows(a, i, sum, a[i], b, j);
    AloneClear(a, i, b, j, limit);
    forall d ensures Occurrences(With(sum, a[i]), d) == PairedTo(a, i + 1, b, j, d) {
      AlonePaired(a, i, b, j, d);
      OccAppend(sum, a[i], d);
    }
  }

  lemma TakeAloneSecond(a: CoinList, i: nat, b: CoinList, j: nat, sum: CoinList, limit: nat)
    requires i <= |a| && j < |b| && Sorted(b) && Merging(a, i, b, j, sum, limit)
    requires i < |a| ==> Before(b[j].denom, a[i].denom)
    ensures Merging(a, i, b, j + 1, With(sum, b[j]), limit)
  {
    hide Before, Merging;
    Symmetric(a, i, b, j, sum, limit);
    TakeAlone(b, j, a, i, sum, limit);
    Symmetric(b, j + 1, a, i, With(sum, b[j]), limit);
  }

  // ----- the next coins are added

  lemma PairBehind(a: CoinList, i: nat, b: CoinList, j: nat)
    requires i < |a| && j < |b| && Sorted(a) && Behind(a, i, b, j) && a[i].denom == b[j].denom
    ensures Behind(a, i + 1, b, j + 1)
  {
    hide Before;
    Order();
    if i + 1 < |a| && a[i + 1].denom != a[i].denom { OccAbsent(b, j + 1, a[i + 1].denom); }
  }

  lemma PairPaired(a: CoinList, i: nat, b: CoinList, j: nat, d: Denom)
    requires i < |a| && j < |b| && Behind(a, i, b, j) && Behind(b, j, a, i) && a[i].denom == b[j].denom
    ensures var v := a[i].amount + b[j].amount;
            PairedTo(a, i + 1, b, j + 1, d) == PairedTo(a, i, b, j, d) + if a[i].denom == d && v != 0 then [v] else []
  {
    if a[i].denom == d {
      var x, y, v := Occ(a, i, d), Occ(b, j, d), a[i].amount + b[j].amount;
      assert PairSums(x + [a[i].amount], y + [b[j].amount]) == PairSums(x, y) + [v];
      NonzerosAppend(PairSums(x, y), v);
    } else {
      assert Occ(a, i + 1, d) == Occ(a, i, d) && Occ(b, j + 1, d) == Occ(b, j, d);
    }
  }

  lemma PairClear(a: CoinList, i: nat, b: CoinList, j: nat, limit: nat)
    requires i < |a| && j < |b| && Behind(a, i, b, j) && Behind(b, j, a, i) && a[i].denom == b[j].denom
    requires Clear(a, i, b, j, limit) && Abs(a[i].amount + b[j].amount) < limit
    ensures Clear(a, i + 1, b, j + 1, limit)
  {
    var i', j' := i + 1, j + 1;
    forall d, k ensures !ClashingTo(a, i', b, j', d, k, limit) {
      assert !ClashingTo(a, i, b, j, d, k, limit);
    }
  }

  lemma TakePair(a: CoinList, i: nat, b: CoinList, j: nat, sum: CoinList, c: Coin, limit: nat)
    requires i < |a| && j < |b| && Sorted(a) && Sorted(b) && Merging(a, i, b, j, sum, limit)
    requires a[i].denom == b[j].denom == c.denom && c.amount == a[i].amount + b[j].amount && Abs(c.amount) < limit
    ensures Merging(a, i + 1, b, j + 1, With(sum, c), limit)
  {
    hide Before, Occurrences, PairedTo;
    PairBehind(a, i, b, j);
    PairBehind(b, j, a, i);
    PushFollows(a, i, sum, c, b, j);
    PushFollows(b, j, sum, c, a, i);
    PairClear(a, i, b, j, limit);
    forall d ensures Occurrences(With(sum, c), d) == PairedTo(a, i + 1, b, j + 1, d) {
      PairPaired(a, i, b, j, d);
      OccAppend(sum, c, d);
    }
  }

  lemma PairPanics(a: CoinList, i: nat, b: CoinList, j: nat, limit: nat)
    requires i < |a| && j < |b| && Behind(a, i, b, j) && Behind(b, j, a, i) && a[i].denom == b[j].denom
    requires Abs(a[i].amount + b[j].amount) >= limit
    ensures Clash(a, b, limit)
  {
    OccAt(a, i);
    OccAt(b, j);
    var d := a[i].denom;
    assert Clashing(Occurrences(a, d), Occurrences(b, d), |Occ(a, i, d)|, limit);
  }

  // ----- one list is used up

  lemma {:induction false} TakeRest(a: CoinList, b: CoinList, j: nat, n: nat, sum: CoinList, limit: nat)
    requires j + n <= |b| && Sorted(b) && Merging(a, |a|, b, j, sum, limit)
    ensures Merging(a, |a|, b, j + n, sum + Nonzero(b[j..], n), limit)
  {
    hide Before, Merging;
    if n == 0 {
      assert sum + [] == sum;
    } else {
      TakeRest(a, b, j, n - 1, sum, limit);
      var sum' := sum + Nonzero(b[j..], n - 1);
      TakeAloneSecond(a, |a|, b, j + n - 1, sum', limit);
      assert b[j..][n - 1] == b[j + n - 1];
      assert With(sum', b[j + n - 1]) == sum + Nonzero(b[j..], n);
    }
  }

  lemma MergeStart(a: CoinList, b: CoinList, limit: nat)
    ensures Merging(a, 0, b, 0, [], limit)
    ensures forall d :: Amount([], d) == Total(a, 0, d) == Total(b, 0, d) == 0
  {}

  lemma MergeEnd(a: CoinList, b: CoinList, r: CoinList, limit: nat)
    requires Merging(a, |a|, b, |b|, r, limit)
    ensures Sorted(r) && !Clash(a, b, limit) && forall d :: Occurrences(r, d) == Paired(a, b, d)
  {
    forall d ensures Occurrences(r, d) == Paired(a, b, d) {
      assert Paired(a, b, d) == PairedTo(a, |a|, b, |b|, d);
    }
    forall d, k: nat ensures !Clashing(Occurrences(a, d), Occurrences(b, d), k, limit) {
      assert !ClashingTo(a, |a|, b, |b|, d, k, limit);
    }
  }

  lemma MergingParts(a: CoinList, i: nat, b: CoinList, j: nat, sum: CoinList, limit: nat)
    requires i <= |a| && j <= |b| && Merging(a, i, b, j, sum, limit)
    ensures Behind(a, i, b, j) && Behind(b, j, a, i)
  {}

  /** The loop of safeAdd.  For lists of any kind the amounts add up; for sorted ones the
      result is sorted, its occurrences are the non-zero sums in pairs, and the call panics
      exactly when one of those is out of range. */
  method Merge(a: CoinList, b: CoinList, limit: nat) returns (r: Outcome<CoinList>)
    ensures r.Ok? ==> NoZeros(r.value) && forall d :: Amount(r.value, d) == Amount(a, d) + Amount(b, d)
    ensures Sorted(a) && Sorted(b) ==> (r.Panic? <==> Clash(a, b, limit))
    ensures Sorted(a) && Sorted(b) && r.Ok? ==> Sorted(r.value) && forall d :: Occurrences(r.value, d) == Paired(a, b, d)
  {
    hide Before, Merging, Clash, Behind, Paired, Occurrences, Total;
    var sum: CoinList, i, j := [], 0, 0;
    ghost var sorted := Sorted(a) && Sorted(b);
    MergeStart(a, b, limit);
    while i < |a| && j < |b|
      invariant 0 <= i <= |a| && 0 <= j <= |b| && NoZeros(sum)
      invariant forall d :: Amount(sum, d) == Total(a, i, d) + Total(b, j, d)
      invariant sorted ==> Merging(a, i, b, j, sum, limit)
    {
      Trichotomy(a[i].denom, b[j].denom);
      TotalStep(a, i);
      TotalStep(b, j);
      var coinA, coinB := a[i], b[j];
      if Before(coinA.denom, coinB.denom) {
        if sorted { TakeAlone(a, i, b, j, sum, limit); }
        AmountAppend(sum, coinA);
        if coinA.amount != 0 { sum := sum + [coinA]; }
        i := i + 1;
      } else if coinA.denom == coinB.denom {
        if sorted { MergingParts(a, i, b, j, sum, limit); }
        if Abs(coinA.amount + coinB.amount) >= limit {
          if sorted { PairPanics(a, i, b, j, limit); }
          return Panic;
        }
        var res := Coin(coinA.denom, coinA.amount + coinB.amount);
        if sorted { TakePair(a, i, b, j, sum, res, limit); }
        AmountAppend(sum, res);
        if res.amount != 0 { sum := sum + [res]; }
        i, j := i + 1, j + 1;
      } else {
        if sorted { TakeAloneSecond(a, i, b, j, sum, limit); }
        AmountAppend(sum, coinB);
        if coinB.amount != 0 { sum := sum + [coinB]; }
        j := j + 1;
      }
    }
    var rest;
    if i == |a| {
      rest := RestOf(b, j);
      if sorted { TakeRest(a, b, j, |b| - j, sum, limit); }
    } else {
      rest := RestOf(a, i);
      if sorted {
        Symmetric(a, i, b, j, sum, limit);
        TakeRest(b, a, i, |a| - i, sum, limit);
        Symmetric(b, |b|, a, |a|, sum + rest, limit);
      }
    }
    if sorted { MergeEnd(a, b, sum + rest, limit); }
    AmountConcat(sum, rest);
    r := Ok(sum + rest);
  }

  /** The non-zero coins of the rest of a list. */
  method RestOf(cs: CoinList, n: nat) returns (r: CoinList)
    requires n <= |cs|
    ensures r == Nonzero(cs[n..], |cs| - n) && NoZeros(r) && forall d :: Total(cs, n, d) + Amount(r, d) == Amount(cs, d)
  {
    r := RemoveZeros(cs[n..]);
    NonzeroAmounts(cs[n..], |cs| - n);
    AmountSplit(cs, n);
  }

  // ----- what the occurrences say about a list

  lemma {:induction false} OccPresent(cs: CoinList, n: nat, d: Denom)
    requires n <= |cs|
    ensures Occ(cs, n, d) != [] <==> exists i :: 0 <= i < n && cs[i].denom == d
  {
    if n > 0 { OccPresent(cs, n - 1, d); }
  }

  /** A sorted list is strict exactly when no denomination occurs twice. */
  lemma StrictByOccurrences(cs: CoinList)
    requires Sorted(cs)
    ensures Strict(cs) <==> forall d :: |Occurrences(cs, d)| <= 1
  {
    hide Before;
    Order();
    if Strict(cs) {
      forall d ensures |Occurrences(cs, d)| <= 1 { OccOfStrict(cs, |cs|, d); }
    } else {
      var i, j :| 0 <= i < j < |cs| && !Before(cs[i].denom, cs[j].denom);
      var d := cs[i].denom;
      OccGrows(cs, i + 1, j, d);
      OccAt(cs, j);
      assert Occ(cs, i + 1, d) == Occ(cs, i, d) + [cs[i].amount];
      assert |Occurrences(cs, d)| > 1;
    }
  }

  lemma {:induction false} OccOfStrict(cs: CoinList, n: nat, d: Denom)
    requires n <= |cs| && Strict(cs)
    ensures |Occ(cs, n, d)| <= 1
    ensures Total(cs, n, d) == if Occ(cs, n, d) == [] then 0 else Occ(cs, n, d)[0]
  {
    hide Before;
    Order();
    if n > 0 {
      OccOfStrict(cs, n - 1, d);
      OccPresent(cs, n - 1, d);
    }
  }

  /** Validity of a sorted list, denomination by denomination. */
  lemma ValidByOccurrences(cs: CoinList, rule: Rule)
    requires Sorted(cs)
    ensures Valid(cs, rule) <==> forall d :: AtMostOne(Occurrences(cs, d), rule(d))
  {
    hide Before;
    StrictByOccurrences(cs);
    if Valid(cs, rule) {
      forall d ensures AtMostOne(Occurrences(cs, d), rule(d)) {
        OccOfStrict(cs, |cs|, d);
        OccPresent(cs, |cs|, d);
        AmountOfStrict(cs);
      }
    }
    if forall d :: AtMostOne(Occurrences(cs, d), rule(d)) {
      forall i | 0 <= i < |cs| ensures rule(cs[i].denom) && cs[i].amount > 0 {
        OccAt(cs, i);
        assert AtMostOne(Occurrences(cs, cs[i].denom), rule(cs[i].denom));
      }
    }
  }

  /** Nothing, or one positive amount of an acceptable denomination. */
  predicate AtMostOne(x: seq<int>, acceptable: bool) {
    |x| <= 1 && (|x| == 1 ==> x[0] > 0 && acceptable)
  }

  lemma EmptyTogether(a: CoinList, b: CoinList, n: nat)
    requires n <= |b| && forall d :: Occ(a, 0, d) == Occ(b, n, d)
    ensures n == 0
  {
    assert n > 0 ==> |Occ(a, 0, b[n - 1].denom)| < |Occ(b, n, b[n - 1].denom)|;
  }

  /** Sorted lists are determined by their occurrences. */
  lemma {:induction false} SameOccurrences(a: CoinList, m: nat, b: CoinList, n: nat)
    requires m <= |a| && n <= |b| && Sorted(a) && Sorted(b) && forall d :: Occ(a, m, d) == Occ(b, n, d)
    ensures m == n && a[..m] == b[..n]
    decreases m
  {
    hide Before;
    Order();
    if m == 0 {
      EmptyTogether(a, b, n);
    } else {
      LastInCommon(a, m, b, n);
      var c, m', n' := a[m - 1], m - 1, n - 1;
      forall d ensures Occ(a, m', d) == Occ(b, n', d) {
        assert Occ(a, m, d) == Occ(b, n, d);
        var tail := if c.denom == d then [c.amount] else [];
        SameHeads(Occ(a, m - 1, d), Occ(b, n - 1, d), tail, if c.denom == d then [b[n - 1].amount] else []);
      }
      SameOccurrences(a, m - 1, b, n - 1);
      assert a[..m] == a[..m - 1] + [a[m - 1]] && b[..n] == b[..n - 1] + [b[n - 1]];
    }
  }

  lemma SameHeads(x: seq<int>, y: seq<int>, s: seq<int>, t: seq<int>)
    requires x + s == y + t && |s| == |t|
    ensures x == y && s == t
  {
    assert x == (x + s)[..|x|] && y == (y + t)[..|y|];
    assert s == (x + s)[|x|..] && t == (y + t)[|y|..];
  }

  lemma LastInCommon(a: CoinList, m: nat, b: CoinList, n: nat)
    requires 0 < m <= |a| && n <= |b| && Sorted(a) && Sorted(b) && forall d :: Occ(a, m, d) == Occ(b, n, d)
    ensures n > 0 && a[m - 1] == b[n - 1]
  {
    hide Before;
    Order();
    var d := a[m - 1].denom;
    OccPresent(a, m, d);
    OccPresent(b, n, d);
    assert Occ(a, m, d) == Occ(b, n, d) != [];
    var e := b[n - 1].denom;
    OccPresent(a, m, e);
    OccPresent(b, n, e);
    assert Occ(a, m, e) == Occ(b, n, e) != [];
    assert d == e;
    SameHeads(Occ(a, m - 1, d), Occ(b, n - 1, d), [a[m - 1].amount], [b[n - 1].amount]);
  }

  // ----- strict lists

  lemma PairedStrict(a: CoinList, b: CoinList)
    requires Strict(a) && Strict(b)
    ensures forall d :: |Paired(a, b, d)| <= 1
  {
    forall d ensures |Paired(a, b, d)| <= 1 {
      OccOfStrict(a, |a|, d);
      OccOfStrict(b, |b|, d);
      var s := PairSums(Occurrences(a, d), Occurrences(b, d));
      assert |s| <= 1 && (|s| == 1 ==> Nonzeros(s, 1) == Nonzeros(s, 0) + if s[0] != 0 then [s[0]] else []);
    }
  }

  lemma StrictIsSorted(cs: CoinList)
    requires Strict(cs)
    ensures Sorted(cs)
  {
    hide Before;
    Order();
  }

  /** For strict lists the pairs are the amounts, so strict lists add up to a strict list. */
  lemma MergeOfStrict(a: CoinList, b: CoinList, r: Outcome<CoinList>)
    requires Strict(a) && Strict(b)
    requires r.Ok? ==> Sorted(r.value) && forall d :: Occurrences(r.value, d) == Paired(a, b, d)
    ensures r.Ok? ==> Strict(r.value)
  {
    hide Before, Occurrences, Paired;
    PairedStrict(a, b);
    if r.Ok? {
      StrictByOccurrences(r.value);
      forall d ensures |Occurrences(r.value, d)| <= 1 { assert Occurrences(r.value, d) == Paired(a, b, d); }
    }
  }

  lemma ClashingAmount(a: CoinList, b: CoinList, limit: nat, d: Denom, k: nat)
    requires Strict(a) && Strict(b) && Clashing(Occurrences(a, d), Occurrences(b, d), k, limit)
    ensures Abs(Amount(a, d) + Amount(b, d)) >= limit
  {
    OccOfStrict(a, |a|, d);
    OccOfStrict(b, |b|, d);
  }

  lemma AmountClashes(a: CoinList, b: CoinList, limit: nat, d: Denom)
    requires Strict(a) && Strict(b) && Within(a, limit) && Within(b, limit) && Abs(Amount(a, d) + Amount(b, d)) >= limit > 0
    ensures Clashing(Occurrences(a, d), Occurrences(b, d), 0, limit)
  {
    hide Before;
    AmountOfStrict(a);
    AmountOfStrict(b);
    assert Has(a, d) && Has(b, d);
    OccOfStrict(a, |a|, d);
    OccOfStrict(b, |b|, d);
    OccPresent(a, |a|, d);
    OccPresent(b, |b|, d);
  }

  /** When the call panics, in terms of amounts, for strict lists whose amounts are in range. */
  lemma ClashOfAmounts(a: CoinList, b: CoinList, limit: nat)
    requires Strict(a) && Strict(b) && Within(a, limit) && Within(b, limit) && limit > 0
    ensures Clash(a, b, limit) <==> exists d :: Abs(Amount(a, d) + Amount(b, d)) >= limit
  {
    hide Before, Occurrences, Amount, Clashing;
    if Clash(a, b, limit) {
      var d, k :| Clashing(Occurrences(a, d), Occurrences(b, d), k, limit);
      ClashingAmount(a, b, limit, d, k);
    }
    if d :| Abs(Amount(a, d) + Amount(b, d)) >= limit { AmountClashes(a, b, limit, d); }
  }

  // ----- differences

  function Negated(x: seq<int>): seq<int> {
    seq(|x|, k requires 0 <= k < |x| => -x[k])
  }

  /** The list of the negated amounts. */
  ghost predicate IsNegative(cs: CoinList, neg: CoinList) {
    |neg| == |cs| && forall i :: 0 <= i < |cs| ==> neg[i] == Coin(cs[i].denom, -cs[i].amount)
  }

  lemma {:induction false} NegatedOcc(cs: CoinList, neg: CoinList, n: nat, d: Denom)
    requires IsNegative(cs, neg) && n <= |cs|
    ensures Occ(neg, n, d) == Negated(Occ(cs, n, d))
  {
    if n > 0 { NegatedOcc(cs, neg, n - 1, d); }
  }

  /** The amounts of `d` in the difference of two lists. */
  function Differences(a: CoinList, b: CoinList, d: Denom): seq<int> {
    var s := PairSums(Occurrences(a, d), Negated(Occurrences(b, d)));
    Nonzeros(s, |s|)
  }

  /** Some pair takes a difference out of range. */
  ghost predicate DifferenceClash(a: CoinList, b: CoinList, limit: nat) {
    exists d, k :: Clashing(Occurrences(a, d), Negated(Occurrences(b, d)), k, limit)
  }

  lemma DifferencesArePaired(a: CoinList, b: CoinList, neg: CoinList, limit: nat)
    requires IsNegative(b, neg)
    ensures forall d :: Paired(a, neg, d) == Differences(a, b, d)
    ensures Clash(a, neg, limit) <==> DifferenceClash(a, b, limit)
    ensures Sorted(neg) <==> Sorted(b)
  {
    hide Before, PairSums, Nonzeros, Clashing, Negated;
    forall d ensures Occurrences(neg, d) == Negated(Occurrences(b, d)) { NegatedOcc(b, neg, |b|, d); }
    hide Occurrences;
    if Clash(a, neg, limit) {
      var d, k :| Clashing(Occurrences(a, d), Occurrences(neg, d), k, limit);
      assert Clashing(Occurrences(a, d), Negated(Occurrences(b, d)), k, limit);
    }
    if DifferenceClash(a, b, limit) {
      var d, k :| Clashing(Occurrences(a, d), Negated(Occurrences(b, d)), k, limit);
      assert Clashing(Occurrences(a, d), Occurrences(neg, d), k, limit);
    }
  }

  ghost predicate AnyNegative(x: seq<int>) {
    exists k :: 0 <= k < |x| && x[k] < 0
  }

  lemma {:induction false} OccMembers(cs: CoinList, n: nat, d: Denom)
    requires n <= |cs|
    ensures AnyNegative(Occ(cs, n, d)) <==> exists i :: 0 <= i < n && cs[i].denom == d && cs[i].amount < 0
  {
    if n > 0 {
      OccMembers(cs, n - 1, d);
      if cs[n - 1].denom == d {
        AnyNegativeAppend(Occ(cs, n - 1, d), cs[n - 1].amount);
      } else {
        assert Occ(cs, n, d) == Occ(cs, n - 1, d);
      }
    }
  }

  lemma AnyNegativeAppend(x: seq<int>, v: int)
    ensures AnyNegative(x + [v]) <==> AnyNegative(x) || v < 0
  {
    assert (x + [v])[|x|] == v;
    assert forall k :: 0 <= k < |x| ==> (x + [v])[k] == x[k];
  }

  lemma NegativeByOccurrences(cs: CoinList)
    ensures (exists i :: 0 <= i < |cs| && cs[i].amount < 0) <==> exists d :: AnyNegative(Occurrences(cs, d))
  {
    if i :| 0 <= i < |cs| && cs[i].amount < 0 {
      OccMembers(cs, |cs|, cs[i].denom);
      assert AnyNegative(Occurrences(cs, cs[i].denom));
    }
    if d :| AnyNegative(Occurrences(cs, d)) { OccMembers(cs, |cs|, d); }
  }
}
