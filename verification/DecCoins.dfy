/** Sets of decimal coins (types/dec_coin.go).  Amounts are 10^18 times their value. */
module DecCoins {
  import opened Denoms
  import opened CoinLists
  import opened CoinMerge
  import opened Decimals
  import Coins

  /** A valid set of coins that Dec can hold. */
  ghost predicate Proper(cs: CoinList, rule: Rule) {
    Valid(cs, rule) && Within(cs, DEC_LIMIT)
  }

  /** Add and safeAdd, which does not look at the order of its arguments.  Sorted ones are
      added pair by pair, and valid ones give the valid result that is promised. */
  method SafeAdd(a: CoinList, b: CoinList, ghost rule: Rule) returns (r: Outcome<CoinList>)
    ensures r.Ok? ==> NoZeros(r.value) && forall d :: Amount(r.value, d) == Amount(a, d) + Amount(b, d)
    ensures Sorted(a) && Sorted(b) ==> (r.Panic? <==> Clash(a, b, DEC_LIMIT))
    ensures Sorted(a) && Sorted(b) && r.Ok? ==>
              && Sorted(r.value) && (forall d :: Occurrences(r.value, d) == Paired(a, b, d))
              && (Valid(r.value, rule) <==> forall d :: AtMostOne(Paired(a, b, d), rule(d)))
    ensures Strict(a) && Strict(b) ==> (r.Panic? <==> Clash(a, b, DEC_LIMIT)) && (r.Ok? ==> Strict(r.value))
    ensures Proper(a, rule) && Proper(b, rule) ==>
              && (r.Panic? <==> exists d :: Amount(a, d) + Amount(b, d) >= DEC_LIMIT)
              && (r.Ok? ==> Proper(r.value, rule))
  {
    hide Before, Amount, Clash, Occurrences, Paired;
    r := Merge(a, b, DEC_LIMIT);
    if Strict(a) && Strict(b) {
      StrictIsSorted(a);
      StrictIsSorted(b);
      MergeOfStrict(a, b, r);
    }
    if Sorted(a) && Sorted(b) && r.Ok? { ValidByOccurrences(r.value, rule); }
    if Proper(a, rule) && Proper(b, rule) { Coins.ProperSum(a, b, r, rule, DEC_LIMIT); }
  }

  /** A repeated denomination stays in the sum, which is then not the valid set promised. */
  method AddKeepsRepeats(d: Denom, ghost rule: Rule) returns (r: Outcome<CoinList>)
    ensures r.Ok? && !Valid(r.value, rule) && forall e :: Amount(r.value, e) >= 0
  {
    var a := [Coin(d, 1), Coin(d, 1)];
    assert !Before(d, d) by { Order(); }
    hide Before, Paired;
    Coins.OccursTwice(d);
    assert !Clash(a, [], DEC_LIMIT);
    r := SafeAdd(a, [], rule);
    forall e ensures Amount(a, e) >= 0 && Amount([], e) == 0 {
      assert Total(a, 1, e) >= 0 && Total(a, 2, e) >= 0;
    }
    Coins.PairedWithNone(a, d);
    assert !AtMostOne(Paired(a, [], d), rule(d));
  }

  // ----- truncation

  /** NewCoin and NewDecCoinFromDec. */
  function NewCoin(d: Denom, amount: int, rule: Rule): Outcome<Coin> {
    if rule(d) && amount >= 0 then Ok(Coin(d, amount)) else Panic
  }

  /** A coin's whole part and the change. */
  method TruncateCoin(c: Coin, rule: Rule) returns (truncated: Outcome<Coin>, change: Outcome<Coin>)
    ensures Fits(c.amount) ==> (truncated.Ok? && change.Ok? <==> rule(c.denom) && c.amount >= 0)
    ensures truncated.Ok? && change.Ok? ==>
              && truncated.value.denom == change.value.denom == c.denom
              && truncated.value.amount * ONE + change.value.amount == c.amount
              && 0 <= truncated.value.amount < INT_LIMIT && 0 <= change.value.amount < ONE
  {
    if Fits(c.amount) { IntegersFit(c.amount); }
    var t := TruncateInt(c.amount);
    if t.Panic? { return Panic, Panic; }
    var diff := Checked(c.amount - t.value * ONE);
    if diff.Panic? { return Panic, Panic; }
    truncated := NewCoin(c.denom, t.value, rule);
    change := NewCoin(c.denom, diff.value, rule);
  }

  /** Adding a coin that comes after all others appends it. */
  lemma AddIsAppend(cs: CoinList, c: Coin, r: CoinList)
    requires Strict(cs) && NoZeros(cs) && AllBefore(cs, c.denom) && c.amount != 0
    requires Strict(r) && NoZeros(r) && forall d :: Amount(r, d) == Amount(cs, d) + Amount([c], d)
    ensures r == cs + [c]
  {
    hide Before;
    PushStrict(cs, c);
    AmountConcat(cs, [c]);
    SameAmountsSameList(r, cs + [c]);
  }

  lemma NoClashWithNext(cs: CoinList, c: Coin, limit: nat)
    requires AllBefore(cs, c.denom)
    ensures !Clash(cs, [c], limit)
  {
    hide Before;
    Order();
    OccAbsent(cs, |cs|, c.denom);
    forall d | d != c.denom ensures Occurrences([c], d) == [] { OccAbsent([c], 1, d); }
  }

  /** Where the loop of TruncateDecimal stands. */
  ghost predicate Truncating(cs: CoinList, n: nat, truncated: CoinList, change: CoinList, rule: Rule)
    requires n <= |cs|
  {
    && Coins.Proper(truncated, rule) && Valid(change, rule)
    && (forall i :: 0 <= i < |change| ==> change[i].amount < ONE)
    && (n < |cs| ==> AllBefore(truncated, cs[n].denom) && AllBefore(change, cs[n].denom))
    && (forall d :: Amount(truncated, d) * ONE + Amount(change, d) == Total(cs, n, d))
  }

  lemma ValidAppend(cs: CoinList, c: Coin, rule: Rule)
    requires Valid(cs, rule) && AllBefore(cs, c.denom) && rule(c.denom) && c.amount > 0
    ensures Valid(cs + [c], rule)
  {
    hide Before;
    PushStrict(cs, c);
  }

  lemma KeepBefore(cs: CoinList, n: nat, part: CoinList, c: Coin)
    requires n < |cs| && Strict(cs) && AllBefore(part, cs[n].denom) && c.denom == cs[n].denom
    ensures n + 1 < |cs| ==> AllBefore(part, cs[n + 1].denom) && AllBefore(part + [c], cs[n + 1].denom)
  {
    hide Before;
    if n + 1 < |cs| { PushBefore(part, c, cs[n + 1].denom); }
  }

  lemma TruncateStep(cs: CoinList, n: nat, truncated: CoinList, change: CoinList, t: Coin, c: Coin, rule: Rule)
    requires n < |cs| && Valid(cs, rule) && Truncating(cs, n, truncated, change, rule)
    requires t.denom == c.denom == cs[n].denom && t.amount * ONE + c.amount == cs[n].amount
    requires 0 <= t.amount < INT_LIMIT && 0 <= c.amount < ONE
    ensures Truncating(cs, n + 1, With(truncated, t), With(change, c), rule)
  {
    hide Before, Amount;
    KeepBefore(cs, n, truncated, t);
    KeepBefore(cs, n, change, c);
    if t.amount > 0 { ValidAppend(truncated, t, rule); }
    if c.amount > 0 { ValidAppend(change, c, rule); }
    AmountAppend(truncated, t);
    AmountAppend(change, c);
    TotalStep(cs, n);
    forall d ensures Amount(With(truncated, t), d) * ONE + Amount(With(change, c), d) == Total(cs, n + 1, d) {
      assert Amount(With(truncated, t), d) == Amount(truncated, d) + Share(t, d);
      assert Amount(With(change, c), d) == Amount(change, d) + Share(c, d);
    }
  }

  /** One coin is added to the truncated coins, unless it is zero. */
  method AddTruncated(cs: CoinList, c: Coin, ghost rule: Rule, ghost valid: bool) returns (r: Outcome<CoinList>)
    requires valid ==> Valid(cs, rule) && AllBefore(cs, c.denom)
    ensures valid ==> r == Ok(With(cs, c))
  {
    hide Before, Amount, Clash;
    if c.amount == 0 { return Ok(cs); }
    r := Coins.SafeAdd(cs, [c]);
    if valid {
      NoClashWithNext(cs, c, INT_LIMIT);
      AddIsAppend(cs, c, r.value);
    }
  }

  method AddChange(cs: CoinList, c: Coin, ghost rule: Rule, ghost valid: bool) returns (r: Outcome<CoinList>)
    requires valid ==> Valid(cs, rule) && AllBefore(cs, c.denom)
    ensures valid ==> r == Ok(With(cs, c))
  {
    hide Before, Amount, Clash;
    if c.amount == 0 { return Ok(cs); }
    r := SafeAdd(cs, [c], rule);
    if valid {
      NoClashWithNext(cs, c, DEC_LIMIT);
      AddIsAppend(cs, c, r.value);
    }
  }

  /** TruncateDecimal splits every amount into whole units and a change of less than one; it
      never panics on a valid set, and nothing is lost. */
  method TruncateDecimal(cs: CoinList, rule: Rule) returns (truncated: Outcome<CoinList>, change: Outcome<CoinList>)
    ensures Proper(cs, rule) ==> truncated.Ok? && change.Ok?
    ensures Proper(cs, rule) ==> Coins.Proper(truncated.value, rule) && Valid(change.value, rule)
    ensures Proper(cs, rule) ==>
              forall d ::
                && Amount(truncated.value, d) * ONE + Amount(change.value, d) == Amount(cs, d)
                && 0 <= Amount(change.value, d) < ONE
  {
    hide Before, Amount, Truncating;
    ghost var valid := Proper(cs, rule);
    var ts: CoinList, ch: CoinList := [], [];
    TruncateStart(cs, rule);
    for i := 0 to |cs|
      invariant valid ==> Truncating(cs, i, ts, ch, rule)
    {
      var t, c := TruncateCoin(cs[i], rule);
      if t.Panic? || c.Panic? { return Panic, Panic; }
      if valid {
        TruncatingParts(cs, i, ts, ch, rule);
        TruncateStep(cs, i, ts, ch, t.value, c.value, rule);
      }
      var ts' := AddTruncated(ts, t.value, rule, valid);
      var ch' := AddChange(ch, c.value, rule, valid);
      if ts'.Panic? || ch'.Panic? { return Panic, Panic; }
      ts, ch := ts'.value, ch'.value;
    }
    if valid { TruncateEnd(cs, ts, ch, rule); }
    truncated, change := Ok(ts), Ok(ch);
  }

  lemma TruncateStart(cs: CoinList, rule: Rule)
    ensures Truncating(cs, 0, [], [], rule)
  {}

  lemma TruncatingParts(cs: CoinList, n: nat, truncated: CoinList, change: CoinList, rule: Rule)
    requires n < |cs| && Truncating(cs, n, truncated, change, rule)
    ensures Valid(truncated, rule) && Valid(change, rule)
    ensures AllBefore(truncated, cs[n].denom) && AllBefore(change, cs[n].denom)
  {}

  lemma TruncateEnd(cs: CoinList, truncated: CoinList, change: CoinList, rule: Rule)
    requires Truncating(cs, |cs|, truncated, change, rule)
    ensures Coins.Proper(truncated, rule) && Valid(change, rule)
    ensures forall d ::
              && Amount(truncated, d) * ONE + Amount(change, d) == Amount(cs, d)
              && 0 <= Amount(change, d) < ONE
  {
    AmountOfStrict(change);
  }

  // ----- Intersect

  /** Intersect: the pointwise minimum. */
  method Intersect(a: CoinList, b: CoinList, rule: Rule) returns (r: Outcome<CoinList>)
    ensures Valid(a, rule) && Valid(b, rule) ==>
              && r.Ok? && Valid(r.value, rule)
              && forall d :: Amount(r.value, d) == Coins.Smaller(Amount(a, d), Amount(b, d))
    ensures r.Panic? <==> exists i :: 0 <= i < |a| && !rule(a[i].denom)
  {
    hide Before, Amount, Search;
    ghost var valid := Valid(a, rule) && Valid(b, rule);
    var res: CoinList := [];
    for i := 0 to |a|
      invariant |res| == i && forall k :: 0 <= k < i ==> rule(a[k].denom)
      invariant valid ==> forall k :: 0 <= k < i ==> res[k] == Coin(a[k].denom, Coins.Smaller(a[k].amount, Amount(b, a[k].denom)))
    {
      var amount := AmountOf(b, a[i].denom, rule);
      if amount.Panic? { return Panic; }
      if valid { SearchIsAmount(b, a[i].denom); }
      res := res + [Coin(a[i].denom, if amount.value < a[i].amount then amount.value else a[i].amount)];
    }
    var nz := RemoveZeros(res);
    if valid { IntersectEnd(a, b, res, rule); }
    r := Ok(nz);
  }

  lemma IntersectEnd(a: CoinList, b: CoinList, res: CoinList, rule: Rule)
    requires Valid(a, rule) && Valid(b, rule) && |res| == |a|
    requires forall k :: 0 <= k < |a| ==> res[k] == Coin(a[k].denom, Coins.Smaller(a[k].amount, Amount(b, a[k].denom)))
    ensures Valid(Nonzero(res, |res|), rule)
    ensures forall d :: Amount(Nonzero(res, |res|), d) == Coins.Smaller(Amount(a, d), Amount(b, d))
  {
    hide Before, Amount;
    Coins.ValidAmounts(a, rule);
    Coins.ValidAmounts(b, rule);
    AmountOfStrict(a);
    AmountOfStrict(res);
    NonzeroAmounts(res, |res|);
    NonzeroStrict(res, |res|);
    TotalIsAmount(res);
    forall d ensures Amount(res, d) == Coins.Smaller(Amount(a, d), Amount(b, d)) {
      if Has(a, d) {
        var k :| 0 <= k < |a| && a[k].denom == d;
        assert Amount(res, res[k].denom) == res[k].amount;
      } else {
        assert !Has(res, d);
      }
    }
    Coins.ValidByAmounts(Nonzero(res, |res|), rule);
  }
}
