/** The comparison at the end of InitChain between the validators of the request and those
    the application set up (baseapp/abci.go). */
module GenesisValidators {
  import opened Octets
  import opened Denoms

  datatype Validator = Validator(key: Bytes, power: int)

  type Validators = seq<Validator>

  /** What sort.Sort promises with the order of public keys. */
  ghost predicate Sorts(sort: Validators -> Validators) {
    forall vs :: multiset(sort(vs)) == multiset(vs) && Ascending(sort(vs))
  }

  ghost predicate Ascending(vs: Validators) {
    forall i, j :: 0 <= i < j < |vs| ==> !BeforeFrom(vs[j].key, vs[i].key, 0)
  }

  ghost predicate DistinctKeys(vs: Validators) {
    forall i, j :: 0 <= i < j < |vs| ==> vs[i].key != vs[j].key
  }

  /** The application agrees with the request, which may also leave the choice to it. */
  predicate Agree(sort: Validators -> Validators, requested: Validators, answered: Validators) {
    requested == [] || sort(requested) == sort(answered)
  }

  /** The length check and the loop over both lists once they are sorted. */
  method Compare(sort: Validators -> Validators, requested: Validators, answered: Validators) returns (ok: bool, res: Validators)
    requires Sorts(sort)
    ensures ok == Agree(sort, requested, answered)
    ensures requested == [] ==> res == answered
    ensures requested != [] && ok ==> multiset(res) == multiset(requested) && Ascending(res)
  {
    res := answered;
    if |requested| == 0 { return true, res; }
    SortedLength(sort, requested);
    SortedLength(sort, answered);
    if |requested| != |answered| { return false, res; }
    var req := sort(requested);
    res := sort(res);
    for i := 0 to |res|
      invariant forall k :: 0 <= k < i ==> res[k] == req[k]
    {
      if res[i] != req[i] { return false, res; }
    }
    ok := true;
  }

  lemma SortedLength(sort: Validators -> Validators, vs: Validators)
    requires Sorts(sort)
    ensures |sort(vs)| == |vs|
  {
    assert |multiset(sort(vs))| == |sort(vs)| && |multiset(vs)| == |vs|;
  }

  /** Lists that agree have the same validators, and without repeated keys that is enough,
      in whatever order the two lists come and however the library sorts. */
  lemma AgreeExactly(sort: Validators -> Validators, requested: Validators, answered: Validators)
    requires Sorts(sort)
    ensures requested == [] ==> Agree(sort, requested, answered)
    ensures Agree(sort, requested, answered) ==> requested == [] || multiset(requested) == multiset(answered)
    ensures DistinctKeys(requested) && multiset(requested) == multiset(answered) ==> Agree(sort, requested, answered)
  {
    var a, b := sort(requested), sort(answered);
    assert multiset(a) == multiset(requested) && multiset(b) == multiset(answered);
    if DistinctKeys(requested) && multiset(requested) == multiset(answered) {
      KeepsDistinct(requested, a);
      SortedLength(sort, requested);
      SortedLength(sort, answered);
      assert |multiset(requested)| == |requested| && |multiset(answered)| == |answered|;
      SameOrder(a, b, |a|);
    }
  }

  lemma KeepsDistinct(a: Validators, b: Validators)
    requires DistinctKeys(a) && multiset(a) == multiset(b)
    ensures DistinctKeys(b)
  {
    forall i, j | 0 <= i < j < |b| ensures b[i].key != b[j].key {
      assert b[i] in multiset(b) && b[j] in multiset(b);
      assert b[i] in a && b[j] in a;
      if b[i].key == b[j].key {
        assert b[i] == b[j];
        assert b == b[..i] + [b[i]] + b[i + 1..j] + [b[j]] + b[j + 1..];
        assert multiset(b)[b[i]] >= 2;
        OnceOnly(a, b[i]);
      }
    }
  }

  lemma {:induction false} OnceOnly(a: Validators, v: Validator)
    requires DistinctKeys(a)
    ensures multiset(a)[v] <= 1
    decreases |a|
  {
    if |a| > 0 {
      var n := |a| - 1;
      assert a == a[..n] + [a[n]];
      OnceOnly(a[..n], v);
      forall k | 0 <= k < n ensures a[..n][k] != a[n] {}
      assert a[n] !in multiset(a[..n]);
    }
  }

  /** Two sorted lists of the same validators with distinct keys agree from the end on. */
  lemma {:induction false} SameOrder(a: Validators, b: Validators, n: nat)
    requires n <= |a| == |b| && DistinctKeys(a) && Ascending(a) && Ascending(b)
    requires multiset(a) == multiset(b) && a[n..] == b[n..]
    ensures a == b
    decreases n
  {
    hide BeforeFrom;
    if n > 0 {
      var m := n - 1;
      BeforeFromTotal(a[m].key, b[m].key, 0);
      Remaining(a, b, n);
      assert a[m] in multiset(a[..n]) && b[m] in multiset(b[..n]);
      assert a[m] in b[..n] && b[m] in a[..n];
      assert a[m].key == b[m].key;
      assert a[m] == b[m];
      assert a[m..] == [a[m]] + a[n..] && b[m..] == [b[m]] + b[n..];
      SameOrder(a, b, m);
    }
  }

  lemma Remaining(a: Validators, b: Validators, n: nat)
    requires n <= |a| == |b| && multiset(a) == multiset(b) && a[n..] == b[n..]
    ensures multiset(a[..n]) == multiset(b[..n])
  {
    assert a == a[..n] + a[n..] && b == b[..n] + b[n..];
    assert multiset(a[..n]) == multiset(a) - multiset(a[n..]);
    assert multiset(b[..n]) == multiset(b) - multiset(b[n..]);
  }
}
