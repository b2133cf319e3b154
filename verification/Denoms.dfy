/** Denominations and their order, that of strings.Compare. */
module Denoms {
  import opened Octets

  datatype Denom = Denom(name: Bytes)

  /** `a` is before `b` where they agree on the first `i` bytes. */
  predicate BeforeFrom(a: Bytes, b: Bytes, i: nat)
    decreases |b| - i
  {
    if i >= |b| then false
    else if i >= |a| then true
    else if a[i] != b[i] then a[i] < b[i]
    else BeforeFrom(a, b, i + 1)
  }

  predicate Before(a: Denom, b: Denom) {
    BeforeFrom(a.name, b.name, 0)
  }

  lemma {:induction false} BeforeFromTotal(a: Bytes, b: Bytes, i: nat)
    requires i <= |a| && i <= |b| && a[..i] == b[..i]
    ensures BeforeFrom(a, b, i) || BeforeFrom(b, a, i) || a == b
    ensures !(BeforeFrom(a, b, i) && BeforeFrom(b, a, i)) && (a == b ==> !BeforeFrom(a, b, i))
    decreases |a| - i
  {
    if i < |a| && i < |b| && a[i] == b[i] {
      assert a[..i + 1] == a[..i] + [a[i]] && b[..i + 1] == b[..i] + [b[i]];
      BeforeFromTotal(a, b, i + 1);
    } else if i == |a| && i == |b| {
      assert a == a[..i] && b == b[..i];
    }
  }

  lemma {:induction false} BeforeFromTransitive(a: Bytes, b: Bytes, c: Bytes, i: nat)
    requires BeforeFrom(a, b, i) && BeforeFrom(b, c, i)
    ensures BeforeFrom(a, c, i)
    decreases |b| - i
  {
    if i < |a| && a[i] == b[i] == c[i] { BeforeFromTransitive(a, b, c, i + 1); }
  }

  /** Strings compare by the first byte in which they differ, and a prefix comes first. */
  lemma BeforeExactly(a: Denom, b: Denom)
    ensures Before(a, b) <==> exists k :: DecidedAt(a.name, b.name, k)
  {
    BeforeFromExactly(a.name, b.name, 0);
  }

  ghost predicate DecidedAt(a: Bytes, b: Bytes, k: int) {
    0 <= k <= |a| && k < |b| && a[..k] == b[..k] && (k == |a| || a[k] < b[k])
  }

  lemma {:induction false} BeforeFromExactly(a: Bytes, b: Bytes, i: nat)
    requires i <= |a| && i <= |b| && a[..i] == b[..i]
    ensures BeforeFrom(a, b, i) <==> exists k :: DecidedAt(a, b, k)
    decreases |b| - i
  {
    if i < |a| && i < |b| && a[i] == b[i] {
      assert a[..i + 1] == a[..i] + [a[i]] && b[..i + 1] == b[..i] + [b[i]];
      BeforeFromExactly(a, b, i + 1);
    } else {
      assert BeforeFrom(a, b, i) <==> DecidedAt(a, b, i);
      forall k ensures DecidedAt(a, b, k) ==> k == i {
        PrefixAgrees(a, b, i, k);
        PrefixAgrees(a, b, k, i);
      }
    }
  }

  lemma PrefixAgrees(a: Bytes, b: Bytes, i: int, k: int)
    ensures 0 <= i < k <= |a| && k <= |b| && a[..k] == b[..k] ==> a[i] == b[i]
  {
    if 0 <= i < k <= |a| && k <= |b| && a[..k] == b[..k] {
      assert a[..k][i] == b[..k][i];
    }
  }

  lemma Trichotomy(a: Denom, b: Denom)
    ensures Before(a, b) || Before(b, a) || a == b
  {
    BeforeFromTotal(a.name, b.name, 0);
  }

  /** A strict total order. */
  lemma Order()
    ensures forall a, b :: Before(a, b) || Before(b, a) || a == b
    ensures forall a, b :: !(Before(a, b) && Before(b, a))
    ensures forall a, b, c :: Before(a, b) && Before(b, c) ==> Before(a, c)
  {
    forall a: Denom, b: Denom ensures (Before(a, b) || Before(b, a) || a == b) && !(Before(a, b) && Before(b, a)) {
      BeforeFromTotal(a.name, b.name, 0);
    }
    forall a: Denom, b: Denom, c: Denom | Before(a, b) && Before(b, c) ensures Before(a, c) {
      BeforeFromTransitive(a.name, b.name, c.name, 0);
    }
  }
}
