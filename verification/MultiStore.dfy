/** Branched stores (store/README.md, store/cachekv): a branch keeps the keys it has set or
    deleted and reads everything else through to its parent. */
module MultiStore {
  import opened Wrappers

  /** The dirty entries of a branch; `None` is a deletion. */
  type Branch<K, +V> = map<K, Option<V>>

  function Get<K, V>(store: map<K, V>, k: K): Option<V> {
    if k in store then Some(store[k]) else None
  }

  /** A read of a branch whose parent has the given value. */
  function Through<K, V>(parent: Option<V>, branch: Branch<K, V>, k: K): Option<V> {
    if k in branch then branch[k] else parent
  }

  /** What a reader of the branch sees, which is also the parent after Write. */
  function View<K(!new), V>(store: map<K, V>, branch: Branch<K, V>): (r: map<K, V>)
    ensures forall k :: Get(r, k) == Through(Get(store, k), branch, k)
  {
    map k | k in store.Keys + branch.Keys && Through(Get(store, k), branch, k).Some?
          :: Through(Get(store, k), branch, k).value
  }

  /** A branch hides what its parent has where it was set or deleted, and nowhere else. */
  lemma ViewExactly<K(!new), V>(store: map<K, V>, branch: Branch<K, V>, k: K)
    ensures var r := View(store, branch);
            if k !in branch then (k in r <==> k in store) && (k in store ==> r[k] == store[k])
            else (k in r <==> branch[k].Some?) && (k in r ==> r[k] == branch[k].value)
  {
    assert Get(View(store, branch), k) == Through(Get(store, k), branch, k);
  }

  lemma Extensional<K(!new), V>(x: map<K, V>, y: map<K, V>)
    requires forall k :: Get(x, k) == Get(y, k)
    ensures x == y
  {
    forall k ensures k in x <==> k in y {
      assert Get(x, k) == Get(y, k);
    }
    forall k | k in x ensures x[k] == y[k] {
      assert Get(x, k) == Get(y, k);
    }
  }

  /** Writing a branch of a branch back into its parent shows, over the grandparent, what
      the innermost branch showed: stacked branches collapse. */
  lemma WriteBack<K(!new), V>(store: map<K, V>, outer: Branch<K, V>, inner: Branch<K, V>)
    ensures View(store, outer + inner) == View(View(store, outer), inner)
  {
    Extensional(View(store, outer + inner), View(View(store, outer), inner));
  }

  /** A branch that was never written changes nothing. */
  lemma EmptyBranch<K(!new), V>(store: map<K, V>)
    ensures View(store, map[]) == store
  {
    Extensional(View(store, map[]), store);
  }
}
