/** The per-account wait groups that serialise CheckTx calls (baseapp/accountwgs.go).

    A pointer to a fresh `sync.WaitGroup` is modelled by the call of Register and the
    iteration of its loop that allocated it.  Every wait group starts at one and is
    signalled at most once, so its counter is membership in the set `signalled`. */
module AccountWaitGroups {

  /** The raw bytes of an address, the key of the map of wait groups. */
  datatype Account = Account(bytes: string)

  datatype WaitGroup = WaitGroup(call: nat, index: nat)

  /** The account and wait group a transaction signals when it is done. */
  datatype Signal = Signal(acc: Account, wg: WaitGroup)

  /** The signers of each message of a transaction. */
  type Msgs = seq<seq<Account>>

  ghost predicate Distinct<T>(s: seq<T>) {
    forall i, j :: 0 <= i < j < |s| ==> s[i] != s[j]
  }

  // ----- the signers of a transaction

  /** The text forms of some addresses. */
  function Texts(s: seq<Account>, text: Account -> string): set<string> {
    set a | a in s :: text(a)
  }

  function NextUniq(u: seq<Account>, a: Account, text: Account -> string): seq<Account> {
    if text(a) in Texts(u, text) then u else u + [a]
  }

  function UniqFrom(u: seq<Account>, addrs: seq<Account>, n: nat, text: Account -> string): seq<Account>
    requires n <= |addrs|
  {
    if n == 0 then u else NextUniq(UniqFrom(u, addrs, n - 1, text), addrs[n - 1], text)
  }

  /** The first address of each text form in the first `m` messages. */
  function UniqSigners(msgs: Msgs, m: nat, text: Account -> string): seq<Account>
    requires m <= |msgs|
  {
    if m == 0 then [] else UniqFrom(UniqSigners(msgs, m - 1, text), msgs[m - 1], |msgs[m - 1]|, text)
  }

  function Signers(msgs: Msgs, text: Account -> string): seq<Account> {
    UniqSigners(msgs, |msgs|, text)
  }

  /** Different elements of `u` have different text forms. */
  ghost predicate TextsDiffer(u: seq<Account>, text: Account -> string) {
    forall i, j :: 0 <= i < j < |u| ==> text(u[i]) != text(u[j])
  }

  lemma {:induction false} UniqFromTexts(u: seq<Account>, addrs: seq<Account>, n: nat, text: Account -> string)
    requires n <= |addrs| && TextsDiffer(u, text)
    ensures TextsDiffer(UniqFrom(u, addrs, n, text), text)
    ensures forall a :: a in UniqFrom(u, addrs, n, text) ==> a in u || a in addrs
    ensures forall a :: a in u ==> a in UniqFrom(u, addrs, n, text)
    ensures forall i :: 0 <= i < n ==> text(addrs[i]) in Texts(UniqFrom(u, addrs, n, text), text)
  {
    if n > 0 {
      UniqFromTexts(u, addrs, n - 1, text);
      NextUniqTexts(UniqFrom(u, addrs, n - 1, text), addrs[n - 1], text);
      hide NextUniq, TextsDiffer, Texts;
    }
  }

  lemma NextUniqTexts(u: seq<Account>, a: Account, text: Account -> string)
    requires TextsDiffer(u, text)
    ensures TextsDiffer(NextUniq(u, a, text), text)
    ensures Texts(NextUniq(u, a, text), text) == Texts(u, text) + {text(a)}
    ensures forall b :: b in NextUniq(u, a, text) ==> b in u || b == a
    ensures forall b :: b in u ==> b in NextUniq(u, a, text)
  {}

  ghost predicate Signs(msgs: Msgs, m: nat, a: Account)
    requires m <= |msgs|
  {
    exists j :: 0 <= j < m && a in msgs[j]
  }

  lemma {:induction false} UniqSignersTexts(msgs: Msgs, m: nat, text: Account -> string)
    requires m <= |msgs|
    ensures TextsDiffer(UniqSigners(msgs, m, text), text)
    ensures forall a :: a in UniqSigners(msgs, m, text) ==> Signs(msgs, m, a)
    ensures forall a :: Signs(msgs, m, a) ==> text(a) in Texts(UniqSigners(msgs, m, text), text)
  {
    if m > 0 {
      UniqSignersTexts(msgs, m - 1, text);
      UniqFromTexts(UniqSigners(msgs, m - 1, text), msgs[m - 1], |msgs[m - 1]|, text);
    }
  }

  /** Before position `i` of message `m` no address has the text form `t`. */
  ghost predicate NewAt(msgs: Msgs, m: nat, i: nat, t: string, text: Account -> string)
    requires m < |msgs| && i < |msgs[m]|
  {
    && (forall k :: 0 <= k < i ==> text(msgs[m][k]) != t)
    && (forall j, k :: 0 <= j < m && 0 <= k < |msgs[j]| ==> text(msgs[j][k]) != t)
  }

  /** `a` is at some position of the first `m` messages, the first with its text form. */
  ghost predicate IsFirst(msgs: Msgs, m: nat, a: Account, text: Account -> string)
    requires m <= |msgs|
  {
    exists j, i :: 0 <= j < m && 0 <= i < |msgs[j]| && msgs[j][i] == a && NewAt(msgs, j, i, text(a), text)
  }

  /** Of the addresses with one text form the first is the signer. */
  lemma {:induction false} SignersAreFirst(msgs: Msgs, m: nat, text: Account -> string)
    requires m <= |msgs|
    ensures forall a :: a in UniqSigners(msgs, m, text) ==> IsFirst(msgs, m, a, text)
  {
    if m > 0 {
      SignersAreFirst(msgs, m - 1, text);
      var before, here := UniqSigners(msgs, m - 1, text), msgs[m - 1];
      UniqSignersTexts(msgs, m - 1, text);
      UniqFromFirst(before, here, |here|, text);
      forall a | a in UniqSigners(msgs, m, text) ensures IsFirst(msgs, m, a, text) {
        if a in before {
          FirstStays(msgs, m, a, text);
        } else {
          var i :| NewIn(before, here, i, a, text);
          NewHere(msgs, m, i, a, text);
        }
      }
    }
  }

  /** `a` is the address `i` of a message, the first with a text form that `u` lacks. */
  ghost predicate NewIn(u: seq<Account>, addrs: seq<Account>, i: int, a: Account, text: Account -> string) {
    0 <= i < |addrs| && addrs[i] == a && text(a) !in Texts(u, text) && forall k :: 0 <= k < i ==> text(addrs[k]) != text(a)
  }

  lemma {:induction false} UniqFromFirst(u: seq<Account>, addrs: seq<Account>, n: nat, text: Account -> string)
    requires n <= |addrs| && TextsDiffer(u, text)
    ensures forall a :: a in UniqFrom(u, addrs, n, text) ==> a in u || exists i :: NewIn(u, addrs, i, a, text)
  {
    if n > 0 {
      UniqFromFirst(u, addrs, n - 1, text);
      UniqFromTexts(u, addrs, n - 1, text);
      var before, a := UniqFrom(u, addrs, n - 1, text), addrs[n - 1];
      if text(a) !in Texts(before, text) {
        assert text(a) !in Texts(u, text) by { forall b | b in u ensures b in before {} }
        assert NewIn(u, addrs, n - 1, a, text);
      }
    }
  }

  lemma FirstStays(msgs: Msgs, m: nat, a: Account, text: Account -> string)
    requires 0 < m <= |msgs| && IsFirst(msgs, m - 1, a, text)
    ensures IsFirst(msgs, m, a, text)
  {
    var j, i :| 0 <= j < m - 1 && 0 <= i < |msgs[j]| && msgs[j][i] == a && NewAt(msgs, j, i, text(a), text);
    assert j < m;
  }

  lemma NewHere(msgs: Msgs, m: nat, i: int, a: Account, text: Account -> string)
    requires 0 < m <= |msgs| && NewIn(UniqSigners(msgs, m - 1, text), msgs[m - 1], i, a, text)
    ensures IsFirst(msgs, m, a, text)
  {
    UniqSignersTexts(msgs, m - 1, text);
    forall j, k | 0 <= j < m - 1 && 0 <= k < |msgs[j]| ensures text(msgs[j][k]) != text(a) {
      assert Signs(msgs, m - 1, msgs[j][k]);
    }
    assert NewAt(msgs, m - 1, i, text(a), text);
  }

  /** The signers of a registration are pairwise different, whatever the text form. */
  lemma SignersDistinct(msgs: Msgs, text: Account -> string)
    ensures Distinct(Signers(msgs, text))
  {
    UniqSignersTexts(msgs, |msgs|, text);
  }

  /** No signer is lost exactly when no two different signers share a text form, which
      is what makes an injective text form enough. */
  lemma SignersComplete(msgs: Msgs, text: Account -> string)
    ensures (forall a :: Signs(msgs, |msgs|, a) ==> a in Signers(msgs, text))
       <==> (forall a, b :: Signs(msgs, |msgs|, a) && Signs(msgs, |msgs|, b) && text(a) == text(b) ==> a == b)
  {
    var u := Signers(msgs, text);
    UniqSignersTexts(msgs, |msgs|, text);
    if forall a :: Signs(msgs, |msgs|, a) ==> a in u {
      forall a, b | Signs(msgs, |msgs|, a) && Signs(msgs, |msgs|, b) && text(a) == text(b) ensures a == b {
        var i, j :| 0 <= i < |u| && u[i] == a && 0 <= j < |u| && u[j] == b;
      }
    }
  }

  /** getUniqSigners: the nested loop over messages and their signers. */
  method GetUniqSigners(msgs: Msgs, text: Account -> string) returns (signers: seq<Account>)
    ensures signers == Signers(msgs, text)
  {
    var seen: set<string> := {};
    signers := [];
    for m := 0 to |msgs|
      invariant signers == UniqSigners(msgs, m, text) && seen == Texts(signers, text)
    {
      for i := 0 to |msgs[m]|
        invariant signers == UniqFrom(UniqSigners(msgs, m, text), msgs[m], i, text) && seen == Texts(signers, text)
      {
        var addr := msgs[m][i];
        if text(addr) !in seen {
          signers := signers + [addr];
          seen := seen + {text(addr)};
        }
      }
    }
  }

  // ----- what one registration and one signal do to the map

  /** The wait groups the first `n` signers currently have. */
  function Holders(wgs: map<Account, WaitGroup>, signers: seq<Account>, n: nat): seq<WaitGroup>
    requires n <= |signers|
  {
    if n == 0 then []
    else Holders(wgs, signers, n - 1) + if signers[n - 1] in wgs then [wgs[signers[n - 1]]] else []
  }

  /** One fresh wait group for each of the first `n` signers. */
  function Fresh(call: nat, signers: seq<Account>, n: nat): seq<Signal>
    requires n <= |signers|
  {
    seq(n, i requires 0 <= i < n => Signal(signers[i], WaitGroup(call, i)))
  }

  /** The map once the first `n` signers hold their fresh wait groups. */
  function Enter(wgs: map<Account, WaitGroup>, call: nat, signers: seq<Account>, n: nat): map<Account, WaitGroup>
    requires n <= |signers|
  {
    if n == 0 then wgs else Enter(wgs, call, signers, n - 1)[signers[n - 1] := WaitGroup(call, n - 1)]
  }

  /** An entry is deleted only by the wait group it holds. */
  function Leave(wgs: map<Account, WaitGroup>, signal: Signal): map<Account, WaitGroup> {
    if signal.acc in wgs && wgs[signal.acc] == signal.wg then wgs - {signal.acc} else wgs
  }

  function LeaveAll(wgs: map<Account, WaitGroup>, signals: seq<Signal>, n: nat): map<Account, WaitGroup>
    requires n <= |signals|
  {
    if n == 0 then wgs else Leave(LeaveAll(wgs, signals, n - 1), signals[n - 1])
  }

  /** Every signer ends up with its own fresh wait group and no other entry changes. */
  lemma EnterEntries(wgs: map<Account, WaitGroup>, call: nat, signers: seq<Account>, n: nat)
    requires Distinct(signers) && n <= |signers|
    ensures forall k :: 0 <= k < n ==>
              signers[k] in Enter(wgs, call, signers, n) && Enter(wgs, call, signers, n)[signers[k]] == WaitGroup(call, k)
    ensures forall a :: (forall k :: 0 <= k < n ==> signers[k] != a) ==>
              && (a in Enter(wgs, call, signers, n) <==> a in wgs)
              && (a in wgs ==> Enter(wgs, call, signers, n)[a] == wgs[a])
  {
    hide Enter;
    forall k | 0 <= k < n
      ensures signers[k] in Enter(wgs, call, signers, n) && Enter(wgs, call, signers, n)[signers[k]] == WaitGroup(call, k)
    {
      EnterOwn(wgs, call, signers, k, n);
    }
    forall a | forall k :: 0 <= k < n ==> signers[k] != a
      ensures (a in Enter(wgs, call, signers, n) <==> a in wgs) && (a in wgs ==> Enter(wgs, call, signers, n)[a] == wgs[a])
    {
      EnterOther(wgs, call, signers, a, n);
    }
  }

  lemma {:induction false} EnterOwn(wgs: map<Account, WaitGroup>, call: nat, signers: seq<Account>, k: nat, n: nat)
    requires Distinct(signers) && k < n <= |signers|
    ensures signers[k] in Enter(wgs, call, signers, n) && Enter(wgs, call, signers, n)[signers[k]] == WaitGroup(call, k)
  {
    if k < n - 1 { EnterOwn(wgs, call, signers, k, n - 1); }
  }

  lemma {:induction false} EnterOther(wgs: map<Account, WaitGroup>, call: nat, signers: seq<Account>, a: Account, n: nat)
    requires n <= |signers| && forall k :: 0 <= k < n ==> signers[k] != a
    ensures a in Enter(wgs, call, signers, n) <==> a in wgs
    ensures a in wgs ==> Enter(wgs, call, signers, n)[a] == wgs[a]
  {
    if n > 0 { EnterOther(wgs, call, signers, a, n - 1); }
  }

  /** The wait groups of a registration are the entries of its signers. */
  lemma {:induction false} HoldersEntries(wgs: map<Account, WaitGroup>, signers: seq<Account>, n: nat)
    requires n <= |signers|
    ensures forall w :: w in Holders(wgs, signers, n)
              <==> exists k :: 0 <= k < n && signers[k] in wgs && wgs[signers[k]] == w
  {
    if n > 0 {
      HoldersEntries(wgs, signers, n - 1);
    }
  }

  lemma RegisterNone(wgs: map<Account, WaitGroup>, call: nat, signers: seq<Account>)
    ensures Holders(wgs, signers, 0) == [] && Fresh(call, signers, 0) == [] && Enter(wgs, call, signers, 0) == wgs
  {}

  /** What the turn of one signer adds; its entry is still the one from before the call. */
  lemma RegisterOne(wgs: map<Account, WaitGroup>, call: nat, signers: seq<Account>, i: nat)
    requires Distinct(signers) && i < |signers|
    ensures var now, signer, wg := Enter(wgs, call, signers, i), signers[i], WaitGroup(call, i);
            && Enter(wgs, call, signers, i + 1) == now[signer := wg]
            && Fresh(call, signers, i + 1) == Fresh(call, signers, i) + [Signal(signer, wg)]
            && Holders(wgs, signers, i + 1) == Holders(wgs, signers, i) + (if signer in now then [now[signer]] else [])
  {
    EnterEntries(wgs, call, signers, i);
    forall k | 0 <= k < i ensures signers[k] != signers[i] {}
  }

  class AccountWGs {
    var wgs: map<Account, WaitGroup>
    var signalled: set<WaitGroup>  // the wait groups whose counter has gone from one to zero
    var calls: nat                 // the number of calls of Register so far

    constructor ()
      ensures wgs == map[] && signalled == {} && calls == 0
    {
      wgs, signalled, calls := map[], {}, 0;
    }

    /** Register, one atomic step under the mutex.  The entries are read from the map
        before any of them is replaced, because the signers are distinct. */
    method Register(msgs: Msgs, text: Account -> string)
      returns (waits: seq<WaitGroup>, signals: seq<Signal>)
      modifies this
      ensures var signers := Signers(msgs, text);
              && waits == Holders(old(wgs), signers, |signers|)
              && signals == Fresh(old(calls), signers, |signers|)
              && wgs == Enter(old(wgs), old(calls), signers, |signers|)
      ensures calls == old(calls) + 1 && signalled == old(signalled)
    {
      hide Signers, Holders, Fresh, Enter;
      var signers := GetUniqSigners(msgs, text);
      SignersDistinct(msgs, text);
      RegisterNone(wgs, calls, signers);
      waits, signals := [], [];
      for i := 0 to |signers|
        invariant waits == Holders(old(wgs), signers, i)
        invariant signals == Fresh(calls, signers, i)
        invariant calls == old(calls) && signalled == old(signalled)
        invariant wgs == Enter(old(wgs), calls, signers, i)
      {
        RegisterOne(old(wgs), calls, signers, i);
        var signer := signers[i];
        if signer in wgs {
          waits := waits + [wgs[signer]];
        }
        var sig := WaitGroup(calls, i);
        wgs := wgs[signer := sig];
        signals := signals + [Signal(signer, sig)];
      }
      calls := calls + 1;
    }

    /** Done.  A wait group signalled twice would make its counter negative and panic. */
    method Done(signals: seq<Signal>)
      requires forall i, j :: 0 <= i < j < |signals| ==> signals[i].wg != signals[j].wg
      requires forall i :: 0 <= i < |signals| ==> signals[i].wg !in signalled
      modifies this
      ensures wgs == LeaveAll(old(wgs), signals, |signals|)
      ensures signalled == old(signalled) + set i | 0 <= i < |signals| :: signals[i].wg
      ensures calls == old(calls)
    {
      for k := 0 to |signals|
        invariant wgs == LeaveAll(old(wgs), signals, k) && calls == old(calls)
        invariant signalled == old(signalled) + set i | 0 <= i < k :: signals[i].wg
      {
        var signal := signals[k];
        assert signal.wg !in signalled;
        signalled := signalled + {signal.wg};
        if signal.acc in wgs && wgs[signal.acc] == signal.wg {
          wgs := wgs - {signal.acc};
        }
      }
    }
  }

  /** Finishing without another registration in between takes exactly the signers out. */
  lemma {:induction false} RegisterThenDone(wgs: map<Account, WaitGroup>, call: nat, signers: seq<Account>, n: nat)
    requires Distinct(signers) && n <= |signers|
    ensures var after := LeaveAll(Enter(wgs, call, signers, |signers|), Fresh(call, signers, |signers|), n);
            && (forall k :: 0 <= k < n ==> signers[k] !in after)
            && (forall k :: n <= k < |signers| ==> signers[k] in after && after[signers[k]] == WaitGroup(call, k))
            && (forall a :: a !in signers ==> (a in after <==> a in wgs) && (a in wgs ==> after[a] == wgs[a]))
  {
    if n == 0 {
      EnterEntries(wgs, call, signers, |signers|);
    } else {
      RegisterThenDone(wgs, call, signers, n - 1);
      hide Enter;
      assert Fresh(call, signers, |signers|)[n - 1] == Signal(signers[n - 1], WaitGroup(call, n - 1));
      forall k | 0 <= k < |signers| && k != n - 1 ensures signers[k] != signers[n - 1] {}
    }
  }
}
