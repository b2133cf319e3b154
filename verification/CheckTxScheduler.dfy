/** Every interleaving of concurrent CheckTx calls (baseapp/reactor.go, baseapp/abci.go).

    A check registers, waits for the previous holder of each of its signers, reads the
    check state through its branch, writes its branch back and then signals its own wait
    groups one at a time under the mutex.  Each of these is a separate atomic step here,
    and steps of different checks interleave freely. */
module CheckTxScheduler {
  import opened Wrappers
  import opened MultiStore
  import opened AccountWaitGroups

  type Value = string

  /** What a check read, or writes back; `None` stands for an absent or deleted slot. */
  type Slots = Branch<Account, Value>

  datatype Tx = Tx(body: string, msgs: Msgs)

  datatype Outcome = Accept(response: string, writes: Slots) | Reject(response: string)

  /** The ante handler as a function of its signers' slots, and the text form of addresses. */
  datatype Config = Config(handler: (Tx, Slots) -> Outcome, text: Account -> string)

  datatype Phase =
    | Waiting(next: nat)                          // in Wait, before the wait group with this index
    | Reading(view: Slots)                        // in checkTx, having read some slots
    | Writing(pending: Slots, response: string)   // in checkTx, writing the branch back
    | Releasing(next: nat, response: string)      // in Done, holding the mutex
    | Finished(response: string)

  datatype Check = Check(tx: Tx, signers: seq<Account>, waits: seq<WaitGroup>, signals: seq<Signal>, phase: Phase)

  /** `checks` are in the order of registration. */
  datatype State = State(
    checks: seq<Check>,
    wgs: map<Account, WaitGroup>,
    signalled: set<WaitGroup>,
    mutex: Option<nat>,
    store: map<Account, Value>)

  datatype Step =
    | Register(tx: Tx)
    | Wake(p: nat) | Start(p: nat)
    | Read(p: nat, a: Account) | Decide(p: nat)
    | Write(p: nat, a: Account) | Lock(p: nat)
    | SendSignal(p: nat) | Unlock(p: nat)

  function Put(store: map<Account, Value>, a: Account, v: Option<Value>): map<Account, Value> {
    match v case Some(x) => store[a := x] case None => store - {a}
  }

  function TxSigners(c: Config, tx: Tx): seq<Account> {
    Signers(tx.msgs, c.text)
  }

  // ----- the steps

  predicate Enabled(c: Config, s: State, step: Step) {
    match step
    case Register(_) => s.mutex == None
    case Wake(p) =>
      && p < |s.checks| && s.checks[p].phase.Waiting?
      && var ch := s.checks[p];
         ch.phase.next < |ch.waits| && ch.waits[ch.phase.next] in s.signalled
    case Start(p) =>
      p < |s.checks| && s.checks[p].phase.Waiting? && s.checks[p].phase.next == |s.checks[p].waits|
    case Read(p, a) =>
      p < |s.checks| && s.checks[p].phase.Reading? && a in s.checks[p].signers && a !in s.checks[p].phase.view
    case Decide(p) =>
      p < |s.checks| && s.checks[p].phase.Reading? && forall a :: a in s.checks[p].signers ==> a in s.checks[p].phase.view
    case Write(p, a) =>
      p < |s.checks| && s.checks[p].phase.Writing? && a in s.checks[p].phase.pending
    case Lock(p) =>
      p < |s.checks| && s.checks[p].phase.Writing? && s.checks[p].phase.pending == map[] && s.mutex == None
    case SendSignal(p) =>
      p < |s.checks| && s.checks[p].phase.Releasing? && s.checks[p].phase.next < |s.checks[p].signals|
    case Unlock(p) =>
      p < |s.checks| && s.checks[p].phase.Releasing? && s.checks[p].phase.next == |s.checks[p].signals|
  }

  function Enter1(c: Config, s: State, tx: Tx): Check {
    var signers := TxSigners(c, tx);
    Check(tx, signers, Holders(s.wgs, signers, |signers|), Fresh(|s.checks|, signers, |signers|), Waiting(0))
  }

  function Move(s: State, p: nat, phase: Phase): State
    requires p < |s.checks|
  {
    s.(checks := s.checks[p := s.checks[p].(phase := phase)])
  }

  function DirtySlots(o: Outcome): Slots {
    match o case Accept(_, w) => w case Reject(_) => map[]
  }

  function Apply(c: Config, s: State, step: Step): State
    requires Enabled(c, s, step)
  {
    match step
    case Register(tx) =>
      var signers := TxSigners(c, tx);
      s.(checks := s.checks + [Enter1(c, s, tx)], wgs := Enter(s.wgs, |s.checks|, signers, |signers|))
    case Wake(p) => Move(s, p, Waiting(s.checks[p].phase.next + 1))
    case Start(p) => Move(s, p, Reading(map[]))
    case Read(p, a) => Move(s, p, Reading(s.checks[p].phase.view[a := Get(s.store, a)]))
    case Decide(p) =>
      var o := c.handler(s.checks[p].tx, s.checks[p].phase.view);
      Move(s, p, Writing(DirtySlots(o), o.response))
    case Write(p, a) =>
      var ph := s.checks[p].phase;
      Move(s, p, Writing(ph.pending - {a}, ph.response)).(store := Put(s.store, a, ph.pending[a]))
    case Lock(p) => Move(s, p, Releasing(0, s.checks[p].phase.response)).(mutex := Some(p))
    case SendSignal(p) =>
      var ph := s.checks[p].phase;
      var signal := s.checks[p].signals[ph.next];
      Move(s, p, Releasing(ph.next + 1, ph.response)).(
        signalled := s.signalled + {signal.wg}, wgs := Leave(s.wgs, signal))
    case Unlock(p) => Move(s, p, Finished(s.checks[p].phase.response)).(mutex := None)
  }

  // ----- runs

  function Init(store: map<Account, Value>): State {
    State([], map[], {}, None, store)
  }

  /** The state after the first `n` steps, if each of them was enabled. */
  function Run(c: Config, init: map<Account, Value>, steps: seq<Step>, n: nat): Option<State>
    requires n <= |steps|
  {
    if n == 0 then Some(Init(init))
    else
      match Run(c, init, steps, n - 1)
      case Some(s) => if Enabled(c, s, steps[n - 1]) then Some(Apply(c, s, steps[n - 1])) else None
      case None => None
  }

  // ----- the sequential reference: one check at a time, in registration order

  function ViewOf(c: Config, tx: Tx, store: map<Account, Value>): Slots {
    map a | a in TxSigners(c, tx) :: Get(store, a)
  }

  function Serial(c: Config, init: map<Account, Value>, checks: seq<Check>, n: nat): map<Account, Value>
    requires n <= |checks|
  {
    if n == 0 then init
    else
      var before := Serial(c, init, checks, n - 1);
      View(before, DirtySlots(c.handler(checks[n - 1].tx, ViewOf(c, checks[n - 1].tx, before))))
  }

  function SerialOutcome(c: Config, init: map<Account, Value>, checks: seq<Check>, n: nat): Outcome
    requires n < |checks|
  {
    c.handler(checks[n].tx, ViewOf(c, checks[n].tx, Serial(c, init, checks, n)))
  }

  /** The footprint assumption: a check writes only its signers' slots. */
  ghost predicate Local(c: Config) {
    forall tx, view :: DirtySlots(c.handler(tx, view)).Keys <= set a | a in TxSigners(c, tx)
  }

  // ----- the invariant

  function Sent(ch: Check): nat {
    match ch.phase
    case Releasing(k, _) => k
    case Finished(_) => |ch.signals|
    case _ => 0
  }

  ghost predicate Holds(s: State, p: nat, a: Account) {
    p < |s.checks| && a in s.checks[p].signers
  }

  /** Check `p` has signalled the wait group of its signer `a`. */
  ghost predicate Released(s: State, p: nat, a: Account) {
    p < |s.checks| && exists j :: 0 <= j < |s.checks[p].signers| && s.checks[p].signers[j] == a && j < Sent(s.checks[p])
  }

  ghost predicate ForAccount(s: State, w: WaitGroup, a: Account) {
    w.call < |s.checks| && w.index < |s.checks[w.call].signers| && s.checks[w.call].signers[w.index] == a
  }

  ghost predicate CheckOk(c: Config, s: State, p: nat)
    requires p < |s.checks|
  {
    var ch := s.checks[p];
    && ch.signers == TxSigners(c, ch.tx)
    && Distinct(ch.signers)
    && ch.signals == Fresh(p, ch.signers, |ch.signers|)
    && (ch.phase.Waiting? ==> ch.phase.next <= |ch.waits|)
    && (ch.phase.Releasing? ==> ch.phase.next <= |ch.signals|)
    && (ch.phase.Reading? ==> forall a :: a in ch.phase.view ==> a in ch.signers)
    && (ch.phase.Writing? ==> forall a :: a in ch.phase.pending ==> a in ch.signers)
    && (forall i :: 0 <= i < |ch.waits| ==> ch.waits[i].call < p && ch.waits[i].index < |s.checks[ch.waits[i].call].signers|)
  }

  ghost predicate SignalsOk(s: State) {
    forall w: WaitGroup :: w in s.signalled <==> w.call < |s.checks| && w.index < Sent(s.checks[w.call])
  }

  ghost predicate MutexOk(s: State) {
    && (forall p :: 0 <= p < |s.checks| && s.checks[p].phase.Releasing? ==> s.mutex == Some(p))
    && (s.mutex.Some? ==> s.mutex.value < |s.checks| && s.checks[s.mutex.value].phase.Releasing?)
  }

  /** An entry is the unsignalled wait group of the latest holder. */
  ghost predicate EntriesOk(s: State) {
    && (forall a :: a in s.wgs ==> ForAccount(s, s.wgs[a], a) && s.wgs[a] !in s.signalled)
    && (forall a, q: nat :: a in s.wgs && Holds(s, q, a) ==> q <= s.wgs[a].call)
    && (forall a, q: nat :: Holds(s, q, a) && !Released(s, q, a) ==> a in s.wgs)
  }

  /** Check `p` still has a wait ahead of it for `a`, at `q` or later. */
  ghost predicate BlockedOn(s: State, p: nat, q: nat, a: Account)
    requires p < |s.checks|
  {
    && s.checks[p].phase.Waiting?
    && exists i :: s.checks[p].phase.next <= i < |s.checks[p].waits|
                   && q <= s.checks[p].waits[i].call && ForAccount(s, s.checks[p].waits[i], a)
  }

  ghost predicate OrderOk(s: State) {
    forall q, p, a :: 0 <= q < p < |s.checks| && Holds(s, q, a) && Holds(s, p, a) && !Released(s, q, a) ==>
      BlockedOn(s, p, q, a)
  }

  ghost predicate Structure(c: Config, s: State) {
    && ChecksOk(c, s) && SignalsOk(s) && MutexOk(s) && EntriesOk(s) && OrderOk(s)
  }

  /** Steps keep the signers of registered checks and only ever send more signals. */
  ghost predicate Extends(s: State, s': State) {
    && |s.checks| <= |s'.checks|
    && (forall q :: 0 <= q < |s.checks| ==> s'.checks[q].signers == s.checks[q].signers && Sent(s.checks[q]) <= Sent(s'.checks[q]))
  }

  lemma HoldsFrame(s: State, s': State)
    requires Extends(s, s')
    ensures forall q: nat, a :: q < |s.checks| ==> Holds(s', q, a) == Holds(s, q, a)
    ensures forall w: WaitGroup, a :: w.call < |s.checks| ==> ForAccount(s', w, a) == ForAccount(s, w, a)
    ensures forall q: nat, a :: Released(s, q, a) ==> Released(s', q, a)
    ensures forall q: nat, a :: q < |s.checks| && Sent(s.checks[q]) == Sent(s'.checks[q]) && Released(s', q, a) ==> Released(s, q, a)
  {
    forall q: nat, a | Released(s, q, a) ensures Released(s', q, a) {
      var j :| 0 <= j < |s.checks[q].signers| && s.checks[q].signers[j] == a && j < Sent(s.checks[q]);
      assert s'.checks[q].signers[j] == a;
    }
  }

  /** A check that does not move stays blocked on whatever it was blocked on. */
  lemma BlockedFrame(s: State, s': State, r: nat, q: nat, a: Account)
    requires Extends(s, s') && r < |s.checks| && BlockedOn(s, r, q, a)
    requires s'.checks[r].waits == s.checks[r].waits && s'.checks[r].phase == s.checks[r].phase
    ensures BlockedOn(s', r, q, a)
  {
    var waits := s.checks[r].waits;
    var i :| s.checks[r].phase.next <= i < |waits| && q <= waits[i].call && ForAccount(s, waits[i], a);
    assert ForAccount(s', s'.checks[r].waits[i], a);
  }

  /** Only check `p` moves. */
  ghost predicate Moves(s: State, s': State, p: nat) {
    && p < |s.checks| == |s'.checks|
    && (forall q :: 0 <= q < |s.checks| && q != p ==> s'.checks[q] == s.checks[q])
    && s'.checks[p] == s.checks[p].(phase := s'.checks[p].phase)
    && Sent(s.checks[p]) <= Sent(s'.checks[p])
  }

  ghost predicate ChecksOk(c: Config, s: State) {
    forall p :: 0 <= p < |s.checks| ==> CheckOk(c, s, p)
  }

  lemma ChecksFrame(c: Config, s: State, s': State, p: nat)
    requires ChecksOk(c, s) && Moves(s, s', p) && CheckOk(c, s', p)
    ensures ChecksOk(c, s')
  {
    forall q | 0 <= q < |s'.checks| ensures CheckOk(c, s', q) {
      assert CheckOk(c, s, q);
    }
  }

  /** The order is kept by a move of a check that has no wait ahead of it. */
  lemma OrderFrame(s: State, s': State, p: nat)
    requires OrderOk(s) && Moves(s, s', p)
    requires s.checks[p].phase.Waiting? ==> s.checks[p].phase.next == |s.checks[p].waits|
    ensures OrderOk(s')
  {
    HoldsFrame(s, s');
    forall q, r, a | 0 <= q < r < |s'.checks| && Holds(s', q, a) && Holds(s', r, a) && !Released(s', q, a)
      ensures BlockedOn(s', r, q, a)
    {
      assert BlockedOn(s, r, q, a);
      BlockedFrame(s, s', r, q, a);
    }
  }

  /** Moves that neither send a signal nor leave a wait unfinished. */
  lemma QuietMove(c: Config, s: State, s': State, p: nat)
    requires Structure(c, s) && Moves(s, s', p) && Sent(s'.checks[p]) == Sent(s.checks[p])
    requires s'.wgs == s.wgs && s'.signalled == s.signalled && MutexOk(s')
    requires CheckOk(c, s', p)
    requires s.checks[p].phase.Waiting? ==> s.checks[p].phase.next == |s.checks[p].waits|
    ensures Structure(c, s')
  {
    ChecksFrame(c, s, s', p);
    OrderFrame(s, s', p);
    EntriesFrame(s, s', p);
  }

  lemma EntriesFrame(s: State, s': State, p: nat)
    requires EntriesOk(s) && Moves(s, s', p) && Sent(s'.checks[p]) == Sent(s.checks[p])
    requires s'.wgs == s.wgs && s'.signalled == s.signalled
    ensures EntriesOk(s')
  {
    HoldsFrame(s, s');
  }

  /** A released account was never released out of order: its releaser is past waiting,
      so every earlier holder has released it too. */
  lemma ReleasedInOrder(c: Config, s: State, q: nat, p: nat, a: Account)
    requires Structure(c, s) && q < p < |s.checks|
    requires Holds(s, q, a) && Holds(s, p, a) && !s.checks[p].phase.Waiting?
    ensures Released(s, q, a)
  {
    assert !BlockedOn(s, p, q, a);
  }

  lemma WakeKeeps(c: Config, s: State, p: nat)
    requires Structure(c, s) && Enabled(c, s, Wake(p))
    ensures Structure(c, Apply(c, s, Wake(p)))
  {
    var s' := Apply(c, s, Wake(p));
    assert CheckOk(c, s, p);
    ChecksFrame(c, s, s', p);
    EntriesFrame(s, s', p);
    WakeOrder(c, s, p);
  }

  lemma WakeOrder(c: Config, s: State, p: nat)
    requires Structure(c, s) && Enabled(c, s, Wake(p))
    ensures OrderOk(Apply(c, s, Wake(p)))
  {
    var s' := Apply(c, s, Wake(p));
    HoldsFrame(s, s');
    forall q, r, a | 0 <= q < r < |s'.checks| && Holds(s', q, a) && Holds(s', r, a) && !Released(s', q, a)
      ensures BlockedOn(s', r, q, a)
    {
      if r == p {
        WakeStillBlocked(c, s, p, q, a);
      } else {
        assert BlockedOn(s, r, q, a);
        BlockedFrame(s, s', r, q, a);
      }
    }
  }

  /** The wait that was just passed cannot have been the one that guards `q`. */
  lemma WakeStillBlocked(c: Config, s: State, p: nat, q: nat, a: Account)
    requires Structure(c, s) && Enabled(c, s, Wake(p))
    requires q < p && Holds(s, q, a) && Holds(s, p, a) && !Released(s, q, a)
    ensures BlockedOn(Apply(c, s, Wake(p)), p, q, a)
  {
    var ch := s.checks[p];
    var s' := Apply(c, s, Wake(p));
    assert BlockedOn(s, p, q, a);
    var i :| ch.phase.next <= i < |ch.waits| && q <= ch.waits[i].call && ForAccount(s, ch.waits[i], a);
    if i == ch.phase.next {
      var r := ch.waits[i].call;
      assert Released(s, r, a);
      if q < r { ReleasedInOrder(c, s, q, r, a); }
      assert false;
    }
    assert ForAccount(s', s'.checks[p].waits[i], a);
  }

  lemma SignalKeeps(c: Config, s: State, p: nat)
    requires Structure(c, s) && Enabled(c, s, SendSignal(p))
    ensures Structure(c, Apply(c, s, SendSignal(p)))
  {
    var s' := Apply(c, s, SendSignal(p));
    var k := s.checks[p].phase.next;
    assert CheckOk(c, s, p);
    assert s.checks[p].signals[k].wg == WaitGroup(p, k);
    ChecksFrame(c, s, s', p);
    OrderFrame(s, s', p);
    SignalEntries(c, s, p);
  }

  /** The entry of the signalled account goes only if its latest holder is `p`, and then
      every holder of the account has released it. */
  lemma SignalEntries(c: Config, s: State, p: nat)
    requires Structure(c, s) && Enabled(c, s, SendSignal(p))
    ensures EntriesOk(Apply(c, s, SendSignal(p)))
  {
    hide TxSigners, OrderOk, MutexOk, Distinct;
    var s' := Apply(c, s, SendSignal(p));
    var k := s.checks[p].phase.next;
    assert CheckOk(c, s, p);
    var acc, wg := s.checks[p].signers[k], WaitGroup(p, k);
    assert s.checks[p].signals[k] == Signal(acc, wg);
    HoldsFrame(s, s');
    forall a, q: nat | Holds(s', q, a) && !Released(s', q, a) ensures a in s'.wgs {
      if a == acc && s.wgs[acc] == wg {
        LastRelease(c, s, p, q);
      }
    }
  }

  /** When the entry is `p`'s own, `p` is the last holder that had not released it. */
  lemma LastRelease(c: Config, s: State, p: nat, q: nat)
    requires Structure(c, s) && Enabled(c, s, SendSignal(p))
    requires var k := s.checks[p].phase.next;
             && k < |s.checks[p].signers| && Holds(s, q, s.checks[p].signers[k])
             && s.checks[p].signers[k] in s.wgs && s.wgs[s.checks[p].signers[k]] == WaitGroup(p, k)
    ensures Released(Apply(c, s, SendSignal(p)), q, s.checks[p].signers[s.checks[p].phase.next])
  {
    var s' := Apply(c, s, SendSignal(p));
    var k := s.checks[p].phase.next;
    HoldsFrame(s, s');
    if q < p {
      ReleasedInOrder(c, s, q, p, s.checks[p].signers[k]);
    } else {
      assert s'.checks[p].signers[k] == s.checks[p].signers[k] && k < Sent(s'.checks[p]);
    }
  }

  lemma RegisterKeeps(c: Config, s: State, tx: Tx)
    requires Structure(c, s) && Enabled(c, s, Register(tx))
    ensures Structure(c, Apply(c, s, Register(tx)))
  {
    hide TxSigners;
    RegisterEntries(c, s, tx);
    RegisterOrder(c, s, tx);
    RegisterChecks(c, s, tx);
  }

  lemma RegisterChecks(c: Config, s: State, tx: Tx)
    requires Structure(c, s) && Enabled(c, s, Register(tx))
    ensures ChecksOk(c, Apply(c, s, Register(tx)))
  {
    hide TxSigners, Fresh, Holders, Enter, EntriesOk, OrderOk, SignalsOk, MutexOk, BlockedOn, Released;
    var s' := Apply(c, s, Register(tx));
    RegisterWaits(c, s, tx);
    forall q | 0 <= q < |s'.checks| ensures CheckOk(c, s', q) {
      if q < |s.checks| { assert CheckOk(c, s, q); }
    }
  }

  lemma RegisterOrder(c: Config, s: State, tx: Tx)
    requires Structure(c, s) && Enabled(c, s, Register(tx))
    ensures OrderOk(Apply(c, s, Register(tx)))
  {
    hide TxSigners, Fresh, Holders, Enter, EntriesOk, ChecksOk, SignalsOk, MutexOk;
    var s' := Apply(c, s, Register(tx));
    HoldsFrame(s, s');
    RegisterWaits(c, s, tx);
    forall q, r, a | 0 <= q < r < |s'.checks| && Holds(s', q, a) && Holds(s', r, a) && !Released(s', q, a)
      ensures BlockedOn(s', r, q, a)
    {
      if r < |s.checks| {
        assert BlockedOn(s, r, q, a);
        BlockedFrame(s, s', r, q, a);
      }
    }
  }

  /** A new check waits for the latest holder of each signer that is still held. */
  lemma RegisterWaits(c: Config, s: State, tx: Tx)
    requires Structure(c, s) && Enabled(c, s, Register(tx))
    ensures var s' := Apply(c, s, Register(tx));
            && CheckOk(c, s', |s.checks|)
            && forall q: nat, a :: q < |s.checks| && Holds(s, q, a) && !Released(s, q, a) && Holds(s', |s.checks|, a) ==>
                 BlockedOn(s', |s.checks|, q, a)
  {
    var s' := Apply(c, s, Register(tx));
    var n, signers := |s.checks|, TxSigners(c, tx);
    var waits := s'.checks[n].waits;
    HoldsFrame(s, s');
    SignersDistinct(tx.msgs, c.text);
    HoldersEntries(s.wgs, signers, |signers|);
    forall i | 0 <= i < |waits| ensures waits[i].call < n && waits[i].index < |s.checks[waits[i].call].signers| {
      assert waits[i] in waits;
    }
    forall q: nat, a | q < n && Holds(s, q, a) && !Released(s, q, a) && Holds(s', n, a) ensures BlockedOn(s', n, q, a) {
      assert s.wgs[a] in waits;
      var i :| 0 <= i < |waits| && waits[i] == s.wgs[a];
      assert ForAccount(s', waits[i], a);
    }
  }

  /** The new check's wait groups replace those of the earlier holders. */
  lemma RegisterEntries(c: Config, s: State, tx: Tx)
    requires Structure(c, s) && Enabled(c, s, Register(tx))
    ensures EntriesOk(Apply(c, s, Register(tx)))
  {
    var s' := Apply(c, s, Register(tx));
    var n, signers := |s.checks|, TxSigners(c, tx);
    HoldsFrame(s, s');
    SignersDistinct(tx.msgs, c.text);
    EnterEntries(s.wgs, n, signers, |signers|);
    forall a | a in s'.wgs
      ensures ForAccount(s', s'.wgs[a], a) && s'.wgs[a] !in s'.signalled
      ensures forall q: nat :: Holds(s', q, a) ==> q <= s'.wgs[a].call
    {
      if k :| 0 <= k < |signers| && signers[k] == a {
        assert s'.wgs[a] == WaitGroup(n, k);
      } else {
        assert a in s.wgs && s'.wgs[a] == s.wgs[a];
      }
    }
    forall a, q: nat | Holds(s', q, a) && !Released(s', q, a) ensures a in s'.wgs {
      if q < n { assert a in s.wgs; }
    }
  }

  /** The steps inside checkTx. */
  lemma CheckTxKeeps(c: Config, s: State, step: Step)
    requires Local(c) && Structure(c, s) && Enabled(c, s, step)
    requires step.Start? || step.Read? || step.Decide? || step.Write?
    ensures Structure(c, Apply(c, s, step))
  {
    var s' := Apply(c, s, step);
    assert CheckOk(c, s, step.p);
    assert MutexOk(s') && CheckOk(c, s', step.p);
    QuietMove(c, s, s', step.p);
  }

  lemma MutexKeeps(c: Config, s: State, step: Step)
    requires Structure(c, s) && Enabled(c, s, step) && (step.Lock? || step.Unlock?)
    ensures Structure(c, Apply(c, s, step))
  {
    assert CheckOk(c, s, step.p);
    QuietMove(c, s, Apply(c, s, step), step.p);
  }

  /** Every step of every check keeps the structure. */
  lemma StepKeepsStructure(c: Config, s: State, step: Step)
    requires Local(c) && Structure(c, s) && Enabled(c, s, step)
    ensures Structure(c, Apply(c, s, step))
  {
    match step
    case Register(tx) => RegisterKeeps(c, s, tx);
    case Wake(p) => WakeKeeps(c, s, p);
    case SendSignal(p) => SignalKeeps(c, s, p);
    case Lock(_) => MutexKeeps(c, s, step);
    case Unlock(_) => MutexKeeps(c, s, step);
    case _ => CheckTxKeeps(c, s, step);
  }

  // ----- what every check has seen and written

  ghost predicate Decided(ch: Check) {
    ch.phase.Writing? || ch.phase.Releasing? || ch.phase.Finished?
  }

  /** Check `q` has nothing more to write to `a`. */
  ghost predicate Wrote(s: State, q: nat, a: Account)
    requires q < |s.checks|
  {
    Decided(s.checks[q]) && (s.checks[q].phase.Writing? ==> a !in s.checks[q].phase.pending)
  }

  /** `m` separates the holders of `a` that are done writing it from those that are not. */
  ghost predicate Frontier(s: State, a: Account, m: nat) {
    && m <= |s.checks|
    && (forall q :: 0 <= q < m && Holds(s, q, a) ==> Wrote(s, q, a))
    && (forall q :: m <= q < |s.checks| && Holds(s, q, a) ==> !Wrote(s, q, a))
  }

  ghost predicate SerialCheck(c: Config, init: map<Account, Value>, s: State, p: nat)
    requires p < |s.checks|
  {
    var ph := s.checks[p].phase;
    var o := SerialOutcome(c, init, s.checks, p);
    && (ph.Reading? ==> forall a :: a in ph.view ==> ph.view[a] == Get(Serial(c, init, s.checks, p), a))
    && (Decided(s.checks[p]) ==> ph.response == o.response)
    && (ph.Writing? ==> forall a :: a in ph.pending ==> a in DirtySlots(o) && ph.pending[a] == DirtySlots(o)[a])
  }

  ghost predicate SerialStore(c: Config, init: map<Account, Value>, s: State) {
    forall a, m: nat :: Frontier(s, a, m) ==> Get(s.store, a) == Get(Serial(c, init, s.checks, m), a)
  }

  ghost predicate Data(c: Config, init: map<Account, Value>, s: State) {
    && (forall p :: 0 <= p < |s.checks| ==> SerialCheck(c, init, s, p))
    && SerialStore(c, init, s)
  }

  /** The reference run depends only on the transactions registered so far. */
  lemma {:induction false} SerialFrame(c: Config, init: map<Account, Value>, checks: seq<Check>, checks': seq<Check>, n: nat)
    requires n <= |checks| <= |checks'| && forall i :: 0 <= i < |checks| ==> checks'[i].tx == checks[i].tx
    ensures Serial(c, init, checks', n) == Serial(c, init, checks, n)
    ensures n < |checks| ==> SerialOutcome(c, init, checks', n) == SerialOutcome(c, init, checks, n)
  {
    if n > 0 { SerialFrame(c, init, checks, checks', n - 1); }
  }

  /** Transactions that do not sign for `a` leave it alone. */
  lemma {:induction false} SerialUntouched(c: Config, init: map<Account, Value>, checks: seq<Check>, a: Account, m: nat, n: nat)
    requires Local(c) && m <= n <= |checks|
    requires forall q :: m <= q < n ==> a !in TxSigners(c, checks[q].tx)
    ensures Get(Serial(c, init, checks, n), a) == Get(Serial(c, init, checks, m), a)
    decreases n
  {
    hide Serial, SerialOutcome, TxSigners, Local;
    if m < n {
      SerialUntouched(c, init, checks, a, m, n - 1);
      SerialNext(c, init, checks, n - 1, a);
      OutcomeLocal(c, init, checks, a, n - 1);
    }
  }

  lemma OutcomeLocal(c: Config, init: map<Account, Value>, checks: seq<Check>, a: Account, n: nat)
    requires Local(c) && n < |checks| && a !in TxSigners(c, checks[n].tx)
    ensures a !in DirtySlots(SerialOutcome(c, init, checks, n))
  {
    hide Serial, TxSigners;
  }

  lemma Untouched(c: Config, init: map<Account, Value>, s: State, a: Account, m: nat, n: nat)
    requires Local(c) && m <= n <= |s.checks| && ChecksOk(c, s)
    requires forall q :: m <= q < n ==> !Holds(s, q, a)
    ensures Get(Serial(c, init, s.checks, n), a) == Get(Serial(c, init, s.checks, m), a)
  {
    forall q | m <= q < n ensures a !in TxSigners(c, s.checks[q].tx) {
      assert CheckOk(c, s, q) && !Holds(s, q, a);
    }
    SerialUntouched(c, init, s.checks, a, m, n);
  }

  /** While a check is in checkTx it alone may write its signers' slots: every earlier
      holder is done with them and no later one has started. */
  lemma FrontierAt(c: Config, s: State, p: nat, a: Account)
    requires Structure(c, s) && Holds(s, p, a)
    requires !s.checks[p].phase.Waiting? && !Released(s, p, a)
    ensures forall q :: 0 <= q < p && Holds(s, q, a) ==> Wrote(s, q, a)
    ensures forall q :: p < q < |s.checks| && Holds(s, q, a) ==> !Wrote(s, q, a)
  {
    forall q | 0 <= q < p && Holds(s, q, a) ensures Wrote(s, q, a) {
      ReleasedInOrder(c, s, q, p, a);
    }
    forall q | p < q < |s.checks| && Holds(s, q, a) ensures !Wrote(s, q, a) {
      assert BlockedOn(s, q, p, a);
    }
  }

  /** A move of check `p` leaves every other check as the reference run has it. */
  lemma OthersKeepData(c: Config, init: map<Account, Value>, s: State, s': State, p: nat)
    requires Data(c, init, s) && p < |s.checks| == |s'.checks|
    requires s'.checks == s.checks[p := s'.checks[p]] && s'.checks[p].tx == s.checks[p].tx
    ensures forall n: nat :: n <= |s.checks| ==> Serial(c, init, s'.checks, n) == Serial(c, init, s.checks, n)
    ensures forall n: nat :: n < |s.checks| ==> SerialOutcome(c, init, s'.checks, n) == SerialOutcome(c, init, s.checks, n)
    ensures forall q :: 0 <= q < |s.checks| && q != p ==> SerialCheck(c, init, s', q)
  {
    forall n: nat | n <= |s.checks|
      ensures Serial(c, init, s'.checks, n) == Serial(c, init, s.checks, n)
      ensures n < |s.checks| ==> SerialOutcome(c, init, s'.checks, n) == SerialOutcome(c, init, s.checks, n)
    {
      SerialFrame(c, init, s.checks, s'.checks, n);
    }
    forall q | 0 <= q < |s.checks| && q != p ensures SerialCheck(c, init, s', q) {
      assert SerialCheck(c, init, s, q);
    }
  }

  /** Steps that neither decide nor write keep the store on the reference run. */
  lemma QuietData(c: Config, init: map<Account, Value>, s: State, s': State, p: nat)
    requires Data(c, init, s) && p < |s.checks| == |s'.checks| && s'.store == s.store
    requires s'.checks == s.checks[p := s.checks[p].(phase := s'.checks[p].phase)]
    requires SerialCheck(c, init, s', p)
    requires forall a :: Wrote(s', p, a) == Wrote(s, p, a)
    ensures Data(c, init, s')
  {
    OthersKeepData(c, init, s, s', p);
    forall a, m: nat | Frontier(s', a, m) ensures Get(s'.store, a) == Get(Serial(c, init, s'.checks, m), a) {
      FrontierSame(s, s', a, m);
    }
  }

  lemma FrontierSame(s: State, s': State, a: Account, m: nat)
    requires Frontier(s', a, m) && |s.checks| == |s'.checks|
    requires forall q :: 0 <= q < |s.checks| ==> Holds(s', q, a) == Holds(s, q, a) && Wrote(s', q, a) == Wrote(s, q, a)
    ensures Frontier(s, a, m)
  {}

  lemma RegisterData(c: Config, init: map<Account, Value>, s: State, tx: Tx)
    requires Local(c) && Structure(c, s) && Data(c, init, s) && Enabled(c, s, Register(tx))
    ensures Data(c, init, Apply(c, s, Register(tx)))
  {
    var s' := Apply(c, s, Register(tx));
    var n := |s.checks|;
    RegisterKeeps(c, s, tx);
    forall m: nat | m <= n
      ensures Serial(c, init, s'.checks, m) == Serial(c, init, s.checks, m)
      ensures m < n ==> SerialOutcome(c, init, s'.checks, m) == SerialOutcome(c, init, s.checks, m)
    {
      SerialFrame(c, init, s.checks, s'.checks, m);
    }
    forall q | 0 <= q < |s'.checks| ensures SerialCheck(c, init, s', q) {
      if q < n { assert SerialCheck(c, init, s, q); }
    }
    forall a, m: nat | Frontier(s', a, m) ensures Get(s'.store, a) == Get(Serial(c, init, s'.checks, m), a) {
      var m' := if m <= n then m else n;
      if m > n {
        assert !Wrote(s', n, a);
        assert !Holds(s', n, a);
        Untouched(c, init, s', a, n, m);
      }
      FrontierCut(s, s', a, m');
    }
  }

  lemma FrontierCut(s: State, s': State, a: Account, m: nat)
    requires m <= |s.checks| <= |s'.checks|
    requires forall q :: 0 <= q < |s.checks| ==> s'.checks[q] == s.checks[q]
    requires exists m': nat :: Frontier(s', a, m') && (m' == m || m' > |s.checks| == m)
    ensures Frontier(s, a, m)
  {
    forall q | 0 <= q < |s.checks| ensures Holds(s', q, a) == Holds(s, q, a) && Wrote(s', q, a) == Wrote(s, q, a) {}
  }

  /** A slot read by a check is what the reference run shows it. */
  lemma ReadData(c: Config, init: map<Account, Value>, s: State, p: nat, a: Account)
    requires Structure(c, s) && Data(c, init, s) && Enabled(c, s, Read(p, a))
    ensures Data(c, init, Apply(c, s, Read(p, a)))
  {
    var s' := Apply(c, s, Read(p, a));
    FrontierAt(c, s, p, a);
    assert Frontier(s, a, p);
    OthersKeepData(c, init, s, s', p);
    assert SerialCheck(c, init, s, p);
    QuietData(c, init, s, s', p);
  }

  /** Having seen what the reference run shows it, a check decides what the reference
      run decides. */
  lemma DecideCheck(c: Config, init: map<Account, Value>, s: State, p: nat)
    requires Local(c) && Structure(c, s) && Data(c, init, s) && Enabled(c, s, Decide(p))
    ensures SerialCheck(c, init, Apply(c, s, Decide(p)), p)
    ensures forall a :: a in s.checks[p].signers && Wrote(Apply(c, s, Decide(p)), p, a) ==>
              a !in DirtySlots(SerialOutcome(c, init, s.checks, p))
  {
    var s' := Apply(c, s, Decide(p));
    OthersKeepData(c, init, s, s', p);
    assert SerialCheck(c, init, s, p) && CheckOk(c, s, p);
    assert s.checks[p].phase.view == ViewOf(c, s.checks[p].tx, Serial(c, init, s.checks, p));
  }

  /** The slots a check will not write are settled as soon as it has decided. */
  lemma DecideData(c: Config, init: map<Account, Value>, s: State, p: nat)
    requires Local(c) && Structure(c, s) && Data(c, init, s) && Enabled(c, s, Decide(p))
    ensures Data(c, init, Apply(c, s, Decide(p)))
  {
    var s' := Apply(c, s, Decide(p));
    OthersKeepData(c, init, s, s', p);
    DecideCheck(c, init, s, p);
    forall a, m: nat | Frontier(s', a, m) ensures Get(s.store, a) == Get(Serial(c, init, s.checks, m), a) {
      DecideSlot(c, init, s, p, a, m);
    }
  }

  lemma DecideSlot(c: Config, init: map<Account, Value>, s: State, p: nat, a: Account, m: nat)
    requires Local(c) && Structure(c, s) && Data(c, init, s) && Enabled(c, s, Decide(p))
    requires Frontier(Apply(c, s, Decide(p)), a, m)
    ensures Get(s.store, a) == Get(Serial(c, init, s.checks, m), a)
  {
    hide Serial, SerialOutcome, TxSigners;
    var s' := Apply(c, s, Decide(p));
    if Holds(s, p, a) && Wrote(s', p, a) {
      DecideCheck(c, init, s, p);
      FrontierAt(c, s, p, a);
      SettledAfter(c, init, s, s', p, a, m);
      assert Frontier(s, a, p);
    } else {
      FrontierElsewhere(s, s', p, a, m);
    }
  }

  lemma FrontierElsewhere(s: State, s': State, p: nat, a: Account, m: nat)
    requires p < |s.checks| == |s'.checks| && s'.checks == s.checks[p := s.checks[p].(phase := s'.checks[p].phase)]
    requires Frontier(s', a, m) && (Holds(s, p, a) ==> Wrote(s', p, a) == Wrote(s, p, a))
    ensures Frontier(s, a, m)
  {
    assert forall q :: 0 <= q < |s.checks| ==> Holds(s', q, a) == Holds(s, q, a);
  }

  /** Once `p` has settled `a` the frontier moves past `p` and no further than the next holder. */
  lemma NextFrontier(s: State, s': State, p: nat, a: Account, m: nat)
    requires Moves(s, s', p) && Holds(s, p, a)
    requires forall q :: p < q < |s.checks| && Holds(s, q, a) ==> !Wrote(s, q, a)
    requires Frontier(s', a, m) && Wrote(s', p, a)
    ensures p < m && forall q :: p + 1 <= q < m ==> !Holds(s, q, a)
  {
    assert Holds(s', p, a);
    forall q | p + 1 <= q < m ensures !Holds(s, q, a) {
      assert s'.checks[q] == s.checks[q];
      assert Holds(s', q, a) ==> Wrote(s', q, a);
    }
  }

  /** There the reference run still has what `p` left. */
  lemma SettledAfter(c: Config, init: map<Account, Value>, s: State, s': State, p: nat, a: Account, m: nat)
    requires Local(c) && ChecksOk(c, s) && Moves(s, s', p) && Holds(s, p, a)
    requires forall q :: p < q < |s.checks| && Holds(s, q, a) ==> !Wrote(s, q, a)
    requires Frontier(s', a, m) && Wrote(s', p, a)
    ensures Get(Serial(c, init, s.checks, m), a)
         == Through(Get(Serial(c, init, s.checks, p), a), DirtySlots(SerialOutcome(c, init, s.checks, p)), a)
  {
    hide Serial, SerialOutcome, Wrote;
    NextFrontier(s, s', p, a, m);
    Untouched(c, init, s, a, p + 1, m);
    SerialNext(c, init, s.checks, p, a);
  }

  lemma SerialNext(c: Config, init: map<Account, Value>, checks: seq<Check>, p: nat, a: Account)
    requires p < |checks|
    ensures Get(Serial(c, init, checks, p + 1), a)
         == Through(Get(Serial(c, init, checks, p), a), DirtySlots(SerialOutcome(c, init, checks, p)), a)
  {
    var before := Serial(c, init, checks, p);
    assert Serial(c, init, checks, p + 1) == View(before, DirtySlots(SerialOutcome(c, init, checks, p)));
  }

  /** The reference run slot by slot: an accepted check puts its writes in place, deletions
      included, and a rejected one leaves everything as it was. */
  lemma SerialStep(c: Config, init: map<Account, Value>, checks: seq<Check>, p: nat, a: Account)
    requires p < |checks|
    ensures var before, after := Get(Serial(c, init, checks, p), a), Get(Serial(c, init, checks, p + 1), a);
            match c.handler(checks[p].tx, ViewOf(c, checks[p].tx, Serial(c, init, checks, p)))
            case Accept(_, writes) => after == if a in writes then writes[a] else before
            case Reject(_) => after == before
  {
    SerialNext(c, init, checks, p, a);
  }

  lemma WriteData(c: Config, init: map<Account, Value>, s: State, p: nat, a: Account)
    requires Local(c) && Structure(c, s) && Data(c, init, s) && Enabled(c, s, Write(p, a))
    ensures Data(c, init, Apply(c, s, Write(p, a)))
  {
    var s' := Apply(c, s, Write(p, a));
    OthersKeepData(c, init, s, s', p);
    assert SerialCheck(c, init, s, p);
    assert SerialCheck(c, init, s', p);
    forall b, m: nat | Frontier(s', b, m) ensures Get(s'.store, b) == Get(Serial(c, init, s.checks, m), b) {
      WriteSlot(c, init, s, p, a, b, m);
    }
  }

  lemma WriteSlot(c: Config, init: map<Account, Value>, s: State, p: nat, a: Account, b: Account, m: nat)
    requires Local(c) && Structure(c, s) && Data(c, init, s) && Enabled(c, s, Write(p, a))
    requires Frontier(Apply(c, s, Write(p, a)), b, m)
    ensures Get(Apply(c, s, Write(p, a)).store, b) == Get(Serial(c, init, s.checks, m), b)
  {
    hide Serial, SerialOutcome, TxSigners, Frontier;
    var s' := Apply(c, s, Write(p, a));
    if b == a {
      assert SerialCheck(c, init, s, p) && CheckOk(c, s, p);
      FrontierAt(c, s, p, a);
      SettledAfter(c, init, s, s', p, a, m);
    } else {
      FrontierElsewhere(s, s', p, b, m);
    }
  }

  lemma StepKeepsData(c: Config, init: map<Account, Value>, s: State, step: Step)
    requires Local(c) && Structure(c, s) && Data(c, init, s) && Enabled(c, s, step)
    ensures Data(c, init, Apply(c, s, step))
  {
    match step
    case Register(tx) => RegisterData(c, init, s, tx);
    case Read(p, a) => ReadData(c, init, s, p, a);
    case Decide(p) => DecideData(c, init, s, p);
    case Write(p, a) => WriteData(c, init, s, p, a);
    case _ => QuietStep(c, init, s, step);
  }

  /** Waiting and releasing touch no slot. */
  lemma QuietStep(c: Config, init: map<Account, Value>, s: State, step: Step)
    requires Data(c, init, s) && Enabled(c, s, step)
    requires !step.Register? && !step.Read? && !step.Decide? && !step.Write?
    ensures Data(c, init, Apply(c, s, step))
  {
    hide Serial, SerialOutcome;
    var p, s' := step.p, Apply(c, s, step);
    assert SerialCheck(c, init, s, p);
    OthersKeepData(c, init, s, s', p);
    QuietData(c, init, s, s', p);
  }

  // ----- the theorems, over every run

  lemma {:induction false} RunInvariant(c: Config, init: map<Account, Value>, steps: seq<Step>, n: nat)
    requires Local(c) && n <= |steps| && Run(c, init, steps, n).Some?
    ensures Structure(c, Run(c, init, steps, n).value)
    ensures Data(c, init, Run(c, init, steps, n).value)
  {
    if n > 0 {
      RunInvariant(c, init, steps, n - 1);
      StepKeepsStructure(c, Run(c, init, steps, n - 1).value, steps[n - 1]);
      StepKeepsData(c, init, Run(c, init, steps, n - 1).value, steps[n - 1]);
    }
  }

  lemma {:induction false} RunPrefix(c: Config, init: map<Account, Value>, steps: seq<Step>, step: Step, n: nat)
    requires n <= |steps|
    ensures Run(c, init, steps + [step], n) == Run(c, init, steps, n)
  {
    if n > 0 { RunPrefix(c, init, steps, step, n - 1); }
  }

  lemma RunNext(c: Config, init: map<Account, Value>, steps: seq<Step>, step: Step)
    requires Run(c, init, steps, |steps|).Some? && Enabled(c, Run(c, init, steps, |steps|).value, step)
    ensures Run(c, init, steps + [step], |steps| + 1) == Some(Apply(c, Run(c, init, steps, |steps|).value, step))
  {
    RunPrefix(c, init, steps, step, |steps|);
    assert (steps + [step])[|steps|] == step;
  }

  ghost predicate AllFinished(s: State) {
    forall p :: 0 <= p < |s.checks| ==> s.checks[p].phase.Finished?
  }

  /** Serialisability: whatever the interleaving, every check that has answered gave the
      answer it gives when the checks run one at a time in registration order, and once
      all have finished the check state is the one of that run. */
  lemma Serialisable(c: Config, init: map<Account, Value>, steps: seq<Step>)
    requires Local(c) && Run(c, init, steps, |steps|).Some?
    ensures var s := Run(c, init, steps, |steps|).value;
            && (forall p :: 0 <= p < |s.checks| && s.checks[p].phase.Finished? ==>
                  s.checks[p].phase.response == SerialOutcome(c, init, s.checks, p).response)
            && (AllFinished(s) ==> s.store == Serial(c, init, s.checks, |s.checks|))
  {
    RunInvariant(c, init, steps, |steps|);
    var s := Run(c, init, steps, |steps|).value;
    forall p | 0 <= p < |s.checks| && s.checks[p].phase.Finished?
      ensures s.checks[p].phase.response == SerialOutcome(c, init, s.checks, p).response
    {
      assert SerialCheck(c, init, s, p);
    }
    if AllFinished(s) {
      var final := Serial(c, init, s.checks, |s.checks|);
      forall a ensures Get(s.store, a) == Get(final, a) {
        assert Frontier(s, a, |s.checks|);
      }
      Extensional(s.store, final);
    }
  }

  ghost predicate InCheckTx(ch: Check) {
    ch.phase.Reading? || ch.phase.Writing?
  }

  /** Checks that share a signer are never in checkTx together, and they pass through it
      in registration order: the earlier one is past it before the later one enters. */
  lemma SignersExclude(c: Config, init: map<Account, Value>, steps: seq<Step>, q: nat, p: nat, a: Account)
    requires Local(c) && Run(c, init, steps, |steps|).Some?
    requires var s := Run(c, init, steps, |steps|).value; q < p && Holds(s, q, a) && Holds(s, p, a)
    ensures var s := Run(c, init, steps, |steps|).value;
            && (!s.checks[p].phase.Waiting? ==> s.checks[q].phase.Releasing? || s.checks[q].phase.Finished?)
            && !(InCheckTx(s.checks[q]) && InCheckTx(s.checks[p]))
  {
    RunInvariant(c, init, steps, |steps|);
    var s := Run(c, init, steps, |steps|).value;
    if !s.checks[p].phase.Waiting? {
      ReleasedInOrder(c, s, q, p, a);
    }
  }

  /** No deadlock: whenever some check is unfinished, some check can take a step. */
  lemma Progress(c: Config, init: map<Account, Value>, steps: seq<Step>) returns (next: Step)
    requires Local(c) && Run(c, init, steps, |steps|).Some?
    requires !AllFinished(Run(c, init, steps, |steps|).value)
    ensures !next.Register? && Enabled(c, Run(c, init, steps, |steps|).value, next)
  {
    RunInvariant(c, init, steps, |steps|);
    var s := Run(c, init, steps, |steps|).value;
    var p := FirstUnfinished(s, 0);
    if s.mutex.Some? {
      var h := s.mutex.value;
      assert CheckOk(c, s, h);
      return if s.checks[h].phase.next < |s.checks[h].signals| then SendSignal(h) else Unlock(h);
    }
    var ch := s.checks[p];
    assert CheckOk(c, s, p);
    match ch.phase
    case Waiting(k) =>
      if k < |ch.waits| {
        var w := ch.waits[k];
        assert CheckOk(c, s, w.call);
        assert w in s.signalled;
        next := Wake(p);
      } else {
        next := Start(p);
      }
    case Reading(view) =>
      if a :| a in ch.signers && a !in view {
        next := Read(p, a);
      } else {
        next := Decide(p);
      }
    case Writing(pending, _) =>
      if a :| a in pending {
        next := Write(p, a);
      } else {
        assert pending == map[];
        next := Lock(p);
      }
    case Releasing(_, _) =>
      assert false;
    case Finished(_) =>
      assert false;
  }

  lemma {:induction false} FirstUnfinished(s: State, from: nat) returns (p: nat)
    requires !AllFinished(s) && from <= |s.checks|
    requires forall q :: 0 <= q < from ==> s.checks[q].phase.Finished?
    ensures p < |s.checks| && !s.checks[p].phase.Finished?
    ensures forall q :: 0 <= q < p ==> s.checks[q].phase.Finished?
    decreases |s.checks| - from
  {
    if from < |s.checks| && !s.checks[from].phase.Finished? {
      p := from;
    } else {
      p := FirstUnfinished(s, from + 1);
    }
  }

  /** Once all checks have finished no wait group is left in the map. */
  lemma MapEmpties(c: Config, init: map<Account, Value>, steps: seq<Step>)
    requires Local(c) && Run(c, init, steps, |steps|).Some?
    requires AllFinished(Run(c, init, steps, |steps|).value)
    ensures Run(c, init, steps, |steps|).value.wgs == map[]
  {
    RunInvariant(c, init, steps, |steps|);
    var s := Run(c, init, steps, |steps|).value;
    forall a ensures a !in s.wgs {
      assert a in s.wgs ==> ForAccount(s, s.wgs[a], a) && CheckOk(c, s, s.wgs[a].call);
    }
  }

  /** A step signals a wait group at most once, and removes an entry only when every
      holder of that account has released it. */
  lemma SignalIsSafe(c: Config, init: map<Account, Value>, steps: seq<Step>, p: nat)
    requires Local(c) && Run(c, init, steps, |steps|).Some?
    requires Enabled(c, Run(c, init, steps, |steps|).value, SendSignal(p))
    ensures var s := Run(c, init, steps, |steps|).value;
            var s' := Apply(c, s, SendSignal(p));
            && s.checks[p].signals[s.checks[p].phase.next].wg !in s.signalled
            && forall a, q: nat :: a in s.wgs && a !in s'.wgs && Holds(s', q, a) ==> Released(s', q, a)
  {
    RunInvariant(c, init, steps, |steps|);
    var s := Run(c, init, steps, |steps|).value;
    assert CheckOk(c, s, p);
    SignalEntries(c, s, p);
  }

  // ----- termination

  function CheckRank(ch: Check): int {
    var n := |ch.signers|;
    match ch.phase
    case Waiting(k) => |ch.waits| - k + 3 * n + 4
    case Reading(view) => n - |view| + 2 * n + 3
    case Writing(pending, _) => |pending| + n + 2
    case Releasing(k, _) => n - k + 1
    case Finished(_) => 0
  }

  function Rank(checks: seq<Check>, n: nat): int
    requires n <= |checks|
  {
    if n == 0 then 0 else Rank(checks, n - 1) + CheckRank(checks[n - 1])
  }

  lemma {:induction false} RankMove(checks: seq<Check>, checks': seq<Check>, p: nat, n: nat)
    requires p < |checks| == |checks'| && n <= |checks| && checks' == checks[p := checks'[p]]
    ensures Rank(checks', n) == Rank(checks, n) + if p < n then CheckRank(checks'[p]) - CheckRank(checks[p]) else 0
  {
    if n > 0 { RankMove(checks, checks', p, n - 1); }
  }

  lemma {:induction false} RankPositive(c: Config, s: State, n: nat)
    requires Structure(c, s) && n <= |s.checks|
    ensures Rank(s.checks, n) >= 0
    ensures (forall p :: 0 <= p < n ==> s.checks[p].phase.Finished?) ==> Rank(s.checks, n) == 0
  {
    if n > 0 {
      RankPositive(c, s, n - 1);
      assert CheckOk(c, s, n - 1);
      SlotBound(s.checks[n - 1]);
    }
  }

  /** A check touches at most as many slots as it has signers. */
  lemma SlotBound(ch: Check)
    ensures ch.phase.Reading? && (forall a :: a in ch.phase.view ==> a in ch.signers) ==> |ch.phase.view| <= |ch.signers|
    ensures ch.phase.Writing? && (forall a :: a in ch.phase.pending ==> a in ch.signers) ==> |ch.phase.pending| <= |ch.signers|
  {
    if ch.phase.Reading? { SlotsWithin(ch.phase.view, ch.signers); }
    if ch.phase.Writing? { SlotsWithin(ch.phase.pending, ch.signers); }
  }

  lemma {:induction false} SlotsWithin(slots: Slots, signers: seq<Account>)
    ensures (forall a :: a in slots ==> a in signers) ==> |slots| <= |signers|
    decreases |signers|
  {
    if (forall a :: a in slots ==> a in signers) {
      if signers == [] {
        assert slots == map[];
      } else {
        var rest := slots - {signers[0]};
        SlotsWithin(rest, signers[1..]);
        assert slots.Keys <= rest.Keys + {signers[0]};
        SetBound(slots.Keys, rest.Keys + {signers[0]});
      }
    }
  }

  lemma {:induction false} SetBound(x: set<Account>, y: set<Account>)
    requires x <= y
    ensures |x| <= |y|
  {
    if x != {} {
      var a :| a in x;
      SetBound(x - {a}, y - {a});
    }
  }

  /** Every step other than a registration uses up some of a finite supply, so checks that
      keep stepping all finish: with Progress, none of them starves. */
  lemma StepsRunOut(c: Config, init: map<Account, Value>, steps: seq<Step>, step: Step)
    requires Local(c) && Run(c, init, steps, |steps|).Some? && !step.Register?
    requires Enabled(c, Run(c, init, steps, |steps|).value, step)
    ensures var s := Run(c, init, steps, |steps|).value;
            var s' := Apply(c, s, step);
            0 <= Rank(s'.checks, |s'.checks|) < Rank(s.checks, |s.checks|)
  {
    RunInvariant(c, init, steps, |steps|);
    var s := Run(c, init, steps, |steps|).value;
    var s' := Apply(c, s, step);
    StepKeepsStructure(c, s, step);
    var p := step.p;
    RankMove(s.checks, s'.checks, p, |s.checks|);
    RankPositive(c, s', |s'.checks|);
    assert CheckOk(c, s, p) && CheckOk(c, s', p);
    SlotBound(s.checks[p]);
    SlotBound(s'.checks[p]);
  }

  /** What is left to do after a run. */
  function RankOf(c: Config, init: map<Account, Value>, steps: seq<Step>): int
    requires Run(c, init, steps, |steps|).Some?
  {
    var s := Run(c, init, steps, |steps|).value;
    Rank(s.checks, |s.checks|)
  }

  lemma RankOfNext(c: Config, init: map<Account, Value>, steps: seq<Step>, step: Step)
    requires Local(c) && Run(c, init, steps, |steps|).Some? && !step.Register?
    requires Enabled(c, Run(c, init, steps, |steps|).value, step)
    ensures Run(c, init, steps + [step], |steps + [step]|).Some?
    ensures 0 <= RankOf(c, init, steps + [step]) < RankOf(c, init, steps)
  {
    hide Enabled, Apply, Rank, Run;
    StepsRunOut(c, init, steps, step);
    RunNext(c, init, steps, step);
  }

  /** However a run goes on without registrations, it takes at most as many steps as the
      rank says. */
  lemma {:induction false} RunsAreShort(c: Config, init: map<Account, Value>, steps: seq<Step>, n: nat)
    requires Local(c) && n <= |steps| && Run(c, init, steps, |steps|).Some?
    requires forall i :: n <= i < |steps| ==> !steps[i].Register?
    ensures Run(c, init, steps[..n], n).Some? && 0 <= |steps| - n <= RankOf(c, init, steps[..n]) - RankOf(c, init, steps)
    decreases |steps| - n
  {
    hide Enabled, Apply, Rank;
    if n == |steps| {
      assert steps[..n] == steps;
    } else {
      RunsAreShort(c, init, steps, n + 1);
      var before, step := steps[..n], steps[n];
      assert steps[..n + 1] == before + [step];
      assert (before + [step])[n] == step;
      RunPrefix(c, init, before, step, n);
      RankOfNext(c, init, before, step);
    }
  }

  lemma RankAtLeastZero(c: Config, init: map<Account, Value>, steps: seq<Step>)
    requires Local(c) && Run(c, init, steps, |steps|).Some?
    ensures RankOf(c, init, steps) >= 0
  {
    hide Rank, Run;
    RunInvariant(c, init, steps, |steps|);
    RankPositive(c, Run(c, init, steps, |steps|).value, |Run(c, init, steps, |steps|).value.checks|);
  }

  /** Every run can be completed: without further registrations all checks finish. */
  lemma {:induction false} AllChecksFinish(c: Config, init: map<Account, Value>, steps: seq<Step>) returns (all: seq<Step>)
    requires Local(c) && Run(c, init, steps, |steps|).Some?
    ensures steps <= all && (forall i :: |steps| <= i < |all| ==> !all[i].Register?)
    ensures Run(c, init, all, |all|).Some? && AllFinished(Run(c, init, all, |all|).value)
    decreases RankOf(c, init, steps)
  {
    hide Enabled, Apply, Rank, Run;
    RankAtLeastZero(c, init, steps);
    if AllFinished(Run(c, init, steps, |steps|).value) {
      all := steps;
    } else {
      var next := Progress(c, init, steps);
      RankOfNext(c, init, steps, next);
      all := AllChecksFinish(c, init, steps + [next]);
    }
  }
}
