/** The asynchronous entry point of CheckTx (baseapp/reactor.go): requests enter a channel,
    are decoded by goroutines of their own in any order, and are registered by one reactor
    that takes them from the channel in the order they were sent. */
module CheckTxReactor {
  import opened Wrappers
  import opened AccountWaitGroups
  import opened CheckTxScheduler

  /** preCheckTx: the decoded transaction, or None for a decoding or basic validation error. */
  type PreCheck = string -> Option<Tx>

  datatype Reactor = Reactor(
    sched: State,
    submitted: seq<string>,      // everything sent to the channel
    prepared: set<nat>,          // requests whose prepare wait group is done
    taken: nat,                  // how many requests the reactor has consumed
    origin: seq<Option<nat>>,    // for each registered check, its request, or None for CheckTxSync
    trace: seq<Step>)            // the scheduler's steps so far

  datatype Event =
    | Submit(txBytes: string)
    | Prepare(request: nat)
    | React
    | CheckSync(txBytes: string)
    | Inner(step: Step)

  predicate CanRegister(c: Config, r: Reactor, tx: Option<Tx>) {
    tx.Some? ==> Enabled(c, r.sched, Register(tx.value))
  }

  predicate Ready(c: Config, pre: PreCheck, r: Reactor, e: Event) {
    match e
    case Submit(_) => true
    case Prepare(i) => i < |r.submitted| && i !in r.prepared
    case React => r.taken < |r.submitted| && r.taken in r.prepared && CanRegister(c, r, pre(r.submitted[r.taken]))
    case CheckSync(b) => CanRegister(c, r, pre(b))
    case Inner(step) => !step.Register? && Enabled(c, r.sched, step)
  }

  function Take(c: Config, r: Reactor, step: Step): Reactor
    requires Enabled(c, r.sched, step)
  {
    r.(sched := Apply(c, r.sched, step), trace := r.trace + [step])
  }

  /** Register a decoded transaction; a request that failed preCheckTx is only answered. */
  function Admit(c: Config, r: Reactor, tx: Option<Tx>, origin: Option<nat>): Reactor
    requires CanRegister(c, r, tx)
  {
    match tx
    case Some(t) => Take(c, r, Register(t)).(origin := r.origin + [origin])
    case None => r
  }

  function Handle(c: Config, pre: PreCheck, r: Reactor, e: Event): Reactor
    requires Ready(c, pre, r, e)
  {
    match e
    case Submit(b) => r.(submitted := r.submitted + [b])
    case Prepare(i) => r.(prepared := r.prepared + {i})
    case React => Admit(c, r, pre(r.submitted[r.taken]), Some(r.taken)).(taken := r.taken + 1)
    case CheckSync(b) => Admit(c, r, pre(b), None)
    case Inner(step) => Take(c, r, step)
  }

  function RunEvents(c: Config, pre: PreCheck, init: map<Account, Value>, es: seq<Event>, n: nat): Option<Reactor>
    requires n <= |es|
  {
    if n == 0 then Some(Reactor(Init(init), [], {}, 0, [], []))
    else
      match RunEvents(c, pre, init, es, n - 1)
      case Some(r) => if Ready(c, pre, r, es[n - 1]) then Some(Handle(c, pre, r, es[n - 1])) else None
      case None => None
  }

  /** The registered requests are the taken ones that decode, once each and in order. */
  ghost predicate OriginsOk(pre: PreCheck, submitted: seq<string>, taken: nat, origin: seq<Option<nat>>) {
    && taken <= |submitted|
    && (forall p :: 0 <= p < |origin| && origin[p].Some? ==> origin[p].value < taken)
    && (forall p, q :: 0 <= p < q < |origin| && origin[p].Some? && origin[q].Some? ==> origin[p].value < origin[q].value)
    && (forall i :: 0 <= i < taken && pre(submitted[i]).Some? ==> Some(i) in origin)
  }

  ghost predicate Ok(c: Config, pre: PreCheck, init: map<Account, Value>, r: Reactor) {
    && Run(c, init, r.trace, |r.trace|) == Some(r.sched)
    && OriginsOk(pre, r.submitted, r.taken, r.origin)
    && |r.origin| == |r.sched.checks|
    && (forall i :: 0 <= i < r.taken ==> i in r.prepared)
    && (forall i :: i in r.prepared ==> i < |r.submitted|)
    && (forall p :: 0 <= p < |r.origin| && r.origin[p].Some? ==>
          pre(r.submitted[r.origin[p].value]) == Some(r.sched.checks[p].tx))
  }

  /** A step registers its transaction or none, and leaves those registered before. */
  lemma TxsAfter(c: Config, s: State, step: Step)
    requires Enabled(c, s, step)
    ensures var s' := Apply(c, s, step);
            && |s'.checks| == |s.checks| + (if step.Register? then 1 else 0)
            && (forall p :: 0 <= p < |s.checks| ==> s'.checks[p].tx == s.checks[p].tx)
            && (step.Register? ==> s'.checks[|s.checks|].tx == step.tx)
  {
    hide TxSigners, Enter, Holders, Fresh, Leave, Put;
  }

  lemma TakeOk(c: Config, init: map<Account, Value>, r: Reactor, step: Step)
    requires Run(c, init, r.trace, |r.trace|) == Some(r.sched) && Enabled(c, r.sched, step)
    ensures var r' := Take(c, r, step); Run(c, init, r'.trace, |r'.trace|) == Some(r'.sched)
    ensures var r' := Take(c, r, step);
            && |r'.sched.checks| == |r.sched.checks| + (if step.Register? then 1 else 0)
            && (forall p :: 0 <= p < |r.sched.checks| ==> r'.sched.checks[p].tx == r.sched.checks[p].tx)
            && (step.Register? ==> r'.sched.checks[|r.sched.checks|].tx == step.tx)
  {
    hide Run, Enabled, Apply;
    RunNext(c, init, r.trace, step);
    TxsAfter(c, r.sched, step);
  }

  lemma OriginsNext(pre: PreCheck, submitted: seq<string>, taken: nat, origin: seq<Option<nat>>)
    requires OriginsOk(pre, submitted, taken, origin)
    ensures OriginsOk(pre, submitted, taken, origin + [None])
    ensures taken < |submitted| ==> OriginsOk(pre, submitted, taken + 1, origin + [Some(taken)])
  {
    assert forall i :: Some(i) in origin ==> Some(i) in origin + [None] && Some(i) in origin + [Some(taken)];
    assert (origin + [Some(taken)])[|origin|] == Some(taken);
  }

  /** The reactor consumes the oldest request and registers it unless it failed to decode;
      a synchronous request registers without touching the channel. */
  lemma AdmitKeepsOk(c: Config, pre: PreCheck, init: map<Account, Value>, r: Reactor, e: Event)
    requires Ok(c, pre, init, r) && Ready(c, pre, r, e) && (e.React? || e.CheckSync?)
    ensures Ok(c, pre, init, Handle(c, pre, r, e))
  {
    hide Run, Enabled, Apply;
    var tx := pre(if e.React? then r.submitted[r.taken] else e.txBytes);
    if tx.Some? {
      TakeOk(c, init, r, Register(tx.value));
      OriginsNext(pre, r.submitted, r.taken, r.origin);
    }
  }

  lemma EventKeepsOk(c: Config, pre: PreCheck, init: map<Account, Value>, r: Reactor, e: Event)
    requires Ok(c, pre, init, r) && Ready(c, pre, r, e)
    ensures Ok(c, pre, init, Handle(c, pre, r, e))
  {
    hide Run, Enabled, Apply;
    match e
    case React => AdmitKeepsOk(c, pre, init, r, e);
    case CheckSync(_) => AdmitKeepsOk(c, pre, init, r, e);
    case Inner(step) => TakeOk(c, init, r, step);
    case _ =>
  }

  lemma {:induction false} EventsKeepOk(c: Config, pre: PreCheck, init: map<Account, Value>, es: seq<Event>, n: nat)
    requires n <= |es| && RunEvents(c, pre, init, es, n).Some?
    ensures Ok(c, pre, init, RunEvents(c, pre, init, es, n).value)
  {
    if n > 0 {
      EventsKeepOk(c, pre, init, es, n - 1);
      EventKeepsOk(c, pre, init, RunEvents(c, pre, init, es, n - 1).value, es[n - 1]);
    }
  }

  /** Asynchronous requests are registered in channel order, whatever the order in which
      they were decoded: the registered ones are exactly the taken ones that decode, each
      once, and a later registration never comes from an earlier request.  None is taken
      before its preparation is done. */
  lemma ChannelOrder(c: Config, pre: PreCheck, init: map<Account, Value>, es: seq<Event>)
    requires RunEvents(c, pre, init, es, |es|).Some?
    ensures var r := RunEvents(c, pre, init, es, |es|).value;
            && |r.origin| == |r.sched.checks| && r.taken <= |r.submitted|
            && (forall i :: 0 <= i < r.taken ==> i in r.prepared) && (forall i :: i in r.prepared ==> i < |r.submitted|)
            && (forall p :: 0 <= p < |r.origin| && r.origin[p].Some? ==>
                  r.origin[p].value < r.taken && pre(r.submitted[r.origin[p].value]) == Some(r.sched.checks[p].tx))
            && (forall i :: 0 <= i < r.taken && pre(r.submitted[i]).Some? ==> Some(i) in r.origin)
            && (forall p, q :: 0 <= p < q < |r.origin| && r.origin[p].Some? && r.origin[q].Some? ==>
                  r.origin[p].value < r.origin[q].value)
  {
    EventsKeepOk(c, pre, init, es, |es|);
  }

  /** Two asynchronous requests that share a signer pass through checkTx in the order in
      which they were sent, and never together. */
  lemma SharedSignersKeepChannelOrder(c: Config, pre: PreCheck, init: map<Account, Value>, es: seq<Event>,
                                      q: nat, p: nat, a: Account)
    requires Local(c) && RunEvents(c, pre, init, es, |es|).Some?
    requires var r := RunEvents(c, pre, init, es, |es|).value;
             && q < |r.origin| && p < |r.origin| && r.origin[q].Some? && r.origin[p].Some?
             && r.origin[q].value < r.origin[p].value
             && Holds(r.sched, q, a) && Holds(r.sched, p, a)
    ensures var s := RunEvents(c, pre, init, es, |es|).value.sched;
            !s.checks[p].phase.Waiting? ==> s.checks[q].phase.Releasing? || s.checks[q].phase.Finished?
  {
    EventsKeepOk(c, pre, init, es, |es|);
    var r := RunEvents(c, pre, init, es, |es|).value;
    SignersExclude(c, init, r.trace, q, p, a);
  }

  /** The answers of a run with asynchronous and synchronous requests are those of the
      reference run over the registered transactions. */
  lemma RequestsSerialisable(c: Config, pre: PreCheck, init: map<Account, Value>, es: seq<Event>)
    requires Local(c) && RunEvents(c, pre, init, es, |es|).Some?
    ensures var s := RunEvents(c, pre, init, es, |es|).value.sched;
            && (forall p :: 0 <= p < |s.checks| && s.checks[p].phase.Finished? ==>
                  s.checks[p].phase.response == SerialOutcome(c, init, s.checks, p).response)
            && (AllFinished(s) ==> s.store == Serial(c, init, s.checks, |s.checks|) && s.wgs == map[])
  {
    EventsKeepOk(c, pre, init, es, |es|);
    var r := RunEvents(c, pre, init, es, |es|).value;
    Serialisable(c, init, r.trace);
    if AllFinished(r.sched) { MapEmpties(c, init, r.trace); }
  }

  lemma {:induction false} EventsPrefix(c: Config, pre: PreCheck, init: map<Account, Value>, es: seq<Event>, e: Event, n: nat)
    requires n <= |es|
    ensures RunEvents(c, pre, init, es + [e], n) == RunEvents(c, pre, init, es, n)
  {
    hide Ready, Handle;
    if n > 0 { EventsPrefix(c, pre, init, es, e, n - 1); }
  }

  lemma EventsNext(c: Config, pre: PreCheck, init: map<Account, Value>, es: seq<Event>, e: Event)
    requires RunEvents(c, pre, init, es, |es|).Some? && Ready(c, pre, RunEvents(c, pre, init, es, |es|).value, e)
    ensures RunEvents(c, pre, init, es + [e], |es| + 1) == Some(Handle(c, pre, RunEvents(c, pre, init, es, |es|).value, e))
  {
    hide Ready, Handle;
    EventsPrefix(c, pre, init, es, e, |es|);
    assert (es + [e])[|es|] == e;
  }

  /** With all checks finished nobody holds the mutex, so the next request can register. */
  lemma MutexIsFree(c: Config, init: map<Account, Value>, trace: seq<Step>, tx: Tx)
    requires Local(c) && Run(c, init, trace, |trace|).Some? && AllFinished(Run(c, init, trace, |trace|).value)
    ensures Enabled(c, Run(c, init, trace, |trace|).value, Register(tx))
  {
    RunInvariant(c, init, trace, |trace|);
  }

  /** What remains to be done: requests to take, steps of checks, and a preparation. */
  ghost predicate Done(r: Reactor) {
    r.taken == |r.submitted| && AllFinished(r.sched)
  }

  /** The next thing to do: let a check step, prepare the oldest request, or take it. */
  lemma NextEvent(c: Config, pre: PreCheck, init: map<Account, Value>, r: Reactor) returns (e: Event)
    requires Local(c) && Ok(c, pre, init, r) && !Done(r)
    ensures !e.Submit? && !e.CheckSync? && Ready(c, pre, r, e)
    ensures e.Inner? <==> !AllFinished(r.sched)
    ensures e.Prepare? ==> e.request == r.taken
    ensures e.React? ==> r.taken in r.prepared
  {
    hide Run, Enabled, Apply;
    if !AllFinished(r.sched) {
      var step := Progress(c, init, r.trace);
      e := Inner(step);
    } else if r.taken !in r.prepared {
      e := Prepare(r.taken);
    } else {
      var tx := pre(r.submitted[r.taken]);
      if tx.Some? { MutexIsFree(c, init, r.trace, tx.value); }
      e := React;
    }
  }

  lemma RankFalls(c: Config, pre: PreCheck, init: map<Account, Value>, r: Reactor, e: Event)
    requires Local(c) && Ok(c, pre, init, r) && e.Inner? && Ready(c, pre, r, e) && Ok(c, pre, init, Handle(c, pre, r, e))
    ensures 0 <= RankOf(c, init, Handle(c, pre, r, e).trace) < RankOf(c, init, r.trace)
  {
    hide Run, Enabled, Apply, Rank;
    RankOfNext(c, init, r.trace, e.step);
  }

  /** Every run can be completed, without further requests, to one in which every request has
      been prepared and taken from the channel and every check has answered. */
  lemma {:induction false} EveryRequestIsAnswered(c: Config, pre: PreCheck, init: map<Account, Value>, es: seq<Event>, r: Reactor)
    returns (all: seq<Event>)
    requires Local(c) && RunEvents(c, pre, init, es, |es|) == Some(r) && Ok(c, pre, init, r)
    ensures es <= all && (forall i :: |es| <= i < |all| ==> !all[i].Submit? && !all[i].CheckSync?)
    ensures RunEvents(c, pre, init, all, |all|).Some?
    ensures var r' := RunEvents(c, pre, init, all, |all|).value; Done(r') && r'.submitted == r.submitted
    decreases |r.submitted| - r.taken, RankOf(c, init, r.trace), if r.taken in r.prepared then 0 else 1
  {
    hide Run, Enabled, Apply, Rank, RunEvents;
    if Done(r) {
      all := es;
    } else {
      var e := NextEvent(c, pre, init, r);
      var r' := Handle(c, pre, r, e);
      EventKeepsOk(c, pre, init, r, e);
      EventsNext(c, pre, init, es, e);
      if e.Inner? { RankFalls(c, pre, init, r, e); }
      all := EveryRequestIsAnswered(c, pre, init, es + [e], r');
    }
  }

  /** So from the start every request that is ever sent can be answered. */
  lemma RequestsCanFinish(c: Config, pre: PreCheck, init: map<Account, Value>, es: seq<Event>) returns (all: seq<Event>)
    requires Local(c) && RunEvents(c, pre, init, es, |es|).Some?
    ensures es <= all && (forall i :: |es| <= i < |all| ==> !all[i].Submit? && !all[i].CheckSync?)
    ensures RunEvents(c, pre, init, all, |all|).Some? && Done(RunEvents(c, pre, init, all, |all|).value)
    ensures RunEvents(c, pre, init, all, |all|).value.submitted == RunEvents(c, pre, init, es, |es|).value.submitted
  {
    hide Run, Ok, RunEvents;
    EventsKeepOk(c, pre, init, es, |es|);
    all := EveryRequestIsAnswered(c, pre, init, es, RunEvents(c, pre, init, es, |es|).value);
  }
}
