/** The ABCI block machine and runTx (baseapp/baseapp.go, baseapp/abci.go).

    Ante and message handlers, the block hooks and the transaction decoder are arbitrary
    functions.  A handler sees the store through its branch and the gas meter of its
    context, and answers with the writes it made, the meter it left behind and whether it
    returned, failed or panicked; it does not touch the block gas meter. */
module BaseApp {
  import opened Wrappers
  import opened MultiStore
  import opened GasMeter
  import opened Recovery
  import opened GenesisValidators

  datatype Key = Key(name: string)
  datatype Value = Value(bytes: string)
  datatype Msg = Msg(body: string)
  datatype Tx = Tx(body: string, msgs: seq<Msg>)

  type Store = map<Key, Value>
  type Writes = Branch<Key, Value>

  datatype Outcome = Ok | Err(error: string) | Panicked(panic: Panic)

  /** The context an ante handler returns: the zero context, one with the gas meter it was
      given, or one with a meter of its own. */
  datatype NewContext = ZeroContext | SameMeter | OwnMeter(meter: Meter)

  datatype AnteResult = AnteResult(writes: Writes, shared: Meter, context: NewContext, outcome: Outcome)
  datatype MsgResult = MsgResult(writes: Writes, meter: Meter, outcome: Outcome, data: string)
  datatype HookResult = Done(writes: Writes, meter: Meter) | Crash
  datatype InitResult = InitResult(hook: HookResult, validators: Validators)

  datatype Env = Env(
    decode: string -> Option<Tx>,
    validateBasic: Msg -> Outcome,
    ante: Option<(Tx, Store, Meter, bool) -> AnteResult>,
    routed: Msg -> bool,
    handle: (Msg, Store, Meter) -> MsgResult,
    hasParams: bool,
    maxBlockGas: Store -> Option<int>,
    initChainer: Option<(Validators, Store, Meter) -> InitResult>,
    beginBlocker: Option<(int, Store, Meter) -> HookResult>,
    endBlocker: Option<(Store, Meter) -> HookResult>,
    sort: Validators -> Validators)

  const BLOCK_GAS := "block gas meter"

  // ----- the parts of running one transaction

  /** validateBasicTxMsgs over the first `n` messages */
  function Validate(env: Env, msgs: seq<Msg>, n: nat): Outcome
    requires n <= |msgs|
  {
    if |msgs| == 0 then Err("must contain at least one message")
    else if n == 0 then Ok
    else
      var before := Validate(env, msgs, n - 1);
      if before == Ok then env.validateBasic(msgs[n - 1]) else before
  }

  function RunAnte(env: Env, tx: Tx, store: Store, meter: Meter, simulate: bool): AnteResult {
    match env.ante
    case None => AnteResult(map[], meter, SameMeter, Ok)
    case Some(f) => f(tx, store, meter, simulate)
  }

  /** A transaction's meters: the one of the state's context, which all transactions share,
      and its own one if the ante handler set it up. */
  datatype Meters = Meters(shared: Meter, own: Option<Meter>)

  function TxMeter(m: Meters): Meter {
    if m.own.Some? then m.own.value else m.shared
  }

  function SetTxMeter(m: Meters, meter: Meter): Meters {
    if m.own.Some? then m.(own := Some(meter)) else m.(shared := meter)
  }

  function AnteMeters(a: AnteResult): Meters {
    Meters(a.shared, if !a.outcome.Panicked? && a.context.OwnMeter? then Some(a.context.meter) else None)
  }

  datatype Progress = Progress(writes: Writes, meter: Meter, outcome: Outcome, data: seq<string>)

  /** runMsgs over the first `n` messages: each sees what the earlier ones wrote, and the
      first one that fails, panics or has no handler ends the run. */
  function RunMsgs(env: Env, msgs: seq<Msg>, n: nat, store: Store, meter: Meter): Progress
    requires n <= |msgs|
  {
    if n == 0 then Progress(map[], meter, Ok, [])
    else
      var p := RunMsgs(env, msgs, n - 1, store, meter);
      if p.outcome != Ok then p
      else if !env.routed(msgs[n - 1]) then p.(outcome := Err("unrecognized message route"))
      else
        var r := env.handle(msgs[n - 1], View(store, p.writes), p.meter);
        Progress(p.writes + r.writes, r.meter, r.outcome, if r.outcome == Ok then p.data + [r.data] else p.data)
  }

  // ----- what the messages do one after the other, without branches

  datatype Point = Point(store: Store, meter: Meter)

  /** Where the first `i` messages leave off, each starting where the one before left off. */
  function After(env: Env, msgs: seq<Msg>, i: nat, start: Point): Point
    requires i <= |msgs|
  {
    if i == 0 then start
    else
      var q := After(env, msgs, i - 1, start);
      var r := env.handle(msgs[i - 1], q.store, q.meter);
      Point(View(q.store, r.writes), r.meter)
  }

  /** What message `i` answers there. */
  function ResultAt(env: Env, msgs: seq<Msg>, i: nat, start: Point): MsgResult
    requires i < |msgs|
  {
    var q := After(env, msgs, i, start);
    env.handle(msgs[i], q.store, q.meter)
  }

  predicate PassesAt(env: Env, msgs: seq<Msg>, i: nat, start: Point)
    requires i < |msgs|
  {
    env.routed(msgs[i]) && ResultAt(env, msgs, i, start).outcome == Ok
  }

  ghost predicate AllPass(env: Env, msgs: seq<Msg>, n: nat, start: Point)
    requires n <= |msgs|
  {
    forall i :: 0 <= i < n ==> PassesAt(env, msgs, i, start)
  }

  ghost predicate FirstFailure(env: Env, msgs: seq<Msg>, i: nat, start: Point) {
    i < |msgs| && AllPass(env, msgs, i, start) && !PassesAt(env, msgs, i, start)
  }

  function DataOf(env: Env, msgs: seq<Msg>, n: nat, start: Point): seq<string>
    requires n <= |msgs|
  {
    seq(n, i requires 0 <= i < n => ResultAt(env, msgs, i, start).data)
  }

  /** All messages passed, and this is what they did together. */
  ghost predicate Passed(env: Env, msgs: seq<Msg>, n: nat, start: Point, p: Progress)
    requires n <= |msgs|
  {
    p.outcome == Ok && Point(View(start.store, p.writes), p.meter) == After(env, msgs, n, start) && p.data == DataOf(env, msgs, n, start)
  }

  /** Message `i` ended the run, as one without a handler or with what it answered. */
  ghost predicate Ended(env: Env, msgs: seq<Msg>, i: nat, start: Point, p: Progress)
    requires i < |msgs|
  {
    && p.data == DataOf(env, msgs, i, start)
    && var q := Point(View(start.store, p.writes), p.meter);
       if env.routed(msgs[i]) then
         p.outcome == ResultAt(env, msgs, i, start).outcome && q == After(env, msgs, i + 1, start)
       else
         p.outcome == Err("unrecognized message route") && q == After(env, msgs, i, start)
  }

  lemma {:induction false} RunMsgsPassed(env: Env, msgs: seq<Msg>, n: nat, start: Point)
    requires n <= |msgs| && AllPass(env, msgs, n, start)
    ensures Passed(env, msgs, n, start, RunMsgs(env, msgs, n, start.store, start.meter))
  {
    hide View;
    if n == 0 {
      EmptyBranch(start.store);
    } else {
      RunMsgsPassed(env, msgs, n - 1, start);
      var p := RunMsgs(env, msgs, n - 1, start.store, start.meter);
      assert PassesAt(env, msgs, n - 1, start);
      WriteBack(start.store, p.writes, ResultAt(env, msgs, n - 1, start).writes);
    }
  }

  /** The branch of runMsgs holds what the messages do one after the other: all of it if they
      all pass, and otherwise what happened up to the first that does not. */
  lemma RunMsgsInSequence(env: Env, msgs: seq<Msg>, start: Point)
    ensures var p := RunMsgs(env, msgs, |msgs|, start.store, start.meter);
            && (AllPass(env, msgs, |msgs|, start) ==> Passed(env, msgs, |msgs|, start, p))
            && (forall i: nat :: FirstFailure(env, msgs, i, start) ==> Ended(env, msgs, i, start, p))
  {
    hide View, Ended;
    if AllPass(env, msgs, |msgs|, start) { RunMsgsPassed(env, msgs, |msgs|, start); }
    forall i: nat | FirstFailure(env, msgs, i, start)
      ensures Ended(env, msgs, i, start, RunMsgs(env, msgs, |msgs|, start.store, start.meter))
    {
      RunMsgsEnded(env, msgs, i, start);
      RunMsgsStops(env, msgs, i + 1, |msgs|, start.store, start.meter);
    }
  }

  lemma RunMsgsEnded(env: Env, msgs: seq<Msg>, i: nat, start: Point)
    requires FirstFailure(env, msgs, i, start)
    ensures var p := RunMsgs(env, msgs, i + 1, start.store, start.meter); p.outcome != Ok && Ended(env, msgs, i, start, p)
  {
    hide View;
    RunMsgsPassed(env, msgs, i, start);
    var p := RunMsgs(env, msgs, i, start.store, start.meter);
    WriteBack(start.store, p.writes, ResultAt(env, msgs, i, start).writes);
  }

  // ----- the reference: what one transaction contributes, without branches or defers

  /** `outcome` is that of the first part that did not pass. */
  datatype TxRun = TxRun(anteOk: bool, anteWrites: Writes, msgWrites: Writes, meters: Meters, outcome: Outcome, data: seq<string>)

  /** The handlers a transaction reaches and the gas meters it leaves. */
  function Handlers(env: Env, tx: Tx, store: Store, shared: Meter, simulate: bool): TxRun {
    var valid := Validate(env, tx.msgs, |tx.msgs|);
    if valid != Ok then TxRun(false, map[], map[], Meters(shared, None), valid, [])
    else
      var a := RunAnte(env, tx, store, shared, simulate);
      var meters := AnteMeters(a);
      if a.outcome != Ok then TxRun(false, map[], map[], meters, a.outcome, [])
      else
        var p := RunMsgs(env, tx.msgs, |tx.msgs|, View(store, a.writes), TxMeter(meters));
        TxRun(true, a.writes, p.writes, SetTxMeter(meters, p.meter), p.outcome, p.data)
  }

  /** The state of a block: its store, the gas meter of its context, its block gas meter
      and its height. */
  datatype Working = Working(store: Store, shared: Meter, blockMeter: Option<Meter>, height: int)

  /** The gas the block is charged for a transaction. */
  function Charge(env: Env, w: Working, tx: Tx): Gas {
    ConsumedToLimit(TxMeter(Handlers(env, tx, w.store, w.shared, false).meters))
  }

  predicate Admitted(w: Working) {
    w.blockMeter.Some? && !IsOutOfGas(w.blockMeter.value)
  }

  /** The charge fits, so ConsumeGas does not panic. */
  predicate Fits(env: Env, w: Working, tx: Tx)
    requires w.blockMeter.Some?
  {
    Consume(w.blockMeter.value, Charge(env, w, tx), BLOCK_GAS).1.None?
  }

  /** A delivered transaction that finds block gas left contributes nothing if its ante
      handler does not pass, only its ante writes if its messages do not pass or the block
      gas runs out, and both otherwise; the block is charged in every case. */
  function Deliver(env: Env, w: Working, tx: Tx): Working
    requires w.blockMeter.Some?
  {
    if !Admitted(w) then w
    else
      var h := Handlers(env, tx, w.store, w.shared, false);
      var afterAnte := if h.anteOk then View(w.store, h.anteWrites) else w.store;
      var final := if h.outcome == Ok && Fits(env, w, tx) then View(afterAnte, h.msgWrites) else afterAnte;
      w.(store := final, shared := h.meters.shared,
         blockMeter := Some(Consume(w.blockMeter.value, Charge(env, w, tx), BLOCK_GAS).0))
  }

  // ----- runTx

  /** The recovery chain turns every panic into an error. */
  ghost predicate Answers(mw: Middleware) {
    forall p :: ProcessRecovery(p, mw).Some?
  }

  datatype RunResult = RunResult(gasWanted: Gas, gasUsed: Gas, data: Option<seq<string>>, err: Option<string>)

  /** The error runTx makes of what its parts did. */
  function Recovered(mw: Middleware, o: Outcome): (r: Option<string>)
    requires Answers(mw)
    ensures r.None? <==> o == Ok
    ensures o.Panicked? ==> r == if o.panic.OutOfGas? then Some(ERR_OUT_OF_GAS) else ProcessRecovery(o.panic, mw)
  {
    match o
    case Ok => None
    case Err(e) => Some(e)
    case Panicked(p) =>
      assert ProcessRecovery(p, mw).Some?;
      ProcessRecovery(p, OutOfGasMiddleware(mw))
  }

  /** The gas of a transaction is read off its meter, and an infinite one has limit zero. */
  predicate Reports(r: RunResult, m: Meter) {
    r.gasUsed == m.consumed && r.gasWanted == if m.Basic? then m.limit else 0
  }

  /** The answer to a transaction whose deferred charge panicked or, with None, did not. */
  function TxAnswer(mw: Middleware, h: TxRun, thrown: Option<Panic>): (r: RunResult)
    requires Answers(mw)
    ensures r.err.None? <==> thrown.None? && h.outcome == Ok
    ensures r.data == if r.err.None? then Some(h.data) else None
    ensures Reports(r, TxMeter(h.meters))
  {
    var o := if thrown.Some? then Panicked(thrown.value) else h.outcome;
    RunResult(Limit(TxMeter(h.meters)), TxMeter(h.meters).consumed, if o == Ok then Some(h.data) else None, Recovered(mw, o))
  }

  /** The answer to a delivered transaction. */
  function DeliverAnswer(env: Env, mw: Middleware, w: Working, tx: Tx): (r: RunResult)
    requires w.blockMeter.Some? && Answers(mw)
    ensures var h := Handlers(env, tx, w.store, w.shared, false);
            && (r.err.None? <==> Admitted(w) && h.outcome == Ok && Fits(env, w, tx))
            && (r.data == if r.err.None? then Some(h.data) else None)
            && (Admitted(w) ==> Reports(r, TxMeter(h.meters)))
  {
    if !Admitted(w) then RunResult(0, 0, None, Some("no block gas left to run tx"))
    else
      TxAnswer(mw, Handlers(env, tx, w.store, w.shared, false), Consume(w.blockMeter.value, Charge(env, w, tx), BLOCK_GAS).1)
  }

  ghost predicate ValidMsgs(env: Env, msgs: seq<Msg>) {
    |msgs| > 0 && forall i :: 0 <= i < |msgs| ==> env.validateBasic(msgs[i]) == Ok
  }

  /** Validation passes exactly when there is a message and all of them are valid; otherwise
      the first invalid one decides. */
  lemma ValidateExactly(env: Env, msgs: seq<Msg>)
    ensures Validate(env, msgs, |msgs|) == Ok <==> ValidMsgs(env, msgs)
    ensures msgs == [] ==> Validate(env, msgs, 0).Err?
    ensures forall i :: 0 <= i < |msgs| && env.validateBasic(msgs[i]) != Ok && ValidMsgsTo(env, msgs, i) ==>
              Validate(env, msgs, |msgs|) == env.validateBasic(msgs[i])
  {
    if |msgs| > 0 { ValidatePrefix(env, msgs, |msgs|); }
    forall i | 0 <= i < |msgs| && env.validateBasic(msgs[i]) != Ok && ValidMsgsTo(env, msgs, i)
      ensures Validate(env, msgs, |msgs|) == env.validateBasic(msgs[i])
    {
      ValidatePrefix(env, msgs, i);
      ValidateStops(env, msgs, i + 1, |msgs|);
    }
  }

  ghost predicate ValidMsgsTo(env: Env, msgs: seq<Msg>, n: nat)
    requires n <= |msgs|
  {
    forall i :: 0 <= i < n ==> env.validateBasic(msgs[i]) == Ok
  }

  lemma {:induction false} ValidatePrefix(env: Env, msgs: seq<Msg>, n: nat)
    requires 0 < |msgs| && n <= |msgs|
    ensures Validate(env, msgs, n) == Ok <==> ValidMsgsTo(env, msgs, n)
  {
    if n > 0 { ValidatePrefix(env, msgs, n - 1); }
  }

  method ValidateBasicTxMsgs(env: Env, msgs: seq<Msg>) returns (o: Outcome)
    ensures o == Validate(env, msgs, |msgs|)
    ensures o == Ok <==> ValidMsgs(env, msgs)
    ensures forall i :: 0 <= i < |msgs| && env.validateBasic(msgs[i]) != Ok && ValidMsgsTo(env, msgs, i) ==>
              o == env.validateBasic(msgs[i])
  {
    ValidateExactly(env, msgs);
    if |msgs| == 0 { return Err("must contain at least one message"); }
    for i := 0 to |msgs|
      invariant Validate(env, msgs, i) == Ok
    {
      o := env.validateBasic(msgs[i]);
      if o != Ok {
        ValidateStops(env, msgs, i + 1, |msgs|);
        return o;
      }
    }
    o := Ok;
  }

  lemma {:induction false} ValidateStops(env: Env, msgs: seq<Msg>, i: nat, n: nat)
    requires i <= n <= |msgs| && Validate(env, msgs, i) != Ok
    ensures Validate(env, msgs, n) == Validate(env, msgs, i)
    decreases n
  {
    if i < n { ValidateStops(env, msgs, i, n - 1); }
  }

  method ExecMsgs(env: Env, msgs: seq<Msg>, store: Store, meter: Meter) returns (p: Progress)
    ensures p == RunMsgs(env, msgs, |msgs|, store, meter)
    ensures AllPass(env, msgs, |msgs|, Point(store, meter)) ==> Passed(env, msgs, |msgs|, Point(store, meter), p)
    ensures forall i: nat :: FirstFailure(env, msgs, i, Point(store, meter)) ==> Ended(env, msgs, i, Point(store, meter), p)
  {
    hide AllPass, Passed, FirstFailure, Ended;
    RunMsgsInSequence(env, msgs, Point(store, meter));
    p := Progress(map[], meter, Ok, []);
    for i := 0 to |msgs|
      invariant p == RunMsgs(env, msgs, i, store, meter) && p.outcome == Ok
    {
      if !env.routed(msgs[i]) {
        p := p.(outcome := Err("unrecognized message route"));
      } else {
        var r := env.handle(msgs[i], View(store, p.writes), p.meter);
        p := Progress(p.writes + r.writes, r.meter, r.outcome, if r.outcome == Ok then p.data + [r.data] else p.data);
      }
      if p.outcome != Ok {
        RunMsgsStops(env, msgs, i + 1, |msgs|, store, meter);
        return;
      }
    }
  }

  lemma {:induction false} RunMsgsStops(env: Env, msgs: seq<Msg>, i: nat, n: nat, store: Store, meter: Meter)
    requires i <= n <= |msgs| && RunMsgs(env, msgs, i, store, meter).outcome != Ok
    ensures RunMsgs(env, msgs, n, store, meter) == RunMsgs(env, msgs, i, store, meter)
    decreases n
  {
    if i < n { RunMsgsStops(env, msgs, i, n - 1, store, meter); }
  }

  /** runTx over the branch `state` of `base`, with its two deferred functions.  A deferred
      charge that panics replaces whatever error or panic came before it. */
  method ExecTx(env: Env, mw: Middleware, tx: Tx, simulate: bool,
                base: Store, state: Writes, shared: Meter, blockMeter: Option<Meter>)
    returns (state': Writes, shared': Meter, blockMeter': Option<Meter>, res: RunResult)
    requires simulate || blockMeter.Some?
    requires Answers(mw)
    ensures simulate ==>
              var h := Handlers(env, tx, View(base, state), shared, true);
              && blockMeter' == blockMeter && shared' == h.meters.shared
              && res == TxAnswer(mw, h, None)
    ensures !simulate ==>
              var w := Working(View(base, state), shared, blockMeter, 0);
              && Working(View(base, state'), shared', blockMeter', 0) == Deliver(env, w, tx)
              && res == DeliverAnswer(env, mw, w, tx)
  {
    hide View, Consume;
    state', shared', blockMeter' := state, shared, blockMeter;
    if !simulate && IsOutOfGas(blockMeter.value) {
      return state', shared', blockMeter', RunResult(0, 0, None, Some("no block gas left to run tx"));
    }
    var meters := Meters(shared, None);
    var err: Option<string>, data: Option<seq<string>>, panic: Option<Panic> := None, None, None;
    var blockGasConsumed := false;

    var valid := ValidateBasicTxMsgs(env, tx.msgs);
    if valid.Err? {
      err := Some(valid.error);
    } else if valid.Panicked? {
      panic := Some(valid.panic);
    } else {
      // anteTx: the handler runs in a branch that is written back only if it passes
      var a := RunAnte(env, tx, View(base, state'), meters.shared, simulate);
      meters := AnteMeters(a);
      if a.outcome.Panicked? {
        panic := Some(a.outcome.panic);
      } else if a.outcome.Err? {
        err := Some(a.outcome.error);
      } else {
        WriteBack(base, state', a.writes);
        state' := state' + a.writes;
        // the messages run in a branch of the branch
        var p := ExecMsgs(env, tx.msgs, View(base, state'), TxMeter(meters));
        meters := SetTxMeter(meters, p.meter);
        if p.outcome.Panicked? {
          panic := Some(p.outcome.panic);
        } else if p.outcome.Err? {
          err := Some(p.outcome.error);
        } else {
          data := Some(p.data);
          if !simulate {
            blockGasConsumed := true;
            var (m, thrown) := Consume(blockMeter'.value, ConsumedToLimit(TxMeter(meters)), BLOCK_GAS);
            blockMeter' := Some(m);
            panic := thrown;
            if panic.None? {
              WriteBack(base, state', p.writes);
              state' := state' + p.writes;
            }
          }
        }
      }
    }
    if !simulate && !blockGasConsumed {
      blockGasConsumed := true;
      var (m, thrown) := Consume(blockMeter'.value, ConsumedToLimit(TxMeter(meters)), BLOCK_GAS);
      blockMeter' := Some(m);
      if thrown.Some? { panic := thrown; }
    }
    if panic.Some? {
      assert ProcessRecovery(panic.value, mw).Some?;
      err, data := ProcessRecovery(panic.value, OutOfGasMiddleware(mw)), None;
    }
    shared' := meters.shared;
    res := RunResult(Limit(TxMeter(meters)), TxMeter(meters).consumed, data, err);
  }

  // ----- the reference block machine: one store, no branches, no check state

  /** `working` is the block in progress; `lastHeight` the version of the committed store. */
  datatype Chain = Chain(committed: Store, lastHeight: int, initialHeight: int, working: Option<Working>)

  datatype Call =
    | InitChain(initialHeight: int, params: Option<Writes>, validators: Validators)
    | BeginBlock(height: int)
    | DeliverTx(txBytes: string)
    | EndBlock
    | Commit
    | CheckTx(txBytes: string)
    | Simulate(tx: Tx)
    | BeginRecheckTx

  predicate IsDeliverCall(c: Call) {
    !c.CheckTx? && !c.Simulate? && !c.BeginRecheckTx?
  }

  function ExpectedHeight(lastHeight: int, initialHeight: int): int {
    if lastHeight == 0 && initialHeight > 1 then initialHeight else lastHeight + 1
  }

  function Hook(w: Working, r: HookResult): Option<Working> {
    match r
    case Crash => None
    case Done(writes, meter) => Some(w.(store := View(w.store, writes), shared := meter))
  }

  /** The meter of a new block; None when the limit is invalid and BeginBlock panics. */
  function BlockMeter(env: Env, store: Store): Option<Meter> {
    match env.maxBlockGas(store)
    case None => Some(Infinite(0))
    case Some(g) =>
      if g < -1 || g > 0x7FFF_FFFF_FFFF_FFFF then None
      else if g <= 0 then Some(Infinite(0))
      else Some(Basic(g, 0))
  }

  function StartChain(env: Env, f: Chain, initialHeight: int, params: Option<Writes>, validators: Validators): Option<Chain> {
    var f1 := if initialHeight > 1 then f.(initialHeight := initialHeight) else f;
    var height := if initialHeight > 1 then initialHeight else 0;
    if params.Some? && !env.hasParams then None
    else
      var store := if params.Some? then View(f.committed, params.value) else f.committed;
      if env.initChainer.None? then Some(f1.(working := Some(Working(store, Infinite(0), None, height))))
      else
        var r := env.initChainer.value(validators, store, Infinite(0));
        var w := Hook(Working(store, Infinite(0), Some(Infinite(0)), height), r.hook);
        if w.None? || !Agree(env.sort, validators, r.validators) then None else Some(f1.(working := w))
  }

  function StartBlock(env: Env, f: Chain, height: int): Option<Chain> {
    if height < 1 || height != ExpectedHeight(f.lastHeight, f.initialHeight) then None
    else
      var w := if f.working.None? then Working(f.committed, Infinite(0), None, height) else f.working.value.(height := height);
      var meter := BlockMeter(env, w.store);
      if meter.None? then None
      else
        var w1 := w.(blockMeter := meter);
        var w2 := if env.beginBlocker.None? then Some(w1) else Hook(w1, env.beginBlocker.value(height, w1.store, w1.shared));
        if w2.None? then None else Some(f.(working := w2))
  }

  /** One consensus call; None when the node panics. */
  function Step(env: Env, f: Chain, c: Call): Option<Chain>
    requires IsDeliverCall(c)
  {
    match c
    case InitChain(h, params, validators) => StartChain(env, f, h, params, validators)
    case BeginBlock(h) => StartBlock(env, f, h)
    case DeliverTx(b) =>
      var tx := env.decode(b);
      if tx.None? then Some(f)
      else if f.working.None? || f.working.value.blockMeter.None? then None
      else Some(f.(working := Some(Deliver(env, f.working.value, tx.value))))
    case EndBlock =>
      if f.working.None? then None
      else if env.endBlocker.None? then Some(f)
      else
        var w := Hook(f.working.value, env.endBlocker.value(f.working.value.store, f.working.value.shared));
        if w.None? then None else Some(f.(working := w))
    case Commit =>
      if f.working.None? then None
      else Some(Chain(f.working.value.store, ExpectedHeight(f.lastHeight, f.initialHeight), f.initialHeight, None))
  }

  /** The consensus calls among the first `n`, in order. */
  function DeliverCalls(cs: seq<Call>, n: nat): (r: seq<Call>)
    requires n <= |cs|
    ensures forall i :: 0 <= i < |r| ==> IsDeliverCall(r[i])
  {
    if n == 0 then []
    else if IsDeliverCall(cs[n - 1]) then DeliverCalls(cs, n - 1) + [cs[n - 1]]
    else DeliverCalls(cs, n - 1)
  }

  function Fold(env: Env, f: Chain, cs: seq<Call>, n: nat): Option<Chain>
    requires n <= |cs| && forall i :: 0 <= i < |cs| ==> IsDeliverCall(cs[i])
  {
    if n == 0 then Some(f)
    else
      var before := Fold(env, f, cs, n - 1);
      if before.None? then None else Step(env, before.value, cs[n - 1])
  }

  lemma {:induction false} FoldPrefix(env: Env, f: Chain, cs: seq<Call>, c: Call, n: nat)
    requires n <= |cs| && (forall i :: 0 <= i < |cs| ==> IsDeliverCall(cs[i])) && IsDeliverCall(c)
    ensures Fold(env, f, cs + [c], n) == Fold(env, f, cs, n)
  {
    if n > 0 { FoldPrefix(env, f, cs, c, n - 1); }
  }

  /** A check that passes: the transaction decodes, its messages validate, and the ante
      handler accepts it. */
  ghost predicate PassesCheck(env: Env, txBytes: string, store: Store, meter: Meter) {
    var tx := env.decode(txBytes);
    && tx.Some? && ValidMsgs(env, tx.value.msgs)
    && RunAnte(env, tx.value, store, meter, false).outcome == Ok
  }

  /** The error of a handler, with panics answered by the default recovery. */
  function ErrorOf(o: Outcome): (r: Option<string>)
    ensures r.None? <==> o == Ok
    ensures (o.Err? ==> r == Some(o.error)) && (o.Panicked? ==> r == Some(ERR_PANIC))
  {
    match o
    case Ok => None
    case Err(e) => Some(e)
    case Panicked(p) => ProcessRecovery(p, DefaultMiddleware())
  }

  /** The response of DeliverTx, in which gas is a signed 64-bit integer. */
  datatype TxResponse = TxResponse(gasWanted: int, gasUsed: int, data: Option<seq<string>>, err: Option<string>)

  function AsInt64(g: Gas): (r: int)
    ensures -0x8000_0000_0000_0000 <= r < 0x8000_0000_0000_0000 && (g - r) % 0x1_0000_0000_0000_0000 == 0
  {
    if g <= 0x7FFF_FFFF_FFFF_FFFF then g else g - MAX_UINT64 - 1
  }

  function Respond(r: RunResult): (t: TxResponse)
    ensures (t.gasUsed - r.gasUsed) % 0x1_0000_0000_0000_0000 == (t.gasWanted - r.gasWanted) % 0x1_0000_0000_0000_0000 == 0
    ensures t.err == r.err && t.data == r.data
  {
    TxResponse(AsInt64(r.gasWanted), AsInt64(r.gasUsed), r.data, r.err)
  }

  // ----- the application: a committed store and branches of it

  /** A block gas meter is one object, whoever holds a reference to it. */
  class BlockGasMeter {
    var value: Meter

    constructor (value: Meter)
      ensures this.value == value
    {
      this.value := value;
    }
  }

  /** A branch of the committed store with its context's gas meter, a reference to the block
      gas meter and the header height. */
  datatype BranchState = BranchState(writes: Writes, meter: Meter, blockMeter: BlockGasMeter?, height: int)

  class App {
    const env: Env
    const middleware: Middleware
    var cms: Store
    var lastHeight: int
    var initialHeight: int
    var deliverState: Option<BranchState>
    var checkState: Option<BranchState>

    ghost predicate Valid()
    {
      Answers(middleware) && Sorts(env.sort)
    }

    ghost function CellOf(s: Option<BranchState>): set<BlockGasMeter> {
      if s.Some? && s.value.blockMeter != null then {s.value.blockMeter} else {}
    }

    /** The block gas meters the two states refer to, the same one while a block runs. */
    ghost function Cells(): set<BlockGasMeter>
      reads this
    {
      CellOf(deliverState) + CellOf(checkState)
    }

    /** The reference state: branches collapsed, check state forgotten. */
    ghost function Abstract(): Chain
      reads this, CellOf(deliverState)
    {
      Chain(cms, lastHeight, initialHeight,
            match deliverState
            case None => None
            case Some(s) =>
              Some(Working(View(cms, s.writes), s.meter, if s.blockMeter == null then None else Some(s.blockMeter.value), s.height)))
    }

    constructor (env: Env, handlers: seq<Handler>)
      requires Sorts(env.sort)
      ensures Valid() && this.env == env
      ensures Abstract() == Chain(map[], 0, 0, None) && checkState == None
    {
      this.env := env;
      cms, lastHeight, initialHeight := map[], 0, 0;
      deliverState, checkState := None, None;
      middleware := Recovery.Chain(handlers, |handlers|, DefaultMiddleware());
      new;
      forall p ensures ProcessRecovery(p, middleware).Some? {
        EveryPanicIsAnError(p, handlers, |handlers|);
      }
    }

    method SetDeliverState(height: int)
      modifies this`deliverState
      ensures deliverState == Some(BranchState(map[], Infinite(0), null, height))
    {
      deliverState := Some(BranchState(map[], Infinite(0), null, height));
    }

    method SetCheckState(height: int)
      modifies this`checkState
      ensures checkState == Some(BranchState(map[], Infinite(0), null, height))
    {
      checkState := Some(BranchState(map[], Infinite(0), null, height));
    }

    /** Run a block hook in the deliver state's context. */
    method RunHook(r: HookResult) returns (crashed: bool)
      requires deliverState.Some?
      modifies this`deliverState
      ensures crashed <==> r.Crash?
      ensures crashed ==> deliverState == old(deliverState)
      ensures !crashed ==>
                && deliverState.Some?
                && deliverState.value == old(deliverState.value).(writes := old(deliverState.value.writes) + r.writes, meter := r.meter)
    {
      match r
      case Crash => crashed := true;
      case Done(writes, meter) =>
        var s := deliverState.value;
        deliverState := Some(s.(writes := s.writes + writes, meter := meter));
        crashed := false;
    }

    /** InitChain.  Validators of the request that are not those the application answers
        with, in the order of their keys, are a panic. */
    method InitChain(height: int, params: Option<Writes>, validators: Validators) returns (crashed: bool, answered: Validators)
      requires Valid()
      modifies this
      ensures cms == old(cms) && lastHeight == old(lastHeight) && fresh(Cells() - old(Cells()))
      ensures var r := StartChain(env, old(Abstract()), height, params, validators);
              (crashed <==> r.None?) && (!crashed ==> Abstract() == r.value)
      ensures !crashed ==>
                var store := if params.Some? then View(cms, params.value) else cms;
                && deliverState.Some? && deliverState.value.height == (if height > 1 then height else 0)
                && initialHeight == (if height > 1 then height else old(initialHeight))
                && (env.initChainer.None? ==> View(cms, deliverState.value.writes) == store)
                && (env.initChainer.Some? ==>
                      var r := env.initChainer.value(validators, store, Infinite(0));
                      && r.hook.Done? && View(cms, deliverState.value.writes) == View(store, r.hook.writes)
                      && deliverState.value.meter == r.hook.meter
                      && deliverState.value.blockMeter != null && deliverState.value.blockMeter.value == Infinite(0))
      ensures var store := if params.Some? then View(cms, params.value) else cms;
              crashed <==>
                || (params.Some? && !env.hasParams)
                || (env.initChainer.Some? &&
                    var r := env.initChainer.value(validators, store, Infinite(0));
                    r.hook.Crash? || !Agree(env.sort, validators, r.validators))
      ensures checkState == Some(BranchState(map[], Infinite(0), null, if height > 1 then height else 0))
      ensures !crashed && env.initChainer.Some? && validators != [] ==>
                multiset(answered) == multiset(validators) && Ascending(answered)
    {
      hide View, Sorts, Agree, Ascending;
      answered := [];
      var headerHeight := 0;
      if height > 1 {
        initialHeight := height;
        headerHeight := height;
      }
      SetDeliverState(headerHeight);
      SetCheckState(headerHeight);
      EmptyBranch(cms);
      if params.Some? {
        if !env.hasParams { return true, []; }
        WriteBack(cms, map[], params.value);
        deliverState := Some(deliverState.value.(writes := params.value));
        assert map[] + params.value == params.value;
      }
      if env.initChainer.None? { return false, []; }
      var cell := new BlockGasMeter(Infinite(0));
      deliverState := Some(deliverState.value.(blockMeter := cell));
      var s := deliverState.value;
      var r := env.initChainer.value(validators, View(cms, s.writes), s.meter);
      if r.hook.Done? { WriteBack(cms, s.writes, r.hook.writes); }
      crashed := RunHook(r.hook);
      if crashed { return; }
      var ok;
      ok, answered := Compare(env.sort, validators, r.validators);
      crashed := !ok;
    }

    /** A new block gas meter; the check state's context refers to the same one. */
    method SetBlockGasMeter(meter: Meter)
      requires deliverState.Some?
      modifies this`deliverState, this`checkState
      ensures deliverState.Some? && deliverState.value.blockMeter != null && fresh(deliverState.value.blockMeter)
      ensures deliverState.value.blockMeter.value == meter
      ensures deliverState.value == old(deliverState.value).(blockMeter := deliverState.value.blockMeter)
      ensures checkState == if old(checkState).None? then None else Some(old(checkState.value).(blockMeter := deliverState.value.blockMeter))
    {
      var cell := new BlockGasMeter(meter);
      deliverState := Some(deliverState.value.(blockMeter := cell));
      if checkState.Some? {
        checkState := Some(checkState.value.(blockMeter := cell));
      }
    }

    /** BeginBlock.  The gas limit is the one the deliver state has at this time; without one,
        or with 0 or -1, the block's gas is only counted. */
    method BeginBlock(height: int) returns (crashed: bool)
      modifies this
      ensures cms == old(cms) && lastHeight == old(lastHeight) && fresh(Cells() - old(Cells()))
      ensures var r := StartBlock(env, old(Abstract()), height);
              (crashed <==> r.None?) && (!crashed ==> Abstract() == r.value)
      ensures !crashed && checkState.Some? ==> checkState.value.blockMeter == deliverState.value.blockMeter != null
      ensures !crashed ==>
                checkState == if old(checkState).None? then None else Some(old(checkState.value).(blockMeter := deliverState.value.blockMeter))
      ensures !crashed ==> height >= 1 && height == if lastHeight == 0 && initialHeight > 1 then initialHeight else lastHeight + 1
      ensures var store := if old(deliverState).None? then cms else View(cms, old(deliverState.value.writes));
              var meter := if old(deliverState).None? then Infinite(0) else old(deliverState.value.meter);
              var g := env.maxBlockGas(store);
              && (crashed <==>
                    || height < 1 || height != (if lastHeight == 0 && initialHeight > 1 then initialHeight else lastHeight + 1)
                    || (g.Some? && !(-1 <= g.value <= 0x7FFF_FFFF_FFFF_FFFF))
                    || (env.beginBlocker.Some? && env.beginBlocker.value(height, store, meter).Crash?))
              && (!crashed ==>
                    && deliverState.Some? && deliverState.value.blockMeter != null && deliverState.value.height == height
                    && deliverState.value.blockMeter.value == if g.Some? && g.value > 0 then Basic(g.value, 0) else Infinite(0))
      ensures !crashed ==>
                var store := if old(deliverState).None? then cms else View(cms, old(deliverState.value.writes));
                var meter := if old(deliverState).None? then Infinite(0) else old(deliverState.value.meter);
                if env.beginBlocker.None? then View(cms, deliverState.value.writes) == store && deliverState.value.meter == meter
                else
                  var r := env.beginBlocker.value(height, store, meter);
                  r.Done? && View(cms, deliverState.value.writes) == View(store, r.writes) && deliverState.value.meter == r.meter
    {
      hide View;
      if height < 1 || height != ExpectedHeight(lastHeight, initialHeight) { return true; }
      EmptyBranch(cms);
      if deliverState.None? {
        SetDeliverState(height);
      } else {
        deliverState := Some(deliverState.value.(height := height));
      }
      var meter := BlockMeter(env, View(cms, deliverState.value.writes));
      if meter.None? { return true; }
      SetBlockGasMeter(meter.value);
      if env.beginBlocker.None? { return false; }
      var s := deliverState.value;
      var r := env.beginBlocker.value(height, View(cms, s.writes), s.meter);
      if r.Done? { WriteBack(cms, s.writes, r.writes); }
      crashed := RunHook(r);
    }

    /** DeliverTx.  The answer is an error exactly when the transaction does not decode, finds
        no block gas left, does not pass or does not fit (`DeliverAnswer`). */
    method DeliverTx(txBytes: string) returns (crashed: bool, res: TxResponse)
      requires Valid()
      modifies this, Cells()
      ensures cms == old(cms) && lastHeight == old(lastHeight) && Cells() == old(Cells())
      ensures var r := Step(env, old(Abstract()), Call.DeliverTx(txBytes));
              (crashed <==> r.None?) && (!crashed ==> Abstract() == r.value)
      ensures crashed <==> env.decode(txBytes).Some? && (old(deliverState).None? || old(deliverState).value.blockMeter == null)
      ensures env.decode(txBytes).None? ==> Abstract() == old(Abstract())
      ensures checkState == old(checkState)
      ensures !crashed ==>
                var tx := env.decode(txBytes);
                if tx.None? then res.gasWanted == res.gasUsed == 0 && res.err.Some?
                else
                  var r := DeliverAnswer(env, middleware, old(Abstract()).working.value, tx.value);
                  res.gasUsed == AsInt64(r.gasUsed) && res.gasWanted == AsInt64(r.gasWanted) && res.err == r.err && res.data == r.data
    {
      var tx := env.decode(txBytes);
      if tx.None? { return false, TxResponse(0, 0, None, Some("tx decode")); }
      if deliverState.None? || deliverState.value.blockMeter == null { return true, TxResponse(0, 0, None, None); }
      var s := deliverState.value;
      var writes, meter, blockMeter, result :=
        ExecTx(env, middleware, tx.value, false, cms, s.writes, s.meter, Some(s.blockMeter.value));
      DeliverHeight(env, middleware, Working(View(cms, s.writes), s.meter, Some(s.blockMeter.value), 0), s.height, tx.value);
      res := Respond(result);
      s.blockMeter.value := blockMeter.value;
      deliverState := Some(s.(writes := writes, meter := meter));
      crashed := false;
    }

    method EndBlock() returns (crashed: bool)
      modifies this
      ensures cms == old(cms) && lastHeight == old(lastHeight) && Cells() == old(Cells())
      ensures var r := Step(env, old(Abstract()), Call.EndBlock);
              (crashed <==> r.None?) && (!crashed ==> Abstract() == r.value)
      ensures !crashed && env.endBlocker.Some? ==>
                var store := View(cms, old(deliverState.value.writes));
                var r := env.endBlocker.value(store, old(deliverState.value.meter));
                && deliverState.Some? && r.Done? && deliverState.value.meter == r.meter
                && View(cms, deliverState.value.writes) == View(store, r.writes)
      ensures crashed <==>
                || old(deliverState).None?
                || (env.endBlocker.Some? && env.endBlocker.value(View(cms, old(deliverState.value.writes)), old(deliverState.value.meter)).Crash?)
      ensures !crashed && env.endBlocker.None? ==> deliverState == old(deliverState)
      ensures checkState == old(checkState)
    {
      if deliverState.None? { return true; }
      if env.endBlocker.None? { return false; }
      var s := deliverState.value;
      var r := env.endBlocker.value(View(cms, s.writes), s.meter);
      if r.Done? { WriteBack(cms, s.writes, r.writes); }
      crashed := RunHook(r);
    }

    method Commit() returns (crashed: bool)
      modifies this
      ensures Cells() <= old(Cells()) && (crashed ==> cms == old(cms) && lastHeight == old(lastHeight))
      ensures crashed <==> old(deliverState).None?
      ensures !crashed ==> deliverState.None? && cms == old(View(cms, deliverState.value.writes))
      ensures checkState == old(checkState)
      ensures !crashed ==> lastHeight == if old(lastHeight) == 0 && initialHeight > 1 then initialHeight else old(lastHeight) + 1
      ensures var r := Step(env, old(Abstract()), Call.Commit);
              (crashed <==> r.None?) && (!crashed ==> Abstract() == r.value)
    {
      if deliverState.None? { return true; }
      cms := View(cms, deliverState.value.writes);
      lastHeight := ExpectedHeight(lastHeight, initialHeight);
      deliverState := None;
      crashed := false;
    }

    /** CheckTxSync: checkTx in the check state's branch.  Panics are recovered, and only an
        ante handler that passes leaves its writes there. */
    method CheckTx(txBytes: string) returns (crashed: bool, res: RunResult)
      modifies this
      ensures Abstract() == old(Abstract()) && Cells() == old(Cells())
      ensures old(checkState).Some? ==>
                var store, meter := View(cms, old(checkState.value.writes)), old(checkState.value.meter);
                && !crashed && checkState.Some? && checkState.value.blockMeter == old(checkState.value.blockMeter)
                && (res.err.None? <==> PassesCheck(env, txBytes, store, meter))
                && (!PassesCheck(env, txBytes, store, meter) ==> View(cms, checkState.value.writes) == store)
                && checkState.value.height == old(checkState.value.height)
                && (env.decode(txBytes).Some? && ValidMsgs(env, env.decode(txBytes).value.msgs) ==>
                      checkState.value.meter == RunAnte(env, env.decode(txBytes).value, store, meter, false).shared)
                && (PassesCheck(env, txBytes, store, meter) ==>
                      View(cms, checkState.value.writes) == View(store, RunAnte(env, env.decode(txBytes).value, store, meter, false).writes))
                && (if env.decode(txBytes).None? || !ValidMsgs(env, env.decode(txBytes).value.msgs) then res.gasUsed == res.gasWanted == 0
                    else
                      && res.err == ErrorOf(RunAnte(env, env.decode(txBytes).value, store, meter, false).outcome)
                      && Reports(res, TxMeter(AnteMeters(RunAnte(env, env.decode(txBytes).value, store, meter, false)))))
    {
      hide View;
      crashed := false;
      var tx := env.decode(txBytes);
      if tx.None? { return false, RunResult(0, 0, None, Some("tx decode")); }
      var valid := ValidateBasicTxMsgs(env, tx.value.msgs);
      if valid != Ok { return false, RunResult(0, 0, None, ErrorOf(valid)); }
      if checkState.None? { return true, RunResult(0, 0, None, None); }
      var s := checkState.value;
      var a := RunAnte(env, tx.value, View(cms, s.writes), s.meter, false);
      s := s.(meter := a.shared);
      if a.outcome == Ok {
        WriteBack(cms, s.writes, a.writes);
        s := s.(writes := s.writes + a.writes);
      }
      checkState := Some(s);
      var gas := TxMeter(AnteMeters(a));
      res := RunResult(Limit(gas), gas.consumed, None, ErrorOf(a.outcome));
    }

    /** Simulate: runTx in a branch of the check state that is thrown away.  The block gas
        meter runTx leaves behind is the one the block in progress refers to. */
    method Simulate(tx: Tx) returns (crashed: bool, res: RunResult)
      requires Valid()
      modifies this, Cells()
      ensures Abstract() == old(Abstract()) && Cells() == old(Cells())
      ensures forall cell :: cell in Cells() ==> cell.value == old(cell.value)
      ensures old(checkState).Some? ==>
                var h := Handlers(env, tx, View(cms, old(checkState.value.writes)), old(checkState.value.meter), true);
                && !crashed && checkState == Some(old(checkState.value).(meter := h.meters.shared))
                && res == TxAnswer(middleware, h, None) && (res.err.None? <==> h.outcome == Ok)
    {
      if checkState.None? { return true, RunResult(0, 0, None, None); }
      var s := checkState.value;
      var held := if s.blockMeter == null then None else Some(s.blockMeter.value);
      var writes, meter, blockMeter;
      writes, meter, blockMeter, res := ExecTx(env, middleware, tx, true, cms, s.writes, s.meter, held);
      if s.blockMeter != null { s.blockMeter.value := blockMeter.value; }
      checkState := Some(s.(meter := meter));
      crashed := false;
    }

    method BeginRecheckTx(height: int)
      modifies this`checkState
      ensures Abstract() == old(Abstract()) && Cells() <= old(Cells()) && checkState.Some? && View(cms, checkState.value.writes) == cms
      ensures checkState.value.height == height && checkState.value.meter == Infinite(0) && checkState.value.blockMeter == null
    {
      EmptyBranch(cms);
      SetCheckState(height);
    }

    method Apply(c: Call) returns (crashed: bool)
      requires Valid()
      modifies this, Cells()
      ensures fresh(Cells() - old(Cells()))
      ensures crashed ==> cms == old(cms) && lastHeight == old(lastHeight)
      ensures !IsDeliverCall(c) ==> Abstract() == old(Abstract())
      ensures IsDeliverCall(c) ==>
                var r := Step(env, old(Abstract()), c);
                (crashed <==> r.None?) && (!crashed ==> Abstract() == r.value)
    {
      match c
      case InitChain(h, params, validators) => var answer; crashed, answer := InitChain(h, params, validators);
      case BeginBlock(h) => crashed := BeginBlock(h);
      case DeliverTx(b) => var answer; crashed, answer := DeliverTx(b);
      case EndBlock => crashed := EndBlock();
      case Commit => crashed := Commit();
      case CheckTx(b) => var answer; crashed, answer := CheckTx(b);
      case Simulate(tx) => var answer; crashed, answer := Simulate(tx);
      case BeginRecheckTx => BeginRecheckTx(lastHeight); crashed := false;
    }

    /** Over every sequence of calls, up to the first that panics, the application is where
        the reference machine is after the consensus calls alone: branches, defers and the
        interleaved CheckTx, simulate and recheck calls leave no trace. */
    method Execute(cs: seq<Call>) returns (n: nat)
      requires Valid()
      modifies this, Cells()
      ensures n <= |cs|
      ensures var ds := DeliverCalls(cs, n);
              var r := Fold(env, old(Abstract()), ds, |ds|);
              && r.Some?
              && cms == r.value.committed && lastHeight == r.value.lastHeight
              && (n == |cs| ==> Abstract() == r.value)
      ensures n < |cs| && IsDeliverCall(cs[n]) ==>
                var ds := DeliverCalls(cs, n);
                Step(env, Fold(env, old(Abstract()), ds, |ds|).value, cs[n]).None?
    {
      hide Step, View;
      n := 0;
      ghost var start := Abstract();
      while n < |cs|
        invariant n <= |cs| && fresh(Cells() - old(Cells()))
        invariant var ds := DeliverCalls(cs, n); Fold(env, start, ds, |ds|) == Some(Abstract())
      {
        ghost var before, ds := Abstract(), DeliverCalls(cs, n);
        var crashed := Apply(cs[n]);
        if crashed { return; }
        if IsDeliverCall(cs[n]) {
          FoldPrefix(env, start, ds, cs[n], |ds|);
          assert (ds + [cs[n]])[|ds|] == cs[n];
          assert Fold(env, start, ds + [cs[n]], |ds| + 1) == Step(env, before, cs[n]);
        }
        n := n + 1;
      }
    }
  }

  /** The height of the block is carried along by its transactions. */
  lemma DeliverHeight(env: Env, mw: Middleware, w: Working, height: int, tx: Tx)
    requires w.blockMeter.Some? && Answers(mw)
    ensures Deliver(env, w.(height := height), tx) == Deliver(env, w, tx).(height := height)
    ensures DeliverAnswer(env, mw, w.(height := height), tx) == DeliverAnswer(env, mw, w, tx)
  {}

  // ----- block gas over a whole block

  /** The block after its first `n` transactions. */
  function Block(env: Env, w: Working, txs: seq<Tx>, n: nat): (r: Working)
    requires w.blockMeter.Some? && n <= |txs|
    ensures r.blockMeter.Some? && r.blockMeter.value.Basic? == w.blockMeter.value.Basic?
    ensures Limit(r.blockMeter.value) == Limit(w.blockMeter.value)
  {
    if n == 0 then w else Deliver(env, Block(env, w, txs, n - 1), txs[n - 1])
  }

  /** What the first `n` transactions were charged; one that finds no block gas left is
      turned away and not charged. */
  function Charges(env: Env, w: Working, txs: seq<Tx>, n: nat): nat
    requires w.blockMeter.Some? && n <= |txs|
  {
    if n == 0 then 0
    else
      var before := Block(env, w, txs, n - 1);
      Charges(env, w, txs, n - 1) + if Admitted(before) then Charge(env, before, txs[n - 1]) else 0
  }

  /** A limited meter shows the sum of the charges, capped at the largest counter value. */
  lemma {:induction false} SumOfCharges(env: Env, w: Working, txs: seq<Tx>, n: nat)
    requires w.blockMeter.Some? && n <= |txs| && w.blockMeter.value.Basic?
    ensures var total := w.blockMeter.value.consumed + Charges(env, w, txs, n);
            Block(env, w, txs, n).blockMeter.value.consumed as int == if total <= MAX_UINT64 then total else MAX_UINT64
  {
    if n > 0 {
      SumOfCharges(env, w, txs, n - 1);
    }
  }

  /** Once the block gas is used up, no later transaction changes anything. */
  lemma {:induction false} RejectedAfterwards(env: Env, w: Working, txs: seq<Tx>, i: nat, n: nat)
    requires w.blockMeter.Some? && i <= n <= |txs| && !Admitted(Block(env, w, txs, i))
    ensures Block(env, w, txs, n) == Block(env, w, txs, i)
    decreases n
  {
    if i < n { RejectedAfterwards(env, w, txs, i, n - 1); }
  }

  predicate Passes(env: Env, w: Working, txs: seq<Tx>, i: nat)
    requires w.blockMeter.Some? && i < |txs|
  {
    !IsPastLimit(Block(env, w, txs, i).blockMeter.value) && IsPastLimit(Block(env, w, txs, i + 1).blockMeter.value)
  }

  /** The meter passes its limit at most once in a block, and the transaction that does it
      keeps at most its ante writes. */
  lemma PassesLimitOnce(env: Env, w: Working, txs: seq<Tx>, i: nat, j: nat)
    requires w.blockMeter.Some? && w.blockMeter.value.Basic?
    requires i < |txs| && j < |txs| && Passes(env, w, txs, i) && Passes(env, w, txs, j)
    ensures i == j
    ensures var before := Block(env, w, txs, i);
            var h := Handlers(env, txs[i], before.store, before.shared, false);
            && !Fits(env, before, txs[i])
            && Block(env, w, txs, i + 1).store == (if h.anteOk then View(before.store, h.anteWrites) else before.store)
            && Block(env, w, txs, |txs|).store == Block(env, w, txs, i + 1).store
  {
    hide Handlers;
    RejectedAfterwards(env, w, txs, i + 1, |txs|);
    if i < j { RejectedAfterwards(env, w, txs, i + 1, j); }
    if j < i { RejectedAfterwards(env, w, txs, j + 1, i); }
  }

  /** The charge of an admitted transaction is discarded with its messages exactly when it
      would take the meter past its limit or past the largest counter value. */
  lemma FitsExactly(env: Env, w: Working, tx: Tx)
    requires w.blockMeter.Some?
    ensures Fits(env, w, tx) <==>
              w.blockMeter.value.consumed + Charge(env, w, tx) <=
                if w.blockMeter.value.Basic? then w.blockMeter.value.limit else MAX_UINT64
  {}

  /** None of the first `n` charges is discarded. */
  predicate AllFit(env: Env, w: Working, txs: seq<Tx>, n: nat)
    requires w.blockMeter.Some? && n <= |txs|
  {
    n == 0 || (AllFit(env, w, txs, n - 1) && Fits(env, Block(env, w, txs, n - 1), txs[n - 1]))
  }

  /** A block without a gas limit does not keep the sum in general: when the counter of an
      infinite meter overflows it restarts from zero.  It keeps it exactly as long as no
      charge overflows. */
  lemma {:induction false} UnlimitedBlock(env: Env, w: Working, txs: seq<Tx>, n: nat)
    requires w.blockMeter.Some? && n <= |txs| && w.blockMeter.value.Infinite?
    ensures var total := w.blockMeter.value.consumed + Charges(env, w, txs, n);
            && Block(env, w, txs, n).blockMeter.value.consumed as int <= total
            && (AllFit(env, w, txs, n) <==> Block(env, w, txs, n).blockMeter.value.consumed as int == total)
            && (AllFit(env, w, txs, n) <==> total <= MAX_UINT64)
  {
    hide Deliver, Fits, Charge;
    if n > 0 {
      UnlimitedBlock(env, w, txs, n - 1);
      FitsExactly(env, Block(env, w, txs, n - 1), txs[n - 1]);
      var before := Block(env, w, txs, n - 1);
      UnlimitedStep(env, before, txs[n - 1]);
      assert Admitted(before);
    }
  }

  lemma UnlimitedStep(env: Env, w: Working, tx: Tx)
    requires w.blockMeter.Some? && w.blockMeter.value.Infinite?
    ensures var after := Deliver(env, w, tx).blockMeter.value.consumed as int;
            && after == (if Fits(env, w, tx) then w.blockMeter.value.consumed + Charge(env, w, tx) else 0)
            && (!Fits(env, w, tx) ==> w.blockMeter.value.consumed + Charge(env, w, tx) > MAX_UINT64)
  {}

  // ----- heights

  /** A block has begun and was not committed yet. */
  predicate Begun(cs: seq<Call>, n: nat)
    requires n <= |cs|
  {
    n > 0 && (cs[n - 1].BeginBlock? || (!cs[n - 1].Commit? && !cs[n - 1].InitChain? && Begun(cs, n - 1)))
  }

  function Commits(cs: seq<Call>, n: nat): nat
    requires n <= |cs|
  {
    if n == 0 then 0 else Commits(cs, n - 1) + if cs[n - 1].Commit? then 1 else 0
  }

  /** The initial height in force after the first `n` calls. */
  function InitialAt(initialHeight: int, cs: seq<Call>, n: nat): int
    requires n <= |cs|
  {
    if n == 0 then initialHeight
    else if cs[n - 1].InitChain? && cs[n - 1].initialHeight > 1 then cs[n - 1].initialHeight
    else InitialAt(initialHeight, cs, n - 1)
  }

  /** The height of the first commit among the first `n` calls: the initial height in force
      at that call, or the one after the last height. */
  function FirstHeight(f: Chain, cs: seq<Call>, n: nat): int
    requires n <= |cs|
  {
    if n == 0 then f.lastHeight
    else if Commits(cs, n - 1) > 0 then FirstHeight(f, cs, n - 1)
    else
      var initial := InitialAt(f.initialHeight, cs, n - 1);
      if f.lastHeight == 0 && initial > 1 then initial else f.lastHeight + 1
  }

  /** Over every sequence of consensus calls: the committed heights go up by one from the
      first, and a block that has begun is committed at the height in its header. */
  lemma {:induction false} HeightsAdvance(env: Env, f: Chain, cs: seq<Call>, n: nat)
    requires n <= |cs| && (forall i :: 0 <= i < |cs| ==> IsDeliverCall(cs[i]))
    requires f.lastHeight >= 0 && Fold(env, f, cs, n).Some?
    ensures var g := Fold(env, f, cs, n).value;
            && g.initialHeight == InitialAt(f.initialHeight, cs, n)
            && g.lastHeight == (if Commits(cs, n) == 0 then f.lastHeight else FirstHeight(f, cs, n) + Commits(cs, n) - 1)
            && (Commits(cs, n) > 0 ==> FirstHeight(f, cs, n) >= 1)
            && (Begun(cs, n) ==>
                  && g.working.Some? && Step(env, g, Commit).Some?
                  && Step(env, g, Commit).value.lastHeight == g.working.value.height
                  && Step(env, g, Commit).value.committed == g.working.value.store)
  {
    if n > 0 {
      HeightsAdvance(env, f, cs, n - 1);
      var g := Fold(env, f, cs, n - 1).value;
      StepHeights(env, g, cs[n - 1]);
    }
  }

  /** What one call does to the heights. */
  lemma StepHeights(env: Env, g: Chain, c: Call)
    requires IsDeliverCall(c) && Step(env, g, c).Some?
    ensures var g' := Step(env, g, c).value;
            && g'.lastHeight == (if c.Commit? then ExpectedHeight(g.lastHeight, g.initialHeight) else g.lastHeight)
            && g'.initialHeight == (if c.InitChain? && c.initialHeight > 1 then c.initialHeight else g.initialHeight)
            && (c.BeginBlock? ==> g'.working.Some? && g'.working.value.height == ExpectedHeight(g.lastHeight, g.initialHeight))
            && (c.DeliverTx? || c.EndBlock? ==>
                  g.working.Some? ==> g'.working.Some? && g'.working.value.height == g.working.value.height)
  {}

  /** An environment in which every transaction uses up a whole counter of gas. */
  function Greedy(): Env {
    Env((b: string) => None, (m: Msg) => Ok,
        Some((tx: Tx, store: Store, meter: Meter, simulate: bool) => AnteResult(map[], meter, OwnMeter(Infinite(MAX_UINT64)), Ok)),
        (m: Msg) => true, (m: Msg, store: Store, meter: Meter) => MsgResult(map[], meter, Ok, ""),
        false, (store: Store) => None, None, None, None, (vs: Validators) => vs)
  }

  /** A block without a gas limit whose two transactions leave the meter at zero. */
  lemma OverflowingBlock()
    ensures var env := Greedy();
            var txs := [Tx("", [Msg("")]), Tx("", [Msg("")])];
            var w := Working(map[], Infinite(0), Some(Infinite(0)), 1);
            && Block(env, w, txs, 2).blockMeter == Some(Infinite(0))
            && Charges(env, w, txs, 2) == 2 * MAX_UINT64
  {
    var env := Greedy();
    var txs := [Tx("", [Msg("")]), Tx("", [Msg("")])];
    var w := Working(map[], Infinite(0), Some(Infinite(0)), 1);
    GreedyCharge(w, txs[0]);
    var w1 := Block(env, w, txs, 1);
    GreedyCharge(w1, txs[1]);
    assert Block(env, w, txs, 2) == Deliver(env, w1, txs[1]);
    assert Charges(env, w, txs, 1) == MAX_UINT64;
  }

  lemma GreedyCharge(w: Working, tx: Tx)
    requires tx == Tx("", [Msg("")])
    ensures Charge(Greedy(), w, tx) == MAX_UINT64
  {
    var env := Greedy();
    assert Validate(env, tx.msgs, 1) == Ok;
    var p := RunMsgs(env, tx.msgs, 1, View(w.store, map[]), Infinite(MAX_UINT64));
    assert RunMsgs(env, tx.msgs, 0, View(w.store, map[]), Infinite(MAX_UINT64)).outcome == Ok;
    assert p.meter == Infinite(MAX_UINT64);
  }
}
