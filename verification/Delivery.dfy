/** What one delivered transaction does, case by case, in terms of the handlers alone: no
    branches, no reference machine (runTx in baseapp/baseapp.go). */
module Delivery {
  import opened Wrappers
  import opened MultiStore
  import opened GasMeter
  import opened Recovery
  import opened BaseApp

  /** A meter has gas left. */
  predicate HasRoom(m: Meter) {
    m.Basic? ==> m.consumed < m.limit
  }

  /** What a transaction costs the block: what its meter shows, at most the meter's limit. */
  function Price(m: Meter): nat {
    if m.Basic? && m.limit < m.consumed then m.limit else m.consumed
  }

  /** The largest number a meter may show. */
  function Ceiling(m: Meter): nat {
    if m.Basic? then m.limit else MAX_UINT64
  }

  /** The block gas meter after a charge: beyond the range of the counter a limited meter
      stays at the largest number and an infinite one restarts from zero. */
  ghost predicate Charged(m: Meter, amount: nat, m': Meter) {
    && m'.Basic? == m.Basic? && (m.Basic? ==> m'.limit == m.limit)
    && var total := m.consumed + amount;
       m'.consumed as int == if total <= MAX_UINT64 then total else if m.Basic? then MAX_UINT64 else 0
  }

  /** The ante handler's answer; without one everything passes. */
  function AnteIn(env: Env, tx: Tx, store: Store, shared: Meter, simulate: bool): AnteResult {
    if env.ante.None? then AnteResult(map[], shared, SameMeter, Ok) else env.ante.value(tx, store, shared, simulate)
  }

  function Ante(env: Env, w: Working, tx: Tx): AnteResult {
    AnteIn(env, tx, w.store, w.shared, false)
  }

  /** Where the messages start: on the ante handler's writes, with the meter of the context
      it returned. */
  function StartAfter(store: Store, a: AnteResult): Point {
    Point(View(store, a.writes), if a.context.OwnMeter? then a.context.meter else a.shared)
  }

  function Start(env: Env, w: Working, tx: Tx): Point {
    StartAfter(w.store, Ante(env, w, tx))
  }

  /** The meter of the block's context: messages use it unless the transaction has its own. */
  predicate SharedAfter(a: AnteResult, last: Meter, shared: Meter) {
    shared == if a.context.OwnMeter? then a.shared else last
  }

  /** The error made of what went wrong, unless the charge does not fit. */
  ghost predicate ErrorIs(mw: Middleware, o: Outcome, err: Option<string>) {
    match o
    case Ok => err == None
    case Err(e) => err == Some(e)
    case Panicked(p) => err == if p.OutOfGas? then Some(ERR_OUT_OF_GAS) else ProcessRecovery(p, mw)
  }

  lemma ChargeIsPrice(env: Env, w: Working, tx: Tx)
    requires w.blockMeter.Some?
    ensures var m := TxMeter(Handlers(env, tx, w.store, w.shared, false).meters);
            && Charge(env, w, tx) as int == Price(m)
            && (Fits(env, w, tx) <==> w.blockMeter.value.consumed + Price(m) <= Ceiling(w.blockMeter.value))
            && (Admitted(w) <==> HasRoom(w.blockMeter.value))
            && (Admitted(w) ==> Charged(w.blockMeter.value, Price(m), Deliver(env, w, tx).blockMeter.value))
  {
    hide Handlers;
    FitsExactly(env, w, tx);
  }

  /** A transaction that finds no block gas left is turned away. */
  lemma TurnedAway(env: Env, mw: Middleware, w: Working, tx: Tx)
    requires w.blockMeter.Some? && Answers(mw) && !HasRoom(w.blockMeter.value)
    ensures Deliver(env, w, tx) == w
    ensures var r := DeliverAnswer(env, mw, w, tx); r.err.Some? && r.data.None? && r.gasUsed == r.gasWanted == 0
  {}

  /** What all others have in common: `m` is their meter in the end and `o` what went wrong. */
  ghost predicate Settled(env: Env, mw: Middleware, w: Working, tx: Tx, m: Meter, o: Outcome)
    requires w.blockMeter.Some? && Answers(mw)
  {
    var w', r := Deliver(env, w, tx), DeliverAnswer(env, mw, w, tx);
    var fits := w.blockMeter.value.consumed + Price(m) <= Ceiling(w.blockMeter.value);
    && w'.blockMeter.Some? && Charged(w.blockMeter.value, Price(m), w'.blockMeter.value) && w'.height == w.height
    && Reports(r, m) && (r.err.None? <==> o == Ok && fits) && (fits ==> ErrorIs(mw, o, r.err))
    && (!fits && w.blockMeter.value.consumed + Price(m) <= MAX_UINT64 ==> r.err == Some(ERR_OUT_OF_GAS))
    && (r.err.Some? ==> r.data.None?)
  }

  lemma Settles(env: Env, mw: Middleware, w: Working, tx: Tx)
    requires w.blockMeter.Some? && Answers(mw) && HasRoom(w.blockMeter.value)
    ensures var h := Handlers(env, tx, w.store, w.shared, false);
            Settled(env, mw, w, tx, TxMeter(h.meters), h.outcome)
  {
    hide Handlers;
    ChargeIsPrice(env, w, tx);
  }

  /** One whose messages are not valid runs no handler and is charged what its meter shows. */
  lemma InvalidTx(env: Env, mw: Middleware, w: Working, tx: Tx)
    requires w.blockMeter.Some? && Answers(mw) && HasRoom(w.blockMeter.value) && !ValidMsgs(env, tx.msgs)
    ensures var w' := Deliver(env, w, tx); w'.store == w.store && w'.shared == w.shared
    ensures DeliverAnswer(env, mw, w, tx).err.Some?
    ensures forall i :: 0 <= i < |tx.msgs| && env.validateBasic(tx.msgs[i]) != Ok && ValidMsgsTo(env, tx.msgs, i) ==>
              Settled(env, mw, w, tx, w.shared, env.validateBasic(tx.msgs[i]))
  {
    hide Settled;
    ValidateExactly(env, tx.msgs);
    Settles(env, mw, w, tx);
  }

  /** One that its ante handler does not pass changes no store and is charged by the meter of
      the context the handler returned; a handler that panics returns none. */
  lemma AnteFails(env: Env, mw: Middleware, w: Working, tx: Tx)
    requires w.blockMeter.Some? && Answers(mw) && HasRoom(w.blockMeter.value) && ValidMsgs(env, tx.msgs)
    requires Ante(env, w, tx).outcome != Ok
    ensures var w', a := Deliver(env, w, tx), Ante(env, w, tx);
            && w'.store == w.store && w'.shared == a.shared
            && Settled(env, mw, w, tx, if a.outcome.Panicked? || !a.context.OwnMeter? then a.shared else a.context.meter, a.outcome)
  {
    hide Settled;
    ValidateExactly(env, tx.msgs);
    Settles(env, mw, w, tx);
  }

  /** When message `i` is the first that does not pass, the ante handler's writes stay and
      those of the messages go; the gas of the failed message counts. */
  lemma MessageFails(env: Env, mw: Middleware, w: Working, tx: Tx, i: nat)
    requires w.blockMeter.Some? && Answers(mw) && HasRoom(w.blockMeter.value) && ValidMsgs(env, tx.msgs)
    requires Ante(env, w, tx).outcome == Ok && FirstFailure(env, tx.msgs, i, Start(env, w, tx))
    ensures var w', a, start, routed := Deliver(env, w, tx), Ante(env, w, tx), Start(env, w, tx), env.routed(tx.msgs[i]);
            var last := After(env, tx.msgs, if routed then i + 1 else i, start).meter;
            && w'.store == start.store && SharedAfter(a, last, w'.shared)
            && Settled(env, mw, w, tx, last, if routed then ResultAt(env, tx.msgs, i, start).outcome else Err("unrecognized message route"))
  {
    hide Settled, View, FirstFailure, Ended;
    ValidateExactly(env, tx.msgs);
    Settles(env, mw, w, tx);
    RunMsgsInSequence(env, tx.msgs, Start(env, w, tx));
    EndedMeans(env, tx, w, i);
  }

  lemma EndedMeans(env: Env, tx: Tx, w: Working, i: nat)
    requires FirstFailure(env, tx.msgs, i, Start(env, w, tx))
    ensures var start := Start(env, w, tx);
            forall p :: Ended(env, tx.msgs, i, start, p) ==>
              && p.meter == After(env, tx.msgs, if env.routed(tx.msgs[i]) then i + 1 else i, start).meter
              && p.outcome == (if env.routed(tx.msgs[i]) then ResultAt(env, tx.msgs, i, start).outcome else Err("unrecognized message route"))
              && p.outcome != Ok
  {
    hide After, View;
  }

  /** When all messages pass, what they did one after the other is kept if the charge fits,
      and only the ante handler's writes otherwise. */
  lemma AllMessagesPass(env: Env, mw: Middleware, w: Working, tx: Tx)
    requires w.blockMeter.Some? && Answers(mw) && HasRoom(w.blockMeter.value) && ValidMsgs(env, tx.msgs)
    requires Ante(env, w, tx).outcome == Ok && AllPass(env, tx.msgs, |tx.msgs|, Start(env, w, tx))
    ensures var w', a, start, n := Deliver(env, w, tx), Ante(env, w, tx), Start(env, w, tx), |tx.msgs|;
            var last := After(env, tx.msgs, n, start);
            var fits := w.blockMeter.value.consumed + Price(last.meter) <= Ceiling(w.blockMeter.value);
            && w'.store == (if fits then last.store else start.store) && SharedAfter(a, last.meter, w'.shared)
            && Settled(env, mw, w, tx, last.meter, Ok)
            && (fits ==> DeliverAnswer(env, mw, w, tx).data == Some(DataOf(env, tx.msgs, n, start)))
  {
    hide Settled, View, AllPass, DataOf, After;
    ValidateExactly(env, tx.msgs);
    Settles(env, mw, w, tx);
    ChargeIsPrice(env, w, tx);
    RunMsgsInSequence(env, tx.msgs, Start(env, w, tx));
  }

  /** A simulation answers without error exactly when the messages are valid, the ante handler
      passes and all messages pass, and then with what they used and returned. */
  lemma Simulated(env: Env, mw: Middleware, tx: Tx, store: Store, shared: Meter)
    requires Answers(mw)
    ensures var r, a := TxAnswer(mw, Handlers(env, tx, store, shared, true), None), AnteIn(env, tx, store, shared, true);
            var start, n := StartAfter(store, a), |tx.msgs|;
            && (r.err.None? <==> ValidMsgs(env, tx.msgs) && a.outcome == Ok && AllPass(env, tx.msgs, n, start))
            && (r.err.None? ==> r.data == Some(DataOf(env, tx.msgs, n, start)) && Reports(r, After(env, tx.msgs, n, start).meter))
  {
    hide View, AllPass, DataOf, After, FirstFailure, Ended;
    var a := AnteIn(env, tx, store, shared, true);
    var start := StartAfter(store, a);
    ValidateExactly(env, tx.msgs);
    RunMsgsInSequence(env, tx.msgs, start);
    PassOrFail(env, tx.msgs, |tx.msgs|, start);
  }

  /** Either all messages pass or one is the first that does not. */
  lemma {:induction false} PassOrFail(env: Env, msgs: seq<Msg>, n: nat, start: Point)
    requires n <= |msgs|
    ensures AllPass(env, msgs, n, start) ||
            exists i: nat :: i < n && FirstFailure(env, msgs, i, start) && forall p :: Ended(env, msgs, i, start, p) ==> p.outcome != Ok
  {
    hide After, View, DataOf;
    if n > 0 {
      PassOrFail(env, msgs, n - 1, start);
      if AllPass(env, msgs, n - 1, start) && !PassesAt(env, msgs, n - 1, start) {
        assert FirstFailure(env, msgs, n - 1, start);
      }
    }
  }

  // ----- over a whole block

  /** What an admitted transaction costs, read off its answer: the gas it used, or the gas it
      wanted if that is less and its meter is limited. */
  function Bill(env: Env, mw: Middleware, w: Working, tx: Tx): nat
    requires w.blockMeter.Some? && Answers(mw)
  {
    var r := DeliverAnswer(env, mw, w, tx);
    if TxMeter(Handlers(env, tx, w.store, w.shared, false).meters).Basic? && r.gasWanted < r.gasUsed then r.gasWanted else r.gasUsed
  }

  function Bills(env: Env, mw: Middleware, w: Working, txs: seq<Tx>, n: nat): nat
    requires w.blockMeter.Some? && Answers(mw) && n <= |txs|
  {
    if n == 0 then 0
    else
      var before := Block(env, w, txs, n - 1);
      Bills(env, mw, w, txs, n - 1) + if HasRoom(before.blockMeter.value) then Bill(env, mw, before, txs[n - 1]) else 0
  }

  lemma {:induction false} BillsAreCharges(env: Env, mw: Middleware, w: Working, txs: seq<Tx>, n: nat)
    requires w.blockMeter.Some? && Answers(mw) && n <= |txs|
    ensures Bills(env, mw, w, txs, n) == Charges(env, w, txs, n)
  {
    hide Handlers, Deliver, DeliverAnswer;
    if n > 0 {
      BillsAreCharges(env, mw, w, txs, n - 1);
      ChargeIsPrice(env, Block(env, w, txs, n - 1), txs[n - 1]);
    }
  }

  /** Every admitted transaction is charged exactly once, whether it succeeded, failed or
      panicked: the meter shows the sum of the bills, capped at the largest counter value. */
  lemma ChargedExactlyOnce(env: Env, mw: Middleware, w: Working, txs: seq<Tx>, n: nat)
    requires w.blockMeter.Some? && Answers(mw) && n <= |txs| && w.blockMeter.value.Basic?
    ensures var total := w.blockMeter.value.consumed + Bills(env, mw, w, txs, n);
            Block(env, w, txs, n).blockMeter.value.consumed as int == if total <= MAX_UINT64 then total else MAX_UINT64
  {
    BillsAreCharges(env, mw, w, txs, n);
    SumOfCharges(env, w, txs, n);
  }

  /** The transaction keeps the writes of its messages. */
  predicate Keeps(env: Env, mw: Middleware, w: Working, tx: Tx)
    requires w.blockMeter.Some? && Answers(mw)
  {
    DeliverAnswer(env, mw, w, tx).err.None?
  }

  function KeptBills(env: Env, mw: Middleware, w: Working, txs: seq<Tx>, n: nat): nat
    requires w.blockMeter.Some? && Answers(mw) && n <= |txs|
  {
    if n == 0 then 0
    else
      var before := Block(env, w, txs, n - 1);
      KeptBills(env, mw, w, txs, n - 1) + if Keeps(env, mw, before, txs[n - 1]) then Bill(env, mw, before, txs[n - 1]) else 0
  }

  /** What the transactions that keep their messages' writes cost fits into the block. */
  lemma {:induction false} KeptWithinLimit(env: Env, mw: Middleware, w: Working, txs: seq<Tx>, n: nat)
    requires w.blockMeter.Some? && Answers(mw) && n <= |txs| && w.blockMeter.value.Basic?
    requires w.blockMeter.value.consumed <= w.blockMeter.value.limit
    ensures w.blockMeter.value.consumed + KeptBills(env, mw, w, txs, n) <= w.blockMeter.value.limit
    ensures w.blockMeter.value.consumed + KeptBills(env, mw, w, txs, n) <= Block(env, w, txs, n).blockMeter.value.consumed as int
  {
    hide Handlers, Deliver;
    if n > 0 {
      KeptWithinLimit(env, mw, w, txs, n - 1);
      var before := Block(env, w, txs, n - 1);
      ChargeIsPrice(env, before, txs[n - 1]);
      if !HasRoom(before.blockMeter.value) { TurnedAway(env, mw, before, txs[n - 1]); }
    }
  }

  // ----- the block gas limit

  /** A block begun with a gas limit of `g` starts with a meter of that limit, and the
      transactions delivered in it that keep their messages' writes cost at most `g`. */
  lemma BegunBlockWithinLimit(env: Env, mw: Middleware, f: Chain, height: int, txs: seq<Tx>, g: int)
    requires Answers(mw) && StartBlock(env, f, height).Some?
    requires env.maxBlockGas(if f.working.None? then f.committed else f.working.value.store) == Some(g) && g > 0
    ensures var w := StartBlock(env, f, height).value.working;
            && w.Some? && w.value.blockMeter == Some(Basic(g, 0))
            && KeptBills(env, mw, w.value, txs, |txs|) <= g
  {
    KeptWithinLimit(env, mw, StartBlock(env, f, height).value.working.value, txs, |txs|);
  }

  /** The transactions among the first `n` calls that decode. */
  function Decoded(env: Env, cs: seq<Call>, n: nat): seq<Tx>
    requires n <= |cs| && forall i :: 0 <= i < |cs| ==> cs[i].DeliverTx?
  {
    if n == 0 then []
    else
      var tx := env.decode(cs[n - 1].txBytes);
      Decoded(env, cs, n - 1) + if tx.Some? then [tx.value] else []
  }

  /** Delivering transactions in a begun block is running them one after the other; bytes
      that do not decode change nothing. */
  lemma {:induction false} DeliveredInOrder(env: Env, f: Chain, cs: seq<Call>, n: nat)
    requires n <= |cs| && (forall i :: 0 <= i < |cs| ==> cs[i].DeliverTx?)
    requires f.working.Some? && f.working.value.blockMeter.Some?
    ensures var txs := Decoded(env, cs, n);
            Fold(env, f, cs, n) == Some(f.(working := Some(Block(env, f.working.value, txs, |txs|))))
  {
    hide Deliver;
    if n > 0 {
      DeliveredInOrder(env, f, cs, n - 1);
      var txs, tx := Decoded(env, cs, n - 1), env.decode(cs[n - 1].txBytes);
      if tx.Some? {
        BlockPrefix(env, f.working.value, txs, tx.value, |txs|);
        assert (txs + [tx.value])[|txs|] == tx.value;
      } else {
        assert txs + [] == txs;
      }
    }
  }

  lemma {:induction false} BlockPrefix(env: Env, w: Working, txs: seq<Tx>, tx: Tx, n: nat)
    requires w.blockMeter.Some? && n <= |txs|
    ensures Block(env, w, txs + [tx], n) == Block(env, w, txs, n)
  {
    hide Deliver;
    if n > 0 { BlockPrefix(env, w, txs, tx, n - 1); }
  }
}
