/** The chain of recovery middlewares of runTx (baseapp/recovery.go). */
module Recovery {
  import opened Wrappers
  import opened GasMeter

  /** A handler answers with an error when it has processed the panic. */
  type Handler = Panic -> Option<string>

  datatype Middleware = Nil | Middleware(handler: Handler, next: Middleware)

  function ProcessRecovery(p: Panic, mw: Middleware): Option<string> {
    match mw
    case Nil => None
    case Middleware(handler, next) => if handler(p).Some? then handler(p) else ProcessRecovery(p, next)
  }

  const ERR_PANIC := "panic"
  const ERR_OUT_OF_GAS := "out of gas"

  function DefaultMiddleware(): Middleware {
    Middleware(_ => Some(ERR_PANIC), Nil)
  }

  function OutOfGasMiddleware(next: Middleware): Middleware {
    Middleware((p: Panic) => if p.OutOfGas? then Some(ERR_OUT_OF_GAS) else None, next)
  }

  /** The chain after the first `n` of `handlers` were added in front of it. */
  function Chain(handlers: seq<Handler>, n: nat, mw: Middleware): Middleware
    requires n <= |handlers|
  {
    if n == 0 then mw else Middleware(handlers[n - 1], Chain(handlers, n - 1, mw))
  }

  /** AddRunTxRecoveryHandler */
  method AddHandlers(handlers: seq<Handler>, mw: Middleware) returns (r: Middleware)
    ensures r == Chain(handlers, |handlers|, mw)
  {
    r := mw;
    for i := 0 to |handlers|
      invariant r == Chain(handlers, i, mw)
    {
      r := Middleware(handlers[i], r);
    }
  }

  /** Handlers that do not process the panic pass it on to the rest of the chain. */
  lemma {:induction false} SilentHandlers(p: Panic, handlers: seq<Handler>, n: nat, mw: Middleware)
    requires n <= |handlers| && forall i :: 0 <= i < n ==> handlers[i](p).None?
    ensures ProcessRecovery(p, Chain(handlers, n, mw)) == ProcessRecovery(p, mw)
  {
    if n > 0 { SilentHandlers(p, handlers, n - 1, mw); }
  }

  /** The latest handler that processes the panic answers. */
  lemma {:induction false} LatestHandlerAnswers(p: Panic, handlers: seq<Handler>, i: nat, n: nat, mw: Middleware)
    requires i < n <= |handlers| && handlers[i](p).Some?
    requires forall j :: i < j < n ==> handlers[j](p).None?
    ensures ProcessRecovery(p, Chain(handlers, n, mw)) == handlers[i](p)
  {
    if i < n - 1 { LatestHandlerAnswers(p, handlers, i, n - 1, mw); }
  }

  /** Whatever handlers an application adds, runTx turns every panic into an error, and an
      out-of-gas panic into the out-of-gas error. */
  lemma {:induction false} EveryPanicIsAnError(p: Panic, handlers: seq<Handler>, n: nat)
    requires n <= |handlers|
    ensures ProcessRecovery(p, Chain(handlers, n, DefaultMiddleware())).Some?
    ensures var r := ProcessRecovery(p, OutOfGasMiddleware(Chain(handlers, n, DefaultMiddleware())));
            r.Some? && (p.OutOfGas? ==> r == Some(ERR_OUT_OF_GAS))
  {
    if n > 0 {
      EveryPanicIsAnError(p, handlers, n - 1);
    }
  }
}
