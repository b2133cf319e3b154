/** Gas meters (store/types/gas.go) over unsigned 64-bit counters. */
module GasMeter {
  import opened Wrappers

  const MAX_UINT64: nat := 0xFFFF_FFFF_FFFF_FFFF

  type Gas = x: nat | x <= MAX_UINT64 witness 0

  datatype Panic = OutOfGas(descriptor: string) | GasOverflow(descriptor: string) | Fault(object: string)

  datatype Meter = Basic(limit: Gas, consumed: Gas) | Infinite(consumed: Gas)

  function Limit(m: Meter): Gas {
    if m.Basic? then m.limit else 0
  }

  predicate IsPastLimit(m: Meter) {
    m.Basic? && m.consumed > m.limit
  }

  predicate IsOutOfGas(m: Meter) {
    m.Basic? && m.consumed >= m.limit
  }

  /** The smaller of consumption and limit, if there is a limit. */
  function ConsumedToLimit(m: Meter): (r: Gas)
    ensures r <= m.consumed && (m.Basic? ==> r <= m.limit)
    ensures r == m.consumed || (m.Basic? && r == m.limit)
  {
    if IsPastLimit(m) then m.limit else m.consumed
  }

  /** The meter after ConsumeGas and the panic it raises, if any.  On overflow a basic meter
      saturates and an infinite one drops to zero. */
  function Consume(m: Meter, amount: Gas, descriptor: string): (r: (Meter, Option<Panic>))
    ensures r.0.Basic? == m.Basic? && Limit(r.0) == Limit(m)
    ensures r.1.None? ==> r.0.consumed as int == m.consumed + amount
    ensures m.Basic? && m.limit < MAX_UINT64 ==> (r.1.None? <==> !IsPastLimit(r.0))
  {
    var overflow := MAX_UINT64 - m.consumed < amount;
    match m
    case Basic(limit, consumed) =>
      if overflow then (Basic(limit, MAX_UINT64), Some(GasOverflow(descriptor)))
      else
        var m' := Basic(limit, consumed + amount);
        (m', if IsPastLimit(m') then Some(OutOfGas(descriptor)) else None)
    case Infinite(consumed) =>
      if overflow then (Infinite(0), Some(GasOverflow(descriptor))) else (Infinite(consumed + amount), None)
  }
}
