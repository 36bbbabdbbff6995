// Arrival times: an exact real number, or infinity for a cell that no wave reaches.
module Times {

  datatype Time = Fin(t: real) | Inf

  predicate Le(a: Time, b: Time) {
    b.Inf? || (a.Fin? && a.t <= b.t)
  }

  predicate Lt(a: Time, b: Time) {
    !Le(b, a)
  }

  function Min(a: Time, b: Time): Time {
    if Le(a, b) then a else b
  }

  function Max(a: Time, b: Time): Time {
    if Le(a, b) then b else a
  }

  function Plus(a: Time, d: real): Time {
    if a.Fin? then Fin(a.t + d) else Inf
  }
}
