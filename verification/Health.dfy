/** Timebase health verdicts and their escalation order. */
module Health {
  datatype Health = Ok | Degraded | Faulted

  function Rank(h: Health): (r: nat)
    ensures r <= 2
  {
    match h
    case Ok => 0
    case Degraded => 1
    case Faulted => 2
  }

  function Worse(a: Health, b: Health): Health { if Rank(b) > Rank(a) then b else a }
}
