/** Deadlock avoidance: whether a single request of `amount` units of resource rj by
    process pi may be granted, decided by tentatively granting it and running the safety
    check on the result. */
module Avoidance {
  import opened BankerState
  import opened Safety
  import opened SafetyClosure

  const TwoTo32: int := 0x1_0000_0000

  /** The conversion of a C `int` to `unsigned`: the value modulo 2^32. */
  function ToUnsigned32(x: int): (u: nat)
    ensures u < TwoTo32
    ensures 0 <= x < TwoTo32 ==> u == x
    ensures -TwoTo32 <= x < 0 ==> u == x + TwoTo32
  {
    x % TwoTo32
  }

  /** Why the request was granted or refused. */
  datatype SimReason = InvalidRequest | ExceedsAvailable | ExceedsNeed | KeepsSafe | LeadsToUnsafe

  datatype SimOutcome = SimOutcome(granted: bool, isSafe: bool, reason: SimReason)

  /** The state with the request granted: Available[rj] drops and Allocation[pi][rj] grows
      by `amount`. */
  function Tentative(s: State, pi: nat, rj: nat, amount: int): (t: State)
    requires Shaped(s) && pi < s.numProcesses && rj < s.numResources
    ensures Shaped(t) && t.numProcesses == s.numProcesses && t.numResources == s.numResources
    ensures t.available[rj] + t.allocation[pi][rj] == s.available[rj] + s.allocation[pi][rj]
  {
    s.(available := s.available[rj := s.available[rj] - amount],
       allocation := s.allocation[pi := s.allocation[pi][rj := s.allocation[pi][rj] + amount]])
  }

  /** The decision of the simulate command, check by check; the comparison with Available
      is made on the unsigned conversions of both operands. */
  function Simulate(s: State, pi: int, rj: int, amount: int): (o: SimOutcome)
    requires Shaped(s)
    ensures o.isSafe == o.granted
    ensures o.granted <==> o.reason == KeepsSafe
  {
    if amount <= 0 || pi < 0 || pi >= s.numProcesses || rj < 0 || rj >= s.numResources then
      SimOutcome(false, false, InvalidRequest)
    else if ToUnsigned32(amount) > ToUnsigned32(s.available[rj]) then
      SimOutcome(false, false, ExceedsAvailable)
    else if amount > NeedRow(s, pi)[rj] then
      SimOutcome(false, false, ExceedsNeed)
    else if Detect(Tentative(s, pi, rj, amount)).isDeadlocked then
      SimOutcome(false, false, LeadsToUnsafe)
    else
      SimOutcome(true, true, KeepsSafe)
  }

  /** A request that names an existing process and resource, asks for a positive amount,
      and stays within both Available and the process's remaining Need. */
  predicate Admissible(s: State, pi: int, rj: int, amount: int)
    requires Shaped(s)
  {
    && 0 <= pi < s.numProcesses && 0 <= rj < s.numResources
    && 0 < amount <= s.available[rj]
    && amount <= NeedRow(s, pi)[rj]
  }

  /** Granting an admissible request keeps the state valid. */
  lemma TentativeValid(s: State, pi: int, rj: int, amount: int)
    requires Valid(s) && Admissible(s, pi, rj, amount)
    ensures Valid(Tentative(s, pi, rj, amount))
  {
    var t := Tentative(s, pi, rj, amount);
    forall i, j | 0 <= i < t.numProcesses && 0 <= j < t.numResources
      ensures 0 <= t.allocation[i][j] <= t.maxNeed[i][j]
    {
      if i == pi && j == rj {
        assert NeedRow(s, pi)[rj] == s.maxNeed[pi][rj] - s.allocation[pi][rj];
      }
    }
  }

  /** On a valid state whose numbers fit in 32 bits, a request is granted exactly when it
      is admissible and, once granted, some order still lets every process finish; the
      reported safety flag always equals the grant. */
  lemma SimulateGrantsExactlySafeRequests(s: State, pi: int, rj: int, amount: int)
    requires Valid(s) && amount < TwoTo32
    requires forall j :: 0 <= j < s.numResources ==> s.available[j] < TwoTo32
    ensures Simulate(s, pi, rj, amount).isSafe == Simulate(s, pi, rj, amount).granted
    ensures Simulate(s, pi, rj, amount).granted <==>
            Admissible(s, pi, rj, amount) && exists o :: CompleteSafeOrder(Tentative(s, pi, rj, amount), o)
  {
    if Admissible(s, pi, rj, amount) {
      TentativeValid(s, pi, rj, amount);
      SafeIffCompleteOrder(Tentative(s, pi, rj, amount));
    }
  }

  /** Each refusal reason names a check that really failed. */
  lemma SimulateRefusalReasons(s: State, pi: int, rj: int, amount: int)
    requires Valid(s) && amount < TwoTo32
    requires forall j :: 0 <= j < s.numResources ==> s.available[j] < TwoTo32
    ensures var r := Simulate(s, pi, rj, amount);
            && (r.reason == InvalidRequest <==>
                  amount <= 0 || pi < 0 || pi >= s.numProcesses || rj < 0 || rj >= s.numResources)
            && (r.reason == ExceedsAvailable ==> amount > s.available[rj])
            && (r.reason == ExceedsNeed ==> amount <= s.available[rj] && amount > NeedRow(s, pi)[rj])
            && (r.reason == LeadsToUnsafe ==>
                  Admissible(s, pi, rj, amount) && Detect(Tentative(s, pi, rj, amount)).isDeadlocked)
  {
  }
}
