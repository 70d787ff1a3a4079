/** Deadlock resolution by terminating one victim: the victim-selection policy shared by
    all three copies of the min-search loop, and the two release effects found in the
    source (the whole row, and only the columns the victim held). */
module Resolution {
  import opened Wrappers
  import opened BankerState
  import opened Safety
  import opened SafetyClosure

  /** The candidate a running-minimum scan over the first n candidates keeps: a later
      candidate replaces the current one only when its total allocation is strictly
      smaller. */
  function FirstMinimum(s: State, candidates: seq<nat>, n: nat): (v: nat)
    requires Shaped(s) && Below(candidates, s.numProcesses) && 0 < n <= |candidates|
    ensures v in candidates[..n] && v < s.numProcesses
  {
    if n == 1 then candidates[0]
    else
      var m := FirstMinimum(s, candidates, n - 1);
      if TotalHeld(s, candidates[n - 1]) < TotalHeld(s, m) then candidates[n - 1] else m
  }

  /** v is, among the first n candidates, one of minimum total allocation, and no earlier
      candidate ties it. */
  ghost predicate IsFirstMinimum(s: State, candidates: seq<nat>, n: nat, v: nat)
    requires Shaped(s) && Below(candidates, s.numProcesses) && n <= |candidates|
  {
    exists k :: 0 <= k < n && candidates[k] == v
      && (forall m :: 0 <= m < n ==> TotalHeld(s, v) <= TotalHeld(s, candidates[m]))
      && (forall m :: 0 <= m < k ==> TotalHeld(s, v) < TotalHeld(s, candidates[m]))
  }

  /** The scan picks the first candidate of minimum total allocation. */
  lemma {:induction false} FirstMinimumIsFirstMinimum(s: State, candidates: seq<nat>, n: nat)
    requires Shaped(s) && Below(candidates, s.numProcesses) && 0 < n <= |candidates|
    ensures IsFirstMinimum(s, candidates, n, FirstMinimum(s, candidates, n))
  {
    if n == 1 {
      assert candidates[0] == FirstMinimum(s, candidates, n);
    } else {
      FirstMinimumIsFirstMinimum(s, candidates, n - 1);
      var m := FirstMinimum(s, candidates, n - 1);
      var k :| 0 <= k < n - 1 && candidates[k] == m
               && (forall t :: 0 <= t < n - 1 ==> TotalHeld(s, m) <= TotalHeld(s, candidates[t]))
               && (forall t :: 0 <= t < k ==> TotalHeld(s, m) < TotalHeld(s, candidates[t]));
      if TotalHeld(s, candidates[n - 1]) >= TotalHeld(s, m) {
        assert candidates[k] == m;
      }
    }
  }

  /** At most one candidate is the first of minimum total allocation. */
  lemma FirstMinimumUnique(s: State, candidates: seq<nat>, n: nat, v1: nat, v2: nat)
    requires Shaped(s) && Below(candidates, s.numProcesses) && n <= |candidates|
    requires IsFirstMinimum(s, candidates, n, v1) && IsFirstMinimum(s, candidates, n, v2)
    ensures v1 == v2
  {
    var k1 :| 0 <= k1 < n && candidates[k1] == v1
      && (forall m :: 0 <= m < n ==> TotalHeld(s, v1) <= TotalHeld(s, candidates[m]))
      && (forall m :: 0 <= m < k1 ==> TotalHeld(s, v1) < TotalHeld(s, candidates[m]));
    var k2 :| 0 <= k2 < n && candidates[k2] == v2
      && (forall m :: 0 <= m < n ==> TotalHeld(s, v2) <= TotalHeld(s, candidates[m]))
      && (forall m :: 0 <= m < k2 ==> TotalHeld(s, v2) < TotalHeld(s, candidates[m]));
    assert TotalHeld(s, v1) <= TotalHeld(s, candidates[k2]);
    assert TotalHeld(s, v2) <= TotalHeld(s, candidates[k1]);
  }

  /** Termination of victim v as the TypeScript engine and the C API worker do it: v's
      whole allocation returns to Available, and v's allocation and maximum rows become
      zero. */
  function Terminate(s: State, v: nat): (t: State)
    requires Shaped(s) && v < s.numProcesses
    ensures Shaped(t) && t.numProcesses == s.numProcesses && t.numResources == s.numResources
  {
    s.(available := Release(s.available, s.allocation[v]),
       allocation := s.allocation[v := Zeros(s.numResources)],
       maxNeed := s.maxNeed[v := Zeros(s.numResources)])
  }

  /** Termination as the interactive C console does it: only the columns in which v holds
      something are released and zeroed; v's maximum claim in the other columns stays. */
  function ReleaseHeld(s: State, v: nat): (t: State)
    requires Shaped(s) && v < s.numProcesses
    ensures Shaped(t) && t.numProcesses == s.numProcesses && t.numResources == s.numResources
  {
    var held := s.allocation[v];
    var r := s.numResources;
    s.(available := seq(r, j requires 0 <= j < r => if held[j] > 0 then s.available[j] + held[j] else s.available[j]),
       allocation := s.allocation[v := seq(r, j requires 0 <= j < r => if held[j] > 0 then 0 else held[j])],
       maxNeed := s.maxNeed[v := seq(r, j requires 0 <= j < r => if held[j] > 0 then 0 else s.maxNeed[v][j])])
  }

  /** What termination changes: Available gains v's allocation, v's rows become zero and
      every other row is kept; the result is again a valid state. */
  lemma TerminateEffect(s: State, v: nat)
    requires Valid(s) && v < s.numProcesses
    ensures var t := Terminate(s, v);
            && Valid(t)
            && t.numProcesses == s.numProcesses && t.numResources == s.numResources
            && (forall j :: 0 <= j < s.numResources ==> t.available[j] == s.available[j] + s.allocation[v][j])
            && (forall j :: 0 <= j < s.numResources ==> t.allocation[v][j] == 0 && t.maxNeed[v][j] == 0)
            && (forall i :: 0 <= i < s.numProcesses && i != v ==>
                  t.allocation[i] == s.allocation[i] && t.maxNeed[i] == s.maxNeed[i])
  {
  }

  /** After termination the victim is never reported deadlocked: its Need row is zero. */
  lemma TerminateFreesVictim(s: State, v: nat)
    requires Valid(s) && v < s.numProcesses
    ensures v !in Detect(Terminate(s, v)).deadlocked
  {
    TerminateEffect(s, v);
    ZeroNeedNeverDeadlocked(Terminate(s, v), v);
  }

  /** The interactive release keeps the state valid. */
  lemma ReleaseHeldValid(s: State, v: nat)
    requires Valid(s) && v < s.numProcesses
    ensures Valid(ReleaseHeld(s, v))
  {
  }

  /** The two release effects agree exactly when the victim claims nothing in the columns
      where it holds nothing. */
  lemma ReleaseHeldIsTerminate(s: State, v: nat)
    requires Valid(s) && v < s.numProcesses
    ensures ReleaseHeld(s, v) == Terminate(s, v) <==>
            forall j :: 0 <= j < s.numResources && s.allocation[v][j] == 0 ==> s.maxNeed[v][j] == 0
  {
    var a := ReleaseHeld(s, v);
    var t := Terminate(s, v);
    if forall j :: 0 <= j < s.numResources && s.allocation[v][j] == 0 ==> s.maxNeed[v][j] == 0 {
      assert a.available == t.available;
      assert a.allocation[v] == t.allocation[v];
      assert a.maxNeed[v] == t.maxNeed[v];
      assert a.allocation == t.allocation;
      assert a.maxNeed == t.maxNeed;
    } else {
      var j :| 0 <= j < s.numResources && s.allocation[v][j] == 0 && s.maxNeed[v][j] != 0;
      assert a.maxNeed[v][j] != t.maxNeed[v][j];
    }
  }

  /** Whether the victim a caller asked for is a deadlocked process (`includes` compares
      the JSON number with each index). */
  predicate Includes(xs: seq<nat>, x: real) {
    exists k :: 0 <= k < |xs| && xs[k] as real == x
  }

  datatype ResolveError =
    | NotDeadlocked                       // "State is not deadlocked; resolution not applicable."
    | InvalidVictim(deadlocked: seq<nat>) // the requested victim is not a deadlocked index

  /** The new state, the safety check on it, and the terminated process. */
  datatype Resolved = Resolved(state: State, result: Detection, victim: nat)

  /** One resolution round: refuse a state that is not deadlocked, take the requested
      victim if it is a deadlocked process (or refuse), otherwise pick the first
      deadlocked process of minimum total allocation; terminate it and check again. */
  function Resolve(s: State, requested: Option<real>): Result<Resolved, ResolveError>
    requires Shaped(s)
  {
    var d := Detect(s);
    DetectPartition(s);
    if !d.isDeadlocked || |d.deadlocked| == 0 then Err(NotDeadlocked)
    else if requested.Some? &&
            (requested.value < 0.0 || requested.value >= s.numProcesses as real ||
             !Includes(d.deadlocked, requested.value)) then
      Err(InvalidVictim(d.deadlocked))
    else
      var v: nat := if requested.Some? then requested.value.Floor
                    else FirstMinimum(s, d.deadlocked, |d.deadlocked|);
      Ok(Round(s, v))
  }

  /** The round on a settled victim: terminate it and check the new state. */
  function Round(s: State, v: nat): (r: Resolved)
    requires Shaped(s) && v < s.numProcesses
    ensures r.victim == v && Shaped(r.state) && r.result == Detect(r.state)
  {
    var t := Terminate(s, v);
    Resolved(t, Detect(t), v)
  }

  /** Once a victim is settled, the round terminates it and checks the new state. */
  lemma ResolveChosen(s: State, requested: Option<real>, v: nat)
    requires Shaped(s) && Detect(s).isDeadlocked && |Detect(s).deadlocked| > 0
    requires requested.None? ==> Below(Detect(s).deadlocked, s.numProcesses) &&
                                 v == FirstMinimum(s, Detect(s).deadlocked, |Detect(s).deadlocked|)
    requires requested.Some? ==> v < s.numProcesses && Includes(Detect(s).deadlocked, requested.value) &&
                                 v as real == requested.value
    ensures Resolve(s, requested) == Ok(Round(s, v))
  {
  }

  /** Terminating a process outside `order` adds its allocation to Work at every point of
      the replay of `order`. */
  lemma {:induction false} ReleaseAllTerminate(s: State, v: nat, order: seq<nat>)
    requires Valid(s) && v < s.numProcesses && Below(order, s.numProcesses) && v !in order
    ensures forall j :: 0 <= j < s.numResources ==>
              ReleaseAll(Terminate(s, v), Terminate(s, v).available, order)[j]
              == ReleaseAll(s, s.available, order)[j] + s.allocation[v][j]
  {
    if order != [] {
      var o' := order[..|order| - 1];
      assert forall x :: x in o' ==> x in order;
      ReleaseAllTerminate(s, v, o');
    }
  }

  /** A safe order of the old state that avoids the victim stays safe after termination:
      Needs are unchanged and Work only grows. */
  lemma {:induction false} SafeOrderTerminate(s: State, v: nat, order: seq<nat>)
    requires Valid(s) && v < s.numProcesses && Below(order, s.numProcesses) && v !in order
    requires SafeOrder(s, s.available, order)
    ensures SafeOrder(Terminate(s, v), Terminate(s, v).available, order)
  {
    if order != [] {
      var t := Terminate(s, v);
      var o' := order[..|order| - 1];
      var x := order[|order| - 1];
      assert forall y :: y in o' ==> y in order;
      SafeOrderTerminate(s, v, o');
      ReleaseAllTerminate(s, v, o');
      assert NeedRow(t, x) == NeedRow(s, x);
    }
  }

  /** Progress of a resolution round: the processes deadlocked after terminating a
      deadlocked victim were all deadlocked before, and the victim is not among them. */
  lemma TerminateShrinksDeadlock(s: State, v: nat)
    requires Valid(s) && v in Detect(s).deadlocked
    ensures v < s.numProcesses
    ensures forall i :: i in Detect(Terminate(s, v)).deadlocked ==> i in Detect(s).deadlocked && i != v
  {
    DetectPartition(s);
    var t := Terminate(s, v);
    var o2 := Detect(s).safeSequence + [v];
    TerminatedOrderSafe(s, v);
    DetectReached(t);
    SafeOrderContained(t, o2, Detect(t).safeSequence);
    DetectPartition(t);
    forall i | i in Detect(t).deadlocked
      ensures i in Detect(s).deadlocked && i != v
    {
      assert i !in o2;
    }
  }

  /** After terminating a deadlocked victim, the old safe sequence followed by the victim
      is a safe order of the new state. */
  lemma TerminatedOrderSafe(s: State, v: nat)
    requires Valid(s) && v < s.numProcesses && v in Detect(s).deadlocked
    requires Below(Detect(s).safeSequence, s.numProcesses)
    ensures Valid(Terminate(s, v))
    ensures SafeOrder(Terminate(s, v), Terminate(s, v).available, Detect(s).safeSequence + [v])
  {
    DetectPartition(s);
    DetectSound(s);
    var t := Terminate(s, v);
    var o := Detect(s).safeSequence;
    TerminateEffect(s, v);
    SafeOrderTerminate(s, v, o);
    var o2 := o + [v];
    assert o2[..|o2| - 1] == o;
    WorkNonnegative(t, o);
    assert NeedRow(t, v) == Zeros(s.numResources);
  }

  /** The outcomes of a resolution round on a valid state. */
  lemma ResolveOutcomes(s: State, requested: Option<real>)
    requires Valid(s)
    ensures Below(Detect(s).deadlocked, s.numProcesses)
    ensures var d := Detect(s);
            && (Resolve(s, requested) == Err(NotDeadlocked) <==> !d.isDeadlocked)
            && (Resolve(s, requested) == Err(InvalidVictim(d.deadlocked)) <==>
                  d.isDeadlocked && requested.Some? && !Includes(d.deadlocked, requested.value))
    ensures var d := Detect(s);
            Resolve(s, requested).Ok? ==>
              var res := Resolve(s, requested).value;
              && res.victim in d.deadlocked
              && (requested.Some? ==> res.victim as real == requested.value)
              && (requested.None? ==> IsFirstMinimum(s, d.deadlocked, |d.deadlocked|, res.victim))
              && res.state == Terminate(s, res.victim)
              && res.result == Detect(res.state)
              && (forall i :: i in res.result.deadlocked ==> i in d.deadlocked && i != res.victim)
  {
    var d := Detect(s);
    DetectPartition(s);
    if d.isDeadlocked {
      match requested
      case None =>
        FirstMinimumIsFirstMinimum(s, d.deadlocked, |d.deadlocked|);
        var v := FirstMinimum(s, d.deadlocked, |d.deadlocked|);
        TerminateShrinksDeadlock(s, v);
      case Some(x) =>
        if Includes(d.deadlocked, x) {
          var k :| 0 <= k < |d.deadlocked| && d.deadlocked[k] as real == x;
          assert x.Floor == d.deadlocked[k];
          TerminateShrinksDeadlock(s, d.deadlocked[k]);
        }
    }
  }
}
