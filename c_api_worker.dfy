/** The JSON worker behind the C backend (`src/api_worker.c`): the resolve and simulate
    commands on a loaded `SystemState`. Each command's JSON reply is modelled by the value
    it carries (an error, the new state and detection result, a grant decision). */
module CApiWorker {
  import opened Wrappers
  import opened BankerState
  import opened Safety
  import opened Resolution
  import opened Avoidance
  import opened CDetector

  /** `pick_victim`: the first deadlocked process of minimum total allocation. The worker
      repeats the selection loop of `resolve_deadlock` line for line, so the scan is the
      state's own `PickMinimum`. */
  method PickVictim(state: SystemState, res: Detection) returns (victim: nat)
    requires state.Valid() && Below(res.deadlocked, state.numProcesses) && |res.deadlocked| > 0
    ensures victim == FirstMinimum(state.Abstract(), res.deadlocked, |res.deadlocked|)
    ensures IsFirstMinimum(state.Abstract(), res.deadlocked, |res.deadlocked|, victim)
  {
    victim := state.PickMinimum(res.deadlocked);
    FirstMinimumIsFirstMinimum(state.Abstract(), res.deadlocked, |res.deadlocked|);
  }

  /** `apply_victim`: every column of the victim's allocation goes back to Available, and
      its allocation and maximum claim become zero. */
  method ApplyVictim(state: SystemState, victim: nat)
    requires state.Valid() && victim < state.numProcesses
    modifies state.available, state.allocation, state.maxNeed
    ensures state.Valid()
    ensures state.Abstract() == Terminate(old(state.Abstract()), victim)
    ensures state.CornerOnly()
  {
    ghost var s := state.Abstract();
    ghost var t := Terminate(s, victim);
    var j := 0;
    while j < state.numResources
      invariant j <= state.numResources
      invariant forall l :: 0 <= l < j ==>
                  state.available[l] == t.available[l] && state.allocation[victim, l] == 0
                  && state.maxNeed[victim, l] == 0
      invariant forall l :: j <= l < MaxResources ==>
                  state.available[l] == old(state.available[l])
                  && state.allocation[victim, l] == old(state.allocation[victim, l])
                  && state.maxNeed[victim, l] == old(state.maxNeed[victim, l])
      invariant forall i, l :: 0 <= i < MaxProcesses && 0 <= l < MaxResources && i != victim ==>
                  state.allocation[i, l] == old(state.allocation[i, l])
                  && state.maxNeed[i, l] == old(state.maxNeed[i, l])
    {
      state.available[j] := state.available[j] + state.allocation[victim, j];
      state.allocation[victim, j] := 0;
      state.maxNeed[victim, j] := 0;
      j := j + 1;
    }
    ghost var a := state.Abstract();
    assert a.available == t.available;
    assert forall i :: 0 <= i < state.numProcesses ==> a.allocation[i] == t.allocation[i];
    assert forall i :: 0 <= i < state.numProcesses ==> a.maxNeed[i] == t.maxNeed[i];
  }

  /** The override check of `cmd_resolve`: the requested victim must be one of the
      deadlocked processes and a process index. */
  method VictimAllowed(deadlocked: seq<nat>, victim: int, numProcesses: nat) returns (ok: bool)
    ensures ok <==> 0 <= victim < numProcesses && Includes(deadlocked, victim as real)
  {
    var found := false;
    var i := 0;
    while i < |deadlocked|
      invariant i <= |deadlocked|
      invariant !found ==> forall k :: 0 <= k < i ==> deadlocked[k] != victim
      invariant found ==> Includes(deadlocked, victim as real)
    {
      if deadlocked[i] == victim {
        found := true;
        break;
      }
      i := i + 1;
    }
    ok := !(!found || victim < 0 || victim >= numProcesses);
  }

  /** The success path of `cmd_resolve`: terminate the victim and check the new state. */
  method TerminateAndDetect(state: SystemState, victim: nat) returns (newRes: Detection)
    requires state.Valid() && victim < state.numProcesses
    modifies state.available, state.allocation, state.maxNeed, state.need
    ensures state.Valid()
    ensures state.Abstract() == Terminate(old(state.Abstract()), victim)
    ensures newRes == Detect(state.Abstract())
    ensures state.CornerOnly()
  {
    ApplyVictim(state, victim);
    newRes := state.DetectDeadlock();
  }

  /** The override as the resolve request carries it: absent when negative. */
  function Requested(victimOverride: int): (requested: Option<real>)
    ensures requested.Some? <==> victimOverride >= 0
    ensures requested.Some? ==> requested.value.Floor == victimOverride
  {
    if victimOverride < 0 then None else Some(victimOverride as real)
  }

  /** Victim choice of `cmd_resolve` on the detection result of the loaded state: the
      refusal, or the victim the resolution round terminates. */
  method ChooseVictim(state: SystemState, ghost s: State, res: Detection, victimOverride: int)
    returns (choice: Result<nat, ResolveError>)
    requires state.Valid() && s == state.Abstract() && res == Detect(s)
    ensures choice.Err? ==> Resolve(s, Requested(victimOverride)) == Err(choice.error)
    ensures choice.Ok? ==> choice.value < s.numProcesses
    ensures choice.Ok? ==> Resolve(s, Requested(victimOverride)) == Ok(Round(s, choice.value))
  {
    DetectDeadlockedBelow(s);
    if !res.isDeadlocked || |res.deadlocked| == 0 {
      return Err(NotDeadlocked);
    }
    var victim: nat;
    if victimOverride < 0 {
      victim := PickVictim(state, res);
      assert victim == FirstMinimum(s, Detect(s).deadlocked, |Detect(s).deadlocked|);
      ResolveChosen(s, None, victim);
    } else {
      var ok := VictimAllowed(res.deadlocked, victimOverride, state.numProcesses);
      if !ok {
        return Err(InvalidVictim(res.deadlocked));
      }
      victim := victimOverride;
      ResolveChosen(s, Some(victimOverride as real), victim);
    }
    choice := Ok(victim);
  }

  /** `cmd_resolve`: a negative override means "pick the victim"; any other override must
      name a deadlocked process. The outcome is exactly one resolution round on the state
      as loaded, and on success the state has become the round's new state. */
  method CmdResolve(state: SystemState, victimOverride: int) returns (outcome: Result<Resolved, ResolveError>)
    requires state.Valid()
    modifies state.available, state.allocation, state.maxNeed, state.need
    ensures state.Valid()
    ensures outcome == Resolve(old(state.Abstract()), Requested(victimOverride))
    ensures outcome.Ok? ==> state.Abstract() == outcome.value.state
    ensures outcome.Err? ==> state.Abstract() == old(state.Abstract())
    ensures state.CornerOnly()
  {
    ghost var s0 := state.Abstract();
    state.CalculateNeedMatrix();
    var res := state.DetectDeadlock();
    assert state.Abstract() == s0;
    var choice := ChooseVictim(state, s0, res, victimOverride);
    if choice.Err? {
      return Err(choice.error);
    }
    ghost var t := Terminate(s0, choice.value);
    var newRes := TerminateAndDetect(state, choice.value);
    assert state.Abstract() == t && newRes == Detect(t);
    outcome := Ok(Resolved(state.Abstract(), newRes, choice.value));
  }

  /** The two in-place updates of a tentative grant: Available[rj] loses `delta` and
      Allocation[pi][rj] gains it (a negative `delta` undoes an earlier grant). */
  method Adjust(state: SystemState, pi: nat, rj: nat, delta: int)
    requires state.Valid() && pi < state.numProcesses && rj < state.numResources
    modifies state.available, state.allocation
    ensures state.Valid()
    ensures state.Abstract() == Tentative(old(state.Abstract()), pi, rj, delta)
    ensures forall l :: 0 <= l < MaxResources ==>
              state.available[l] == old(state.available[l]) - (if l == rj then delta else 0)
    ensures forall i, l :: 0 <= i < MaxProcesses && 0 <= l < MaxResources ==>
              state.allocation[i, l] == old(state.allocation[i, l]) + (if i == pi && l == rj then delta else 0)
  {
    ghost var t := Tentative(state.Abstract(), pi, rj, delta);
    state.available[rj] := state.available[rj] - delta;
    state.allocation[pi, rj] := state.allocation[pi, rj] + delta;
    ghost var a := state.Abstract();
    assert a.available == t.available;
    assert a.allocation[pi] == t.allocation[pi];
    assert forall i :: 0 <= i < state.numProcesses ==> a.allocation[i] == t.allocation[i];
  }

  /** Available and Allocation hold what they held in the earlier state. */
  twostate predicate Restored(state: SystemState)
    reads state, state.available, state.allocation
    requires state.Valid()
  {
    && (forall l :: 0 <= l < MaxResources ==> state.available[l] == old(state.available[l]))
    && (forall i, l :: 0 <= i < MaxProcesses && 0 <= l < MaxResources ==>
          state.allocation[i, l] == old(state.allocation[i, l]))
  }

  /** The tentative grant of `cmd_simulate`: apply the request, run the safety check on
      the result, and take the request back. */
  method TryGrant(state: SystemState, pi: nat, rj: nat, amount: int) returns (safe: bool)
    requires state.Valid() && pi < state.numProcesses && rj < state.numResources
    modifies state.available, state.allocation, state.need
    ensures state.Valid()
    ensures safe == !Detect(Tentative(old(state.Abstract()), pi, rj, amount)).isDeadlocked
    ensures Restored(state)
    ensures forall i, j :: state.OutsideCorner(i, j) ==> state.need[i, j] == old(state.need[i, j])
    ensures forall i, j :: 0 <= i < state.numProcesses && 0 <= j < state.numResources ==>
              state.need[i, j] == state.maxNeed[i, j] - state.allocation[i, j] - (if i == pi && j == rj then amount else 0)
  {
    ghost var t := Tentative(state.Abstract(), pi, rj, amount);
    Adjust(state, pi, rj, amount);
    label Granted:
    var res := state.DetectDeadlock();
    assert unchanged@Granted(state.available, state.allocation);
    assert state.Abstract() == t;
    safe := !res.isDeadlocked;
    Adjust(state, pi, rj, -amount);
  }

  /** `cmd_simulate`: refuse a malformed request, a request above Available (compared as
      unsigned numbers) or above the remaining Need; otherwise grant it tentatively, run
      the safety check, and take the grant back. Available and Allocation end as they
      began; `need` keeps whatever the last Need computation left in it. */
  method CmdSimulate(state: SystemState, pi: int, rj: int, amount: int) returns (outcome: SimOutcome)
    requires state.Valid()
    modifies state.available, state.allocation, state.need
    ensures state.Valid()
    ensures outcome == Simulate(old(state.Abstract()), pi, rj, amount)
    ensures Restored(state)
    ensures forall i, j :: state.OutsideCorner(i, j) ==> state.need[i, j] == old(state.need[i, j])
    ensures outcome.reason == InvalidRequest || outcome.reason == ExceedsAvailable ==> unchanged(state.need)
    ensures outcome.reason == ExceedsNeed ==> state.NeedComputed()
    ensures outcome.reason == KeepsSafe || outcome.reason == LeadsToUnsafe ==>
              forall i, j :: 0 <= i < state.numProcesses && 0 <= j < state.numResources ==>
                state.need[i, j] == state.maxNeed[i, j] - state.allocation[i, j] - (if i == pi && j == rj then amount else 0)
  {
    ghost var s := state.Abstract();
    if amount <= 0 || pi < 0 || pi >= state.numProcesses || rj < 0 || rj >= state.numResources {
      return SimOutcome(false, false, InvalidRequest);
    }
    if ToUnsigned32(amount) > ToUnsigned32(state.available[rj]) {
      return SimOutcome(false, false, ExceedsAvailable);
    }
    state.CalculateNeedMatrix();
    var needVal := state.need[pi, rj];
    assert needVal == NeedRow(s, pi)[rj];
    if amount > needVal {
      outcome := SimOutcome(false, false, ExceedsNeed);
      assert outcome == Simulate(s, pi, rj, amount);
      return;
    }
    var safe := TryGrant(state, pi, rj, amount);
    if safe {
      outcome := SimOutcome(true, true, KeepsSafe);
    } else {
      outcome := SimOutcome(false, false, LeadsToUnsafe);
    }
    assert outcome == Simulate(s, pi, rj, amount);
  }
}
