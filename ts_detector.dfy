/** The TypeScript detection engine (`api/src/detector.ts`): the batch check, the
    one-victim resolution and the single step, each proved equal to its specification. */
module TsDetector {
  import opened Wrappers
  import opened BankerState
  import opened Safety
  import opened StepSafety
  import opened Resolution

  /** `canSatisfy`: Need <= Work in every one of the first numResources columns. */
  method CanSatisfy(need: seq<int>, work: seq<int>, numResources: nat) returns (ok: bool)
    requires numResources <= |need| && numResources <= |work|
    ensures ok <==> Covers(need, work, numResources)
  {
    var j := 0;
    while j < numResources
      invariant j <= numResources
      invariant Covers(need, work, j)
    {
      if need[j] > work[j] {
        return false;
      }
      j := j + 1;
    }
    return true;
  }

  /** The nested loops that fill `need[i][j] = max_need[i][j] - allocation[i][j]`. */
  method ComputeNeed(req: State) returns (need: seq<seq<int>>)
    requires Shaped(req)
    ensures need == NeedMatrix(req)
  {
    need := [];
    var i := 0;
    while i < req.numProcesses
      invariant i <= req.numProcesses
      invariant |need| == i && forall k :: 0 <= k < i ==> need[k] == NeedRow(req, k)
    {
      var row: seq<int> := [];
      var j := 0;
      while j < req.numResources
        invariant j <= req.numResources
        invariant |row| == j
        invariant forall l :: 0 <= l < j ==> row[l] == req.maxNeed[i][l] - req.allocation[i][l]
      {
        row := row + [req.maxNeed[i][j] - req.allocation[i][j]];
        j := j + 1;
      }
      need := need + [row];
      i := i + 1;
    }
  }

  /** `work[j] += allocation[i][j]` for every column. */
  method ReleaseInto(work: seq<int>, held: seq<int>) returns (w: seq<int>)
    requires |work| <= |held|
    ensures w == Release(work, held)
  {
    w := work;
    var j := 0;
    while j < |work|
      invariant j <= |work| && |w| == |work|
      invariant forall l :: 0 <= l < j ==> w[l] == work[l] + held[l]
      invariant forall l :: j <= l < |work| ==> w[l] == work[l]
    {
      w := w[j := w[j] + held[j]];
      j := j + 1;
    }
  }

  /** The loop that lists the unfinished indices in ascending order. */
  method CollectUnfinished(finish: seq<bool>, n: nat) returns (u: seq<nat>)
    requires n <= |finish|
    ensures u == Unfinished(finish, n)
  {
    u := [];
    var i := 0;
    while i < n
      invariant i <= n && u == Unfinished(finish, i)
    {
      if !finish[i] {
        u := u + [i];
      }
      i := i + 1;
    }
  }

  /** `detectDeadlock`: repeated passes over the processes in index order until a pass
      finishes nobody; the unfinished processes are the deadlocked ones. */
  method DetectDeadlock(req: State) returns (r: Detection)
    requires Shaped(req)
    ensures r == Detect(req)
    ensures r.isDeadlocked <==> r.deadlocked != []
    ensures Distinct(r.safeSequence) && Below(r.safeSequence, req.numProcesses)
    ensures Ascending(r.deadlocked) && Below(r.deadlocked, req.numProcesses)
    ensures forall i :: 0 <= i < req.numProcesses ==> (i in r.deadlocked <==> i !in r.safeSequence)
    ensures |r.safeSequence| + |r.deadlocked| == req.numProcesses
    ensures SafeOrder(req, req.available, r.safeSequence)
  {
    var need := ComputeNeed(req);
    var work := req.available;
    var finish := seq(req.numProcesses, _ => false);
    var safeSequence: seq<nat> := [];
    while true
      invariant |work| == req.numResources && |finish| == req.numProcesses
      invariant Converge(req, Scan(work, finish, safeSequence, false)) == Converge(req, Initial(req))
      decreases CountUnfinished(finish)
    {
      ghost var start := Scan(work, finish, safeSequence, false);
      var found := false;
      var i := 0;
      while i < req.numProcesses
        invariant i <= req.numProcesses
        invariant |work| == req.numResources && |finish| == req.numProcesses
        invariant Pass(req, i, Scan(work, finish, safeSequence, found)) == Pass(req, 0, start)
      {
        work, finish, safeSequence, found := VisitProcess(req, need, i, work, finish, safeSequence, found);
        i := i + 1;
      }
      if !found {
        break;
      }
    }
    var deadlocked := CollectUnfinished(finish, req.numProcesses);
    r := Detection(|deadlocked| > 0, deadlocked, safeSequence, |safeSequence|);
    DetectPartition(req);
    DetectSound(req);
  }

  /** The body of the inner loop of `detectDeadlock` at process i: an unfinished process
      whose Need is covered by Work releases its allocation, is marked finished and is
      appended to the safe sequence. */
  method VisitProcess(req: State, need: seq<seq<int>>, i: nat, work: seq<int>, finish: seq<bool>,
                      safeSequence: seq<nat>, found: bool)
    returns (work': seq<int>, finish': seq<bool>, safeSequence': seq<nat>, found': bool)
    requires Shaped(req) && need == NeedMatrix(req) && i < req.numProcesses
    requires |work| == req.numResources && |finish| == req.numProcesses
    ensures |work'| == req.numResources && |finish'| == req.numProcesses
    ensures Scan(work', finish', safeSequence', found') == Visit(req, i, Scan(work, finish, safeSequence, found))
  {
    work', finish', safeSequence', found' := work, finish, safeSequence, found;
    var ok := false;
    if !finish[i] {
      ok := CanSatisfy(need[i], work, req.numResources);
    }
    if ok {
      work' := ReleaseInto(work, req.allocation[i]);
      finish' := finish[i := true];
      safeSequence' := safeSequence + [i];
      found' := true;
    }
  }

  /** `total += allocation[i][j]` over the first n columns. */
  method SumRow(row: seq<int>, n: nat) returns (total: int)
    requires n <= |row|
    ensures total == RowSum(row, n)
  {
    total := 0;
    var j := 0;
    while j < n
      invariant j <= n && total == RowSum(row, j)
    {
      total := total + row[j];
      j := j + 1;
    }
  }

  /** The victim search: `minTotal` starts at Infinity (written None) and a deadlocked
      process replaces the current victim only on a strictly smaller total. */
  method MinimumVictim(req: State, deadlocked: seq<nat>) returns (victim: nat)
    requires Shaped(req) && |deadlocked| > 0 && Below(deadlocked, req.numProcesses)
    ensures victim == FirstMinimum(req, deadlocked, |deadlocked|)
    ensures IsFirstMinimum(req, deadlocked, |deadlocked|, victim)
  {
    var minTotal: Option<int> := None;
    victim := deadlocked[0];
    var k := 0;
    while k < |deadlocked|
      invariant k <= |deadlocked| && victim < req.numProcesses
      invariant k == 0 ==> minTotal.None?
      invariant k > 0 ==> victim == FirstMinimum(req, deadlocked, k) && minTotal == Some(TotalHeld(req, victim))
    {
      var i := deadlocked[k];
      var total := SumRow(req.allocation[i], req.numResources);
      if minTotal.None? || total < minTotal.value {
        minTotal := Some(total);
        victim := i;
      }
      k := k + 1;
    }
    FirstMinimumIsFirstMinimum(req, deadlocked, |deadlocked|);
  }

  /** The new state of `resolveDeadlock`: Available gains the victim's row, and the
      victim's allocation and maximum rows are mapped to zeros. */
  method TerminatedState(req: State, victim: nat) returns (t: State)
    requires Shaped(req) && victim < req.numProcesses
    ensures t == Terminate(req, victim)
  {
    var newAvailable := ReleaseInto(req.available, req.allocation[victim]);
    var newAllocation := seq(|req.allocation|, i requires 0 <= i < |req.allocation| =>
                             if i == victim then Zeros(|req.allocation[i]|) else req.allocation[i]);
    var newMaxNeed := seq(|req.maxNeed|, i requires 0 <= i < |req.maxNeed| =>
                          if i == victim then Zeros(|req.maxNeed[i]|) else req.maxNeed[i]);
    t := State(req.numProcesses, req.numResources, newAvailable, newAllocation, newMaxNeed);
  }

  /** `resolveDeadlock`: refuses a state that is not deadlocked and a requested victim
      that is not one of the deadlocked indices; otherwise terminates the requested
      victim, or the first deadlocked process of minimum total allocation, and runs the
      check on the new state. A thrown error is returned as `Err`. */
  method ResolveDeadlock(req: State, victimIndex: Option<real>) returns (r: Result<Resolved, ResolveError>)
    requires Shaped(req)
    ensures r == Resolve(req, victimIndex)
  {
    var detection := DetectDeadlock(req);
    if !detection.isDeadlocked || |detection.deadlocked| == 0 {
      return Err(NotDeadlocked);
    }
    var deadlocked := detection.deadlocked;
    var victim: nat;
    if victimIndex.Some? {
      var x := victimIndex.value;
      if x < 0.0 || x >= req.numProcesses as real || !Includes(deadlocked, x) {
        return Err(InvalidVictim(deadlocked));
      }
      victim := x.Floor;
    } else {
      victim := MinimumVictim(req, deadlocked);
    }
    var round := TerminateAndCheck(req, victim);
    return Ok(round);
  }

  /** The end of `resolveDeadlock` once the victim is settled: the new state and the
      check run on it. */
  method TerminateAndCheck(req: State, victim: nat) returns (round: Resolved)
    requires Shaped(req) && victim < req.numProcesses
    ensures round == Round(req, victim)
  {
    var newState := TerminatedState(req, victim);
    var newResult := DetectDeadlock(newState);
    round := Resolved(newState, newResult, victim);
  }

  /** `detectDeadlockStep`: from the given snapshot (or a fresh one), finish the first
      unfinished process whose Need is covered by Work and report it; otherwise report
      `done` when nobody is left and `deadlock` with the unfinished list when somebody is. */
  method DetectDeadlockStep(req: State, snapshot: Option<StepState>) returns (r: StepResult)
    requires Shaped(req)
    requires snapshot.Some? ==> Resumable(req, snapshot.value)
    ensures r == Step(req, if snapshot.Some? then snapshot.value else Start(req))
    ensures r.status == Found <==> r.selected.Some?
    ensures r.status == Deadlock <==> r.deadlocked.Some?
  {
    var need := ComputeNeed(req);
    var work := if snapshot.Some? then snapshot.value.work else req.available;
    var finish := if snapshot.Some? then snapshot.value.finish else seq(req.numProcesses, _ => false);
    var safeSeq := if snapshot.Some? then snapshot.value.safeSequence else [];
    ghost var st := StepState(work, finish, safeSeq);
    assert st == (if snapshot.Some? then snapshot.value else Start(req));
    var i := 0;
    while i < req.numProcesses
      invariant i <= req.numProcesses
      invariant st == StepState(work, finish, safeSeq)
      invariant FirstReady(req, work, finish, i) == FirstReady(req, work, finish, 0)
    {
      var ok := false;
      if !finish[i] {
        ok := CanSatisfy(need[i], work, req.numResources);
      }
      if ok {
        assert FirstReady(req, work, finish, 0) == Some(i);
        work := ReleaseInto(work, req.allocation[i]);
        finish := finish[i := true];
        safeSeq := safeSeq + [i];
        return StepResult(Found, Some(i), StepState(work, finish, safeSeq), None);
      }
      i := i + 1;
    }
    assert FirstReady(req, work, finish, 0) == None;
    var unfinished := CollectUnfinished(finish, req.numProcesses);
    if |unfinished| == 0 {
      return StepResult(Done, None, StepState(work, finish, safeSeq), None);
    }
    return StepResult(Deadlock, None, StepState(work, finish, safeSeq), Some(unfinished));
  }
}
