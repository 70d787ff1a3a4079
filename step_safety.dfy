/** The step-wise form of the safety check: one call finishes at most one process, the
    lowest-indexed unfinished one that Work covers, and the caller threads the snapshot
    back in. Iterating it to the end finishes the same processes as the batch form. */
module StepSafety {
  import opened Wrappers
  import opened BankerState
  import opened Safety
  import opened SafetyClosure

  /** The resumable snapshot `{work, finish, safe_sequence}`. */
  datatype StepState = StepState(work: seq<int>, finish: seq<bool>, safeSequence: seq<nat>)

  datatype StepStatus = Found | Done | Deadlock

  /** The step response without its explanation text; `deadlocked` is present only for
      status Deadlock. */
  datatype StepResult = StepResult(
    status: StepStatus,
    selected: Option<nat>,
    stepState: StepState,
    deadlocked: Option<seq<nat>>)

  predicate Resumable(s: State, st: StepState) {
    Shaped(s) && |st.work| == s.numResources && |st.finish| == s.numProcesses
  }

  /** The snapshot a missing or null step_state stands for. */
  function Start(s: State): (st: StepState)
    requires Shaped(s)
    ensures Resumable(s, st)
  {
    StepState(s.available, seq(s.numProcesses, _ => false), [])
  }

  /** Process k is unfinished and its Need is covered by work. */
  predicate Ready(s: State, work: seq<int>, finish: seq<bool>, k: nat)
    requires Shaped(s) && |work| == s.numResources && |finish| == s.numProcesses && k < s.numProcesses
  {
    !finish[k] && Covers(NeedRow(s, k), work, s.numResources)
  }

  /** The first ready process at index i or above, if any. */
  function FirstReady(s: State, work: seq<int>, finish: seq<bool>, i: nat): (r: Option<nat>)
    requires Shaped(s) && |work| == s.numResources && |finish| == s.numProcesses && i <= s.numProcesses
    ensures r.Some? ==> i <= r.value < s.numProcesses && Ready(s, work, finish, r.value)
    ensures r.Some? ==> forall k :: i <= k < r.value ==> !Ready(s, work, finish, k)
    ensures r.None? ==> forall k :: i <= k < s.numProcesses ==> !Ready(s, work, finish, k)
    decreases s.numProcesses - i
  {
    if i == s.numProcesses then None
    else if Ready(s, work, finish, i) then Some(i)
    else FirstReady(s, work, finish, i + 1)
  }

  /** One step from a snapshot. */
  function Step(s: State, st: StepState): (r: StepResult)
    requires Resumable(s, st)
    ensures Resumable(s, r.stepState)
  {
    match FirstReady(s, st.work, st.finish, 0)
    case Some(k) =>
      StepResult(Found, Some(k),
                 StepState(Release(st.work, s.allocation[k]), st.finish[k := true], st.safeSequence + [k]),
                 None)
    case None =>
      var u := Unfinished(st.finish, s.numProcesses);
      if u == [] then StepResult(Done, None, st, None)
      else StepResult(Deadlock, None, st, Some(u))
  }

  /** The caller's loop: step until the status is no longer Found. */
  function RunSteps(s: State, st: StepState): (r: StepResult)
    requires Resumable(s, st)
    ensures r.status != Found
    decreases CountUnfinished(st.finish)
  {
    var r := Step(s, st);
    if r.status == Found then
      UnfinishedMark(st.finish, |st.finish|, r.selected.value);
      RunSteps(s, r.stepState)
    else r
  }

  lemma StepReached(s: State, st: StepState)
    requires Resumable(s, st) && Reached(s, st.work, st.finish, st.safeSequence)
    ensures var n := Step(s, st).stepState; Reached(s, n.work, n.finish, n.safeSequence)
    ensures Step(s, st).status != Found ==> Stuck(s, st.work, st.finish)
  {
    var r := Step(s, st);
    if r.status == Found {
      var k := r.selected.value;
      var scan := Scan(st.work, st.finish, st.safeSequence, false);
      VisitReached(s, k, scan);
      assert Visit(s, k, scan).work == r.stepState.work;
    } else {
      assert FirstReady(s, st.work, st.finish, 0).None?;
      forall i | 0 <= i < s.numProcesses && !st.finish[i]
        ensures !Covers(NeedRow(s, i), st.work, s.numResources)
      {
        assert !Ready(s, st.work, st.finish, i);
      }
    }
  }

  lemma {:induction false} RunStepsReached(s: State, st: StepState)
    requires Resumable(s, st) && Reached(s, st.work, st.finish, st.safeSequence)
    ensures var n := RunSteps(s, st).stepState;
            Reached(s, n.work, n.finish, n.safeSequence) && Stuck(s, n.work, n.finish)
    ensures RunSteps(s, st) == Step(s, RunSteps(s, st).stepState)
    decreases CountUnfinished(st.finish)
  {
    StepReached(s, st);
    var r := Step(s, st);
    if r.status == Found {
      UnfinishedMark(st.finish, |st.finish|, r.selected.value);
      RunStepsReached(s, r.stepState);
    }
  }

  /** Step/batch equivalence: stepping from a fresh snapshot until `done` or `deadlock`
      finishes exactly the processes the batch check finishes (possibly in another
      order), reports `done` exactly when the batch check reports no deadlock, and
      reports the same deadlocked list. */
  lemma StepBatchAgree(s: State)
    requires Valid(s)
    ensures var fin := RunSteps(s, Start(s)); var d := Detect(s);
            && (fin.status == Done <==> !d.isDeadlocked)
            && (fin.status == Deadlock ==> fin.deadlocked == Some(d.deadlocked))
            && (forall i :: i in fin.stepState.safeSequence <==> i in d.safeSequence)
            && |fin.stepState.safeSequence| == |d.safeSequence|
  {
    InitialReached(s);
    RunStepsReached(s, Start(s));
    DetectReached(s);
    var n := RunSteps(s, Start(s)).stepState;
    var c := Converge(s, Initial(s));
    FinishedUnique(s, n.work, n.finish, n.safeSequence, c.work, c.finish, c.order);
  }
}
