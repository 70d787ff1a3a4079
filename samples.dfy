/** The two sample scenarios that the console program and the web front end load, and
    what the model computes for them. */
module Samples {
  import opened Wrappers
  import opened BankerState
  import opened Safety
  import opened Resolution
  import opened Avoidance
  import RagGraph

  /** The classic Banker's example: 5 processes, 3 resource types. */
  const SafeSample: State := State(
    5, 3, [3, 3, 2],
    [[0, 1, 0], [2, 0, 0], [3, 0, 2], [2, 1, 1], [0, 0, 2]],
    [[7, 5, 3], [3, 2, 2], [9, 0, 2], [2, 2, 2], [4, 3, 3]])

  /** Circular wait: 4 processes, 3 resource types, nothing available. */
  const DeadlockSample: State := State(
    4, 3, [0, 0, 0],
    [[1, 0, 1], [1, 1, 0], [0, 1, 1], [1, 0, 0]],
    [[2, 1, 2], [2, 2, 1], [1, 2, 2], [2, 1, 1]])

  /** The safe sample is valid and safe, with the safe sequence P1, P3, P4, P0, P2. */
  lemma SafeSampleSequence()
    ensures Valid(SafeSample)
    ensures Detect(SafeSample) == Detection(false, [], [1, 3, 4, 0, 2], 5)
  {
    SafeSampleValid();
    var s := SafeSample;
    var st0 := Initial(s);
    assert st0.(found := false) == st0;
    var st1 := SafeFirstPass();
    var st2 := SafeSecondPass(st1);
    var st3 := st2.(found := false);
    SafeThirdPass(st3);
    assert Converge(s, st3) == st3;
    assert Converge(s, st1) == st3;
    assert Converge(s, st0) == st3;
    assert Unfinished(st3.finish, 5) == [];
  }

  lemma SafeSampleValid()
    ensures Valid(SafeSample)
  {
    var s := SafeSample;
    assert Shaped(s);
    forall i, j | 0 <= i < 5 && 0 <= j < 3
      ensures 0 <= s.allocation[i][j] <= s.maxNeed[i][j]
    {
      assert i == 0 || i == 1 || i == 2 || i == 3 || i == 4;
      assert j == 0 || j == 1 || j == 2;
    }
  }

  /** First pass over the safe sample: P1, P3 and P4 finish. */
  lemma SafeFirstPass() returns (st: Scan)
    ensures Pass(SafeSample, 0, Initial(SafeSample)) == st
    ensures st == Scan([7, 4, 5], [false, true, false, true, true], [1, 3, 4], true)
  {
    var s := SafeSample;
    var F, T := false, true;
    var st0 := Initial(s);
    assert st0 == Scan([3, 3, 2], [F, F, F, F, F], [], false);
    assert NeedRow(s, 0)[0] > st0.work[0];
    var a1 := Visit(s, 0, st0);
    assert a1 == st0;
    assert NeedRow(s, 1) == [1, 2, 2];
    var a2 := Visit(s, 1, a1);
    assert a2 == Scan([5, 3, 2], [F, T, F, F, F], [1], true);
    assert NeedRow(s, 2)[0] > a2.work[0];
    var a3 := Visit(s, 2, a2);
    assert a3 == a2;
    SafeFirstPassTail(a3);
    assert Pass(s, 1, a1) == Pass(s, 3, a3);
    st := Pass(s, 3, a3);
  }

  /** The end of the first pass: P3 and P4 finish after P1. */
  lemma SafeFirstPassTail(a3: Scan)
    requires a3 == Scan([5, 3, 2], [false, true, false, false, false], [1], true)
    ensures Pass(SafeSample, 3, a3) == Scan([7, 4, 5], [false, true, false, true, true], [1, 3, 4], true)
  {
    var s := SafeSample;
    var F, T := false, true;
    assert NeedRow(s, 3) == [0, 1, 1];
    var a4 := Visit(s, 3, a3);
    assert a4 == Scan([7, 4, 3], [F, T, F, T, F], [1, 3], true);
    assert NeedRow(s, 4) == [4, 3, 1];
    var a5 := Visit(s, 4, a4);
    assert a5 == Scan([7, 4, 5], [F, T, F, T, T], [1, 3, 4], true);
  }

  /** Second pass: P0 and P2 finish. */
  lemma SafeSecondPass(st1: Scan) returns (st: Scan)
    requires st1 == Scan([7, 4, 5], [false, true, false, true, true], [1, 3, 4], true)
    ensures Pass(SafeSample, 0, st1.(found := false)) == st
    ensures st == Scan([10, 5, 7], [true, true, true, true, true], [1, 3, 4, 0, 2], true)
  {
    var s := SafeSample;
    var T := true;
    var b0 := st1.(found := false);
    assert NeedRow(s, 0) == [7, 4, 3];
    var b1 := Visit(s, 0, b0);
    assert b1 == Scan([7, 5, 5], [T, T, false, T, T], [1, 3, 4, 0], true);
    var b2 := Visit(s, 1, b1);
    assert b2 == b1;
    assert NeedRow(s, 2) == [6, 0, 0];
    var b3 := Visit(s, 2, b2);
    assert b3 == Scan([10, 5, 7], [T, T, T, T, T], [1, 3, 4, 0, 2], true);
    var b4 := Visit(s, 3, b3);
    assert b4 == b3;
    assert Visit(s, 4, b4) == b3;
    assert Pass(s, 3, b3) == b3;
    assert Pass(s, 1, b1) == b3;
    st := b3;
  }

  /** Third pass: everybody has finished, so nothing changes and the loop stops. */
  lemma SafeThirdPass(st3: Scan)
    requires st3 == Scan([10, 5, 7], [true, true, true, true, true], [1, 3, 4, 0, 2], false)
    ensures Pass(SafeSample, 0, st3) == st3
  {
    var s := SafeSample;
    assert Visit(s, 0, st3) == st3;
    assert Visit(s, 1, st3) == st3;
    assert Visit(s, 2, st3) == st3;
    assert Visit(s, 3, st3) == st3;
    assert Visit(s, 4, st3) == st3;
    assert Pass(s, 3, st3) == st3;
  }

  /** A pass in which every process still unfinished is blocked changes nothing. */
  lemma {:induction false} PassSkipsBlocked(s: State, i: nat, st: Scan)
    requires Fits(s, st) && i <= s.numProcesses
    requires forall k :: i <= k < s.numProcesses ==>
               st.finish[k] || !Covers(NeedRow(s, k), st.work, s.numResources)
    ensures Pass(s, i, st) == st
    decreases s.numProcesses - i
  {
    if i < s.numProcesses {
      assert Visit(s, i, st) == st;
      PassSkipsBlocked(s, i + 1, st);
    }
  }

  lemma DeadlockSampleValid()
    ensures Valid(DeadlockSample)
  {
    var s := DeadlockSample;
    assert Shaped(s);
    forall i, j | 0 <= i < 4 && 0 <= j < 3
      ensures 0 <= s.allocation[i][j] <= s.maxNeed[i][j]
    {
      assert i == 0 || i == 1 || i == 2 || i == 3;
      assert j == 0 || j == 1 || j == 2;
    }
  }

  /** In the deadlock sample every process waits: nobody can finish. */
  lemma DeadlockSampleDetected()
    ensures Valid(DeadlockSample)
    ensures Detect(DeadlockSample) == Detection(true, [0, 1, 2, 3], [], 0)
  {
    DeadlockSampleValid();
    var s := DeadlockSample;
    var st0 := Initial(s);
    forall k | 0 <= k < 4
      ensures !Covers(NeedRow(s, k), st0.work, 3)
    {
      assert NeedRow(s, k)[0] > st0.work[0];
    }
    PassSkipsBlocked(s, 0, st0);
    assert st0.(found := false) == st0;
    assert Converge(s, st0) == st0;
    UnfinishedNoneFinished(st0.finish, 4);
  }

  /** The deadlock sample after P3, the process holding least, is terminated. */
  const AfterVictim: State := State(
    4, 3, [1, 0, 0],
    [[1, 0, 1], [1, 1, 0], [0, 1, 1], [0, 0, 0]],
    [[2, 1, 2], [2, 2, 1], [1, 2, 2], [0, 0, 0]])

  /** Resolving the deadlock sample picks P3 (one unit held, the fewest), frees it and
      leaves P0, P1 and P2 deadlocked with P3 as the only safe process. */
  lemma DeadlockSampleResolved()
    ensures Resolve(DeadlockSample, None) ==
            Ok(Resolved(AfterVictim, Detection(true, [0, 1, 2], [3], 1), 3))
  {
    DeadlockSampleDetected();
    var s := DeadlockSample;
    DeadlockSampleMinimum();
    ResolveChosen(s, None, 3);
    DeadlockSampleVictim();
    AfterVictimDetected();
  }

  /** P3 holds one unit, every other process two. */
  lemma DeadlockSampleMinimum()
    ensures Below([0, 1, 2, 3], DeadlockSample.numProcesses)
    ensures FirstMinimum(DeadlockSample, [0, 1, 2, 3], 4) == 3
  {
    var s := DeadlockSample;
    assert TotalHeld(s, 0) == 2 && TotalHeld(s, 1) == 2 && TotalHeld(s, 2) == 2 && TotalHeld(s, 3) == 1;
  }

  lemma DeadlockSampleVictim()
    ensures Terminate(DeadlockSample, 3) == AfterVictim
  {
    var s := DeadlockSample;
    assert Release(s.available, s.allocation[3]) == [1, 0, 0];
    assert Zeros(3) == [0, 0, 0];
  }

  /** After the termination only P3 can finish, and it frees nothing anybody else needs. */
  lemma AfterVictimDetected()
    ensures Detect(AfterVictim) == Detection(true, [0, 1, 2], [3], 1)
  {
    var s := AfterVictim;
    var F, T := false, true;
    var st0 := Initial(s);
    assert st0 == Scan([1, 0, 0], [F, F, F, F], [], false);
    forall k | 0 <= k < 3
      ensures !Covers(NeedRow(s, k), st0.work, 3)
    {
      assert NeedRow(s, k)[1] > st0.work[1];
    }
    assert NeedRow(s, 3) == [0, 0, 0];
    var a := Visit(s, 3, st0);
    assert a == Scan([1, 0, 0], [F, F, F, T], [3], true);
    assert Pass(s, 3, st0) == a;
    PassPrefix(s, 3, st0);
    assert Pass(s, 0, st0) == a;
    var b := a.(found := false);
    PassSkipsBlocked(s, 0, b);
    assert Converge(s, st0) == b;
    assert Unfinished(b.finish, 3) == [0, 1, 2] by { UnfinishedNoneFinished(b.finish, 3); }
  }

  /** The deadlock sample after the console's resolution of P3: its allocation is
      released, but its maximum claim keeps one unit each of R1 and R2. */
  const ConsoleAfterVictim: State := State(
    4, 3, [1, 0, 0],
    [[1, 0, 1], [1, 1, 0], [0, 1, 1], [0, 0, 0]],
    [[2, 1, 2], [2, 2, 1], [1, 2, 2], [0, 1, 1]])

  /** The console's resolution releases only the columns P3 holds, so P3 keeps a maximum
      claim of one unit each of R1 and R2: P3 is still reported deadlocked, it is again
      the process holding least, and releasing it once more changes nothing. */
  lemma ConsoleResolveStalls()
    ensures var t := ReleaseHeld(DeadlockSample, 3);
            && t.maxNeed[3] == [0, 1, 1]
            && Detect(t) == Detection(true, [0, 1, 2, 3], [], 0)
            && FirstMinimum(t, [0, 1, 2, 3], 4) == 3
            && ReleaseHeld(t, 3) == t
  {
    ConsoleReleaseKeepsClaim();
    ConsoleAfterVictimDetected();
    ConsoleAfterVictimStalls();
  }

  lemma ConsoleReleaseKeepsClaim()
    ensures ReleaseHeld(DeadlockSample, 3) == ConsoleAfterVictim
  {
    var t := ReleaseHeld(DeadlockSample, 3);
    assert t.available == [1, 0, 0];
    assert t.allocation[3] == [0, 0, 0];
    assert t.maxNeed[3] == [0, 1, 1];
  }

  /** Nobody can finish: every process needs a unit of R1 and none is free. */
  lemma ConsoleAfterVictimDetected()
    ensures Detect(ConsoleAfterVictim) == Detection(true, [0, 1, 2, 3], [], 0)
  {
    var t := ConsoleAfterVictim;
    var st0 := Initial(t);
    forall k | 0 <= k < 4
      ensures !Covers(NeedRow(t, k), st0.work, 3)
    {
      assert NeedRow(t, k)[1] > st0.work[1];
    }
    PassSkipsBlocked(t, 0, st0);
    assert st0.(found := false) == st0;
    assert Converge(t, st0) == st0;
    UnfinishedNoneFinished(st0.finish, 4);
  }

  /** P3 now holds nothing, so it is the first minimum again, and releasing it is a no-op. */
  lemma ConsoleAfterVictimStalls()
    ensures FirstMinimum(ConsoleAfterVictim, [0, 1, 2, 3], 4) == 3
    ensures ReleaseHeld(ConsoleAfterVictim, 3) == ConsoleAfterVictim
  {
    var t := ConsoleAfterVictim;
    assert TotalHeld(t, 3) == 0;
    var u := ReleaseHeld(t, 3);
    assert u.available == t.available;
    assert u.allocation[3] == t.allocation[3];
    assert u.maxNeed[3] == t.maxNeed[3];
  }

  /** Giving P0 all three free units of R1 would leave nobody able to finish, so it is
      refused although it is within both Available and P0's Need. */
  lemma SafeSampleRefusal()
    ensures Simulate(SafeSample, 0, 1, 3) == SimOutcome(false, false, LeadsToUnsafe)
  {
    var s := SafeSample;
    assert NeedRow(s, 0)[1] == 4;
    var t := Tentative(s, 0, 1, 3);
    assert t.available == [3, 0, 2];
    var st0 := Initial(t);
    assert NeedRow(t, 0)[0] > st0.work[0];
    assert NeedRow(t, 1)[1] > st0.work[1];
    assert NeedRow(t, 2)[0] > st0.work[0];
    assert NeedRow(t, 3)[1] > st0.work[1];
    assert NeedRow(t, 4)[0] > st0.work[0];
    PassSkipsBlocked(t, 0, st0);
    assert st0.(found := false) == st0;
    assert Converge(t, st0) == st0;
    UnfinishedNoneFinished(st0.finish, 5);
  }

  /** Passes over processes that are all blocked lead straight to process i. */
  lemma {:induction false} PassPrefix(s: State, i: nat, st: Scan)
    requires Fits(s, st) && i <= s.numProcesses
    requires forall k :: 0 <= k < i ==> st.finish[k] || !Covers(NeedRow(s, k), st.work, s.numResources)
    ensures Pass(s, 0, st) == Pass(s, i, st)
  {
    if i > 0 {
      PassPrefix(s, i - 1, st);
      assert Visit(s, i - 1, st) == st;
    }
  }

  /** With nobody below n finished, the unfinished processes are 0, 1, ..., n-1. */
  lemma {:induction false} UnfinishedNoneFinished(finish: seq<bool>, n: nat)
    requires n <= |finish| && forall k :: 0 <= k < n ==> !finish[k]
    ensures Unfinished(finish, n) == seq(n, k => k)
  {
    if n > 0 {
      UnfinishedNoneFinished(finish, n - 1);
      assert seq(n, k => k) == seq(n - 1, k => k) + [n - 1];
    }
  }

  /** The safe sample's resource allocation graph has a cycle, although the state is safe:
      P0 holds a unit of R1 and still needs four more, so P0 -> R1 -> P0. With several
      units per resource a cycle does not mean deadlock. */
  lemma SafeSampleHasCycle()
    ensures RagGraph.HasCycle(RagGraph.AdjMatrix(5, 3, SafeSample.allocation, NeedMatrix(SafeSample)))
    ensures !Detect(SafeSample).isDeadlocked
  {
    SafeSampleSequence();
    var need := NeedMatrix(SafeSample);
    assert need[0][1] == NeedRow(SafeSample, 0)[1] == 4;
    RagGraph.HoldAndWaitCycle(5, 3, SafeSample.allocation, need, 0, 1);
  }
}
