/** Why the batch check's answer does not depend on the order in which processes are
    finished: Work only grows, so the set of processes that can eventually finish is the
    same for every maximal safe order. Gives completeness of the safety check and the
    agreement of the step-wise and batch forms. */
module SafetyClosure {
  import opened BankerState
  import opened Safety

  /** Column j of the allocations of the processes in `order`, summed. */
  function ColSum(s: State, order: seq<nat>, j: nat): int
    requires Shaped(s) && Below(order, s.numProcesses) && j < s.numResources
  {
    if order == [] then 0
    else ColSum(s, order[..|order| - 1], j) + s.allocation[order[|order| - 1]][j]
  }

  /** Work after replaying an order is the starting work plus the column sums. */
  lemma {:induction false} ReleaseAllSum(s: State, work: seq<int>, order: seq<nat>)
    requires Shaped(s) && |work| == s.numResources && Below(order, s.numProcesses)
    ensures forall j :: 0 <= j < s.numResources ==>
              ReleaseAll(s, work, order)[j] == work[j] + ColSum(s, order, j)
  {
    if order != [] {
      ReleaseAllSum(s, work, order[..|order| - 1]);
    }
  }

  lemma {:induction false} ColSumAppend(s: State, u: seq<nat>, v: seq<nat>, j: nat)
    requires Shaped(s) && Below(u, s.numProcesses) && Below(v, s.numProcesses) && j < s.numResources
    ensures Below(u + v, s.numProcesses)
    ensures ColSum(s, u + v, j) == ColSum(s, u, j) + ColSum(s, v, j)
  {
    if v != [] {
      assert (u + v)[..|u + v| - 1] == u + v[..|v| - 1];
      ColSumAppend(s, u, v[..|v| - 1], j);
    } else {
      assert u + v == u;
    }
  }

  lemma {:induction false} ColSumNonnegative(s: State, order: seq<nat>, j: nat)
    requires Valid(s) && Below(order, s.numProcesses) && j < s.numResources
    ensures ColSum(s, order, j) >= 0
  {
    if order != [] {
      ColSumNonnegative(s, order[..|order| - 1], j);
    }
  }

  /** Removing one process from an order removes exactly its allocation from the sum. */
  lemma ColSumRemove(s: State, b: seq<nat>, m: nat, j: nat)
    requires Shaped(s) && Below(b, s.numProcesses) && m < |b| && j < s.numResources
    ensures Below(b[..m] + b[m + 1..], s.numProcesses)
    ensures ColSum(s, b, j) == ColSum(s, b[..m] + b[m + 1..], j) + s.allocation[b[m]][j]
  {
    var x := b[m];
    assert b == (b[..m] + [x]) + b[m + 1..];
    ColSumAppend(s, b[..m] + [x], b[m + 1..], j);
    ColSumAppend(s, b[..m], [x], j);
    ColSumAppend(s, b[..m], b[m + 1..], j);
    assert [x][..0] == [];
  }

  /** Dropping the last element of a duplicate-free `a` and its occurrence in `b` keeps
      the rest of `a` inside the rest of `b`. */
  lemma RemoveKeepsMembers(a: seq<nat>, b: seq<nat>, m: nat, a': seq<nat>, b': seq<nat>)
    requires Distinct(a) && a != [] && m < |b| && b[m] == a[|a| - 1]
    requires forall x :: x in a ==> x in b
    requires a' == a[..|a| - 1] && b' == b[..m] + b[m + 1..]
    ensures forall y :: y in a' ==> y in b'
  {
    forall y | y in a'
      ensures y in b'
    {
      var t :| 0 <= t < |a'| && a'[t] == y;
      assert a[t] == y;
      assert y in a;
      var u :| 0 <= u < |b| && b[u] == y;
      if u < m {
        assert b'[u] == y;
      } else {
        assert b'[u - 1] == y;
      }
    }
  }

  /** With non-negative allocations, a duplicate-free order whose processes all occur in
      another order releases no more of any resource than that other order. */
  lemma {:induction false} ColSumSubset(s: State, a: seq<nat>, b: seq<nat>, j: nat)
    requires Valid(s) && Below(a, s.numProcesses) && Below(b, s.numProcesses) && j < s.numResources
    requires Distinct(a) && forall x :: x in a ==> x in b
    ensures ColSum(s, a, j) <= ColSum(s, b, j)
    decreases |a|
  {
    if a == [] {
      ColSumNonnegative(s, b, j);
    } else {
      assert a[|a| - 1] in a;
      var m :| 0 <= m < |b| && b[m] == a[|a| - 1];
      ColSumRemove(s, b, m, j);
      RemoveKeepsMembers(a, b, m, a[..|a| - 1], b[..m] + b[m + 1..]);
      ColSumSubset(s, a[..|a| - 1], b[..m] + b[m + 1..], j);
    }
  }

  /** An order after which no process outside it is covered by Work. */
  ghost predicate StuckOrder(s: State, order: seq<nat>)
    requires Shaped(s) && Below(order, s.numProcesses)
  {
    forall i :: 0 <= i < s.numProcesses && i !in order ==>
      !Covers(NeedRow(s, i), ReleaseAll(s, s.available, order), s.numResources)
  }

  /** Every process of a safe order also occurs in any stuck order. */
  lemma {:induction false} SafeOrderContained(s: State, o1: seq<nat>, o2: seq<nat>)
    requires Valid(s) && Below(o1, s.numProcesses) && Below(o2, s.numProcesses)
    requires Distinct(o1) && SafeOrder(s, s.available, o1)
    requires StuckOrder(s, o2)
    ensures forall x :: x in o1 ==> x in o2
    decreases |o1|
  {
    if o1 != [] {
      var o' := o1[..|o1| - 1];
      var x := o1[|o1| - 1];
      SafeOrderContained(s, o', o2);
      ReleaseAllSum(s, s.available, o');
      ReleaseAllSum(s, s.available, o2);
      forall j | 0 <= j < s.numResources
        ensures ReleaseAll(s, s.available, o')[j] <= ReleaseAll(s, s.available, o2)[j]
      {
        ColSumSubset(s, o', o2, j);
      }
      assert Covers(NeedRow(s, x), ReleaseAll(s, s.available, o2), s.numResources);
      assert o1 == o' + [x];
    }
  }

  /** Two reached, stuck scan states have finished exactly the same processes. */
  lemma FinishedUnique(s: State, w1: seq<int>, f1: seq<bool>, o1: seq<nat>,
                       w2: seq<int>, f2: seq<bool>, o2: seq<nat>)
    requires Valid(s)
    requires Reached(s, w1, f1, o1) && Stuck(s, w1, f1)
    requires Reached(s, w2, f2, o2) && Stuck(s, w2, f2)
    ensures f1 == f2
    ensures forall x :: x in o1 <==> x in o2
    ensures |o1| == |o2|
  {
    SafeOrderContained(s, o1, o2);
    SafeOrderContained(s, o2, o1);
    forall x | x in o1 ensures x in o2 { }
    forall x | x in o2 ensures x in o1 { }
    assert forall i :: 0 <= i < s.numProcesses ==> f1[i] == f2[i];
  }

  /** A complete safe order: every process once, each covered at its turn. */
  ghost predicate CompleteSafeOrder(s: State, order: seq<nat>)
    requires Shaped(s)
  {
    && Below(order, s.numProcesses) && Distinct(order)
    && (forall i :: 0 <= i < s.numProcesses ==> i in order)
    && SafeOrder(s, s.available, order)
  }

  /** The safety check is sound and complete: it reports no deadlock exactly when some
      order lets every process finish. */
  lemma SafeIffCompleteOrder(s: State)
    requires Valid(s)
    ensures !Detect(s).isDeadlocked <==> exists o :: CompleteSafeOrder(s, o)
  {
    if !Detect(s).isDeadlocked {
      SafeSequenceComplete(s);
    } else if o :| CompleteSafeOrder(s, o) {
      CompleteOrderFinishesAll(s, o);
    }
  }

  /** When no deadlock is reported, the safe sequence itself is a complete safe order. */
  lemma SafeSequenceComplete(s: State)
    requires Valid(s) && !Detect(s).isDeadlocked
    ensures CompleteSafeOrder(s, Detect(s).safeSequence)
  {
    DetectReached(s);
    var c := Converge(s, Initial(s));
    UnfinishedMembers(c.finish, s.numProcesses);
    assert forall i :: 0 <= i < s.numProcesses ==> c.finish[i];
  }

  /** Completeness: if any complete safe order exists, no deadlock is reported. */
  lemma CompleteOrderFinishesAll(s: State, o: seq<nat>)
    requires Valid(s) && CompleteSafeOrder(s, o)
    ensures !Detect(s).isDeadlocked && Detect(s).deadlocked == []
  {
    DetectReached(s);
    var c := Converge(s, Initial(s));
    SafeOrderContained(s, o, c.order);
    UnfinishedMembers(c.finish, s.numProcesses);
    var u := Unfinished(c.finish, s.numProcesses);
    assert forall i :: 0 <= i < s.numProcesses ==> i !in u;
    if u != [] {
      FirstMember(u);
      assert false;
    }
  }

  lemma FirstMember(u: seq<nat>)
    requires u != []
    ensures u[0] in u
  {
  }

  /** Under valid input, Work never goes negative. */
  lemma WorkNonnegative(s: State, order: seq<nat>)
    requires Valid(s) && Below(order, s.numProcesses)
    ensures forall j :: 0 <= j < s.numResources ==> ReleaseAll(s, s.available, order)[j] >= 0
  {
    ReleaseAllSum(s, s.available, order);
    forall j | 0 <= j < s.numResources
      ensures ColSum(s, order, j) >= 0
    {
      ColSumNonnegative(s, order, j);
    }
  }

  /** A process whose Need row is all zero always finishes. */
  lemma ZeroNeedNeverDeadlocked(s: State, v: nat)
    requires Valid(s) && v < s.numProcesses
    requires forall j :: 0 <= j < s.numResources ==> s.maxNeed[v][j] == s.allocation[v][j]
    ensures v !in Detect(s).deadlocked
  {
    DetectMaximal(s);
    DetectSound(s);
    WorkNonnegative(s, Detect(s).safeSequence);
  }
}
