/** The C engine (`src/deadlock_detector.c`): the system state as a record of fixed-size
    arrays that the functions update in place, the Need computation, the batch safety
    check over local work/finish arrays, and the interactive console's resolution. */
module CDetector {
  import opened BankerState
  import opened Safety
  import opened Resolution

  /** The first n entries of row i of a matrix. */
  function RowOf(m: array2<int>, i: nat, n: nat): (row: seq<int>)
    reads m
    requires i < m.Length0 && n <= m.Length1
    ensures |row| == n && forall j :: 0 <= j < n ==> row[j] == m[i, j]
  {
    seq(n, j requires 0 <= j < n reads m => m[i, j])
  }

  /** `can_satisfy(need[i], work, n)`: row i of `need` is covered by `work` in the first n
      columns. */
  method CanSatisfy(need: array2<int>, i: nat, work: array<int>, numResources: nat) returns (ok: bool)
    requires i < need.Length0 && numResources <= need.Length1 && numResources <= work.Length
    ensures ok <==> Covers(RowOf(need, i, numResources), work[..], numResources)
  {
    var j := 0;
    while j < numResources
      invariant j <= numResources
      invariant forall l :: 0 <= l < j ==> need[i, l] <= work[l]
    {
      if need[i, j] > work[j] {
        return false;
      }
      j := j + 1;
    }
    return true;
  }

  /** `SystemState`: P processes and R resource types in the top-left corner of
      MAX_PROCESSES x MAX_RESOURCES arrays. */
  class SystemState {
    var numProcesses: nat
    var numResources: nat
    const available: array<int>
    const allocation: array2<int>
    const maxNeed: array2<int>
    const need: array2<int>

    /** Array sizes are the C capacities, the matrices are distinct arrays, and the
        dimensions fit. */
    ghost predicate Valid()
      reads this
    {
      && available.Length == MaxResources
      && allocation.Length0 == MaxProcesses && allocation.Length1 == MaxResources
      && maxNeed.Length0 == MaxProcesses && maxNeed.Length1 == MaxResources
      && need.Length0 == MaxProcesses && need.Length1 == MaxResources
      && allocation != maxNeed && allocation != need && maxNeed != need
      && numProcesses <= MaxProcesses && numResources <= MaxResources
    }

    /** The state the arrays stand for (what `output_state` writes out). */
    function Abstract(): (s: State)
      reads this, available, allocation, maxNeed
      requires Valid()
      ensures Shaped(s) && s.numProcesses == numProcesses && s.numResources == numResources
    {
      var alloc, max, p, r := allocation, maxNeed, numProcesses, numResources;
      State(p, r, available[..r],
            seq(p, i requires 0 <= i < p reads alloc => RowOf(alloc, i, r)),
            seq(p, i requires 0 <= i < p reads max => RowOf(max, i, r)))
    }

    /** The used corner of `need`, whatever it currently holds. */
    function NeedRows(): (m: seq<seq<int>>)
      reads this, need
      requires Valid()
      ensures IsMatrix(m, numProcesses, numResources)
    {
      var nd, p, r := need, numProcesses, numResources;
      seq(p, i requires 0 <= i < p reads nd => RowOf(nd, i, r))
    }

    /** `need` holds Max - Allocation in the used corner. */
    ghost predicate NeedComputed()
      reads this, need, allocation, maxNeed
      requires Valid()
    {
      forall i, j :: 0 <= i < numProcesses && 0 <= j < numResources ==>
        need[i, j] == maxNeed[i, j] - allocation[i, j]
    }

    /** Once Need is computed, the `need` corner is the Need matrix of the state. */
    lemma NeedRowsComputed()
      requires Valid() && NeedComputed()
      ensures NeedRows() == NeedMatrix(Abstract())
    {
      var s := Abstract();
      forall i | 0 <= i < numProcesses
        ensures NeedRows()[i] == NeedMatrix(s)[i]
      {
        assert forall j :: 0 <= j < numResources ==> NeedRows()[i][j] == need[i, j];
      }
    }

    /** Cell (i, j) of a MAX_PROCESSES x MAX_RESOURCES array lies outside the used corner. */
    predicate OutsideCorner(i: int, j: int)
      reads this
    {
      0 <= i < MaxProcesses && 0 <= j < MaxResources && (i >= numProcesses || j >= numResources)
    }

    /** Nothing outside the used corner of the three state arrays changed. */
    twostate predicate CornerOnly()
      reads this, available, allocation, maxNeed
      requires Valid()
    {
      && (forall j :: numResources <= j < MaxResources ==> available[j] == old(available[j]))
      && (forall i, j :: OutsideCorner(i, j) ==>
            allocation[i, j] == old(allocation[i, j]) && maxNeed[i, j] == old(maxNeed[i, j]))
    }

    /** `init_system_state`: no processes, no resources, every entry zero. */
    constructor ()
      ensures Valid() && numProcesses == 0 && numResources == 0
      ensures forall j :: 0 <= j < MaxResources ==> available[j] == 0
      ensures forall i, j :: 0 <= i < MaxProcesses && 0 <= j < MaxResources ==>
                allocation[i, j] == 0 && maxNeed[i, j] == 0 && need[i, j] == 0
    {
      numProcesses := 0;
      numResources := 0;
      available := new int[MaxResources](_ => 0);
      allocation := new int[MaxProcesses, MaxResources]((_, _) => 0);
      maxNeed := new int[MaxProcesses, MaxResources]((_, _) => 0);
      need := new int[MaxProcesses, MaxResources]((_, _) => 0);
    }

    /** `calculate_need_matrix`: Need = Max - Allocation in the used corner; the rest of
        `need` keeps its old contents. */
    method CalculateNeedMatrix()
      requires Valid()
      modifies need
      ensures NeedComputed()
      ensures forall i, j :: OutsideCorner(i, j) ==> need[i, j] == old(need[i, j])
    {
      var i := 0;
      while i < numProcesses
        invariant i <= numProcesses
        invariant forall a, b :: 0 <= a < i && 0 <= b < numResources ==> need[a, b] == maxNeed[a, b] - allocation[a, b]
        invariant forall a, b :: OutsideCorner(a, b) || (i <= a < MaxProcesses && 0 <= b < MaxResources) ==>
                    need[a, b] == old(need[a, b])
      {
        var j := 0;
        while j < numResources
          invariant j <= numResources
          invariant forall a, b :: 0 <= a < i && 0 <= b < numResources ==> need[a, b] == maxNeed[a, b] - allocation[a, b]
          invariant forall b :: 0 <= b < j ==> need[i, b] == maxNeed[i, b] - allocation[i, b]
          invariant forall a, b ::
                      (OutsideCorner(a, b) || (i < a < MaxProcesses && 0 <= b < MaxResources) || (a == i && j <= b < MaxResources))
                      ==> need[a, b] == old(need[a, b])
        {
          need[i, j] := maxNeed[i, j] - allocation[i, j];
          j := j + 1;
        }
        i := i + 1;
      }
    }

    /** The release loop of the safety check: `work[j] += allocation[i][j]`. */
    method ReleaseInto(work: array<int>, i: nat)
      requires Valid() && i < numProcesses && work.Length == MaxResources
      modifies work
      ensures work[..numResources] == Release(old(work[..numResources]), Abstract().allocation[i])
      ensures work[numResources..] == old(work[numResources..])
    {
      ghost var w0 := work[..];
      var j := 0;
      while j < numResources
        invariant j <= numResources
        invariant forall l :: 0 <= l < j ==> work[l] == w0[l] + allocation[i, l]
        invariant forall l :: j <= l < MaxResources ==> work[l] == w0[l]
      {
        work[j] := work[j] + allocation[i, j];
        j := j + 1;
      }
    }

    /** The scan state held in the work, finish and safe-sequence arrays. */
    ghost function ScanOf(work: array<int>, finish: array<bool>, safe: array<nat>, count: nat, found: bool): (st: Scan)
      reads this, work, finish, safe
      requires Valid() && work.Length == MaxResources && finish.Length == MaxProcesses
      requires safe.Length == MaxProcesses && count <= numProcesses
      ensures |st.work| == numResources && |st.finish| == numProcesses && st.found == found
    {
      Scan(work[..numResources], finish[..numProcesses], safe[..count], found)
    }

    /** The body of the inner for-loop at process i: if i is unfinished and its Need row
        is covered by `work`, release its allocation, mark it and append it. */
    method Visit(ghost s: State, i: nat, work: array<int>, finish: array<bool>, safe: array<nat>, count: nat)
      returns (finished: bool, count': nat)
      requires Valid() && NeedComputed() && s == Abstract() && work != available && i < numProcesses
      requires work.Length == MaxResources && finish.Length == MaxProcesses && safe.Length == MaxProcesses
      requires count <= numProcesses
      requires count + CountUnfinished(finish[..numProcesses]) == numProcesses
      modifies work, finish, safe
      ensures s == Abstract() && NeedComputed()
      ensures count' <= numProcesses
      ensures ScanOf(work, finish, safe, count', finished)
              == Safety.Visit(s, i, old(ScanOf(work, finish, safe, count, false)))
      ensures count' + CountUnfinished(finish[..numProcesses]) == numProcesses
    {
      finished := false;
      count' := count;
      if !finish[i] {
        var ok := CanSatisfy(need, i, work, numResources);
        assert RowOf(need, i, numResources) == NeedRow(s, i);
        if ok {
          count' := Finish(s, i, work, finish, safe, count);
          finished := true;
        }
      }
    }

    /** The finishing branch of the inner loop: release i's allocation into `work`, mark i
        finished and append it to the safe sequence. */
    method Finish(ghost s: State, i: nat, work: array<int>, finish: array<bool>, safe: array<nat>, count: nat)
      returns (count': nat)
      requires Valid() && NeedComputed() && s == Abstract() && work != available && i < numProcesses
      requires work.Length == MaxResources && finish.Length == MaxProcesses && safe.Length == MaxProcesses
      requires count <= numProcesses && !finish[i]
      requires count + CountUnfinished(finish[..numProcesses]) == numProcesses
      modifies work, finish, safe
      ensures s == Abstract() && NeedComputed()
      ensures count' == count + 1 <= numProcesses
      ensures ScanOf(work, finish, safe, count', true)
              == Scan(Release(old(work[..numResources]), s.allocation[i]), old(finish[..numProcesses])[i := true],
                      old(safe[..count]) + [i], true)
      ensures count' + CountUnfinished(finish[..numProcesses]) == numProcesses
    {
      ghost var f0 := finish[..numProcesses];
      ghost var o0 := safe[..count];
      UnfinishedMark(f0, numProcesses, i);
      ReleaseInto(work, i);
      finish[i] := true;
      assert finish[..numProcesses] == f0[i := true];
      safe[count] := i;
      count' := count + 1;
      assert safe[..count'] == o0 + [i];
    }

    /** One pass of the do-while loop of `detect_deadlock`: every unfinished process, in
        index order, whose Need row is covered by `work` releases its allocation into
        `work`, is marked finished and is appended to the safe sequence. */
    method Pass(ghost s: State, work: array<int>, finish: array<bool>, safe: array<nat>, count: nat)
      returns (found: bool, count': nat)
      requires Valid() && NeedComputed() && s == Abstract() && work != available
      requires work.Length == MaxResources && finish.Length == MaxProcesses && safe.Length == MaxProcesses
      requires count <= numProcesses
      requires count + CountUnfinished(finish[..numProcesses]) == numProcesses
      modifies work, finish, safe
      ensures count' <= numProcesses
      ensures ScanOf(work, finish, safe, count', found)
              == Safety.Pass(s, 0, old(ScanOf(work, finish, safe, count, false)))
      ensures count' <= numProcesses
      ensures count' + CountUnfinished(finish[..numProcesses]) == numProcesses
      ensures found ==> CountUnfinished(finish[..numProcesses]) < old(CountUnfinished(finish[..numProcesses]))
    {
      ghost var start := ScanOf(work, finish, safe, count, false);
      found := false;
      count' := count;
      var i := 0;
      while i < numProcesses
        invariant i <= numProcesses && count' <= numProcesses
        invariant s == Abstract() && NeedComputed()
        invariant count' + CountUnfinished(finish[..numProcesses]) == numProcesses
        invariant Safety.Pass(s, i, ScanOf(work, finish, safe, count', found))
                  == Safety.Pass(s, 0, start)
      {
        var finished;
        finished, count' := Visit(s, i, work, finish, safe, count');
        found := found || finished;
        i := i + 1;
      }
    }

    /** `int work[MAX_RESOURCES]` initialised to Available in the used columns. */
    method NewWork() returns (work: array<int>)
      requires Valid()
      ensures fresh(work) && work.Length == MaxResources
      ensures work[..numResources] == Abstract().available
    {
      work := new int[MaxResources];
      var j := 0;
      while j < numResources
        invariant j <= numResources
        invariant forall l :: 0 <= l < j ==> work[l] == available[l]
      {
        work[j] := available[j];
        j := j + 1;
      }
    }

    /** `bool finish[MAX_PROCESSES]` with the used entries false. */
    method NewFinish() returns (finish: array<bool>)
      requires Valid()
      ensures fresh(finish) && finish.Length == MaxProcesses
      ensures finish[..numProcesses] == seq(numProcesses, _ => false)
      ensures CountUnfinished(finish[..numProcesses]) == numProcesses
    {
      finish := new bool[MaxProcesses];
      var i := 0;
      while i < numProcesses
        invariant i <= numProcesses
        invariant forall l :: 0 <= l < i ==> !finish[l]
      {
        finish[i] := false;
        i := i + 1;
      }
      UnfinishedNone(finish[..numProcesses], numProcesses);
    }

    /** The closing loop of `detect_deadlock`: every unfinished process is deadlocked. */
    method CollectDeadlocked(finish: array<bool>) returns (isDeadlocked: bool, deadlocked: seq<nat>)
      requires Valid() && finish.Length == MaxProcesses
      ensures deadlocked == Unfinished(finish[..numProcesses], numProcesses)
      ensures isDeadlocked <==> |deadlocked| > 0
    {
      isDeadlocked := false;
      deadlocked := [];
      var i := 0;
      while i < numProcesses
        invariant i <= numProcesses
        invariant deadlocked == Unfinished(finish[..numProcesses], i)
        invariant isDeadlocked <==> |deadlocked| > 0
      {
        if !finish[i] {
          isDeadlocked := true;
          deadlocked := deadlocked + [i];
        }
        i := i + 1;
      }
    }

    /** The do-while loop of `detect_deadlock`: passes repeat while the last one
        finished somebody; `count` is the length of the safe sequence in `safe`. */
    method RunPasses(ghost s: State, work: array<int>, finish: array<bool>, safe: array<nat>) returns (count: nat)
      requires Valid() && NeedComputed() && s == Abstract() && work != available
      requires work.Length == MaxResources && finish.Length == MaxProcesses && safe.Length == MaxProcesses
      requires CountUnfinished(finish[..numProcesses]) == numProcesses
      modifies work, finish, safe
      ensures count <= numProcesses
      ensures ScanOf(work, finish, safe, count, false)
              == Converge(s, old(Scan(work[..numResources], finish[..numProcesses], [], false)))
    {
      ghost var start := Scan(work[..numResources], finish[..numProcesses], [], false);
      count := 0;
      while true
        invariant count <= numProcesses
        invariant s == Abstract() && NeedComputed()
        invariant count + CountUnfinished(finish[..numProcesses]) == numProcesses
        invariant Converge(s, ScanOf(work, finish, safe, count, false))
                  == Converge(s, start)
        decreases CountUnfinished(finish[..numProcesses])
      {
        ghost var before := ScanOf(work, finish, safe, count, false);
        var found;
        found, count := Pass(s, work, finish, safe, count);
        ghost var after := ScanOf(work, finish, safe, count, found);
        assert Converge(s, before) == if found then Converge(s, after) else after;
        if !found {
          break;
        }
        ConvergeIgnoresFound(s, after);
      }
    }

    /** The safety check of `detect_deadlock` once Need is in place: fresh work, finish
        and safe-sequence arrays, the passes, then the deadlocked processes. */
    method SafetyCheck() returns (r: Detection)
      requires Valid() && NeedComputed()
      ensures r == Detect(Abstract())
    {
      ghost var s := Abstract();
      var work := NewWork();
      var finish := NewFinish();
      assert Scan(work[..numResources], finish[..numProcesses], [], false) == Initial(s);
      var safe := new nat[MaxProcesses];
      var count := RunPasses(s, work, finish, safe);
      ghost var c := Converge(s, Initial(s));
      assert finish[..numProcesses] == c.finish && safe[..count] == c.order;
      var isDeadlocked, deadlocked := CollectDeadlocked(finish);
      r := Detection(isDeadlocked, deadlocked, safe[..count], count);
      assert r == Detect(s);
      assert Abstract() == s;
    }

    /** `detect_deadlock`: computes Need, then repeats passes over the processes until a
        pass finishes nobody, recording the safe sequence and then the deadlocked
        processes. Only `need` changes. */
    method DetectDeadlock() returns (r: Detection)
      requires Valid()
      modifies need
      ensures r == Detect(Abstract())
      ensures NeedComputed()
      ensures forall i, j :: OutsideCorner(i, j) ==> need[i, j] == old(need[i, j])
    {
      CalculateNeedMatrix();
      r := SafetyCheck();
    }

    /** The `total += allocation[proc][j]` loop: units process p holds. */
    method HeldBy(ghost s: State, p: nat) returns (total: int)
      requires Valid() && s == Abstract() && p < numProcesses
      ensures total == TotalHeld(s, p)
    {
      ghost var row := s.allocation[p];
      total := 0;
      var j := 0;
      while j < numResources
        invariant j <= numResources
        invariant total == RowSum(row, j)
      {
        total := total + allocation[p, j];
        j := j + 1;
      }
    }

    /** Victim selection of `resolve_deadlock`: the first deadlocked process of minimum
        total allocation (a later one replaces it only when strictly smaller). */
    method PickMinimum(deadlocked: seq<nat>) returns (victim: nat)
      requires Valid() && Below(deadlocked, numProcesses) && |deadlocked| > 0
      ensures victim == FirstMinimum(Abstract(), deadlocked, |deadlocked|)
    {
      ghost var s := Abstract();
      victim := deadlocked[0];
      var minResources := HeldBy(s, victim);
      var i := 1;
      while i < |deadlocked|
        invariant 1 <= i <= |deadlocked|
        invariant Abstract() == s
        invariant victim == FirstMinimum(s, deadlocked, i)
        invariant minResources == TotalHeld(s, victim)
      {
        var proc := deadlocked[i];
        var total := HeldBy(s, proc);
        if total < minResources {
          minResources := total;
          victim := proc;
        }
        i := i + 1;
      }
    }

    /** The release loop of `resolve_deadlock`: in every column where the victim holds
        something, return it to Available and zero both its allocation and its maximum
        claim; columns where it holds nothing are left as they are. */
    method ReleaseVictim(victim: nat)
      requires Valid() && victim < numProcesses
      modifies available, allocation, maxNeed
      ensures Valid()
      ensures Abstract() == ReleaseHeld(old(Abstract()), victim)
      ensures CornerOnly()
    {
      ghost var s := Abstract();
      ghost var t := ReleaseHeld(s, victim);
      var j := 0;
      while j < numResources
        invariant j <= numResources
        invariant forall l :: 0 <= l < j ==>
                    available[l] == t.available[l] && allocation[victim, l] == t.allocation[victim][l]
                    && maxNeed[victim, l] == t.maxNeed[victim][l]
        invariant forall l :: j <= l < MaxResources ==>
                    available[l] == old(available[l]) && allocation[victim, l] == old(allocation[victim, l])
                    && maxNeed[victim, l] == old(maxNeed[victim, l])
        invariant forall i, l :: 0 <= i < MaxProcesses && 0 <= l < MaxResources && i != victim ==>
                    allocation[i, l] == old(allocation[i, l]) && maxNeed[i, l] == old(maxNeed[i, l])
      {
        if allocation[victim, j] > 0 {
          available[j] := available[j] + allocation[victim, j];
          allocation[victim, j] := 0;
          maxNeed[victim, j] := 0;
        }
        j := j + 1;
      }
      ghost var a := Abstract();
      assert a.available == t.available;
      assert forall i :: 0 <= i < numProcesses ==> a.allocation[i] == t.allocation[i];
      assert forall i :: 0 <= i < numProcesses ==> a.maxNeed[i] == t.maxNeed[i];
    }

    /** `resolve_deadlock`: with nothing deadlocked the state and the result stay as they
        are; otherwise the first deadlocked process of minimum total allocation gives up
        what it holds and the safety check runs again on the new state. */
    method ResolveDeadlock(result: Detection) returns (r: Detection)
      requires Valid() && Below(result.deadlocked, numProcesses)
      modifies available, allocation, maxNeed, need
      ensures Valid()
      ensures !result.isDeadlocked || |result.deadlocked| == 0 ==>
                r == result && unchanged(available, allocation, maxNeed, need)
      ensures result.isDeadlocked && |result.deadlocked| > 0 ==>
                && Abstract() == ReleaseHeld(old(Abstract()),
                                             FirstMinimum(old(Abstract()), result.deadlocked, |result.deadlocked|))
                && r == Detect(Abstract())
      ensures CornerOnly()
    {
      if !result.isDeadlocked || |result.deadlocked| == 0 {
        return result;
      }
      var victim := PickMinimum(result.deadlocked);
      ReleaseVictim(victim);
      r := DetectDeadlock();
    }
  }
}
