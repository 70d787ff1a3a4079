/** The batch Banker's safety check as a specification: a pass scans the processes in
    ascending index order and finishes every one whose Need is covered by Work; passes
    repeat until one finishes nobody. Both implementations are proved equal to Detect. */
module Safety {
  import opened BankerState

  /** Result of a safety check (DetectResponse in TypeScript, DetectionResult in C). */
  datatype Detection = Detection(
    isDeadlocked: bool,
    deadlocked: seq<nat>,
    safeSequence: seq<nat>,
    safeSequenceLength: nat)

  predicate Distinct(xs: seq<nat>) {
    forall a, b :: 0 <= a < b < |xs| ==> xs[a] != xs[b]
  }

  predicate Ascending(xs: seq<nat>) {
    forall a, b :: 0 <= a < b < |xs| ==> xs[a] < xs[b]
  }

  predicate Below(xs: seq<nat>, n: nat) {
    forall k :: 0 <= k < |xs| ==> xs[k] < n
  }

  /** The indices below n whose finish flag is false, in ascending order. */
  function Unfinished(finish: seq<bool>, n: nat): seq<nat>
    requires n <= |finish|
  {
    if n == 0 then [] else Unfinished(finish, n - 1) + (if finish[n - 1] then [] else [n - 1])
  }

  /** Number of processes not yet finished. */
  function CountUnfinished(finish: seq<bool>): nat {
    |Unfinished(finish, |finish|)|
  }

  lemma {:induction false} UnfinishedMembers(finish: seq<bool>, n: nat)
    requires n <= |finish|
    ensures Ascending(Unfinished(finish, n)) && Below(Unfinished(finish, n), n)
    ensures forall i :: 0 <= i < n ==> (i in Unfinished(finish, n) <==> !finish[i])
  {
    if n > 0 {
      UnfinishedMembers(finish, n - 1);
    }
  }

  /** Marking one unfinished process finished removes exactly it from the count. */
  lemma {:induction false} UnfinishedMark(finish: seq<bool>, n: nat, i: nat)
    requires n <= |finish| && i < |finish| && !finish[i]
    ensures |Unfinished(finish[i := true], n)| + (if i < n then 1 else 0) == |Unfinished(finish, n)|
  {
    if n > 0 {
      UnfinishedMark(finish, n - 1, i);
    }
  }

  /** Work after every process of `order` has returned its allocation, in that order. */
  function ReleaseAll(s: State, work: seq<int>, order: seq<nat>): (w: seq<int>)
    requires Shaped(s) && |work| == s.numResources && Below(order, s.numProcesses)
    ensures |w| == s.numResources
  {
    if order == [] then work
    else Release(ReleaseAll(s, work, order[..|order| - 1]), s.allocation[order[|order| - 1]])
  }

  /** Replaying `order` from `work`, every process's Need is covered at its turn. */
  ghost predicate SafeOrder(s: State, work: seq<int>, order: seq<nat>)
    requires Shaped(s) && |work| == s.numResources && Below(order, s.numProcesses)
  {
    order == [] ||
    (SafeOrder(s, work, order[..|order| - 1])
     && Covers(NeedRow(s, order[|order| - 1]), ReleaseAll(s, work, order[..|order| - 1]), s.numResources))
  }

  /** The scan state of the batch algorithm: work, finish, the sequence so far and the
      `found` flag of the current pass. */
  datatype Scan = Scan(work: seq<int>, finish: seq<bool>, order: seq<nat>, found: bool)

  predicate Fits(s: State, st: Scan) {
    Shaped(s) && |st.work| == s.numResources && |st.finish| == s.numProcesses
  }

  /** One iteration of the inner for-loop, at process i. */
  function Visit(s: State, i: nat, st: Scan): (r: Scan)
    requires Fits(s, st) && i < s.numProcesses
    ensures Fits(s, r)
    ensures st.found ==> r.found
    ensures CountUnfinished(r.finish) <= CountUnfinished(st.finish)
    ensures r.found && !st.found ==> CountUnfinished(r.finish) < CountUnfinished(st.finish)
  {
    if !st.finish[i] && Covers(NeedRow(s, i), st.work, s.numResources) then
      UnfinishedMark(st.finish, |st.finish|, i);
      Scan(Release(st.work, s.allocation[i]), st.finish[i := true], st.order + [i], true)
    else
      st
  }

  /** The rest of one pass, from process i to the last. */
  function Pass(s: State, i: nat, st: Scan): (r: Scan)
    requires Fits(s, st) && i <= s.numProcesses
    ensures Fits(s, r)
    ensures st.found ==> r.found
    ensures CountUnfinished(r.finish) <= CountUnfinished(st.finish)
    ensures r.found && !st.found ==> CountUnfinished(r.finish) < CountUnfinished(st.finish)
    decreases s.numProcesses - i
  {
    if i == s.numProcesses then st else Pass(s, i + 1, Visit(s, i, st))
  }

  /** The do-while loop: passes repeat while the last one finished somebody. */
  function Converge(s: State, st: Scan): (r: Scan)
    requires Fits(s, st)
    ensures Fits(s, r)
    decreases CountUnfinished(st.finish)
  {
    var p := Pass(s, 0, st.(found := false));
    if p.found then Converge(s, p) else p
  }

  /** The do-while loop clears `found` before each pass, so the flag it starts with does
      not matter. */
  lemma ConvergeIgnoresFound(s: State, st: Scan)
    requires Fits(s, st)
    ensures Converge(s, st) == Converge(s, st.(found := false))
  {
    assert st.(found := false).(found := false) == st.(found := false);
  }

  /** Number of passes the do-while loop runs from st. */
  function PassCount(s: State, st: Scan): (n: nat)
    requires Fits(s, st)
    ensures 1 <= n <= CountUnfinished(st.finish) + 1
    decreases CountUnfinished(st.finish)
  {
    var p := Pass(s, 0, st.(found := false));
    if p.found then 1 + PassCount(s, p) else 1
  }

  /** Work = Available, nobody finished, empty sequence. */
  function Initial(s: State): (st: Scan)
    requires Shaped(s)
    ensures Fits(s, st)
  {
    Scan(s.available, seq(s.numProcesses, _ => false), [], false)
  }

  /** The safety check: run to convergence, then list the unfinished processes. */
  function Detect(s: State): Detection
    requires Shaped(s)
  {
    var c := Converge(s, Initial(s));
    var dl := Unfinished(c.finish, s.numProcesses);
    Detection(|dl| > 0, dl, c.order, |c.order|)
  }

  /** Final Work of the batch check. */
  function FinalWork(s: State): (w: seq<int>)
    requires Shaped(s)
    ensures |w| == s.numResources
  {
    Converge(s, Initial(s)).work
  }

  // ---------------------------------------------------------------------------
  // Invariants of the scan

  /** What holds of every scan state the algorithm reaches: the sequence lists exactly
      the finished processes, once each; Work is Available plus what they returned; and
      the sequence is a safe order from Available. */
  ghost predicate Reached(s: State, work: seq<int>, finish: seq<bool>, order: seq<nat>) {
    && Shaped(s) && |work| == s.numResources && |finish| == s.numProcesses
    && Below(order, s.numProcesses) && Distinct(order)
    && (forall i :: 0 <= i < s.numProcesses ==> (finish[i] <==> i in order))
    && work == ReleaseAll(s, s.available, order)
    && SafeOrder(s, s.available, order)
    && |order| + CountUnfinished(finish) == s.numProcesses
  }

  /** No unfinished process is covered by Work. */
  ghost predicate Stuck(s: State, work: seq<int>, finish: seq<bool>)
    requires Shaped(s) && |work| == s.numResources && |finish| == s.numProcesses
  {
    forall i :: 0 <= i < s.numProcesses && !finish[i] ==> !Covers(NeedRow(s, i), work, s.numResources)
  }

  lemma InitialReached(s: State)
    requires Shaped(s)
    ensures Reached(s, Initial(s).work, Initial(s).finish, Initial(s).order)
  {
    var f := Initial(s).finish;
    UnfinishedNone(f, |f|);
  }

  /** With nobody finished, every index is listed. */
  lemma {:induction false} UnfinishedNone(finish: seq<bool>, n: nat)
    requires n <= |finish| && forall k :: 0 <= k < n ==> !finish[k]
    ensures |Unfinished(finish, n)| == n
  {
    if n > 0 {
      UnfinishedNone(finish, n - 1);
    }
  }

  lemma VisitReached(s: State, i: nat, st: Scan)
    requires Fits(s, st) && i < s.numProcesses
    requires Reached(s, st.work, st.finish, st.order)
    ensures Reached(s, Visit(s, i, st).work, Visit(s, i, st).finish, Visit(s, i, st).order)
  {
    var r := Visit(s, i, st);
    if r != st {
      assert i !in st.order;
      var o := st.order + [i];
      assert o[..|o| - 1] == st.order;
      assert forall k :: 0 <= k < s.numProcesses ==> (r.finish[k] <==> k in o);
      UnfinishedMark(st.finish, |st.finish|, i);
    }
  }

  lemma {:induction false} PassReached(s: State, i: nat, st: Scan)
    requires Fits(s, st) && i <= s.numProcesses
    requires Reached(s, st.work, st.finish, st.order)
    ensures Reached(s, Pass(s, i, st).work, Pass(s, i, st).finish, Pass(s, i, st).order)
    decreases s.numProcesses - i
  {
    if i < s.numProcesses {
      VisitReached(s, i, st);
      PassReached(s, i + 1, Visit(s, i, st));
    }
  }

  /** A pass that finishes nobody changes nothing, and every process it looked at that is
      still unfinished is not covered by Work. */
  lemma {:induction false} PassIdle(s: State, i: nat, st: Scan)
    requires Fits(s, st) && i <= s.numProcesses
    requires !Pass(s, i, st).found
    ensures Pass(s, i, st) == st
    ensures forall k :: i <= k < s.numProcesses && !st.finish[k] ==>
              !Covers(NeedRow(s, k), st.work, s.numResources)
    decreases s.numProcesses - i
  {
    if i < s.numProcesses {
      PassIdle(s, i + 1, Visit(s, i, st));
    }
  }

  lemma {:induction false} ConvergeReached(s: State, st: Scan)
    requires Fits(s, st)
    requires Reached(s, st.work, st.finish, st.order)
    ensures Reached(s, Converge(s, st).work, Converge(s, st).finish, Converge(s, st).order)
    ensures Stuck(s, Converge(s, st).work, Converge(s, st).finish)
    decreases CountUnfinished(st.finish)
  {
    var p := Pass(s, 0, st.(found := false));
    PassReached(s, 0, st.(found := false));
    if p.found {
      ConvergeReached(s, p);
    } else {
      PassIdle(s, 0, st.(found := false));
    }
  }

  lemma DetectReached(s: State)
    requires Shaped(s)
    ensures var c := Converge(s, Initial(s));
            Reached(s, c.work, c.finish, c.order) && Stuck(s, c.work, c.finish)
  {
    InitialReached(s);
    ConvergeReached(s, Initial(s));
  }

  // ---------------------------------------------------------------------------
  // Properties of the batch check

  /** Every process index appears exactly once, either in the safe sequence or in the
      ascending deadlocked list; the flag and the length field agree with the lists. */
  lemma DetectPartition(s: State)
    requires Shaped(s)
    ensures var d := Detect(s);
            && Below(d.safeSequence, s.numProcesses) && Distinct(d.safeSequence)
            && Below(d.deadlocked, s.numProcesses) && Ascending(d.deadlocked)
            && (forall i :: 0 <= i < s.numProcesses ==> (i in d.safeSequence <==> i !in d.deadlocked))
            && |d.safeSequence| + |d.deadlocked| == s.numProcesses
            && (d.isDeadlocked <==> |d.deadlocked| > 0)
            && d.safeSequenceLength == |d.safeSequence|
  {
    DetectReached(s);
    var c := Converge(s, Initial(s));
    UnfinishedMembers(c.finish, s.numProcesses);
  }

  /** The deadlocked processes are process indices. */
  lemma DetectDeadlockedBelow(s: State)
    requires Shaped(s)
    ensures Below(Detect(s).deadlocked, s.numProcesses)
  {
    DetectPartition(s);
  }

  /** Soundness: each process of the safe sequence has Need <= Available plus the
      allocations of the processes before it. */
  lemma DetectSound(s: State)
    requires Shaped(s)
    ensures Below(Detect(s).safeSequence, s.numProcesses)
    ensures SafeOrder(s, s.available, Detect(s).safeSequence)
    ensures FinalWork(s) == ReleaseAll(s, s.available, Detect(s).safeSequence)
  {
    DetectReached(s);
  }

  /** Maximality: every deadlocked process lacks some resource against the final Work. */
  lemma DetectMaximal(s: State)
    requires Shaped(s)
    ensures forall i :: i in Detect(s).deadlocked ==>
              i < s.numProcesses && exists j :: 0 <= j < s.numResources && NeedRow(s, i)[j] > FinalWork(s)[j]
  {
    DetectReached(s);
    var c := Converge(s, Initial(s));
    UnfinishedMembers(c.finish, s.numProcesses);
  }

  /** Termination: each productive pass finishes somebody, so at most P + 1 passes run. */
  lemma PassBound(s: State)
    requires Shaped(s)
    ensures PassCount(s, Initial(s)) <= s.numProcesses + 1
  {
    InitialReached(s);
  }
}
