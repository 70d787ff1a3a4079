/** The process/resource snapshot that every part of the engine works on, and the
    per-process Need vector derived from it (Need = Max - Allocation). */
module BankerState {
  /** Capacity of the fixed-size C arrays, and the validator's upper bound. */
  const MaxProcesses: nat := 10
  const MaxResources: nat := 10

  /** A system state: P processes, R resource types, the free vector and the
      allocation and maximum-claim matrices (P rows of R entries). */
  datatype State = State(
    numProcesses: nat,
    numResources: nat,
    available: seq<int>,
    allocation: seq<seq<int>>,
    maxNeed: seq<seq<int>>)

  predicate IsMatrix(m: seq<seq<int>>, rows: nat, cols: nat) {
    |m| == rows && forall i :: 0 <= i < rows ==> |m[i]| == cols
  }

  /** The array shapes agree with the declared dimensions. */
  predicate Shaped(s: State) {
    && |s.available| == s.numResources
    && IsMatrix(s.allocation, s.numProcesses, s.numResources)
    && IsMatrix(s.maxNeed, s.numProcesses, s.numResources)
  }

  /** Everything the request validator establishes: shapes, dimensions in 1..10,
      non-negative entries and allocation never above the declared maximum. */
  predicate Valid(s: State) {
    && Shaped(s)
    && 1 <= s.numProcesses <= MaxProcesses
    && 1 <= s.numResources <= MaxResources
    && (forall j :: 0 <= j < s.numResources ==> s.available[j] >= 0)
    && (forall i, j :: 0 <= i < s.numProcesses && 0 <= j < s.numResources ==>
          0 <= s.allocation[i][j] <= s.maxNeed[i][j])
  }

  /** Row i of the Need matrix. */
  function NeedRow(s: State, i: nat): (row: seq<int>)
    requires Shaped(s) && i < s.numProcesses
    ensures |row| == s.numResources
  {
    seq(s.numResources, j requires 0 <= j < s.numResources => s.maxNeed[i][j] - s.allocation[i][j])
  }

  /** The whole Need matrix, as both implementations compute it before scanning. */
  function NeedMatrix(s: State): (need: seq<seq<int>>)
    requires Shaped(s)
    ensures IsMatrix(need, s.numProcesses, s.numResources)
  {
    seq(s.numProcesses, i requires 0 <= i < s.numProcesses => NeedRow(s, i))
  }

  /** need[j] <= work[j] for every j < n: the process can run to completion. */
  predicate Covers(need: seq<int>, work: seq<int>, n: nat)
    requires n <= |need| && n <= |work|
  {
    forall j :: 0 <= j < n ==> need[j] <= work[j]
  }

  /** Work after a finishing process returns what it holds. */
  function Release(work: seq<int>, held: seq<int>): (w: seq<int>)
    requires |work| <= |held|
    ensures |w| == |work|
  {
    seq(|work|, j requires 0 <= j < |work| => work[j] + held[j])
  }

  /** A row of zeros, as `row.map(() => 0)` produces. */
  function Zeros(n: nat): (z: seq<int>)
    ensures |z| == n && forall j :: 0 <= j < n ==> z[j] == 0
  {
    seq(n, _ => 0)
  }

  /** Sum of the first n entries of a row (the `total += allocation[i][j]` loops). */
  function RowSum(row: seq<int>, n: nat): int
    requires n <= |row|
  {
    if n == 0 then 0 else RowSum(row, n - 1) + row[n - 1]
  }

  /** Total number of units process i holds. */
  function TotalHeld(s: State, i: nat): int
    requires Shaped(s) && i < s.numProcesses
  {
    RowSum(s.allocation[i], s.numResources)
  }
}
