/** The Resource Allocation Graph of a state: process nodes 0..P-1, resource nodes
    P..P+R-1, an assignment edge from resource j to process i where process i holds units
    of j, and a request edge from process i to resource j where it still needs some. The
    edge list is enumerated cell by cell in row-major order, the assignment edge of a cell
    before its request edge; the adjacency matrix codes 0 = no edge, 1 = request,
    2 = assignment. */
module RagGraph {
  import opened BankerState

  datatype EdgeKind = Request | Assignment

  datatype Edge = Edge(from: nat, to: nat, kind: EdgeKind)

  /** Adjacency codes. */
  const NoEdge: int := 0
  const RequestCode: int := 1
  const AssignmentCode: int := 2

  /** The process an edge is attached to. */
  function EdgeProcess(e: Edge): nat {
    if e.kind == Assignment then e.to else e.from
  }

  /** The resource an edge is attached to, as a resource index (node id minus P). */
  function EdgeResource(p: nat, e: Edge): int {
    if e.kind == Assignment then e.from - p else e.to - p
  }

  /** The edges of cell (i, j): assignment first, then request. */
  function CellEdges(p: nat, i: nat, j: nat, held: int, needed: int): (es: seq<Edge>)
    ensures |es| <= 2
  {
    (if held > 0 then [Edge(p + j, i, Assignment)] else [])
    + (if needed > 0 then [Edge(i, p + j, Request)] else [])
  }

  /** The edges of cells (i, 0) .. (i, j-1). */
  function RowEdges(p: nat, r: nat, alloc: seq<seq<int>>, need: seq<seq<int>>, i: nat, j: nat): seq<Edge>
    requires IsMatrix(alloc, p, r) && IsMatrix(need, p, r) && i < p && j <= r
  {
    if j == 0 then []
    else RowEdges(p, r, alloc, need, i, j - 1) + CellEdges(p, i, j - 1, alloc[i][j - 1], need[i][j - 1])
  }

  /** The edges of rows 0 .. i-1. */
  function EdgesBefore(p: nat, r: nat, alloc: seq<seq<int>>, need: seq<seq<int>>, i: nat): seq<Edge>
    requires IsMatrix(alloc, p, r) && IsMatrix(need, p, r) && i <= p
  {
    if i == 0 then []
    else EdgesBefore(p, r, alloc, need, i - 1) + RowEdges(p, r, alloc, need, i - 1, r)
  }

  /** The whole edge list. */
  function EdgeList(p: nat, r: nat, alloc: seq<seq<int>>, need: seq<seq<int>>): seq<Edge>
    requires IsMatrix(alloc, p, r) && IsMatrix(need, p, r)
  {
    EdgesBefore(p, r, alloc, need, p)
  }

  /** An edge of the graph: an assignment edge from a resource node to a process node that
      holds units of it, or a request edge from a process node to a resource node it still
      needs. */
  predicate IsRagEdge(p: nat, r: nat, alloc: seq<seq<int>>, need: seq<seq<int>>, e: Edge): (b: bool)
    requires IsMatrix(alloc, p, r) && IsMatrix(need, p, r)
    ensures b ==> e.from < p + r && e.to < p + r && (e.from < p <==> p <= e.to)
  {
    match e.kind
    case Assignment => p <= e.from < p + r && e.to < p && alloc[e.to][e.from - p] > 0
    case Request => e.from < p && p <= e.to < p + r && need[e.from][e.to - p] > 0
  }

  /** The edges of one cell are the graph's edges attached to that cell. */
  lemma CellEdgesMembers(p: nat, r: nat, alloc: seq<seq<int>>, need: seq<seq<int>>, i: nat, j: nat)
    requires IsMatrix(alloc, p, r) && IsMatrix(need, p, r) && i < p && j < r
    ensures forall e {:trigger e in CellEdges(p, i, j, alloc[i][j], need[i][j])} :: e in CellEdges(p, i, j, alloc[i][j], need[i][j]) <==>
              IsRagEdge(p, r, alloc, need, e) && EdgeProcess(e) == i && EdgeResource(p, e) == j
  {
    var cell := CellEdges(p, i, j, alloc[i][j], need[i][j]);
    forall e
      ensures e in cell <==> IsRagEdge(p, r, alloc, need, e) && EdgeProcess(e) == i && EdgeResource(p, e) == j
    {
      if e.kind == Assignment {
        assert e in cell <==> alloc[i][j] > 0 && e == Edge(p + j, i, Assignment);
      } else {
        assert e in cell <==> need[i][j] > 0 && e == Edge(i, p + j, Request);
      }
    }
  }

  lemma {:induction false} RowEdgesMembers(p: nat, r: nat, alloc: seq<seq<int>>, need: seq<seq<int>>, i: nat, j: nat)
    requires IsMatrix(alloc, p, r) && IsMatrix(need, p, r) && i < p && j <= r
    ensures |RowEdges(p, r, alloc, need, i, j)| <= 2 * j
    ensures forall e {:trigger e in RowEdges(p, r, alloc, need, i, j)} :: e in RowEdges(p, r, alloc, need, i, j) <==>
              IsRagEdge(p, r, alloc, need, e) && EdgeProcess(e) == i && EdgeResource(p, e) < j
  {
    if j > 0 {
      var a := RowEdges(p, r, alloc, need, i, j - 1);
      var b := CellEdges(p, i, j - 1, alloc[i][j - 1], need[i][j - 1]);
      assert RowEdges(p, r, alloc, need, i, j) == a + b;
      RowEdgesMembers(p, r, alloc, need, i, j - 1);
      CellEdgesMembers(p, r, alloc, need, i, j - 1);
      JoinCellMembers(p, r, alloc, need, a, b, i, j);
    }
  }

  lemma {:induction false} EdgesBeforeMembers(p: nat, r: nat, alloc: seq<seq<int>>, need: seq<seq<int>>, i: nat)
    requires IsMatrix(alloc, p, r) && IsMatrix(need, p, r) && i <= p
    ensures forall e {:trigger e in EdgesBefore(p, r, alloc, need, i)} :: e in EdgesBefore(p, r, alloc, need, i) <==>
              IsRagEdge(p, r, alloc, need, e) && EdgeProcess(e) < i
  {
    if i > 0 {
      var a := EdgesBefore(p, r, alloc, need, i - 1);
      var b := RowEdges(p, r, alloc, need, i - 1, r);
      assert EdgesBefore(p, r, alloc, need, i) == a + b;
      EdgesBeforeMembers(p, r, alloc, need, i - 1);
      RowEdgesMembers(p, r, alloc, need, i - 1, r);
      JoinRowMembers(p, r, alloc, need, a, b, i);
    }
  }

  lemma {:induction false} EdgesBeforeLength(p: nat, r: nat, alloc: seq<seq<int>>, need: seq<seq<int>>, i: nat)
    requires IsMatrix(alloc, p, r) && IsMatrix(need, p, r) && i <= p
    ensures |EdgesBefore(p, r, alloc, need, i)| <= 2 * r * i
  {
    if i > 0 {
      var a := EdgesBefore(p, r, alloc, need, i - 1);
      var b := RowEdges(p, r, alloc, need, i - 1, r);
      assert EdgesBefore(p, r, alloc, need, i) == a + b;
      EdgesBeforeLength(p, r, alloc, need, i - 1);
      RowEdgesMembers(p, r, alloc, need, i - 1, r);
      JoinLength(a, b, r, i);
    }
  }

  /** Appending the edges of cell (i, j-1) to those of the earlier cells of row i. */
  lemma JoinCellMembers(p: nat, r: nat, alloc: seq<seq<int>>, need: seq<seq<int>>,
                        a: seq<Edge>, b: seq<Edge>, i: nat, j: nat)
    requires IsMatrix(alloc, p, r) && IsMatrix(need, p, r) && i < p && 0 < j <= r
    requires |a| <= 2 * (j - 1) && |b| <= 2
    requires forall e {:trigger e in a} :: e in a <==>
               IsRagEdge(p, r, alloc, need, e) && EdgeProcess(e) == i && EdgeResource(p, e) < j - 1
    requires forall e {:trigger e in b} :: e in b <==>
               IsRagEdge(p, r, alloc, need, e) && EdgeProcess(e) == i && EdgeResource(p, e) == j - 1
    ensures |a + b| <= 2 * j
    ensures forall e {:trigger e in a + b} :: e in a + b <==>
              IsRagEdge(p, r, alloc, need, e) && EdgeProcess(e) == i && EdgeResource(p, e) < j
  {
    forall e
      ensures e in a + b <==> IsRagEdge(p, r, alloc, need, e) && EdgeProcess(e) == i && EdgeResource(p, e) < j
    {
      assert e in a + b <==> e in a || e in b;
    }
  }

  /** Appending the edges of row i-1 to those of the earlier rows. */
  lemma JoinRowMembers(p: nat, r: nat, alloc: seq<seq<int>>, need: seq<seq<int>>,
                       a: seq<Edge>, b: seq<Edge>, i: nat)
    requires IsMatrix(alloc, p, r) && IsMatrix(need, p, r) && 0 < i <= p
    requires forall e {:trigger e in a} :: e in a <==> IsRagEdge(p, r, alloc, need, e) && EdgeProcess(e) < i - 1
    requires forall e {:trigger e in b} :: e in b <==>
               IsRagEdge(p, r, alloc, need, e) && EdgeProcess(e) == i - 1 && EdgeResource(p, e) < r
    ensures forall e {:trigger e in a + b} :: e in a + b <==> IsRagEdge(p, r, alloc, need, e) && EdgeProcess(e) < i
  {
    forall e
      ensures e in a + b <==> IsRagEdge(p, r, alloc, need, e) && EdgeProcess(e) < i
    {
      assert e in a + b <==> e in a || e in b;
      if IsRagEdge(p, r, alloc, need, e) {
        assert 0 <= EdgeResource(p, e) < r;
      }
    }
  }

  lemma JoinLength(a: seq<Edge>, b: seq<Edge>, r: nat, i: nat)
    requires 0 < i && |a| <= 2 * r * (i - 1) && |b| <= 2 * r
    ensures |a + b| <= 2 * r * i
  {
    MulStep(2 * r, i);
  }

  lemma MulStep(a: nat, i: nat)
    requires i > 0
    ensures a * (i - 1) + a == a * i
  {
  }

  /** The edge list holds exactly the edges of the graph: an assignment edge for every
      cell with a positive allocation, a request edge for every cell with a positive Need,
      and nothing else; there are at most 2PR of them. */
  lemma EdgeListMembers(p: nat, r: nat, alloc: seq<seq<int>>, need: seq<seq<int>>)
    requires IsMatrix(alloc, p, r) && IsMatrix(need, p, r)
    ensures |EdgeList(p, r, alloc, need)| <= 2 * r * p
    ensures forall e {:trigger e in EdgeList(p, r, alloc, need)} :: e in EdgeList(p, r, alloc, need) <==> IsRagEdge(p, r, alloc, need, e)
  {
    EdgesBeforeMembers(p, r, alloc, need, p);
    EdgesBeforeLength(p, r, alloc, need, p);
  }

  /** Cell by cell: the assignment edge of (i, j) is listed exactly when process i holds
      units of resource j, and the request edge exactly when it still needs some. */
  lemma EdgeListCells(p: nat, r: nat, alloc: seq<seq<int>>, need: seq<seq<int>>, i: nat, j: nat)
    requires IsMatrix(alloc, p, r) && IsMatrix(need, p, r) && i < p && j < r
    ensures Edge(p + j, i, Assignment) in EdgeList(p, r, alloc, need) <==> alloc[i][j] > 0
    ensures Edge(i, p + j, Request) in EdgeList(p, r, alloc, need) <==> need[i][j] > 0
  {
    EdgeListMembers(p, r, alloc, need);
    assert IsRagEdge(p, r, alloc, need, Edge(p + j, i, Assignment)) <==> alloc[i][j] > 0;
    assert IsRagEdge(p, r, alloc, need, Edge(i, p + j, Request)) <==> need[i][j] > 0;
  }

  /** Every edge joins a process node and a resource node: assignments point from the
      resource to the process, requests from the process to the resource. */
  lemma EdgeListBipartite(p: nat, r: nat, alloc: seq<seq<int>>, need: seq<seq<int>>)
    requires IsMatrix(alloc, p, r) && IsMatrix(need, p, r)
    ensures forall e {:trigger e in EdgeList(p, r, alloc, need)} :: e in EdgeList(p, r, alloc, need) ==>
              if e.kind == Assignment then p <= e.from < p + r && e.to < p
              else e.from < p && p <= e.to < p + r
  {
    EdgeListMembers(p, r, alloc, need);
  }

  // ---------------------------------------------------------------------------
  // Enumeration order

  /** e1 comes before e2 in row-major cell order, assignment before request in a cell. */
  predicate Precedes(p: nat, e1: Edge, e2: Edge) {
    || EdgeProcess(e1) < EdgeProcess(e2)
    || (EdgeProcess(e1) == EdgeProcess(e2) && EdgeResource(p, e1) < EdgeResource(p, e2))
    || (EdgeProcess(e1) == EdgeProcess(e2) && EdgeResource(p, e1) == EdgeResource(p, e2)
        && e1.kind == Assignment && e2.kind == Request)
  }

  predicate InOrder(p: nat, es: seq<Edge>) {
    forall k, l :: 0 <= k < l < |es| ==> Precedes(p, es[k], es[l])
  }

  lemma InOrderAppend(p: nat, a: seq<Edge>, b: seq<Edge>)
    requires InOrder(p, a) && InOrder(p, b)
    requires forall x, y :: x in a && y in b ==> Precedes(p, x, y)
    ensures InOrder(p, a + b)
  {
    forall k, l | 0 <= k < l < |a + b|
      ensures Precedes(p, (a + b)[k], (a + b)[l])
    {
      if l < |a| {
        assert (a + b)[k] == a[k] && (a + b)[l] == a[l];
      } else if k >= |a| {
        assert (a + b)[k] == b[k - |a|] && (a + b)[l] == b[l - |a|];
      } else {
        assert (a + b)[k] in a && (a + b)[l] in b;
      }
    }
  }

  lemma CellEdgesInOrder(p: nat, i: nat, j: nat, held: int, needed: int)
    ensures InOrder(p, CellEdges(p, i, j, held, needed))
    ensures forall e {:trigger e in CellEdges(p, i, j, held, needed)} :: e in CellEdges(p, i, j, held, needed) ==> EdgeProcess(e) == i && EdgeResource(p, e) == j
  {
  }

  /** The edges of row i before column j are in order and attached to row i and to
      earlier columns. */
  lemma {:induction false} RowEdgesInOrder(p: nat, r: nat, alloc: seq<seq<int>>, need: seq<seq<int>>, i: nat, j: nat)
    requires IsMatrix(alloc, p, r) && IsMatrix(need, p, r) && i < p && j <= r
    ensures InOrder(p, RowEdges(p, r, alloc, need, i, j))
    ensures forall e {:trigger e in RowEdges(p, r, alloc, need, i, j)} :: e in RowEdges(p, r, alloc, need, i, j) ==> EdgeProcess(e) == i && EdgeResource(p, e) < j
  {
    if j > 0 {
      var a := RowEdges(p, r, alloc, need, i, j - 1);
      var b := CellEdges(p, i, j - 1, alloc[i][j - 1], need[i][j - 1]);
      assert RowEdges(p, r, alloc, need, i, j) == a + b;
      RowEdgesInOrder(p, r, alloc, need, i, j - 1);
      CellEdgesInOrder(p, i, j - 1, alloc[i][j - 1], need[i][j - 1]);
      JoinCellsInOrder(p, a, b, i, j);
    }
  }

  /** The edges of the rows before i are in order and attached to earlier rows. */
  lemma {:induction false} EdgesBeforeInOrder(p: nat, r: nat, alloc: seq<seq<int>>, need: seq<seq<int>>, i: nat)
    requires IsMatrix(alloc, p, r) && IsMatrix(need, p, r) && i <= p
    ensures InOrder(p, EdgesBefore(p, r, alloc, need, i))
    ensures forall e {:trigger e in EdgesBefore(p, r, alloc, need, i)} :: e in EdgesBefore(p, r, alloc, need, i) ==> EdgeProcess(e) < i
  {
    if i > 0 {
      var a := EdgesBefore(p, r, alloc, need, i - 1);
      var b := RowEdges(p, r, alloc, need, i - 1, r);
      assert EdgesBefore(p, r, alloc, need, i) == a + b;
      EdgesBeforeInOrder(p, r, alloc, need, i - 1);
      RowEdgesInOrder(p, r, alloc, need, i - 1, r);
      JoinRowsInOrder(p, a, b, i);
    }
  }

  lemma JoinCellsInOrder(p: nat, a: seq<Edge>, b: seq<Edge>, i: nat, j: nat)
    requires InOrder(p, a) && InOrder(p, b) && j > 0
    requires forall e {:trigger e in a} :: e in a ==> EdgeProcess(e) == i && EdgeResource(p, e) < j - 1
    requires forall e {:trigger e in b} :: e in b ==> EdgeProcess(e) == i && EdgeResource(p, e) == j - 1
    ensures InOrder(p, a + b)
    ensures forall e {:trigger e in a + b} :: e in a + b ==> EdgeProcess(e) == i && EdgeResource(p, e) < j
  {
    forall x, y | x in a && y in b
      ensures Precedes(p, x, y)
    {
    }
    InOrderAppend(p, a, b);
    forall e | e in a + b
      ensures EdgeProcess(e) == i && EdgeResource(p, e) < j
    {
      if e !in a {
        assert e in b;
      }
    }
  }

  lemma JoinRowsInOrder(p: nat, a: seq<Edge>, b: seq<Edge>, i: nat)
    requires InOrder(p, a) && InOrder(p, b) && i > 0
    requires forall e {:trigger e in a} :: e in a ==> EdgeProcess(e) < i - 1
    requires forall e {:trigger e in b} :: e in b ==> EdgeProcess(e) == i - 1
    ensures InOrder(p, a + b)
    ensures forall e {:trigger e in a + b} :: e in a + b ==> EdgeProcess(e) < i
  {
    forall x, y | x in a && y in b
      ensures Precedes(p, x, y)
    {
    }
    InOrderAppend(p, a, b);
    forall e | e in a + b
      ensures EdgeProcess(e) < i
    {
      if e !in a {
        assert e in b;
      }
    }
  }

  /** The list is in row-major cell order with the assignment edge of a cell before its
      request edge; in particular no edge is listed twice. */
  lemma EdgeListInOrder(p: nat, r: nat, alloc: seq<seq<int>>, need: seq<seq<int>>)
    requires IsMatrix(alloc, p, r) && IsMatrix(need, p, r)
    ensures InOrder(p, EdgeList(p, r, alloc, need))
    ensures forall k, l :: 0 <= k < l < |EdgeList(p, r, alloc, need)| ==>
              EdgeList(p, r, alloc, need)[k] != EdgeList(p, r, alloc, need)[l]
  {
    EdgesBeforeInOrder(p, r, alloc, need, p);
  }

  // ---------------------------------------------------------------------------
  // Adjacency matrix and cycles

  /** The adjacency code between nodes u and v. */
  function AdjCode(p: nat, r: nat, alloc: seq<seq<int>>, need: seq<seq<int>>, u: nat, v: nat): (c: int)
    requires IsMatrix(alloc, p, r) && IsMatrix(need, p, r)
    ensures c == NoEdge || c == RequestCode || c == AssignmentCode
  {
    if p <= u < p + r && v < p && alloc[v][u - p] > 0 then AssignmentCode
    else if u < p && p <= v < p + r && need[u][v - p] > 0 then RequestCode
    else NoEdge
  }

  /** The (P+R) x (P+R) adjacency matrix. */
  function AdjMatrix(p: nat, r: nat, alloc: seq<seq<int>>, need: seq<seq<int>>): (m: seq<seq<int>>)
    requires IsMatrix(alloc, p, r) && IsMatrix(need, p, r)
    ensures IsMatrix(m, p + r, p + r)
  {
    seq(p + r, u requires 0 <= u < p + r =>
      seq(p + r, v requires 0 <= v < p + r => AdjCode(p, r, alloc, need, u, v)))
  }

  /** The adjacency matrix and the edge list describe the same graph: code 2 exactly for
      the listed assignment edges, code 1 exactly for the listed request edges. */
  lemma AdjMatrixMatchesEdges(p: nat, r: nat, alloc: seq<seq<int>>, need: seq<seq<int>>)
    requires IsMatrix(alloc, p, r) && IsMatrix(need, p, r)
    ensures forall u, v :: 0 <= u < p + r && 0 <= v < p + r ==>
              && (AdjMatrix(p, r, alloc, need)[u][v] == AssignmentCode <==>
                    Edge(u, v, Assignment) in EdgeList(p, r, alloc, need))
              && (AdjMatrix(p, r, alloc, need)[u][v] == RequestCode <==>
                    Edge(u, v, Request) in EdgeList(p, r, alloc, need))
  {
    EdgeListMembers(p, r, alloc, need);
    forall u, v | 0 <= u < p + r && 0 <= v < p + r
      ensures && (AdjMatrix(p, r, alloc, need)[u][v] == AssignmentCode <==>
                    Edge(u, v, Assignment) in EdgeList(p, r, alloc, need))
              && (AdjMatrix(p, r, alloc, need)[u][v] == RequestCode <==>
                    Edge(u, v, Request) in EdgeList(p, r, alloc, need))
    {
      assert IsRagEdge(p, r, alloc, need, Edge(u, v, Assignment)) <==> AdjCode(p, r, alloc, need, u, v) == AssignmentCode;
      assert IsRagEdge(p, r, alloc, need, Edge(u, v, Request)) <==> AdjCode(p, r, alloc, need, u, v) == RequestCode;
    }
  }

  /** A walk along non-zero entries of a square matrix. */
  ghost predicate IsPath(m: seq<seq<int>>, path: seq<nat>)
    requires IsMatrix(m, |m|, |m|)
  {
    && |path| >= 1
    && (forall k :: 0 <= k < |path| ==> path[k] < |m|)
    && (forall k :: 0 <= k < |path| - 1 ==> m[path[k]][path[k + 1]] != NoEdge)
  }

  /** A closed walk of at least one edge. */
  ghost predicate HasCycle(m: seq<seq<int>>)
    requires IsMatrix(m, |m|, |m|)
  {
    exists path :: IsPath(m, path) && |path| >= 2 && path[0] == path[|path| - 1]
  }

  /** A process that both holds and still needs units of the same resource closes a cycle
      of length two through that resource. */
  lemma HoldAndWaitCycle(p: nat, r: nat, alloc: seq<seq<int>>, need: seq<seq<int>>, i: nat, j: nat)
    requires IsMatrix(alloc, p, r) && IsMatrix(need, p, r) && i < p && j < r
    requires alloc[i][j] > 0 && need[i][j] > 0
    ensures HasCycle(AdjMatrix(p, r, alloc, need))
  {
    var m := AdjMatrix(p, r, alloc, need);
    var path: seq<nat> := [i, p + j, i];
    assert m[path[0]][path[1]] == RequestCode;
    assert m[path[1]][path[2]] == AssignmentCode;
    assert IsPath(m, path);
  }

  /** Finishing times that strictly decrease along every edge out of a ranked node. */
  ghost predicate Ranked(m: seq<seq<int>>, fin: map<nat, nat>)
    requires IsMatrix(m, |m|, |m|)
  {
    forall u, v :: u in fin && u < |m| && 0 <= v < |m| && m[u][v] != NoEdge ==>
      v in fin && fin[v] < fin[u]
  }

  lemma {:induction false} RankedPathDescends(m: seq<seq<int>>, fin: map<nat, nat>, path: seq<nat>)
    requires IsMatrix(m, |m|, |m|) && Ranked(m, fin) && IsPath(m, path) && path[0] in fin
    ensures forall k :: 0 <= k < |path| ==> path[k] in fin
    ensures |path| >= 2 ==> fin[path[|path| - 1]] < fin[path[0]]
  {
    if |path| >= 2 {
      var rest := path[1..];
      assert IsPath(m, rest) by {
        assert forall k :: 0 <= k < |rest| ==> rest[k] == path[k + 1];
      }
      assert m[path[0]][path[1]] != NoEdge;
      RankedPathDescends(m, fin, rest);
      assert forall k :: 1 <= k < |path| ==> path[k] == rest[k - 1];
    }
  }

  /** A graph in which every node carries a finishing time that decreases along every
      edge has no cycle. */
  lemma RankedAcyclic(m: seq<seq<int>>, fin: map<nat, nat>)
    requires IsMatrix(m, |m|, |m|) && Ranked(m, fin)
    requires forall u :: 0 <= u < |m| ==> u in fin
    ensures !HasCycle(m)
  {
    forall path | IsPath(m, path) && |path| >= 2
      ensures path[0] != path[|path| - 1]
    {
      RankedPathDescends(m, fin, path);
    }
  }

  /** A walk that returns to a node it passed through contains a cycle. */
  lemma ClosingEdgeCycle(m: seq<seq<int>>, walk: seq<nat>, k: nat)
    requires IsMatrix(m, |m|, |m|) && IsPath(m, walk) && k < |walk|
    requires m[walk[|walk| - 1]][walk[k]] != NoEdge
    ensures HasCycle(m)
  {
    var cycle := walk[k..] + [walk[k]];
    assert forall t :: 0 <= t < |walk| - k ==> cycle[t] == walk[k + t];
    assert IsPath(m, cycle);
  }
}
