/** The TypeScript Resource Allocation Graph builder: it computes Need locally, lists
    the process and resource nodes with their display labels, and pushes the assignment
    and request edges cell by cell, producing the same edge list as the C builder. */
module TsRag {
  import opened BankerState
  import opened RagGraph

  datatype NodeKind = Process | Resource

  datatype RagNode = RagNode(id: nat, name: string, kind: NodeKind)

  datatype RagResponse = RagResponse(nodes: seq<RagNode>, edges: seq<Edge>)

  /** The character of a decimal digit. */
  function Digit(d: nat): (c: char)
    requires d < 10
    ensures '0' <= c <= '9'
  {
    "0123456789"[d]
  }

  /** The decimal form of n, as a template literal `${n}` writes it: no leading zeros. */
  function DecimalString(n: nat): (s: string)
    ensures |s| >= 1 && forall k :: 0 <= k < |s| ==> '0' <= s[k] <= '9'
    ensures |s| == 1 <==> n < 10
    ensures s[0] == '0' ==> n == 0
  {
    if n < 10 then [Digit(n)] else DecimalString(n / 10) + [Digit(n % 10)]
  }

  lemma DigitInjective(a: nat, b: nat)
    requires a < 10 && b < 10 && Digit(a) == Digit(b)
    ensures a == b
  {
  }

  /** Different numbers are written differently, so every label names one node. */
  lemma {:induction false} DecimalStringInjective(n: nat, m: nat)
    requires DecimalString(n) == DecimalString(m)
    ensures n == m
  {
    if n < 10 || m < 10 {
      if n < 10 && m < 10 {
        DigitInjective(n, m);
      }
    } else {
      var s := DecimalString(n);
      assert s[..|s| - 1] == DecimalString(n / 10);
      assert DecimalString(m)[..|s| - 1] == DecimalString(m / 10);
      DecimalStringInjective(n / 10, m / 10);
      DigitInjective(n % 10, m % 10);
    }
  }

  /** Node k of the response: process nodes first, then resource nodes. */
  predicate ProcessNode(nd: RagNode, i: nat) {
    nd == RagNode(i, "P" + DecimalString(i), Process)
  }

  predicate ResourceNode(nd: RagNode, p: nat, j: nat) {
    nd == RagNode(p + j, "R" + DecimalString(j), Resource)
  }

  /** `buildRag`: Need is computed locally as max_need - allocation; the nodes are the P
      process nodes (id i, label P{i}) followed by the R resource nodes (id P+j, label
      R{j}); the edges are exactly the graph's edge list in row-major order, assignment
      before request in each cell. */
  method BuildRag(req: State) returns (r: RagResponse)
    requires Shaped(req)
    ensures |r.nodes| == req.numProcesses + req.numResources
    ensures forall i :: 0 <= i < req.numProcesses ==> ProcessNode(r.nodes[i], i)
    ensures forall k :: req.numProcesses <= k < |r.nodes| ==>
              ResourceNode(r.nodes[k], req.numProcesses, k - req.numProcesses)
    ensures r.edges == EdgeList(req.numProcesses, req.numResources, req.allocation, NeedMatrix(req))
  {
    var need := ComputeNeed(req);
    var nodes := BuildNodes(req.numProcesses, req.numResources);
    var edges := BuildEdges(req.numProcesses, req.numResources, req.allocation, need);
    r := RagResponse(nodes, edges);
  }

  /** The local Need matrix, row by row and cell by cell. */
  method ComputeNeed(req: State) returns (need: seq<seq<int>>)
    requires Shaped(req)
    ensures need == NeedMatrix(req)
  {
    need := [];
    var i := 0;
    while i < req.numProcesses
      invariant i <= req.numProcesses
      invariant |need| == i && forall k :: 0 <= k < i ==> need[k] == NeedRow(req, k)
    {
      var row := [];
      var j := 0;
      while j < req.numResources
        invariant j <= req.numResources
        invariant |row| == j && forall t :: 0 <= t < j ==> row[t] == req.maxNeed[i][t] - req.allocation[i][t]
      {
        row := row + [req.maxNeed[i][j] - req.allocation[i][j]];
        j := j + 1;
      }
      need := need + [row];
      i := i + 1;
    }
  }

  /** The node list: process nodes, then resource nodes. */
  method BuildNodes(p: nat, r: nat) returns (nodes: seq<RagNode>)
    ensures |nodes| == p + r
    ensures forall i :: 0 <= i < p ==> ProcessNode(nodes[i], i)
    ensures forall k :: p <= k < p + r ==> ResourceNode(nodes[k], p, k - p)
  {
    nodes := [];
    var i := 0;
    while i < p
      invariant i <= p && |nodes| == i
      invariant forall k :: 0 <= k < i ==> ProcessNode(nodes[k], k)
    {
      nodes := nodes + [RagNode(i, "P" + DecimalString(i), Process)];
      i := i + 1;
    }
    var j := 0;
    while j < r
      invariant j <= r && |nodes| == p + j
      invariant forall k :: 0 <= k < p ==> ProcessNode(nodes[k], k)
      invariant forall k :: p <= k < p + j ==> ResourceNode(nodes[k], p, k - p)
    {
      nodes := nodes + [RagNode(p + j, "R" + DecimalString(j), Resource)];
      j := j + 1;
    }
  }

  /** The edge loops: for each cell, push the assignment edge if the process holds units
      and then the request edge if it still needs some. */
  method BuildEdges(p: nat, r: nat, alloc: seq<seq<int>>, need: seq<seq<int>>) returns (edges: seq<Edge>)
    requires IsMatrix(alloc, p, r) && IsMatrix(need, p, r)
    ensures edges == EdgeList(p, r, alloc, need)
  {
    edges := [];
    var i := 0;
    while i < p
      invariant i <= p
      invariant edges == EdgesBefore(p, r, alloc, need, i)
    {
      var j := 0;
      while j < r
        invariant j <= r
        invariant edges == EdgesBefore(p, r, alloc, need, i) + RowEdges(p, r, alloc, need, i, j)
      {
        ghost var before := edges;
        edges := PushCell(edges, p, i, j, alloc[i][j], need[i][j]);
        ghost var cell := CellEdges(p, i, j, alloc[i][j], need[i][j]);
        assert edges == before + cell;
        assert RowEdges(p, r, alloc, need, i, j + 1) == RowEdges(p, r, alloc, need, i, j) + cell;
        j := j + 1;
      }
      assert EdgesBefore(p, r, alloc, need, i + 1) == EdgesBefore(p, r, alloc, need, i) + RowEdges(p, r, alloc, need, i, r);
      i := i + 1;
    }
  }

  /** The body of the edge loops for cell (i, j): the assignment edge when process i
      holds units of resource j, then the request edge when it still needs some. */
  method PushCell(edges: seq<Edge>, p: nat, i: nat, j: nat, held: int, needed: int) returns (edges': seq<Edge>)
    ensures edges' == edges + CellEdges(p, i, j, held, needed)
  {
    edges' := edges;
    if held > 0 {
      edges' := edges' + [Edge(p + j, i, Assignment)];
    }
    if needed > 0 {
      edges' := edges' + [Edge(i, p + j, Request)];
    }
  }

  /** Node ids are positions in the node list and labels are unique. */
  lemma NodesNamedUniquely(nodes: seq<RagNode>, p: nat, r: nat)
    requires |nodes| == p + r
    requires forall i :: 0 <= i < p ==> ProcessNode(nodes[i], i)
    requires forall k :: p <= k < p + r ==> ResourceNode(nodes[k], p, k - p)
    ensures forall k :: 0 <= k < |nodes| ==> nodes[k].id == k
    ensures forall k :: 0 <= k < |nodes| ==> (nodes[k].kind == Process <==> k < p)
    ensures forall k, l :: 0 <= k < l < |nodes| ==> nodes[k].name != nodes[l].name
  {
    forall k | 0 <= k < |nodes|
      ensures nodes[k].id == k && (nodes[k].kind == Process <==> k < p)
    {
    }
    forall k, l | 0 <= k < l < |nodes|
      ensures nodes[k].name != nodes[l].name
    {
      LabelsDiffer(nodes, p, r, k, l);
    }
  }

  lemma LabelsDiffer(nodes: seq<RagNode>, p: nat, r: nat, k: nat, l: nat)
    requires |nodes| == p + r
    requires forall i :: 0 <= i < p ==> ProcessNode(nodes[i], i)
    requires forall k :: p <= k < p + r ==> ResourceNode(nodes[k], p, k - p)
    requires k < l < |nodes|
    ensures nodes[k].name != nodes[l].name
  {
    var a := if k < p then k else k - p;
    var b := if l < p then l else l - p;
    var sa := nodes[k].name;
    var sb := nodes[l].name;
    assert sa[0] == (if k < p then 'P' else 'R');
    assert sb[0] == (if l < p then 'P' else 'R');
    if sa == sb {
      assert sa[1..] == DecimalString(a);
      assert sb[1..] == DecimalString(b);
      DecimalStringInjective(a, b);
    }
  }
}
