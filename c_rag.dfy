/** The C Resource Allocation Graph (`src/rag.c`): a record with an edge buffer and an
    adjacency matrix that `build_rag` fills from a `SystemState`, and the depth-first
    search with visited and recursion-stack arrays that looks for a cycle. */
module CRag {
  import opened BankerState
  import opened RagGraph
  import opened CDetector

  /** Capacities of the `RAG` record. */
  const MaxNodes: nat := MaxProcesses + MaxResources
  const MaxEdges: nat := MaxProcesses * MaxResources * 2

  /** Number of unvisited nodes: the measure the search decreases. */
  function CountFalse(s: seq<bool>): nat {
    if s == [] then 0 else CountFalse(s[..|s| - 1]) + (if s[|s| - 1] then 0 else 1)
  }

  /** Marking more nodes visited never raises the count, and marking a new one lowers it. */
  lemma {:induction false} CountFalseMono(a: seq<bool>, b: seq<bool>)
    requires |a| == |b| && forall k :: 0 <= k < |a| && a[k] ==> b[k]
    ensures CountFalse(b) <= CountFalse(a)
    ensures (exists k :: 0 <= k < |a| && !a[k] && b[k]) ==> CountFalse(b) < CountFalse(a)
  {
    if a != [] {
      var n := |a| - 1;
      CountFalseMono(a[..n], b[..n]);
      if !a[n] && b[n] {
      } else if exists k :: 0 <= k < |a| && !a[k] && b[k] {
        var k :| 0 <= k < |a| && !a[k] && b[k];
        assert k < n && a[..n][k] == a[k] && b[..n][k] == b[k];
      }
    }
  }

  /** Cell (u, v) of the adjacency corner belongs to a (process, resource) cell that the
      row-major enumeration has passed before cell (i, j); entries that belong to no cell
      are never written. */
  predicate CellDone(p: nat, u: nat, v: nat, i: nat, j: nat) {
    if p <= u && v < p then v < i || (v == i && u - p < j)
    else if u < p && p <= v then u < i || (u == i && v - p < j)
    else true
  }

  /** Moving from cell (i, j) to cell (i, j+1) passes exactly the two entries of cell
      (i, j). */
  lemma CellDoneStep(p: nat, u: nat, v: nat, i: nat, j: nat)
    requires i < p
    ensures CellDone(p, u, v, i, j + 1) ==
            (CellDone(p, u, v, i, j) || (u, v) == (p + j, i) || (u, v) == (i, p + j))
    ensures !CellDone(p, p + j, i, i, j) && !CellDone(p, i, p + j, i, j)
  {
  }

  /** The search invariant over the values of the graph and of the two flag arrays:
      gray nodes are exactly the entries of `stack`, a walk of the graph; black nodes are
      exactly the keys of `fin`, finishing times below `clock` that descend along every
      edge out of a black node. */
  ghost predicate SearchInv(n: nat, g: seq<seq<int>>, vis: seq<bool>, rec: seq<bool>, stack: seq<nat>,
                            fin: map<nat, nat>, clock: nat)
    requires IsMatrix(g, n, n) && |vis| == n && |rec| == n
  {
    && (forall u :: 0 <= u < n && rec[u] ==> vis[u])
    && (forall k :: 0 <= k < |stack| ==> stack[k] < n && rec[stack[k]])
    && (forall u :: 0 <= u < n && rec[u] ==> u in stack)
    && (forall k :: 0 <= k < |stack| - 1 ==> g[stack[k]][stack[k + 1]] != NoEdge)
    && (forall u :: u in fin ==> u < n && vis[u] && !rec[u] && fin[u] < clock)
    && (forall u :: 0 <= u < n && vis[u] && !rec[u] ==> u in fin)
    && (forall u, v :: u in fin && 0 <= v < n && g[u][v] != NoEdge ==> v in fin && fin[v] < fin[u])
  }

  /** The finishing times `fin'` and clock `clock'` continue `fin` and `clock`: the clock
      has not gone back and every finished node keeps its time. */
  ghost predicate Extends(fin: map<nat, nat>, clock: nat, fin': map<nat, nat>, clock': nat) {
    clock <= clock' && forall u :: u in fin ==> u in fin' && fin'[u] == fin[u]
  }

  /** A white node reached from the top of the stack (or starting a search) turns gray
      and joins the end of the stack. */
  lemma EnterStep(n: nat, g: seq<seq<int>>, vis: seq<bool>, rec: seq<bool>, stack: seq<nat>,
                  fin: map<nat, nat>, clock: nat, node: nat)
    requires IsMatrix(g, n, n) && |vis| == n && |rec| == n
    requires SearchInv(n, g, vis, rec, stack, fin, clock)
    requires node < n && !vis[node]
    requires stack != [] ==> g[stack[|stack| - 1]][node] != NoEdge
    ensures node !in stack && node !in fin
    ensures SearchInv(n, g, vis[node := true], rec[node := true], stack + [node], fin, clock)
  {
    var stack' := stack + [node];
    assert forall k :: 0 <= k < |stack| ==> stack'[k] == stack[k];
  }

  /** The edge buffer holds 2 * MAX_PROCESSES * MAX_RESOURCES entries: room for every edge
      up to and including those of cell (i, j). */
  lemma BufferFits(p: nat, r: nat, i: nat, j: nat)
    requires i < p <= MaxProcesses && j < r <= MaxResources
    ensures 2 * r * i + 2 * j + 2 <= MaxEdges
  {
    assert r * i <= r * (p - 1) <= r * 9;
    assert r * 9 <= 90;
  }

  class Rag {
    var numProcesses: nat
    var numResources: nat
    var numEdges: nat
    const edges: array<Edge>
    const adj: array2<int>

    /** Array sizes are the C capacities and the dimensions fit. */
    ghost predicate Valid()
      reads this
    {
      && edges.Length == MaxEdges
      && adj.Length0 == MaxNodes && adj.Length1 == MaxNodes
      && numProcesses <= MaxProcesses && numResources <= MaxResources
      && numEdges <= MaxEdges
    }

    function NumNodes(): nat
      reads this
    {
      numProcesses + numResources
    }

    /** The used (P+R) x (P+R) corner of the adjacency matrix. */
    ghost function Graph(): (m: seq<seq<int>>)
      reads this, adj
      requires Valid()
      ensures IsMatrix(m, NumNodes(), NumNodes())
      ensures forall u, v :: 0 <= u < NumNodes() && 0 <= v < NumNodes() ==> m[u][v] == adj[u, v]
    {
      var a, n := adj, NumNodes();
      seq(n, u requires 0 <= u < n reads a =>
        seq(n, v requires 0 <= v < n reads a => a[u, v]))
    }

    /** An empty graph record: no nodes, no edges, a zero adjacency matrix. */
    constructor ()
      ensures Valid() && numProcesses == 0 && numResources == 0 && numEdges == 0
      ensures forall u, v :: 0 <= u < MaxNodes && 0 <= v < MaxNodes ==> adj[u, v] == NoEdge
    {
      numProcesses := 0;
      numResources := 0;
      numEdges := 0;
      edges := new Edge[MaxEdges];
      adj := new int[MaxNodes, MaxNodes]((_, _) => NoEdge);
    }

    /** The graph arrays are not arrays of the state it is built from. */
    predicate Separate(state: SystemState)
      reads this, state
    {
      adj != state.allocation && adj != state.maxNeed && adj != state.need
    }

    /** First loop of `build_rag`: zero the used corner of the adjacency matrix. */
    method ClearCorner()
      requires Valid() && NumNodes() <= MaxNodes
      modifies adj
      ensures forall u, v :: 0 <= u < NumNodes() && 0 <= v < NumNodes() ==> adj[u, v] == NoEdge
      ensures forall u, v :: 0 <= u < MaxNodes && 0 <= v < MaxNodes && !(u < NumNodes() && v < NumNodes()) ==>
                adj[u, v] == old(adj[u, v])
    {
      var total := numProcesses + numResources;
      var i := 0;
      while i < total
        invariant i <= total
        invariant forall u, v :: 0 <= u < i && 0 <= v < total ==> adj[u, v] == NoEdge
        invariant forall u, v :: 0 <= u < MaxNodes && 0 <= v < MaxNodes && !(u < i && v < total) ==>
                    adj[u, v] == old(adj[u, v])
      {
        var j := 0;
        while j < total
          invariant j <= total
          invariant forall u, v :: 0 <= u < i && 0 <= v < total ==> adj[u, v] == NoEdge
          invariant forall v :: 0 <= v < j ==> adj[i, v] == NoEdge
          invariant forall u, v :: 0 <= u < MaxNodes && 0 <= v < MaxNodes && !(u < i && v < total) && !(u == i && v < j) ==>
                      adj[u, v] == old(adj[u, v])
        {
          adj[i, j] := NoEdge;
          j := j + 1;
        }
        i := i + 1;
      }
    }

    /** The adjacency corner holds the code of every entry whose cell the row-major
        enumeration has passed before cell (i, j), and zero in every other entry. */
    ghost predicate FilledUpTo(alloc: seq<seq<int>>, need: seq<seq<int>>, i: nat, j: nat)
      reads this, adj
      requires Valid() && IsMatrix(alloc, numProcesses, numResources) && IsMatrix(need, numProcesses, numResources)
    {
      forall u, v :: 0 <= u < NumNodes() && 0 <= v < NumNodes() ==>
        adj[u, v] == if CellDone(numProcesses, u, v, i, j) then AdjCode(numProcesses, numResources, alloc, need, u, v)
                     else NoEdge
    }

    /** The body of the nested loop of `build_rag` at cell (i, j): an assignment edge from
        resource node P+j to process i when it holds units of resource j, then a request
        edge from process i to resource node P+j when it still needs some, each appended to
        the buffer and recorded in the adjacency matrix. */
    method AddCell(i: nat, j: nat, ghost alloc: seq<seq<int>>, ghost need: seq<seq<int>>, held: int, needed: int)
      requires Valid() && i < numProcesses && j < numResources
      requires IsMatrix(alloc, numProcesses, numResources) && IsMatrix(need, numProcesses, numResources)
      requires held == alloc[i][j] && needed == need[i][j]
      requires edges[..numEdges] == EdgesBefore(numProcesses, numResources, alloc, need, i)
                                    + RowEdges(numProcesses, numResources, alloc, need, i, j)
      requires FilledUpTo(alloc, need, i, j)
      modifies this`numEdges, edges, adj
      ensures Valid()
      ensures edges[..numEdges] == EdgesBefore(numProcesses, numResources, alloc, need, i)
                                   + RowEdges(numProcesses, numResources, alloc, need, i, j + 1)
      ensures FilledUpTo(alloc, need, i, j + 1)
      ensures forall u, v :: 0 <= u < MaxNodes && 0 <= v < MaxNodes && !(u < NumNodes() && v < NumNodes()) ==>
                adj[u, v] == old(adj[u, v])
    {
      EdgesBeforeLength(numProcesses, numResources, alloc, need, i);
      RowEdgesMembers(numProcesses, numResources, alloc, need, i, j);
      BufferFits(numProcesses, numResources, i, j);
      ghost var before := EdgesBefore(numProcesses, numResources, alloc, need, i);
      ghost var row := RowEdges(numProcesses, numResources, alloc, need, i, j);
      ghost var cell := CellEdges(numProcesses, i, j, held, needed);
      WriteCell(i, j, alloc, need, held, needed);
      assert edges[..numEdges] == (before + row) + cell;
      assert RowEdges(numProcesses, numResources, alloc, need, i, j + 1) == row + cell;
    }

    /** The writes of one cell: the edges appended to the buffer and the two adjacency
        entries of the cell. */
    method WriteCell(i: nat, j: nat, ghost alloc: seq<seq<int>>, ghost need: seq<seq<int>>, held: int, needed: int)
      requires Valid() && i < numProcesses && j < numResources
      requires IsMatrix(alloc, numProcesses, numResources) && IsMatrix(need, numProcesses, numResources)
      requires held == alloc[i][j] && needed == need[i][j]
      requires numEdges + 2 <= MaxEdges
      requires FilledUpTo(alloc, need, i, j)
      modifies this`numEdges, edges, adj
      ensures Valid()
      ensures edges[..numEdges] == old(edges[..numEdges]) + CellEdges(numProcesses, i, j, held, needed)
      ensures FilledUpTo(alloc, need, i, j + 1)
      ensures forall u, v :: 0 <= u < MaxNodes && 0 <= v < MaxNodes && !(u < NumNodes() && v < NumNodes()) ==>
                adj[u, v] == old(adj[u, v])
    {
      var resourceNode := numProcesses + j;
      if held > 0 {
        PutEdge(resourceNode, i, Assignment, AssignmentCode);
      }
      label afterHeld:
      if needed > 0 {
        PutEdge(i, resourceNode, Request, RequestCode);
      }
      forall u, v | 0 <= u < NumNodes() && 0 <= v < NumNodes()
        ensures adj[u, v] == if CellDone(numProcesses, u, v, i, j + 1)
                             then AdjCode(numProcesses, numResources, alloc, need, u, v) else NoEdge
      {
        CellDoneStep(numProcesses, u, v, i, j);
        if (u, v) != (resourceNode, i) && (u, v) != (i, resourceNode) {
          assert adj[u, v] == old@afterHeld(adj[u, v]) == old(adj[u, v]);
        }
      }
    }

    /** Appending one edge to the buffer and recording its code in the adjacency matrix. */
    method PutEdge(u: nat, v: nat, kind: EdgeKind, code: int)
      requires Valid() && u < MaxNodes && v < MaxNodes && numEdges < MaxEdges
      modifies this`numEdges, edges, adj
      ensures Valid() && numEdges == old(numEdges) + 1
      ensures edges[..numEdges] == old(edges[..numEdges]) + [Edge(u, v, kind)]
      ensures forall a, b :: 0 <= a < MaxNodes && 0 <= b < MaxNodes ==>
                adj[a, b] == if (a, b) == (u, v) then code else old(adj[a, b])
    {
      edges[numEdges] := Edge(u, v, kind);
      adj[u, v] := code;
      numEdges := numEdges + 1;
    }

    /** One pass of the outer loop of `build_rag`: the cells of row i. */
    method FillRow(state: SystemState, i: nat, ghost alloc: seq<seq<int>>, ghost need: seq<seq<int>>)
      requires Valid() && state.Valid() && Separate(state)
      requires numProcesses == state.numProcesses && numResources == state.numResources && i < numProcesses
      requires alloc == state.Abstract().allocation && need == state.NeedRows()
      requires edges[..numEdges] == EdgesBefore(numProcesses, numResources, alloc, need, i)
      requires FilledUpTo(alloc, need, i, 0)
      modifies this`numEdges, edges, adj
      ensures Valid()
      ensures edges[..numEdges] == EdgesBefore(numProcesses, numResources, alloc, need, i + 1)
      ensures FilledUpTo(alloc, need, i + 1, 0)
      ensures forall u, v :: 0 <= u < MaxNodes && 0 <= v < MaxNodes && !(u < NumNodes() && v < NumNodes()) ==>
                adj[u, v] == old(adj[u, v])
    {
      var j := 0;
      while j < numResources
        invariant Valid() && j <= numResources
        invariant alloc == state.Abstract().allocation && need == state.NeedRows()
        invariant edges[..numEdges] == EdgesBefore(numProcesses, numResources, alloc, need, i)
                                       + RowEdges(numProcesses, numResources, alloc, need, i, j)
        invariant FilledUpTo(alloc, need, i, j)
        invariant forall u, v :: 0 <= u < MaxNodes && 0 <= v < MaxNodes && !(u < NumNodes() && v < NumNodes()) ==>
                    adj[u, v] == old(adj[u, v])
      {
        AddCell(i, j, alloc, need, state.allocation[i, j], state.need[i, j]);
        j := j + 1;
      }
      assert forall u, v :: 0 <= u < NumNodes() && 0 <= v < NumNodes() ==>
               CellDone(numProcesses, u, v, i, numResources) == CellDone(numProcesses, u, v, i + 1, 0);
    }

    /** `build_rag`: take the dimensions of the state, clear the adjacency corner, then
        enumerate the cells in row-major order. The buffer receives exactly the edge list
        of the state's allocation and `need` matrices and the corner becomes their
        adjacency matrix; the rest of the matrix is left alone. */
    method BuildRag(state: SystemState)
      requires Valid() && state.Valid() && Separate(state)
      modifies this, edges, adj
      ensures Valid()
      ensures numProcesses == state.numProcesses && numResources == state.numResources
      ensures edges[..numEdges] == EdgeList(numProcesses, numResources, state.Abstract().allocation, state.NeedRows())
      ensures Graph() == AdjMatrix(numProcesses, numResources, state.Abstract().allocation, state.NeedRows())
      ensures forall u, v :: 0 <= u < MaxNodes && 0 <= v < MaxNodes && !(u < NumNodes() && v < NumNodes()) ==>
                adj[u, v] == old(adj[u, v])
    {
      numProcesses := state.numProcesses;
      numResources := state.numResources;
      numEdges := 0;
      ClearCorner();
      ghost var alloc := state.Abstract().allocation;
      ghost var need := state.NeedRows();
      FillRows(state, alloc, need);
      AdjacencyComplete(alloc, need);
      assert alloc == state.Abstract().allocation && need == state.NeedRows();
    }

    /** The nested loop of `build_rag`, starting from an empty buffer and a cleared
        corner: afterwards the buffer holds the whole edge list and every cell is filled. */
    method FillRows(state: SystemState, ghost alloc: seq<seq<int>>, ghost need: seq<seq<int>>)
      requires Valid() && state.Valid() && Separate(state)
      requires numProcesses == state.numProcesses && numResources == state.numResources
      requires alloc == state.Abstract().allocation && need == state.NeedRows()
      requires numEdges == 0
      requires forall u, v :: 0 <= u < NumNodes() && 0 <= v < NumNodes() ==> adj[u, v] == NoEdge
      modifies this`numEdges, edges, adj
      ensures Valid()
      ensures edges[..numEdges] == EdgeList(numProcesses, numResources, alloc, need)
      ensures FilledUpTo(alloc, need, numProcesses, 0)
      ensures forall u, v :: 0 <= u < MaxNodes && 0 <= v < MaxNodes && !(u < NumNodes() && v < NumNodes()) ==>
                adj[u, v] == old(adj[u, v])
    {
      var i := 0;
      while i < numProcesses
        invariant Valid() && i <= numProcesses
        invariant alloc == state.Abstract().allocation && need == state.NeedRows()
        invariant edges[..numEdges] == EdgesBefore(numProcesses, numResources, alloc, need, i)
        invariant FilledUpTo(alloc, need, i, 0)
        invariant forall u, v :: 0 <= u < MaxNodes && 0 <= v < MaxNodes && !(u < NumNodes() && v < NumNodes()) ==>
                    adj[u, v] == old(adj[u, v])
      {
        FillRow(state, i, alloc, need);
        i := i + 1;
      }
    }

    /** Once every row is enumerated, the corner is the adjacency matrix. */
    lemma AdjacencyComplete(alloc: seq<seq<int>>, need: seq<seq<int>>)
      requires Valid() && IsMatrix(alloc, numProcesses, numResources) && IsMatrix(need, numProcesses, numResources)
      requires FilledUpTo(alloc, need, numProcesses, 0)
      ensures Graph() == AdjMatrix(numProcesses, numResources, alloc, need)
    {
      var m := AdjMatrix(numProcesses, numResources, alloc, need);
      forall u | 0 <= u < NumNodes()
        ensures Graph()[u] == m[u]
      {
        forall v | 0 <= v < NumNodes()
          ensures Graph()[u][v] == m[u][v]
        {
          assert CellDone(numProcesses, u, v, numProcesses, 0);
        }
      }
    }

    // -------------------------------------------------------------------------
    // Cycle detection

    /** What the search keeps true between calls. Gray nodes (visited and on the
        recursion stack) are exactly the entries of `stack`, a walk in the graph; black
        nodes (visited and off the stack) are exactly the keys of `fin`, their finishing
        times, all below `clock`; every edge out of a black node leads to a black node
        that finished earlier. */
    ghost predicate DfsInv(visited: array<bool>, recStack: array<bool>, stack: seq<nat>,
                           fin: map<nat, nat>, clock: nat)
      reads this, adj, visited, recStack
      requires Valid() && visited.Length == MaxNodes && recStack.Length == MaxNodes
    {
      && (forall u :: 0 <= u < NumNodes() && recStack[u] ==> visited[u])
      && (forall k :: 0 <= k < |stack| ==> stack[k] < NumNodes() && recStack[stack[k]])
      && (forall u :: 0 <= u < NumNodes() && recStack[u] ==> u in stack)
      && (forall k :: 0 <= k < |stack| - 1 ==> adj[stack[k], stack[k + 1]] != NoEdge)
      && (forall u :: u in fin ==> u < NumNodes() && visited[u] && !recStack[u] && fin[u] < clock)
      && (forall u :: 0 <= u < NumNodes() && visited[u] && !recStack[u] ==> u in fin)
      && (forall u, v :: u in fin && 0 <= v < NumNodes() && adj[u, v] != NoEdge ==> v in fin && fin[v] < fin[u])
    }

    /** A walk of the graph closed by an edge back to one of its nodes is a cycle. */
    lemma BackEdge(walk: seq<nat>, k: nat)
      requires Valid() && |walk| >= 1 && k < |walk|
      requires forall t :: 0 <= t < |walk| ==> walk[t] < NumNodes() <= MaxNodes
      requires forall t :: 0 <= t < |walk| - 1 ==> adj[walk[t], walk[t + 1]] != NoEdge
      requires adj[walk[|walk| - 1], walk[k]] != NoEdge
      ensures HasCycle(Graph())
    {
      var m := Graph();
      assert IsPath(m, walk);
      ClosingEdgeCycle(m, walk, k);
    }

    /** An edge from the top of the stack to a gray node closes a cycle. */
    lemma BackEdgeOnStack(visited: array<bool>, recStack: array<bool>, stack: seq<nat>,
                          fin: map<nat, nat>, clock: nat, target: nat)
      requires Valid() && visited.Length == MaxNodes && recStack.Length == MaxNodes
      requires DfsInv(visited, recStack, stack, fin, clock) && stack != []
      requires target < NumNodes() && recStack[target]
      requires adj[stack[|stack| - 1], target] != NoEdge
      ensures HasCycle(Graph())
    {
      var k :| 0 <= k < |stack| && stack[k] == target;
      BackEdge(stack, k);
    }

    /** The search invariant read off the arrays as values. */
    lemma SearchInvOf(visited: array<bool>, recStack: array<bool>, stack: seq<nat>, fin: map<nat, nat>, clock: nat)
      requires Valid() && visited.Length == MaxNodes && recStack.Length == MaxNodes
      requires DfsInv(visited, recStack, stack, fin, clock)
      ensures SearchInv(NumNodes(), Graph(), visited[..NumNodes()], recStack[..NumNodes()], stack, fin, clock)
    {
    }

    lemma SearchInvTo(visited: array<bool>, recStack: array<bool>, stack: seq<nat>, fin: map<nat, nat>, clock: nat)
      requires Valid() && visited.Length == MaxNodes && recStack.Length == MaxNodes
      requires SearchInv(NumNodes(), Graph(), visited[..NumNodes()], recStack[..NumNodes()], stack, fin, clock)
      ensures DfsInv(visited, recStack, stack, fin, clock)
    {
    }

    /** Entry of `dfs_cycle`: the white node turns gray, joining the end of the stack. */
    method Enter(node: nat, visited: array<bool>, recStack: array<bool>, ghost stack: seq<nat>,
                 ghost fin: map<nat, nat>, ghost clock: nat)
      requires Valid() && visited.Length == MaxNodes && recStack.Length == MaxNodes && visited != recStack
      requires node < NumNodes() && !visited[node]
      requires DfsInv(visited, recStack, stack, fin, clock)
      requires stack != [] ==> adj[stack[|stack| - 1], node] != NoEdge
      modifies visited, recStack
      ensures visited[node] && recStack[node] && node !in stack && node !in fin
      ensures DfsInv(visited, recStack, stack + [node], fin, clock)
      ensures CountFalse(visited[..NumNodes()]) < old(CountFalse(visited[..NumNodes()]))
      ensures forall u :: 0 <= u < MaxNodes && old(visited[u]) ==> visited[u]
    {
      ghost var n := NumNodes();
      ghost var g, v0, r0 := Graph(), visited[..n], recStack[..n];
      SearchInvOf(visited, recStack, stack, fin, clock);
      EnterStep(n, g, v0, r0, stack, fin, clock, node);
      visited[node] := true;
      recStack[node] := true;
      assert visited[..n] == v0[node := true] && recStack[..n] == r0[node := true];
      assert Graph() == g;
      SearchInvTo(visited, recStack, stack + [node], fin, clock);
      CountFalseMono(v0, visited[..NumNodes()]);
    }

    /** Exit of `dfs_cycle` when no cycle was found: every edge out of the gray node at the
        end of the stack leads to a black node, so it turns black with the next finishing
        time. */
    method Leave(node: nat, visited: array<bool>, recStack: array<bool>, ghost stack: seq<nat>,
                 ghost fin: map<nat, nat>, ghost clock: nat)
      returns (ghost fin': map<nat, nat>, ghost clock': nat)
      requires Valid() && visited.Length == MaxNodes && recStack.Length == MaxNodes && visited != recStack
      requires node < NumNodes() && visited[node] && recStack[node] && node !in stack
      requires DfsInv(visited, recStack, stack + [node], fin, clock)
      requires forall v :: 0 <= v < NumNodes() && adj[node, v] != NoEdge ==> v in fin
      modifies recStack
      ensures DfsInv(visited, recStack, stack, fin', clock')
      ensures fin' == fin[node := clock] && clock' == clock + 1
    {
      assert forall k :: 0 <= k < |stack| ==> (stack + [node])[k] == stack[k];
      recStack[node] := false;
      fin' := fin[node := clock];
      clock' := clock + 1;
    }

    /** `dfs_cycle`: mark `node` visited and on the recursion stack, follow every edge out
        of it in index order (recursing into unvisited nodes, reporting a cycle on an edge
        back into the stack), and take `node` off the stack. A reported cycle exists; when
        none is reported, `node` is finished and the search invariant holds again with the
        finishing times extended. Only the two flag arrays change. */
    method DfsCycle(node: nat, visited: array<bool>, recStack: array<bool>, ghost stack: seq<nat>,
                    ghost fin: map<nat, nat>, ghost clock: nat)
      returns (found: bool, ghost fin': map<nat, nat>, ghost clock': nat)
      requires Valid() && visited.Length == MaxNodes && recStack.Length == MaxNodes && visited != recStack
      requires node < NumNodes() && !visited[node]
      requires DfsInv(visited, recStack, stack, fin, clock)
      requires stack != [] ==> adj[stack[|stack| - 1], node] != NoEdge
      modifies visited, recStack
      decreases CountFalse(visited[..NumNodes()]), 0
      ensures found ==> HasCycle(Graph())
      ensures !found ==> DfsInv(visited, recStack, stack, fin', clock') && node in fin'
      ensures !found ==> Extends(fin, clock, fin', clock')
      ensures CountFalse(visited[..NumNodes()]) < old(CountFalse(visited[..NumNodes()]))
    {
      Enter(node, visited, recStack, stack, fin, clock);
      found, fin', clock' := FollowAll(node, visited, recStack, stack + [node], fin, clock);
      if found {
        return;
      }
      fin', clock' := Leave(node, visited, recStack, stack, fin', clock');
    }

    /** The neighbour loop of `dfs_cycle` for the gray node on top of the stack. */
    method FollowAll(node: nat, visited: array<bool>, recStack: array<bool>, ghost stack: seq<nat>,
                     ghost fin: map<nat, nat>, ghost clock: nat)
      returns (found: bool, ghost fin': map<nat, nat>, ghost clock': nat)
      requires Valid() && visited.Length == MaxNodes && recStack.Length == MaxNodes && visited != recStack
      requires node < NumNodes() && stack != [] && stack[|stack| - 1] == node
      requires DfsInv(visited, recStack, stack, fin, clock)
      modifies visited, recStack
      decreases CountFalse(visited[..NumNodes()]), 2
      ensures found ==> HasCycle(Graph())
      ensures !found ==> DfsInv(visited, recStack, stack, fin', clock') && visited[node] && recStack[node]
      ensures !found ==> Extends(fin, clock, fin', clock')
      ensures !found ==> forall v :: 0 <= v < NumNodes() && adj[node, v] != NoEdge ==> v in fin'
      ensures CountFalse(visited[..NumNodes()]) <= old(CountFalse(visited[..NumNodes()]))
    {
      ghost var count0 := CountFalse(visited[..NumNodes()]);
      fin', clock' := fin, clock;
      found := false;
      var total := numProcesses + numResources;
      var i := 0;
      while i < total
        invariant i <= total
        invariant DfsInv(visited, recStack, stack, fin', clock')
        invariant Extends(fin, clock, fin', clock')
        invariant forall v :: 0 <= v < i && adj[node, v] != NoEdge ==> v in fin'
        invariant CountFalse(visited[..NumNodes()]) <= count0
      {
        found, fin', clock' := Follow(node, i, visited, recStack, stack, fin', clock');
        if found {
          return;
        }
        i := i + 1;
      }
      assert recStack[stack[|stack| - 1]];
    }

    /** One iteration of the neighbour loop of `dfs_cycle` for the gray node on top of the
        stack: an edge to an unvisited node is followed by recursion, an edge back into the
        stack is a cycle, an edge to a black node needs nothing. */
    method Follow(node: nat, i: nat, visited: array<bool>, recStack: array<bool>, ghost stack: seq<nat>,
                  ghost fin: map<nat, nat>, ghost clock: nat)
      returns (found: bool, ghost fin': map<nat, nat>, ghost clock': nat)
      requires Valid() && visited.Length == MaxNodes && recStack.Length == MaxNodes && visited != recStack
      requires node < NumNodes() && i < NumNodes() && stack != [] && stack[|stack| - 1] == node
      requires DfsInv(visited, recStack, stack, fin, clock)
      requires forall v :: 0 <= v < i && adj[node, v] != NoEdge ==> v in fin
      modifies visited, recStack
      decreases CountFalse(visited[..NumNodes()]), 1
      ensures found ==> HasCycle(Graph())
      ensures !found ==> DfsInv(visited, recStack, stack, fin', clock') && visited[node] && recStack[node]
      ensures !found ==> Extends(fin, clock, fin', clock')
      ensures !found ==> forall v :: 0 <= v < i + 1 && adj[node, v] != NoEdge ==> v in fin'
      ensures CountFalse(visited[..NumNodes()]) <= old(CountFalse(visited[..NumNodes()]))
    {
      fin', clock' := fin, clock;
      found := false;
      if adj[node, i] != NoEdge {
        if !visited[i] {
          found, fin', clock' := DfsCycle(i, visited, recStack, stack, fin, clock);
        } else if recStack[i] {
          BackEdgeOnStack(visited, recStack, stack, fin, clock, i);
          found := true;
        }
      }
    }

    /** `detect_cycle_rag`: start the search from every node not yet visited, in index
        order. It reports true exactly when the graph in the adjacency corner has a
        cycle. */
    method DetectCycleRag() returns (cycle: bool)
      requires Valid()
      ensures cycle <==> HasCycle(Graph())
    {
      var total := numProcesses + numResources;
      var visited := new bool[MaxNodes](_ => false);
      var recStack := new bool[MaxNodes](_ => false);
      ghost var fin: map<nat, nat> := map[];
      ghost var clock: nat := 0;
      var i := 0;
      while i < total
        invariant i <= total
        invariant DfsInv(visited, recStack, [], fin, clock)
        invariant StartedBelow(fin, i)
      {
        var found;
        found, fin, clock := StartFrom(i, visited, recStack, fin, clock);
        if found {
          return true;
        }
        i := i + 1;
      }
      FinishedAcyclic(visited, recStack, fin, clock);
      return false;
    }

    /** One round of the outer loop of `detect_cycle_rag`: search from node i unless an
        earlier search already reached it. */
    method StartFrom(i: nat, visited: array<bool>, recStack: array<bool>, ghost fin: map<nat, nat>, ghost clock: nat)
      returns (found: bool, ghost fin': map<nat, nat>, ghost clock': nat)
      requires Valid() && visited.Length == MaxNodes && recStack.Length == MaxNodes && visited != recStack
      requires i < NumNodes() && DfsInv(visited, recStack, [], fin, clock) && StartedBelow(fin, i)
      modifies visited, recStack
      ensures found ==> HasCycle(Graph())
      ensures !found ==> DfsInv(visited, recStack, [], fin', clock') && StartedBelow(fin', i + 1)
    {
      fin', clock' := fin, clock;
      found := false;
      if !visited[i] {
        found, fin', clock' := DfsCycle(i, visited, recStack, [], fin, clock);
      }
    }

    /** Every node below `i` has a finishing time. */
    ghost predicate StartedBelow(fin: map<nat, nat>, i: nat) {
      forall u :: 0 <= u < i ==> u in fin
    }

    /** A search that finished every node without meeting a back edge leaves finishing
        times that descend along every edge, so the graph has no cycle. */
    lemma FinishedAcyclic(visited: array<bool>, recStack: array<bool>, fin: map<nat, nat>, clock: nat)
      requires Valid() && visited.Length == MaxNodes && recStack.Length == MaxNodes
      requires DfsInv(visited, recStack, [], fin, clock) && StartedBelow(fin, NumNodes())
      ensures !HasCycle(Graph())
    {
      var m := Graph();
      assert Ranked(m, fin);
      RankedAcyclic(m, fin);
    }
  }
}
