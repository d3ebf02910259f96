/** The mutable dependency graph: edge insertion with rollback, cycle detection
    with a witness, and the deterministic depth-first sort. */
module Dag {
  import opened Ordering
  import opened Graphs
  import PostOrder

  datatype AddVertexResult = VertexAdded | VertexExists

  datatype AddEdgeResult =
    | EdgeAdded
    | UnknownFrom
    | UnknownTo
    | SelfReference
    | CycleError(cycle: seq<string>)

  datatype SortResult = Sorted(order: seq<string>) | GraphHasCycle

  /** One run of the cycle search: the variables its recursive closure updates.
      The ghost fields are the vertices popped so far and the order of popping. */
  class CycleSearch {
    const g: Graph
    var visited: set<string>
    var recStack: set<string>
    var cyclePath: seq<string>
    ghost var popped: set<string>
    ghost var finished: seq<string>

    constructor (graph: Graph)
      ensures g == graph && Inv() && cyclePath == []
    {
      g := graph;
      visited, recStack, cyclePath := {}, {}, [];
      popped, finished := {}, [];
    }

    ghost predicate Inv()
      reads this
    {
      && visited == recStack + popped
      && PathInv(g, recStack, cyclePath)
      && PoppedInv(g, recStack, popped, finished)
    }

    /** Entering a vertex: mark it, push it. */
    method Enter(node: string)
      requires Inv() && node !in visited && MayFollow(g, cyclePath, node)
      modifies this
      ensures Inv() && cyclePath == old(cyclePath) + [node]
      ensures visited == old(visited) + {node} && popped == old(popped)
    {
      PushKeepsInv(g, recStack, cyclePath, popped, finished, node);
      visited := visited + {node};
      recStack := recStack + {node};
      cyclePath := cyclePath + [node];
    }

    /** Leaving a vertex all of whose neighbours are done: pop it. */
    method Leave(ghost path: seq<string>, node: string)
      requires Inv() && cyclePath == path + [node] && node in g && g[node] <= popped
      modifies this
      ensures Inv() && cyclePath == path
      ensures visited == old(visited) && popped == old(popped) + {node}
    {
      PopKeepsInv(g, recStack, path, popped, finished, node);
      var shorter := cyclePath[..|cyclePath| - 1];
      assert shorter == path;
      recStack, cyclePath := recStack - {node}, shorter;
      popped, finished := popped + {node}, finished + [node];
    }

    /** `dfs`. On success the path ends in a repeated vertex; on failure the path is as before. */
    method Dfs(node: string) returns (found: bool)
      requires Closed(g) && node in g && node !in visited
      requires Inv() && MayFollow(g, cyclePath, node)
      modifies this
      ensures found ==> LassoFound(g, cyclePath)
      ensures !found ==> Inv() && cyclePath == old(cyclePath)
      ensures !found ==> old(visited) + {node} <= visited && old(popped) + {node} <= popped
      decreases |g.Keys - visited|
    {
      ghost var path, seen := cyclePath, visited;
      Enter(node);
      SmallerRest(g.Keys, seen, node);

      var todo := g[node];
      while todo != {}
        invariant todo <= g[node]
        invariant Inv() && cyclePath == path + [node]
        invariant seen + {node} <= visited && old(popped) <= popped
        invariant g[node] - todo <= popped
        decreases |todo|
      {
        var neighbor :| neighbor in todo;
        todo := todo - {neighbor};
        if neighbor !in visited {
          CardinalityMonotone(g.Keys - visited, g.Keys - (seen + {node}));
          var deeper := Dfs(neighbor);
          if deeper {
            return true;
          }
        } else if neighbor in recStack {
          ClosingVertexMakesLasso(g, recStack, cyclePath, neighbor);
          cyclePath := cyclePath + [neighbor];
          return true;
        }
      }
      Leave(path, node);
      return false;
    }
  }

  predicate MayFollow(g: Graph, path: seq<string>, v: string) {
    path == [] || Edge(g, path[|path| - 1], v)
  }

  /** The recursion stack is exactly the current path, which is a walk without repetition. */
  predicate PathInv(g: Graph, recStack: set<string>, path: seq<string>) {
    && recStack == Elements(path)
    && NoDup(path)
    && (path != [] ==> IsWalk(g, path))
  }

  /** Popped vertices are off the stack and only lead to vertices popped before them. */
  predicate PoppedInv(g: Graph, recStack: set<string>, popped: set<string>, finished: seq<string>) {
    && recStack !! popped
    && popped == Elements(finished)
    && NoDup(finished)
    && TargetsFirst(g, finished)
  }

  lemma PushKeepsInv(g: Graph, recStack: set<string>, path: seq<string>,
                     popped: set<string>, finished: seq<string>, node: string)
    requires PathInv(g, recStack, path) && PoppedInv(g, recStack, popped, finished)
    requires node !in recStack && node !in popped && MayFollow(g, path, node)
    ensures PathInv(g, recStack + {node}, path + [node])
    ensures PoppedInv(g, recStack + {node}, popped, finished)
  {
    assert Elements(path + [node]) == Elements(path) + {node};
    assert node in path <==> node in Elements(path);
  }

  lemma PopKeepsInv(g: Graph, recStack: set<string>, path: seq<string>,
                    popped: set<string>, finished: seq<string>, node: string)
    requires PathInv(g, recStack, path + [node]) && PoppedInv(g, recStack, popped, finished)
    requires node in g && g[node] <= popped
    ensures recStack + popped == (recStack - {node}) + (popped + {node})
    ensures (path + [node])[..|path + [node]| - 1] == path
    ensures PathInv(g, recStack - {node}, path)
    ensures PoppedInv(g, recStack - {node}, popped + {node}, finished + [node])
  {
    hide NoDup, TargetsFirst, PathInv, Elements;
    PopPath(g, recStack, path, node);
    PopFinished(g, popped, finished, node);
  }

  lemma PopPath(g: Graph, recStack: set<string>, path: seq<string>, node: string)
    requires PathInv(g, recStack, path + [node])
    ensures node in recStack && (path + [node])[..|path + [node]| - 1] == path
    ensures PathInv(g, recStack - {node}, path)
  {
    var p := path + [node];
    assert node in Elements(p) by { assert p[|path|] == node; }
    forall i | 0 <= i < |path| ensures path[i] != node {
      assert p[i] == path[i] && p[|path|] == node;
    }
    assert forall i | 0 <= i < |path| :: p[i] == path[i];
    assert Elements(p) == Elements(path) + {node};
    if path != [] {
      WalkSlice(g, p, 0, |path|);
      assert p[0..|path|] == path;
    }
  }

  lemma PopFinished(g: Graph, popped: set<string>, finished: seq<string>, node: string)
    requires popped == Elements(finished) && NoDup(finished) && TargetsFirst(g, finished)
    requires node in g && g[node] <= popped && node !in popped
    ensures Elements(finished + [node]) == popped + {node}
    ensures NoDup(finished + [node]) && TargetsFirst(g, finished + [node])
  {
    var order := finished + [node];
    assert Elements(order) == Elements(finished) + {node};
    assert node in finished <==> node in Elements(finished);
    assert order[..|finished|] == finished;
    forall i | 0 <= i < |finished| ensures order[..i] == finished[..i] {}
  }

  lemma ClosingVertexMakesLasso(g: Graph, recStack: set<string>, path: seq<string>, v: string)
    requires PathInv(g, recStack, path) && v in recStack && path != [] && MayFollow(g, path, v)
    ensures LassoFound(g, path + [v])
  {
    assert (path + [v])[..|path|] == path;
  }

  /** A walk without repetition followed by one closing vertex. */
  predicate LassoFound(g: Graph, p: seq<string>) {
    && |p| >= 2
    && IsWalk(g, p)
    && NoDup(p[..|p| - 1])
    && p[|p| - 1] in p[..|p| - 1]
  }

  /** One run of the depth-first sort. */
  class OrderSearch {
    const g: Graph
    var visited: set<string>
    var order: seq<string>

    constructor (graph: Graph)
      ensures g == graph && visited == {} && order == []
    {
      g := graph;
      visited, order := {}, [];
    }

    ghost function State(): Search
      reads this
    {
      Search(visited, order)
    }

    method Dfs(node: string)
      requires Closed(g) && node in g && node !in visited
      modifies this
      ensures State() == Visit(g, node, old(State()))
      decreases |g.Keys - visited|
    {
      visited := visited + {node};
      SmallerRest(g.Keys, old(visited), node);
      var keys := ListInSomeOrder(g[node]);
      var neighbors := SortStrings(keys);
      SortedIsUnique(neighbors, SortedSeq(g[node]));
      ghost var s1 := State();

      for i := 0 to |neighbors|
        invariant old(visited) + {node} <= visited
        invariant VisitAll(g, neighbors[i..], State()) == VisitAll(g, neighbors, s1)
      {
        assert neighbors[i] in Elements(neighbors);
        assert neighbors[i..][0] == neighbors[i] && neighbors[i..][1..] == neighbors[i + 1..];
        assert Elements(neighbors[i..]) <= Elements(neighbors);
        if neighbors[i] !in visited {
          CardinalityMonotone(g.Keys - visited, g.Keys - (old(visited) + {node}));
          Dfs(neighbors[i]);
        }
      }
      order := order + [node];
    }
  }

  /** Ranging over a map's keys: some order, each key once. */
  method ListInSomeOrder(s: set<string>) returns (r: seq<string>)
    ensures NoDup(r) && Elements(r) == s
  {
    r := [];
    var todo := s;
    while todo != {}
      invariant todo <= s && NoDup(r) && Elements(r) == s - todo
      decreases |todo|
    {
      var x :| x in todo;
      assert x in r <==> x in Elements(r);
      assert Elements(r + [x]) == Elements(r) + {x};
      r := r + [x];
      todo := todo - {x};
    }
  }

  class DirectedAcyclicGraph {
    var vertices: Graph

    /** What every graph built through the methods below satisfies. */
    ghost predicate Valid()
      reads this
    {
      Closed(vertices) && Acyclic(vertices)
    }

    constructor ()
      ensures Valid() && vertices == map[]
    {
      vertices := map[];
      new;
      assert TargetsFirst(vertices, []);
      ListingCertifiesAcyclic(vertices, []);
    }

    method AddVertex(id: string) returns (r: AddVertexResult)
      requires Valid()
      modifies this
      ensures Valid()
      ensures r == if id in old(vertices) then VertexExists else VertexAdded
      ensures vertices == if id in old(vertices) then old(vertices) else old(vertices)[id := {}]
    {
      if id in vertices {
        return VertexExists;
      }
      IsolatedVertexKeepsAcyclic(vertices, id);
      vertices := vertices[id := {}];
      return VertexAdded;
    }

    /** The edge is first inserted and taken out again if it closes a cycle. Succeeds
        exactly when both ends exist, differ, and `to` does not already reach `from`;
        any failure leaves the graph as it was. */
    method AddEdge(from: string, to: string) returns (r: AddEdgeResult)
      requires Valid()
      modifies this
      ensures Valid()
      ensures r.UnknownFrom? <==> from !in old(vertices)
      ensures r.UnknownTo? <==> from in old(vertices) && to !in old(vertices)
      ensures r.SelfReference? <==> from in old(vertices) && from == to
      ensures r.EdgeAdded? <==>
        from in old(vertices) && to in old(vertices) && from != to && !Reaches(old(vertices), to, from)
      ensures vertices == if r.EdgeAdded? then WithEdge(old(vertices), from, to) else old(vertices)
      ensures r.CycleError? ==>
        && from in old(vertices)
        && IsCycle(WithEdge(old(vertices), from, to), r.cycle)
        && exists i :: 0 <= i < |r.cycle| - 1 && r.cycle[i] == from && r.cycle[i + 1] == to
    {
      if from !in vertices {
        return UnknownFrom;
      }
      if to !in vertices {
        return UnknownTo;
      }
      if from == to {
        return SelfReference;
      }

      ghost var before := vertices;
      EdgeClosesCycleIffReaches(before, from, to);
      vertices := vertices[from := vertices[from] + {to}];
      assert vertices == WithEdge(before, from, to);

      var hasCycle, cycle := HasCycle();
      if hasCycle {
        CycleUsesNewEdge(before, from, to, cycle);
        NewEdgeWasAbsent(before, from, to);
        vertices := vertices[from := vertices[from] - {to}];
        assert vertices[from] == before[from];
        assert vertices == before;
        return CycleError(cycle);
      }
      return EdgeAdded;
    }

    /** True exactly when the edge relation has a cycle, whatever order the maps are
        ranged over; the trimmed path is then a cycle without inner repetition. */
    method HasCycle() returns (found: bool, cycle: seq<string>)
      requires Closed(vertices)
      ensures found <==> !Acyclic(vertices)
      ensures found ==> IsCycle(vertices, cycle) && NoDup(cycle[1..])
      ensures !found ==> cycle == []
    {
      var search := new CycleSearch(vertices);
      var todo := vertices.Keys;
      while todo != {}
        invariant todo <= vertices.Keys
        invariant search.g == vertices && search.Inv() && search.cyclePath == []
        invariant vertices.Keys - todo <= search.popped
        invariant fresh(search)
        decreases |todo|
      {
        var node :| node in todo;
        todo := todo - {node};
        assert Elements<string>([]) == {};
        if node !in search.visited {
          search.cyclePath := [];
          var hit := search.Dfs(node);
          if hit {
            cycle := TrimToCycle(vertices, search.cyclePath);
            return true, cycle;
          }
        }
      }
      ListingCertifiesAcyclic(vertices, search.finished);
      return false, [];
    }

    /** Never fails on a graph built through `AddVertex` and `AddEdge`; the result
        depends on the graph alone. */
    method TopologicalSort() returns (r: SortResult)
      requires Closed(vertices)
      ensures r == if Acyclic(vertices) then Sorted(TopologicalOrder(vertices)) else GraphHasCycle
      ensures r.Sorted? ==> PostOrder.InPostOrder(vertices, r.order)
    {
      hide Acyclic, PostOrder.InPostOrder;
      if Acyclic(vertices) {
        PostOrder.TopologicalOrderIff(vertices, TopologicalOrder(vertices));
      }
      var cyclic, _ := HasCycle();
      if cyclic {
        return GraphHasCycle;
      }
      var search := new OrderSearch(vertices);
      var nodes := GetVertices();
      SortedIsUnique(nodes, SortedSeq(vertices.Keys));
      ghost var s0 := search.State();
      for i := 0 to |nodes|
        invariant search.g == vertices && fresh(search)
        invariant VisitAll(vertices, nodes[i..], search.State()) == VisitAll(vertices, nodes, s0)
      {
        assert nodes[i] in Elements(nodes);
        assert nodes[i..][0] == nodes[i] && nodes[i..][1..] == nodes[i + 1..];
        assert Elements(nodes[i..]) <= Elements(nodes);
        if nodes[i] !in search.visited {
          search.Dfs(nodes[i]);
        }
      }
      return Sorted(search.order);
    }

    method GetVertices() returns (nodes: seq<string>)
      ensures Ordering.Sorted(nodes) && Elements(nodes) == vertices.Keys
    {
      var keys := ListInSomeOrder(vertices.Keys);
      nodes := SortStrings(keys);
    }
  }

  lemma IsolatedVertexKeepsAcyclic(g: Graph, id: string)
    requires Closed(g) && Acyclic(g) && id !in g
    ensures Closed(g[id := {}]) && Acyclic(g[id := {}])
  {
    var h := g[id := {}];
    forall p: seq<string> ensures !IsCycle(h, p) {
      if IsCycle(h, p) {
        forall i | 0 <= i < |p| - 1 ensures Edge(g, p[i], p[i + 1]) {
          assert Edge(h, p[i], p[i + 1]);
        }
      }
      assert IsCycle(h, p) ==> IsCycle(g, p);
    }
  }

  /** An edge that was already there cannot be the one that closes a cycle, so the
      rollback never removes an old edge. */
  lemma NewEdgeWasAbsent(g: Graph, a: string, b: string)
    requires Acyclic(g) && a in g && !Acyclic(WithEdge(g, a, b))
    ensures b !in g[a]
  {
    var targets, h := g[a], WithEdge(g, a, b);
    assert h == g[a := targets + {b}] && g == g[a := targets];
    assert b in targets ==> targets + {b} == targets;
  }

  /** The slice of the path from the first occurrence of its last vertex on. */
  method TrimToCycle(ghost g: Graph, path: seq<string>) returns (cycle: seq<string>)
    requires LassoFound(g, path)
    ensures IsCycle(g, cycle) && NoDup(cycle[1..])
  {
    var last := path[|path| - 1];
    var start := 0;
    var i := 0;
    while i < |path| - 1
      invariant 0 <= i <= |path| - 1 && start == 0
      invariant last !in path[..i]
    {
      if path[i] == last {
        start := i;
        break;
      }
      i := i + 1;
    }
    assert last in path[..|path| - 1];
    WalkSlice(g, path, start, |path|);
    cycle := path[start..];
    assert cycle == path[start..|path|];
    forall j, k | 0 <= j < k < |cycle[1..]| ensures cycle[1..][j] != cycle[1..][k] {
      assert cycle[1..][j] == path[start + 1 + j] && cycle[1..][k] == path[start + 1 + k];
      LassoRepeatsOnce(g, path, start, start + 1 + j, start + 1 + k);
    }
  }

  lemma LassoRepeatsOnce(g: Graph, p: seq<string>, s: nat, j: nat, k: nat)
    requires LassoFound(g, p) && s < j < k < |p| && p[s] == p[|p| - 1]
    ensures p[j] != p[k]
  {
    var body := p[..|p| - 1];
    assert body[s] == p[s] && body[j] == p[j];
    if k < |p| - 1 {
      assert body[k] == p[k];
    }
  }
}
