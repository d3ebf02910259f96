/** Finite directed graphs as values: walks, cycles, reachability and the
    functional depth-first order that the graph class is proved against. */
module Graphs {
  import opened Ordering

  /** Adjacency: the targets of each vertex. An edge `a -> b` reads "a depends on b". */
  type Graph = map<string, set<string>>

  predicate Edge(g: Graph, a: string, b: string) {
    a in g && b in g[a]
  }

  predicate Closed(g: Graph) {
    forall v | v in g :: g[v] <= g.Keys
  }

  predicate IsWalk(g: Graph, p: seq<string>) {
    && p != []
    && forall i | 0 <= i < |p| - 1 :: Edge(g, p[i], p[i + 1])
  }

  predicate IsCycle(g: Graph, p: seq<string>) {
    && |p| >= 2
    && p[0] == p[|p| - 1]
    && IsWalk(g, p)
  }

  ghost predicate Acyclic(g: Graph) {
    forall p: seq<string> :: !IsCycle(g, p)
  }

  ghost predicate Reaches(g: Graph, a: string, b: string) {
    exists p: seq<string> :: IsWalk(g, p) && p[0] == a && p[|p| - 1] == b
  }

  function WithEdge(g: Graph, a: string, b: string): Graph
    requires a in g
  {
    g[a := g[a] + {b}]
  }

  /** Every edge of an element of `order` leads to an earlier element. */
  predicate TargetsFirst(g: Graph, order: seq<string>) {
    forall i | 0 <= i < |order| :: order[i] in g && g[order[i]] <= Elements(order[..i])
  }

  // ---------------------------------------------------------------- walks

  lemma WalkSlice(g: Graph, p: seq<string>, i: nat, j: nat)
    requires IsWalk(g, p) && i < j <= |p|
    ensures IsWalk(g, p[i..j])
  {
    forall k | 0 <= k < j - i - 1 ensures Edge(g, p[i..j][k], p[i..j][k + 1]) {
      assert Edge(g, p[i + k], p[i + k + 1]);
    }
  }

  lemma FirstEdge(g: Graph, p: seq<string>)
    requires IsWalk(g, p) && |p| > 1
    ensures p[0] in g && p[1] in g[p[0]]
  {
    assert Edge(g, p[0], p[0 + 1]);
  }

  lemma NoEdgesNoCycle(g: Graph)
    requires forall v | v in g :: g[v] == {}
    ensures Acyclic(g)
  {
    forall p: seq<string> ensures !IsCycle(g, p) {
      if IsCycle(g, p) {
        FirstEdge(g, p);
      }
    }
  }

  lemma WalkConcat(g: Graph, p: seq<string>, q: seq<string>)
    requires IsWalk(g, p) && IsWalk(g, q) && p[|p| - 1] == q[0]
    ensures IsWalk(g, p + q[1..])
    ensures (p + q[1..])[|p + q[1..]| - 1] == q[|q| - 1]
  {
    var r := p + q[1..];
    forall k | 0 <= k < |r| - 1 ensures Edge(g, r[k], r[k + 1]) {
      if k < |p| - 1 {
        assert Edge(g, p[k], p[k + 1]);
      } else {
        assert Edge(g, q[k - |p| + 1], q[k - |p| + 2]);
      }
    }
  }

  lemma WalkInLargerGraph(g: Graph, h: Graph, p: seq<string>)
    requires IsWalk(g, p)
    requires forall v | v in g :: v in h && g[v] <= h[v]
    ensures IsWalk(h, p)
  {
    forall i | 0 <= i < |p| - 1 ensures Edge(h, p[i], p[i + 1]) {
      assert Edge(g, p[i], p[i + 1]);
    }
  }

  lemma ReachesStep(g: Graph, a: string, b: string, c: string)
    requires Edge(g, a, b) && Reaches(g, b, c)
    ensures Reaches(g, a, c)
  {
    var p :| IsWalk(g, p) && p[0] == b && p[|p| - 1] == c;
    assert IsWalk(g, [a, b]);
    WalkConcat(g, [a, b], p);
    assert ([a, b] + p[1..])[0] == a;
  }

  lemma ReachesSelf(g: Graph, a: string)
    ensures Reaches(g, a, a)
  {
    assert IsWalk(g, [a]) && [a][0] == a;
  }

  // ------------------------------------------------- acyclicity by ranking

  /** Position of `v` in `order`. */
  function IndexOf(order: seq<string>, v: string): (i: nat)
    requires v in order
    ensures i < |order| && order[i] == v
  {
    if order[0] == v then 0 else 1 + IndexOf(order[1..], v)
  }

  lemma {:induction false} WalkDescends(g: Graph, order: seq<string>, p: seq<string>)
    requires TargetsFirst(g, order) && NoDup(order)
    requires IsWalk(g, p) && p[0] in order
    ensures p[|p| - 1] in order
    ensures |p| > 1 ==> IndexOf(order, p[|p| - 1]) < IndexOf(order, p[0])
  {
    if |p| > 1 {
      var i := IndexOf(order, p[0]);
      assert Edge(g, p[0], p[1]);
      assert p[1] in Elements(order[..i]);
      assert p[1] in order[..i] && p[1] in order;
      var k :| 0 <= k < i && order[k] == p[1];
      assert IndexOf(order, p[1]) == k;
      WalkSlice(g, p, 1, |p|);
      WalkDescends(g, order, p[1..]);
    }
  }

  /** A listing of all vertices with targets first certifies that there is no cycle. */
  lemma ListingCertifiesAcyclic(g: Graph, order: seq<string>)
    requires TargetsFirst(g, order) && NoDup(order)
    requires g.Keys <= Elements(order)
    ensures Acyclic(g)
  {
    forall p: seq<string> ensures !IsCycle(g, p) {
      if IsCycle(g, p) {
        assert Edge(g, p[0], p[1]);
        assert p[0] in Elements(order);
        WalkDescends(g, order, p);
        assert false;
      }
    }
  }

  // ------------------------------------------------------- adding an edge

  /** Adding `a -> b` to an acyclic graph closes a cycle exactly when `b` already reaches `a`. */
  lemma EdgeClosesCycleIffReaches(g: Graph, a: string, b: string)
    requires Acyclic(g) && a in g
    ensures Acyclic(WithEdge(g, a, b)) <==> !Reaches(g, b, a)
  {
    var h := WithEdge(g, a, b);
    if Reaches(g, b, a) {
      var p :| IsWalk(g, p) && p[0] == b && p[|p| - 1] == a;
      WalkInLargerGraph(g, h, p);
      assert Edge(h, a, b) && IsWalk(h, [a, b]);
      WalkConcat(h, [a, b], p);
      assert IsCycle(h, [a, b] + p[1..]);
    }
    if !Acyclic(h) {
      var p :| IsCycle(h, p);
      CycleUsesNewEdge(g, a, b, p);
    }
  }

  lemma CycleWithoutNewEdge(g: Graph, a: string, b: string, p: seq<string>)
    requires a in g && IsCycle(WithEdge(g, a, b), p)
    requires forall i | 0 <= i < |p| - 1 :: !(p[i] == a && p[i + 1] == b)
    ensures IsCycle(g, p)
  {
    forall i | 0 <= i < |p| - 1 ensures Edge(g, p[i], p[i + 1]) {
      assert Edge(WithEdge(g, a, b), p[i], p[i + 1]);
    }
  }

  /** Every cycle created by the new edge runs through it. */
  lemma CycleUsesNewEdge(g: Graph, a: string, b: string, p: seq<string>)
    requires Acyclic(g) && a in g && IsCycle(WithEdge(g, a, b), p)
    ensures exists i :: 0 <= i < |p| - 1 && p[i] == a && p[i + 1] == b
    ensures Reaches(g, b, a)
  {
    var h := WithEdge(g, a, b);
    if forall i | 0 <= i < |p| - 1 :: !(p[i] == a && p[i + 1] == b) {
      CycleWithoutNewEdge(g, a, b, p);
      assert false;
    }
    var i :| 0 <= i < |p| - 1 && p[i] == a && p[i + 1] == b;
    WalkSlice(h, p, i + 1, |p|);
    WalkSlice(h, p, 0, i + 1);
    var q := p[i + 1..|p|] + p[0..i + 1][1..];
    WalkConcat(h, p[i + 1..|p|], p[0..i + 1]);
    assert q[0] == b && q[|q| - 1] == a;
    OldWalkToSource(g, a, b, q);
  }

  /** A walk of the enlarged graph that ends in `a` has a prefix ending in `a`
      that uses old edges only. */
  lemma {:induction false} OldWalkToSource(g: Graph, a: string, b: string, q: seq<string>)
    requires a in g && IsWalk(WithEdge(g, a, b), q) && q[|q| - 1] == a
    ensures Reaches(g, q[0], a)
  {
    if q[0] == a {
      ReachesSelf(g, a);
    } else {
      var h := WithEdge(g, a, b);
      assert Edge(h, q[0], q[1]);
      WalkSlice(h, q, 1, |q|);
      OldWalkToSource(g, a, b, q[1..]);
      ReachesStep(g, q[0], q[1], a);
    }
  }

  // ---------------------------------------- the deterministic DFS post-order

  /** What the depth-first sort has marked visited and what it has emitted. */
  datatype Search = Search(visited: set<string>, order: seq<string>)

  ghost function Visit(g: Graph, node: string, s: Search): (r: Search)
    requires Closed(g) && node in g && node !in s.visited
    ensures s.visited + {node} <= r.visited
    decreases |g.Keys - s.visited|, 0
  {
    var s1 := Search(s.visited + {node}, s.order);
    SmallerRest(g.Keys, s.visited, node);
    var s2 := VisitAll(g, SortedSeq(g[node]), s1);
    Search(s2.visited, s2.order + [node])
  }

  ghost function VisitAll(g: Graph, nodes: seq<string>, s: Search): (r: Search)
    requires Closed(g) && Elements(nodes) <= g.Keys
    ensures s.visited <= r.visited
    decreases |g.Keys - s.visited|, |nodes| + 1
  {
    if nodes == [] then s
    else
      assert nodes[0] in Elements(nodes);
      assert Elements(nodes[1..]) <= Elements(nodes);
      var s1 := if nodes[0] in s.visited then s else Visit(g, nodes[0], s);
      CardinalityMonotone(g.Keys - s1.visited, g.Keys - s.visited);
      VisitAll(g, nodes[1..], s1)
  }

  /** The order the sort returns: a function of the graph alone. */
  ghost function TopologicalOrder(g: Graph): seq<string>
    requires Closed(g)
  {
    VisitAll(g, SortedSeq(g.Keys), Search({}, [])).order
  }

  lemma CardinalityMonotone<T>(a: set<T>, b: set<T>)
    requires a <= b
    ensures |a| <= |b|
    decreases a
  {
    if a != {} {
      var x :| x in a;
      CardinalityMonotone(a - {x}, b - {x});
    }
  }

  lemma SmallerRest(keys: set<string>, visited: set<string>, node: string)
    requires node in keys && node !in visited
    ensures |keys - (visited + {node})| < |keys - visited|
  {
    assert keys - visited == (keys - (visited + {node})) + {node};
  }

  /** Visited means emitted or on the current stack, and what is emitted is in order. */
  predicate SearchInv(g: Graph, s: Search, stack: seq<string>) {
    && s.visited == Elements(stack) + Elements(s.order)
    && TargetsFirst(g, s.order)
    && NoDup(s.order)
    && Elements(stack) !! Elements(s.order)
  }

  lemma {:induction false} VisitKeepsInv(g: Graph, node: string, s: Search, stack: seq<string>)
    requires Closed(g) && Acyclic(g) && node in g && node !in s.visited
    requires SearchInv(g, s, stack) && IsWalk(g, stack + [node])
    ensures SearchInv(g, Visit(g, node, s), stack)
    ensures s.order <= Visit(g, node, s).order
    ensures node in Visit(g, node, s).order
    decreases |g.Keys - s.visited|, 0
  {
    var s1 := Search(s.visited + {node}, s.order);
    var stack1 := stack + [node];
    SmallerRest(g.Keys, s.visited, node);
    EnterKeepsInv(g, node, s, stack);
    VisitAllKeepsInv(g, SortedSeq(g[node]), s1, stack1);
    var s2 := VisitAll(g, SortedSeq(g[node]), s1);
    var r := Search(s2.visited, s2.order + [node]);
    assert Visit(g, node, s) == r;
    assert s.order <= s2.order <= r.order && r.order[|s2.order|] == node;
    EmitKeepsInv(g, node, s2, stack);
  }

  lemma EnterKeepsInv(g: Graph, node: string, s: Search, stack: seq<string>)
    requires node in g && node !in s.visited && SearchInv(g, s, stack) && IsWalk(g, stack + [node])
    ensures SearchInv(g, Search(s.visited + {node}, s.order), stack + [node])
    ensures forall n | n in SortedSeq(g[node]) :: IsWalk(g, stack + [node] + [n])
  {
    assert Elements(stack + [node]) == Elements(stack) + {node};
    forall n | n in SortedSeq(g[node]) ensures IsWalk(g, stack + [node] + [n]) {
      assert n in Elements(SortedSeq(g[node]));
      ExtendWalk(g, stack, node, n);
    }
  }

  lemma ExtendWalk(g: Graph, stack: seq<string>, node: string, n: string)
    requires IsWalk(g, stack + [node]) && Edge(g, node, n)
    ensures IsWalk(g, stack + [node] + [n])
  {
    var w := stack + [node] + [n];
    forall i | 0 <= i < |w| - 1 ensures Edge(g, w[i], w[i + 1]) {
      if i < |stack| {
        assert Edge(g, (stack + [node])[i], (stack + [node])[i + 1]);
      }
    }
  }

  lemma EmitKeepsInv(g: Graph, node: string, s: Search, stack: seq<string>)
    requires node in g && node !in stack && SearchInv(g, s, stack + [node])
    requires g[node] <= Elements(s.order)
    ensures SearchInv(g, Search(s.visited, s.order + [node]), stack)
  {
    var order := s.order + [node];
    assert Elements(stack + [node]) == Elements(stack) + {node};
    assert Elements(order) == Elements(s.order) + {node};
    assert order[..|s.order|] == s.order;
    forall i | 0 <= i < |s.order| ensures order[..i] == s.order[..i] {}
    assert TargetsFirst(g, order);
    assert node !in Elements(s.order);
  }

  lemma {:induction false} VisitAllKeepsInv(g: Graph, nodes: seq<string>, s: Search, stack: seq<string>)
    requires Closed(g) && Acyclic(g) && Elements(nodes) <= g.Keys
    requires SearchInv(g, s, stack)
    requires forall n | n in nodes :: IsWalk(g, stack + [n])
    ensures SearchInv(g, VisitAll(g, nodes, s), stack)
    ensures s.order <= VisitAll(g, nodes, s).order
    ensures Elements(nodes) <= Elements(VisitAll(g, nodes, s).order)
    decreases |g.Keys - s.visited|, |nodes| + 1
  {
    if nodes != [] {
      var n := nodes[0];
      assert n in Elements(nodes);
      HeadAndTail(nodes);
      var s1 := if n in s.visited then s else Visit(g, n, s);
      if n in s.visited {
        VisitedNeighbourIsEmitted(g, n, s, stack);
      } else {
        VisitKeepsInv(g, n, s, stack);
      }
      CardinalityMonotone(g.Keys - s1.visited, g.Keys - s.visited);
      VisitAllKeepsInv(g, nodes[1..], s1, stack);
      var r := VisitAll(g, nodes[1..], s1);
      assert VisitAll(g, nodes, s) == r;
      assert n in s1.order && s1.order <= r.order;
    }
  }

  lemma HeadAndTail(nodes: seq<string>)
    requires nodes != []
    ensures Elements(nodes) == {nodes[0]} + Elements(nodes[1..])
  {
    assert nodes == [nodes[0]] + nodes[1..];
  }

  /** In an acyclic graph no neighbour is on the stack. */
  lemma VisitedNeighbourIsEmitted(g: Graph, n: string, s: Search, stack: seq<string>)
    requires Acyclic(g) && SearchInv(g, s, stack) && n in s.visited && IsWalk(g, stack + [n])
    ensures n in s.order
  {
    if n in Elements(stack) {
      var i :| 0 <= i < |stack| && stack[i] == n;
      WalkSlice(g, stack + [n], i, |stack| + 1);
      assert IsCycle(g, (stack + [n])[i..]);
      assert false;
    }
  }

  /** The order lists every vertex exactly once and every edge target before its source. */
  lemma TopologicalOrderValid(g: Graph)
    requires Closed(g) && Acyclic(g)
    ensures NoDup(TopologicalOrder(g))
    ensures Elements(TopologicalOrder(g)) == g.Keys
    ensures TargetsFirst(g, TopologicalOrder(g))
  {
    var s := Search({}, []);
    var nodes := SortedSeq(g.Keys);
    assert Elements<string>([]) == {};
    assert SearchInv(g, s, []);
    forall n | n in nodes ensures IsWalk(g, [] + [n]) {}
    VisitAllKeepsInv(g, nodes, s, []);
    ListedVerticesExist(g, TopologicalOrder(g));
  }

  lemma ListedVerticesExist(g: Graph, order: seq<string>)
    requires TargetsFirst(g, order)
    ensures Elements(order) <= g.Keys
  {
    forall v | v in Elements(order) ensures v in g {
      var i :| 0 <= i < |order| && order[i] == v;
    }
  }
}
