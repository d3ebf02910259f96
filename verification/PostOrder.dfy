/** The order of the depth-first sort, told without the search: which of two vertices comes first. */
module PostOrder {
  import opened Ordering
  import opened Graphs

  /** What can be reached from some of the vertices. */
  ghost function From(g: Graph, nodes: seq<string>): set<string> {
    set x | x in g && exists n :: n in nodes && Reaches(g, n, x)
  }

  /** The position of the first of the vertices from which `x` can be reached. */
  ghost function FirstReaching(g: Graph, nodes: seq<string>, x: string): (i: nat)
    requires exists n :: n in nodes && Reaches(g, n, x)
    ensures i < |nodes| && Reaches(g, nodes[i], x) && forall j | 0 <= j < i :: !Reaches(g, nodes[j], x)
  {
    if Reaches(g, nodes[0], x) then 0 else 1 + FirstReaching(g, nodes[1..], x)
  }

  lemma FirstIs(g: Graph, nodes: seq<string>, x: string, i: nat)
    requires i < |nodes| && Reaches(g, nodes[i], x) && forall j | 0 <= j < i :: !Reaches(g, nodes[j], x)
    ensures FirstReaching(g, nodes, x) == i
  {
  }

  /** Of two vertices reachable from `nodes`, `x` comes before `y`: an earlier one of `nodes` leads to
      it; or the same one leads to both, and it is `y`, or is neither and its targets, in ascending
      order, put `x` before `y`. */
  ghost predicate Before(g: Graph, nodes: seq<string>, x: string, y: string)
    requires Closed(g) && Acyclic(g) && Elements(nodes) <= g.Keys && x in From(g, nodes) && y in From(g, nodes)
    decreases |From(g, nodes)|
  {
    var i, j := FirstReaching(g, nodes, x), FirstReaching(g, nodes, y);
    if i != j then i < j
    else
      var v := nodes[i];
      assert v in g by { assert v in Elements(nodes); }
      v != x &&
      (v == y ||
       (Behind(g, v, x); Behind(g, v, y); FewerBehind(g, nodes, v);
        Before(g, SortedSeq(g[v]), x, y)))
  }

  /** What a vertex reaches other than itself is reachable from its targets. */
  lemma Behind(g: Graph, v: string, x: string)
    requires Closed(g) && v in g && Reaches(g, v, x) && x != v
    ensures x in From(g, SortedSeq(g[v])) && Elements(SortedSeq(g[v])) <= g.Keys
  {
    var p :| IsWalk(g, p) && p[0] == v && p[|p| - 1] == x;
    assert Edge(g, p[0], p[1]);
    WalkSlice(g, p, 1, |p|);
    assert p[1..|p|][0] == p[1];
    assert p[1] in Elements(SortedSeq(g[v]));
    EndsInGraph(g, p);
  }

  lemma EndsInGraph(g: Graph, p: seq<string>)
    requires Closed(g) && IsWalk(g, p) && |p| > 1
    ensures p[|p| - 1] in g
  {
    assert Edge(g, p[|p| - 2], p[|p| - 2 + 1]);
  }

  lemma FewerBehind(g: Graph, nodes: seq<string>, v: string)
    requires Closed(g) && Acyclic(g) && v in nodes && v in g
    ensures |From(g, SortedSeq(g[v]))| < |From(g, nodes)|
  {
    var inner, outer := From(g, SortedSeq(g[v])), From(g, nodes);
    ReachesSelf(g, v);
    forall x | x in inner ensures x in outer && x != v {
      var n :| n in SortedSeq(g[v]) && Reaches(g, n, x);
      assert n in Elements(SortedSeq(g[v]));
      ReachesStep(g, v, n, x);
      NotBack(g, v, n);
    }
    assert outer == inner + (outer - inner) && v in outer - inner;
  }

  /** No target leads back. */
  lemma NotBack(g: Graph, v: string, n: string)
    requires Acyclic(g) && Edge(g, v, n)
    ensures !Reaches(g, n, v)
  {
    if Reaches(g, n, v) {
      var p :| IsWalk(g, p) && p[0] == n && p[|p| - 1] == v;
      assert IsWalk(g, [v, n]);
      WalkConcat(g, [v, n], p);
      assert IsCycle(g, [v, n] + p[1..]);
    }
  }

  /** Of two different vertices exactly one comes before the other. */
  lemma {:induction false} OneIsBefore(g: Graph, nodes: seq<string>, x: string, y: string)
    requires Closed(g) && Acyclic(g) && Elements(nodes) <= g.Keys
    requires x in From(g, nodes) && y in From(g, nodes) && x != y
    ensures Before(g, nodes, x, y) <==> !Before(g, nodes, y, x)
    decreases |From(g, nodes)|
  {
    hide Acyclic, Reaches, From;
    assert exists n :: n in nodes && Reaches(g, n, x) by { FromMeans(g, nodes, x); }
    assert exists n :: n in nodes && Reaches(g, n, y) by { FromMeans(g, nodes, y); }
    var i := FirstReaching(g, nodes, x);
    if i == FirstReaching(g, nodes, y) && nodes[i] != x && nodes[i] != y {
      var v := nodes[i];
      assert v in Elements(nodes);
      Behind(g, v, x);
      Behind(g, v, y);
      FewerBehind(g, nodes, v);
      OneIsBefore(g, SortedSeq(g[v]), x, y);
    }
  }

  lemma FromMeans(g: Graph, nodes: seq<string>, x: string)
    requires x in From(g, nodes)
    ensures x in g && exists n :: n in nodes && Reaches(g, n, x)
  {
  }

  // ------------------------------------------------------- the search lists this order

  /** The vertices listed are those reachable and not listed before, each before the later ones. */
  ghost predicate Lists(g: Graph, nodes: seq<string>, done: set<string>, list: seq<string>)
    requires Closed(g) && Acyclic(g) && Elements(nodes) <= g.Keys
  {
    && Elements(list) == From(g, nodes) - done
    && (forall x | x in list :: x in From(g, nodes))
    && forall i, j | 0 <= i < j < |list| :: Before(g, nodes, list[i], list[j])
  }

  /** What was emitted is closed under reachability. */
  lemma EmittedIsClosed(g: Graph, order: seq<string>, p: seq<string>)
    requires TargetsFirst(g, order) && IsWalk(g, p) && p[0] in order
    ensures p[|p| - 1] in order
    decreases |p|
  {
    if |p| > 1 {
      assert Edge(g, p[0], p[1]);
      var i :| 0 <= i < |order| && order[i] == p[0];
      assert p[1] in Elements(order[..i]);
      assert p[1] in order[..i];
      WalkSlice(g, p, 1, |p|);
      EmittedIsClosed(g, order, p[1..|p|]);
    }
  }

  lemma ReachedIsEmitted(g: Graph, order: seq<string>, n: string, x: string)
    requires TargetsFirst(g, order) && n in order && Reaches(g, n, x)
    ensures x in order
  {
    var p :| IsWalk(g, p) && p[0] == n && p[|p| - 1] == x;
    EmittedIsClosed(g, order, p);
  }

  /** Vertices the first start does not lead to are ordered by the others. */
  lemma BeforeTail(g: Graph, nodes: seq<string>, x: string, y: string)
    requires Closed(g) && Acyclic(g) && nodes != [] && Elements(nodes) <= g.Keys && Elements(nodes[1..]) <= g.Keys
    requires x in From(g, nodes[1..]) && y in From(g, nodes[1..])
    requires !Reaches(g, nodes[0], x) && !Reaches(g, nodes[0], y)
    ensures x in From(g, nodes) && y in From(g, nodes)
    ensures Before(g, nodes[1..], x, y) ==> Before(g, nodes, x, y)
  {
    hide Reaches, Acyclic, Closed;
    assert forall n | n in nodes[1..] :: n in nodes;
    assert forall k | 0 <= k < |nodes| - 1 :: nodes[1..][k] == nodes[k + 1];
  }

  lemma FromHead(g: Graph, nodes: seq<string>)
    requires Closed(g) && nodes != [] && nodes[0] in g
    ensures From(g, nodes) == {nodes[0]} + From(g, SortedSeq(g[nodes[0]])) + From(g, nodes[1..])
    ensures forall x | x in From(g, SortedSeq(g[nodes[0]])) :: Reaches(g, nodes[0], x)
  {
    hide Reaches;
    var v := nodes[0];
    ReachesSelf(g, v);
    assert nodes == [v] + nodes[1..];
    forall x | x in From(g, SortedSeq(g[v])) ensures Reaches(g, v, x) {
      var n :| n in SortedSeq(g[v]) && Reaches(g, n, x);
      assert n in Elements(SortedSeq(g[v]));
      ReachesStep(g, v, n, x);
    }
    forall x | x in From(g, nodes) ensures x == v || x in From(g, SortedSeq(g[v])) || x in From(g, nodes[1..]) {
      var n :| n in nodes && Reaches(g, n, x);
      if n == v && x != v {
        Behind(g, v, x);
      }
    }
  }

  /** The list of a whole loop from those of its first vertex and of the rest. */
  lemma ListsStep(g: Graph, nodes: seq<string>, done: set<string>, inner: seq<string>, rest: seq<string>)
    requires Closed(g) && Acyclic(g) && nodes != [] && Elements(nodes) <= g.Keys && Elements(nodes[1..]) <= g.Keys
    requires nodes[0] in g && nodes[0] !in done && Elements(SortedSeq(g[nodes[0]])) <= g.Keys
    requires Lists(g, SortedSeq(g[nodes[0]]), done, inner)
    requires Lists(g, nodes[1..], done + Elements(inner) + {nodes[0]}, rest)
    requires forall x | Reaches(g, nodes[0], x) && x in g :: x in done || x in inner || x == nodes[0]
    ensures Lists(g, nodes, done, inner + [nodes[0]] + rest)
  {
    hide Reaches, Acyclic, Closed, From, Before;
    var v, list := nodes[0], inner + [nodes[0]] + rest;
    FromHead(g, nodes);
    assert Elements(list) == Elements(inner) + {v} + Elements(rest);
    forall x | x in list ensures x in From(g, nodes) { assert x in Elements(list); }
    forall i, j | 0 <= i < j < |list| ensures Before(g, nodes, list[i], list[j]) {
      ReachesSelf(g, v);
      if j < |inner| {
        assert inner[i] in Elements(inner) && inner[j] in Elements(inner);
        InnerBefore(g, nodes, inner[i], inner[j]);
      } else if j == |inner| {
        assert inner[i] in Elements(inner);
        InnerBeforeHead(g, nodes, inner[i]);
      } else {
        var y := rest[j - |inner| - 1];
        assert list[j] == y && y in Elements(rest);
        FromMeans(g, nodes[1..], y);
        if i <= |inner| {
          assert i < |inner| ==> inner[i] in Elements(inner);
          HeadBeforeRest(g, nodes, list[i], y);
        } else {
          var x := rest[i - |inner| - 1];
          assert list[i] == x && x in Elements(rest);
          FromMeans(g, nodes[1..], x);
          BeforeTail(g, nodes, x, y);
        }
      }
    }
  }

  lemma InnerBefore(g: Graph, nodes: seq<string>, x: string, y: string)
    requires Closed(g) && Acyclic(g) && nodes != [] && Elements(nodes) <= g.Keys && nodes[0] in g
    requires Elements(SortedSeq(g[nodes[0]])) <= g.Keys
    requires x in From(g, SortedSeq(g[nodes[0]])) && y in From(g, SortedSeq(g[nodes[0]]))
    requires Before(g, SortedSeq(g[nodes[0]]), x, y)
    ensures x in From(g, nodes) && y in From(g, nodes) && Before(g, nodes, x, y)
  {
    hide Reaches;
    FromHead(g, nodes);
    FirstIs(g, nodes, x, 0);
    FirstIs(g, nodes, y, 0);
    NotSelf(g, nodes[0], x);
    NotSelf(g, nodes[0], y);
  }

  lemma NotSelf(g: Graph, v: string, x: string)
    requires Acyclic(g) && v in g && x in From(g, SortedSeq(g[v]))
    ensures x != v
  {
    hide Reaches, Acyclic;
    var n :| n in SortedSeq(g[v]) && Reaches(g, n, x);
    assert n in Elements(SortedSeq(g[v]));
    NotBack(g, v, n);
  }

  lemma InnerBeforeHead(g: Graph, nodes: seq<string>, x: string)
    requires Closed(g) && Acyclic(g) && nodes != [] && Elements(nodes) <= g.Keys && nodes[0] in g
    requires x in From(g, SortedSeq(g[nodes[0]]))
    ensures x in From(g, nodes) && nodes[0] in From(g, nodes) && Before(g, nodes, x, nodes[0])
  {
    hide Reaches;
    FromHead(g, nodes);
    ReachesSelf(g, nodes[0]);
    FirstIs(g, nodes, x, 0);
    FirstIs(g, nodes, nodes[0], 0);
    NotSelf(g, nodes[0], x);
  }

  lemma HeadBeforeRest(g: Graph, nodes: seq<string>, x: string, y: string)
    requires Closed(g) && Acyclic(g) && nodes != [] && Elements(nodes) <= g.Keys
    requires x in From(g, nodes) && y in From(g, nodes) && Reaches(g, nodes[0], x) && !Reaches(g, nodes[0], y)
    ensures Before(g, nodes, x, y)
  {
    hide Reaches;
    FirstIs(g, nodes, x, 0);
  }

  lemma {:induction false} VisitAllLists(g: Graph, nodes: seq<string>, s: Search, stack: seq<string>)
    requires Closed(g) && Acyclic(g) && Elements(nodes) <= g.Keys
    requires SearchInv(g, s, stack) && forall n | n in nodes :: IsWalk(g, stack + [n])
    ensures s.order <= VisitAll(g, nodes, s).order
    ensures Lists(g, nodes, Elements(s.order), VisitAll(g, nodes, s).order[|s.order|..])
    decreases |g.Keys - s.visited|, |nodes| + 1
  {
    hide Acyclic, Reaches, Lists, SearchInv;
    VisitAllKeepsInv(g, nodes, s, stack);
    var r := VisitAll(g, nodes, s);
    if nodes == [] {
      NothingListed(g, Elements(s.order));
      assert r.order[|s.order|..] == [];
    } else {
      var n, tail := nodes[0], nodes[1..];
      assert n in Elements(nodes) && Elements(tail) <= Elements(nodes);
      if n in s.visited {
        VisitedNeighbourIsEmitted(g, n, s, stack);
        VisitAllLists(g, tail, s, stack);
        AlreadyListed(g, nodes, s.order, r.order[|s.order|..]) by { OrderOf(g, s, stack); }
      } else {
        HeadIsListed(g, nodes, s, stack);
      }
    }
  }

  lemma OrderOf(g: Graph, s: Search, stack: seq<string>)
    requires SearchInv(g, s, stack)
    ensures TargetsFirst(g, s.order) && Elements(s.order) <= s.visited
  {
  }

  lemma NothingListed(g: Graph, done: set<string>)
    requires Closed(g) && Acyclic(g) && Elements<string>([]) <= g.Keys
    ensures Lists(g, [], done, [])
  {
  }

  lemma AlreadyListed(g: Graph, nodes: seq<string>, order: seq<string>, list: seq<string>)
    requires Closed(g) && Acyclic(g) && nodes != [] && Elements(nodes) <= g.Keys && Elements(nodes[1..]) <= g.Keys
    requires TargetsFirst(g, order) && nodes[0] in order && Lists(g, nodes[1..], Elements(order), list)
    ensures Lists(g, nodes, Elements(order), list)
  {
    hide Reaches, Acyclic, Before;
    var v := nodes[0];
    assert v in Elements(nodes);
    forall x | Reaches(g, v, x) ensures x in Elements(order) {
      ReachedIsEmitted(g, order, v, x);
    }
    FromHead(g, nodes);
    ReachesSelf(g, v);
    assert Elements(list) == From(g, nodes) - Elements(order);
    forall x | x in list ensures x in From(g, nodes) && !Reaches(g, v, x) { assert x in Elements(list); }
    forall i, j | 0 <= i < j < |list| ensures Before(g, nodes, list[i], list[j]) {
      BeforeTail(g, nodes, list[i], list[j]);
    }
  }

  /** A visit lists what is behind the vertex, then the vertex. */
  lemma VisitLists(g: Graph, n: string, s: Search, stack: seq<string>) returns (inner: seq<string>)
    requires Closed(g) && Acyclic(g) && n in g && n !in s.visited
    requires SearchInv(g, s, stack) && IsWalk(g, stack + [n])
    ensures Elements(SortedSeq(g[n])) <= g.Keys && Lists(g, SortedSeq(g[n]), Elements(s.order), inner)
    ensures Visit(g, n, s).order == s.order + inner + [n] && SearchInv(g, Visit(g, n, s), stack)
    decreases |g.Keys - s.visited|, 0
  {
    hide Acyclic, Reaches, Lists, SearchInv, From;
    var s1, targets := Search(s.visited + {n}, s.order), SortedSeq(g[n]);
    SmallerRest(g.Keys, s.visited, n);
    EnterKeepsInv(g, n, s, stack);
    VisitAllLists(g, targets, s1, stack + [n]);
    VisitKeepsInv(g, n, s, stack);
    inner := VisitAll(g, targets, s1).order[|s.order|..];
  }

  lemma HeadIsListed(g: Graph, nodes: seq<string>, s: Search, stack: seq<string>)
    requires Closed(g) && Acyclic(g) && nodes != [] && Elements(nodes) <= g.Keys && nodes[0] !in s.visited
    requires SearchInv(g, s, stack) && forall n | n in nodes :: IsWalk(g, stack + [n])
    ensures s.order <= VisitAll(g, nodes, s).order
    ensures Lists(g, nodes, Elements(s.order), VisitAll(g, nodes, s).order[|s.order|..])
    decreases |g.Keys - s.visited|, |nodes|
  {
    hide Acyclic, Reaches, Lists, SearchInv, From, Closed, IsWalk, Visit;
    var n, tail := nodes[0], nodes[1..];
    assert n in Elements(nodes) && Elements(tail) <= Elements(nodes);
    assert n in nodes && forall m | m in tail :: m in nodes;
    OrderOf(g, s, stack);
    var inner := VisitLists(g, n, s, stack);
    var s3 := Visit(g, n, s);
    CardinalityMonotone(g.Keys - s3.visited, g.Keys - (s.visited + {n}));
    SmallerRest(g.Keys, s.visited, n);
    VisitAllLists(g, tail, s3, stack);
    var r := VisitAll(g, nodes, s);
    assert r == VisitAll(g, tail, s3);
    var rest := r.order[|s3.order|..];
    JoinLists(s.order, inner, n, s3.order, r.order);
    NothingForgotten(g, n, s, s3, stack, inner);
    ListsStep(g, nodes, Elements(s.order), inner, rest);
  }

  lemma JoinLists(before: seq<string>, inner: seq<string>, n: string, after: seq<string>, all: seq<string>)
    requires after == before + inner + [n] && after <= all
    ensures before <= all && all[|before|..] == inner + [n] + all[|after|..]
    ensures Elements(after) == Elements(before) + Elements(inner) + {n}
  {
  }

  lemma NothingForgotten(g: Graph, n: string, s: Search, s3: Search, stack: seq<string>, inner: seq<string>)
    requires SearchInv(g, s3, stack) && s3.order == s.order + inner + [n]
    ensures forall x | Reaches(g, n, x) && x in g :: x in Elements(s.order) || x in inner || x == n
  {
    hide Reaches;
    forall x | Reaches(g, n, x) && x in g ensures x in Elements(s.order) || x in inner || x == n {
      assert n in s3.order;
      ReachedIsEmitted(g, s3.order, n, x);
    }
  }

  // --------------------------------------------------------------- the whole order

  /** All vertices, each once, each before the later ones. */
  ghost predicate InPostOrder(g: Graph, order: seq<string>)
    requires Closed(g) && Acyclic(g)
  {
    && NoDup(order) && Elements(order) == g.Keys
    && (forall x | x in order :: x in From(g, SortedSeq(g.Keys)))
    && forall i, j | 0 <= i < j < |order| :: Before(g, SortedSeq(g.Keys), order[i], order[j])
  }

  lemma AllReachable(g: Graph)
    ensures From(g, SortedSeq(g.Keys)) == g.Keys
  {
    hide Reaches;
    forall x | x in g ensures x in From(g, SortedSeq(g.Keys)) {
      ReachesSelf(g, x);
      assert x in Elements(SortedSeq(g.Keys));
    }
  }

  /** Two listings with every earlier vertex before every later one are the same. */
  lemma {:induction false} SameListing(g: Graph, nodes: seq<string>, a: seq<string>, b: seq<string>)
    requires Closed(g) && Acyclic(g) && Elements(nodes) <= g.Keys && NoDup(a) && NoDup(b) && Elements(a) == Elements(b)
    requires forall x | x in Elements(a) :: x in From(g, nodes)
    requires forall i, j | 0 <= i < j < |a| ::
               a[i] in Elements(a) && a[j] in Elements(a) && Before(g, nodes, a[i], a[j])
    requires forall i, j | 0 <= i < j < |b| ::
               b[i] in Elements(a) && b[j] in Elements(a) && Before(g, nodes, b[i], b[j])
    ensures a == b
    decreases |a|
  {
    hide Acyclic, Before, From;
    if a == [] || b == [] {
      NoElements(a);
      NoElements(b);
    } else {
      SameHead(g, nodes, a, b);
      TailOf(a);
      TailOf(b);
      SameListing(g, nodes, a[1..], b[1..]);
      assert a == [a[0]] + a[1..] && b == [b[0]] + b[1..];
    }
  }

  lemma SameHead(g: Graph, nodes: seq<string>, a: seq<string>, b: seq<string>)
    requires Closed(g) && Acyclic(g) && Elements(nodes) <= g.Keys && a != [] && b != [] && Elements(a) == Elements(b)
    requires forall x | x in Elements(a) :: x in From(g, nodes)
    requires forall j | 0 < j < |a| ::
               a[0] in Elements(a) && a[j] in Elements(a) && Before(g, nodes, a[0], a[j])
    requires forall j | 0 < j < |b| ::
               b[0] in Elements(a) && b[j] in Elements(a) && Before(g, nodes, b[0], b[j])
    ensures a[0] == b[0]
  {
    hide Acyclic, Before, From;
    assert a[0] in Elements(a) && b[0] in Elements(b) && a[0] in b && b[0] in a;
    var i :| 0 <= i < |a| && a[i] == b[0];
    var j :| 0 <= j < |b| && b[j] == a[0];
    if a[0] != b[0] {
      assert Before(g, nodes, a[0], a[i]);
      assert Before(g, nodes, b[0], b[j]);
      OneIsBefore(g, nodes, a[0], b[0]);
    }
  }

  lemma TailOf(a: seq<string>)
    requires NoDup(a) && a != []
    ensures NoDup(a[1..]) && Elements(a[1..]) == Elements(a) - {a[0]}
  {
    assert forall y :: y in a <==> y == a[0] || y in a[1..];
    forall i | 0 <= i < |a| - 1 ensures a[1..][i] != a[0] {
      assert a[0] != a[i + 1];
    }
  }

  /** The order the sort returns is the one listing of the vertices with every earlier one before
      every later one. */
  lemma TopologicalOrderIff(g: Graph, order: seq<string>)
    requires Closed(g) && Acyclic(g)
    ensures order == TopologicalOrder(g) <==> InPostOrder(g, order)
  {
    hide Acyclic, Before, From, SearchInv;
    var nodes, s := SortedSeq(g.Keys), Search({}, []);
    var sorted := TopologicalOrder(g);
    NoElements<string>([]);
    assert SearchInv(g, s, []) by { NothingSearched(g); }
    forall n | n in nodes ensures IsWalk(g, [] + [n]) {}
    VisitAllLists(g, nodes, s, []);
    TopologicalOrderValid(g);
    AllReachable(g);
    assert sorted[0..] == sorted;
    assert InPostOrder(g, sorted);
    if InPostOrder(g, order) {
      forall i | 0 <= i < |order| ensures order[i] in Elements(sorted) { assert order[i] in Elements(order); }
      forall i | 0 <= i < |sorted| ensures sorted[i] in Elements(sorted) {}
      SameListing(g, nodes, sorted, order);
    }
  }

  lemma NothingSearched(g: Graph)
    ensures SearchInv(g, Search({}, []), [])
  {
    NoElements<string>([]);
  }

  /** Without edges the vertices come in ascending order. */
  lemma WithoutEdgesAscending(g: Graph)
    requires forall v | v in g :: g[v] == {}
    ensures Closed(g) && Acyclic(g) && TopologicalOrder(g) == SortedSeq(g.Keys)
  {
    hide Reaches, Before, From;
    var nodes := SortedSeq(g.Keys);
    assert Acyclic(g) by { NoEdgesNoCycle(g); }
    SortedHasNoDup(nodes);
    AllReachable(g);
    forall x | x in nodes ensures x in From(g, nodes) { assert x in Elements(nodes); }
    forall i, j | 0 <= i < j < |nodes| ensures Before(g, nodes, nodes[i], nodes[j]) {
      assert nodes[i] in Elements(nodes) && nodes[j] in Elements(nodes);
      BeforeInList(g, nodes, i, j);
    }
    assert Elements(nodes) == g.Keys;
    TopologicalOrderIff(g, nodes);
  }

  lemma BeforeInList(g: Graph, nodes: seq<string>, i: nat, j: nat)
    requires (forall v | v in g :: g[v] == {}) && i < j < |nodes| && NoDup(nodes)
    requires Closed(g) && Acyclic(g) && Elements(nodes) <= g.Keys
    requires nodes[i] in From(g, nodes) && nodes[j] in From(g, nodes)
    ensures Before(g, nodes, nodes[i], nodes[j])
  {
    hide Reaches, Acyclic;
    OnlyItself(g, nodes, i);
    OnlyItself(g, nodes, j);
  }

  lemma OnlyItself(g: Graph, nodes: seq<string>, i: nat)
    requires (forall v | v in g :: g[v] == {}) && i < |nodes| && NoDup(nodes)
    ensures Reaches(g, nodes[i], nodes[i]) && FirstReaching(g, nodes, nodes[i]) == i
  {
    ReachesSelf(g, nodes[i]);
    forall j | 0 <= j < i ensures !Reaches(g, nodes[j], nodes[i]) {
      if Reaches(g, nodes[j], nodes[i]) {
        var p :| IsWalk(g, p) && p[0] == nodes[j] && p[|p| - 1] == nodes[i];
        assert nodes[j] != nodes[i];
        FirstEdge(g, p);
      }
    }
    FirstIs(g, nodes, nodes[i], i);
  }
}
