/** The chain reaction of ignored resources: a one-step check in topological order against
    reachability. */
module Inclusion {
  import opened Ordering
  import opened Graphs

  /** Some resource with a failing condition is reachable, in any number of steps. */
  ghost predicate Doomed(g: Graph, x: string, failing: set<string>) {
    exists f :: f in failing && Reaches(g, x, f)
  }

  /** Among the resources seen, exactly the doomed ones are ignored. */
  ghost predicate IgnoredRightly(g: Graph, seen: set<string>, failing: set<string>, ignored: set<string>) {
    failing <= ignored <= seen && forall x | x in seen :: x in ignored <==> Doomed(g, x, failing)
  }

  lemma {:induction false} WalkStaysIn(g: Graph, seen: set<string>, p: seq<string>)
    requires IsWalk(g, p) && p[0] in seen
    requires forall x | x in seen && x in g :: g[x] <= seen
    ensures p[|p| - 1] in seen
    decreases |p|
  {
    if |p| > 1 {
      assert Edge(g, p[0], p[1]);
      WalkSlice(g, p, 1, |p|);
      WalkStaysIn(g, seen, p[1..]);
    }
  }

  lemma SeenReachSeen(g: Graph, seen: set<string>, a: string, b: string)
    requires a in seen && Reaches(g, a, b) && forall x | x in seen && x in g :: g[x] <= seen
    ensures b in seen
  {
    var p :| IsWalk(g, p) && p[0] == a && p[|p| - 1] == b;
    WalkStaysIn(g, seen, p);
  }

  lemma ReachesFirst(g: Graph, a: string, b: string)
    requires Reaches(g, a, b) && a != b
    ensures a in g && exists d :: d in g[a] && Reaches(g, d, b)
  {
    var p :| IsWalk(g, p) && p[0] == a && p[|p| - 1] == b;
    assert Edge(g, p[0], p[1]);
    WalkSlice(g, p, 1, |p|);
    assert p[1..][0] == p[1] && p[1..][|p[1..]| - 1] == b;
    assert Reaches(g, p[1], b);
  }

  /** A resource is doomed when it fails itself or depends directly on a doomed one. */
  lemma DoomedFirst(g: Graph, failing: set<string>, id: string)
    requires id in g
    ensures Doomed(g, id, failing) <==> id in failing || exists d :: d in g[id] && Doomed(g, d, failing)
  {
    hide Reaches;
    if id in failing {
      ReachesSelf(g, id);
    } else if f :| f in failing && Reaches(g, id, f) {
      ReachesFirst(g, id, f);
      var d :| d in g[id] && Reaches(g, d, f);
      assert Doomed(g, d, failing);
    }
    if d :| d in g[id] && Doomed(g, d, failing) {
      var f :| f in failing && Reaches(g, d, f);
      ReachesStep(g, id, d, f);
    }
  }

  /** A later resource does not doom an earlier one. */
  lemma DoomedEarlier(g: Graph, seen: set<string>, failing: set<string>, x: string, id: string)
    requires x in seen && id !in seen && forall y | y in seen && y in g :: g[y] <= seen
    ensures Doomed(g, x, failing + {id}) <==> Doomed(g, x, failing)
  {
    hide Reaches;
    if f :| f in failing + {id} && Reaches(g, x, f) {
      SeenReachSeen(g, seen, x, f);
      assert f in failing;
    }
    if f :| f in failing && Reaches(g, x, f) {
      assert f in failing + {id};
    }
  }

  /** Checking one more resource against its direct dependencies only. */
  lemma OneMoreResource(g: Graph, seen: set<string>, failing: set<string>, ignored: set<string>, id: string,
                        fails: bool)
    requires IgnoredRightly(g, seen, failing, ignored)
    requires id in g && id !in seen && g[id] <= seen && forall x | x in seen && x in g :: g[x] <= seen
    ensures var failing' := if fails then failing + {id} else failing;
      var ignored' := if fails || g[id] * ignored != {} then ignored + {id} else ignored;
      IgnoredRightly(g, seen + {id}, failing', ignored')
  {
    hide Doomed;
    var failing' := if fails then failing + {id} else failing;
    forall x | x in seen ensures Doomed(g, x, failing') <==> Doomed(g, x, failing) {
      DoomedEarlier(g, seen, failing, x, id);
    }
    DoomedFirst(g, failing', id);
    assert (exists d :: d in g[id] && d in ignored) <==> g[id] * ignored != {} by {
      if d :| d in g[id] * ignored { assert d in g[id] && d in ignored; }
    }
  }

  /** What is reachable from a resource lies in every set that is closed under dependencies and
      holds its direct ones. */
  lemma DependenciesAmong(g: Graph, seen: set<string>, id: string)
    requires id in g && g[id] <= seen && forall x | x in seen :: x in g && g[x] <= seen
    ensures forall x | Reaches(g, id, x) && x != id :: x in seen
  {
    hide Reaches;
    forall x | Reaches(g, id, x) && x != id ensures x in seen {
      ReachesFirst(g, id, x);
      var d :| d in g[id] && Reaches(g, d, x);
      SeenReachSeen(g, seen, d, x);
    }
  }
}
