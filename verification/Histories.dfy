/** Lawful runs that lead to a given set of children. */
module Histories {
  import opened Ordering
  import opened Fieldpath
  import opened Values
  import opened Graphs
  import opened Finalizers
  import opened Protocol
  import opened ExprStates
  import opened Scoping

  /** The cluster with these children and the instance holding the finalizer. */
  function Now(content: Value, fin: string, children: set<string>, deleting: bool): ClusterState {
    ClusterState(map c | c in children :: Child(Null, false),
                 Some(Instance(content, Present([fin]), deleting, if deleting then 1 else 0)))
  }

  lemma Creates(g: Graph, content: Value, fin: string, before: set<string>, id: string)
    requires id in g && id !in before && g[id] <= before
    ensures Protocol.Step(g, fin, Now(content, fin, before, false), Now(content, fin, before + {id}, false))
  {
    var a := CreateChild(id, Null);
    assert [fin][0] == fin;
    assert Legal(g, fin, Now(content, fin, before, false), a);
    assert AfterAction(Now(content, fin, before, false), a, fin) == Now(content, fin, before + {id}, false);
  }

  lemma Deletes(g: Graph, content: Value, fin: string, before: set<string>, id: string)
    requires id in before && forall x | x in before && x in g :: id !in g[x]
    ensures Protocol.Step(g, fin, Now(content, fin, before, true), Now(content, fin, before - {id}, true))
  {
    var a := DeleteChild(id, true);
    assert Legal(g, fin, Now(content, fin, before, true), a);
    assert AfterAction(Now(content, fin, before, true), a, fin) == Now(content, fin, before - {id}, true);
  }

  lemma Marks(g: Graph, content: Value, fin: string, children: set<string>)
    ensures Protocol.Step(g, fin, Now(content, fin, children, false), Now(content, fin, children, true))
  {
    assert AfterMove(Now(content, fin, children, false), UserDeletes, fin) == Now(content, fin, children, true);
  }

  lemma OneMoreStep(g: Graph, fin: string, run: seq<ClusterState>, next: ClusterState)
    requires IsRun(g, fin, run) && Protocol.Step(g, fin, run[|run| - 1], next)
    ensures IsRun(g, fin, run + [next])
  {
    hide Protocol.Step;
  }

  /** The first children of the order that are to exist are created one after the other. */
  lemma {:induction false} Created(resources: map<string, ResourceSpec>, order: seq<string>, content: Value,
                                   fin: string,
                                   existing: set<string>, n: nat)
    returns (run: seq<ClusterState>)
    requires Ordered(resources, order) && ClosedUnder(DependencyRelation(resources), existing) && n <= |order|
    ensures IsRun(DependencyRelation(resources), fin, run)
    ensures run[|run| - 1] == Now(content, fin, existing * Elements(order[..n]), false)
  {
    hide Ordered, IsRun, Protocol.Step;
    var g := DependencyRelation(resources);
    if n == 0 {
      assert existing * Elements(order[..0]) == {};
      run := [Now(content, fin, {}, false)];
      assert IsRun(g, fin, run) by { NothingExists(g, content, fin); }
    } else {
      run := Created(resources, order, content, fin, existing, n - 1);
      InOrder(resources, order, n - 1);
      var before, id := existing * Elements(order[..n - 1]), order[n - 1];
      if id in existing {
        Creates(g, content, fin, before, id);
        OneMoreStep(g, fin, run, Now(content, fin, before + {id}, false));
        run := run + [Now(content, fin, before + {id}, false)];
        assert existing * Elements(order[..n]) == before + {id};
      } else {
        assert existing * Elements(order[..n]) == before;
      }
    }
  }

  lemma NothingExists(g: Graph, content: Value, fin: string)
    ensures IsRun(g, fin, [Now(content, fin, {}, false)])
  {
  }

  /** Whatever is closed under dependencies can be there when the instance is being deleted. */
  lemma Reachable(resources: map<string, ResourceSpec>, order: seq<string>, content: Value, fin: string,
                  existing: set<string>)
    returns (run: seq<ClusterState>)
    requires Ordered(resources, order) && ClosedUnder(DependencyRelation(resources), existing)
    ensures IsRun(DependencyRelation(resources), fin, run)
    ensures run[|run| - 1] == Now(content, fin, existing, true)
  {
    hide IsRun, Protocol.Step;
    run := Created(resources, order, content, fin, existing, |order|);
    assert order[..|order|] == order && existing * Elements(order) == existing;
    Marks(DependencyRelation(resources), content, fin, existing);
    OneMoreStep(DependencyRelation(resources), fin, run, Now(content, fin, existing, true));
    run := run + [Now(content, fin, existing, true)];
  }
}
