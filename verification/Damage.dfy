/** What sharing does wherever it is not scoped: some delete pass breaks the discipline. */
module Damage {
  import opened Ordering
  import opened Fieldpath
  import opened Values
  import opened Graphs
  import opened Finalizers
  import opened Protocol
  import opened ClusterModule
  import opened ExprStates
  import opened Scoping
  import opened Runtime
  import opened Reconciler
  import opened Controller
  import opened Histories

  /** Whatever else a resource depends on has an existing dependent below that resource. */
  lemma HasDependent(g: Graph, id: string, f: string)
    requires Closed(g) && id in g && f in Below(g, id) && f != id
    ensures exists x :: x in Below(g, id) && f in g[x]
  {
    var p :| IsWalk(g, p) && p[0] == id && p[|p| - 1] == f;
    var n := |p| - 1;
    var x := p[n - 1];
    WalkSlice(g, p, 0, n);
    assert p[0..n] == p[..n];
    assert Edge(g, p[n - 1], p[n - 1 + 1]);
    assert Reaches(g, id, x);
    assert x in Below(g, id);
  }

  /** The last delete request was for a child that something existing depends on. */
  ghost predicate DeletedUnder(cluster: Cluster, start: ClusterState)
    reads cluster`deleted
  {
    && cluster.deleted != [] && cluster.deleted[|cluster.deleted| - 1] in start.children
    && !NoDependents(cluster.g, start, cluster.deleted[|cluster.deleted| - 1])
  }

  /** Children are left, and the instance no longer holds its finalizer. */
  predicate LeftBehind(start: ClusterState, now: ClusterState, fin: string) {
    start.children != map[] && now.children == start.children && !Held(now, fin)
  }

  /** With the map ranged over along `walk`, a pass over `id` and all it depends on does not find `id`. */
  ghost predicate Misses(group: Group, walk: seq<string>, existing: set<string>, id: string) {
    && Ranges(group.resources, walk) && id in group.resources
    && existing == Below(DependencyRelation(group.resources), id)
    && (forall i | 0 <= i < |group.order| :: group.order[i] in group.resources)
    && id !in FoundAmong(group.resources, group.order, walk, existing, |group.order|)
  }

  /** Every group that is not scoped misses something that can be there, after some lawful run, when
      the instance is being deleted. */
  lemma UnscopedMisses(group: Group, content: Value, fin: string)
    returns (walk: seq<string>, existing: set<string>, id: string, history: seq<ClusterState>)
    requires Ordered(group.resources, group.order) && !Scoped(group.resources)
    ensures Misses(group, walk, existing, id)
    ensures IsRun(DependencyRelation(group.resources), fin, history)
    ensures history[|history| - 1] == Now(content, fin, existing, true)
  {
    hide FoundAmong, BringsNothing, IsRun, Ranges;
    forall i | 0 <= i < |group.order| ensures group.order[i] in group.resources {
      assert group.order[i] in Elements(group.order);
    }
    var first, e;
    first, id, e :| first in group.resources && id in group.resources && !BringsNothing(group.resources, first, id, e);
    walk, existing := ForeignIsMissed(group.resources, group.order, first, id, e);
    history := Reachable(group.resources, group.order, content, fin, existing);
  }

  /** There, whatever the evaluator and the instance are, the next pass, with nobody else at work and
      every call answered, reports success and leaves children without their instance, or deletes a
      child that an existing one depends on, unless an evaluation fails. */
  method NextPassDoesHarm(group: Group, walk: seq<string>, existing: set<string>, ghost id: string, content: Value,
                          uid: string, ghost refs: string -> set<string>, ghost history: seq<ClusterState>)
    returns (igr: InstanceGraphReconciler, o: Outcome)
    requires Fit(group, refs) && Misses(group, walk, existing, id)
    requires IsRun(DependencyRelation(group.resources), InstanceFinalizerName(uid), history)
    requires history[|history| - 1] == Now(content, InstanceFinalizerName(uid), existing, true)
    ensures Serves(igr.cluster, group, uid) && igr.cluster.Quiet() && history <= igr.cluster.run
    ensures igr.rt.resources == group.resources && igr.rt.eval == group.eval && igr.rt.Structure()
    ensures var start := Now(content, InstanceFinalizerName(uid), existing, true);
      || (o.Done? && LeftBehind(start, igr.cluster.state, igr.cluster.fin))
      || (o.Requeue? && DeletedUnder(igr.cluster, start))
      || (o.Failure? && (igr.SyncHasFailed() || igr.rt.StaticFails() || igr.rt.PropagationFails()))
  {
    hide WellBuilt, Ordered, Scoped, IsRun, FoundAmong, ResourceGroupRuntime.Valid, ResourceGroupRuntime.Synced,
      ResourceGroupRuntime.Structure, ResourceGroupRuntime.StaticFails, ResourceGroupRuntime.PropagationFails,
      Cluster.Valid, Cluster.Lawful, InstanceGraphReconciler.Linked, InstanceGraphReconciler.SyncHasFailed,
      BringsNothing, Ranges;
    var fin := InstanceFinalizerName(uid);
    var start := Now(content, fin, existing, true);
    var cluster := new Cluster(DependencyRelation(group.resources), fin, (k: nat) => [], (k: nat) => Works,
                               (k: nat) => true,
                               start, history);
    var rt, ok := NewResourceGroupRuntime(group.instance, content, group.resources, group.order, walk, group.eval,
                                          group.format, refs);
    RuntimeStands(rt);
    igr := new InstanceGraphReconciler(cluster, rt, uid, start.instance.value);
    if !ok {
      return igr, Failure;
    }
    LinksUp(igr);
    assert [fin][0] == fin;
    o := PassDoesHarm(igr, existing, id, start);
  }

  method PassDoesHarm(igr: InstanceGraphReconciler, ghost existing: set<string>, ghost id: string,
                      ghost start: ClusterState)
    returns (o: Outcome)
    requires igr.Starting() && igr.cluster.Lawful() && igr.cluster.Quiet() && igr.cluster.state == start
    requires start.instance == Some(igr.instance) && igr.instance.deleting
    requires Holds(igr.instance.finalizers, igr.cluster.fin)
    requires id in igr.rt.resources && existing == Below(igr.cluster.g, id) == start.children.Keys
    requires forall i | 0 <= i < |igr.rt.topologicalOrder| :: igr.rt.topologicalOrder[i] in igr.rt.resources
    requires id !in FoundAmong(igr.rt.resources, igr.rt.topologicalOrder, igr.rt.walk, existing,
                               |igr.rt.topologicalOrder|)
    modifies igr, igr.cluster, igr.rt, igr.rt.states
    ensures old(igr.cluster.run) <= igr.cluster.run
    ensures
      || (o.Done? && LeftBehind(start, igr.cluster.state, igr.cluster.fin))
      || (o.Requeue? && DeletedUnder(igr.cluster, start))
      || (o.Failure? && igr.SyncHasFailed())
  {
    hide Ordered, Scoped, IsRun, FoundAmong, ResourceGroupRuntime.Valid, ResourceGroupRuntime.Synced, Cluster.Valid,
      Cluster.Lawful, InstanceGraphReconciler.Linked, InstanceGraphReconciler.SyncHasFailed, Below, DeletedUnder;
    SomethingExists(igr, id);
    assert igr.Blind(start, igr.instance) || igr.Sees(existing);
    o := igr.Reconcile();
    if o.Requeue? {
      SeenIsDependedOn(igr, existing, id, start);
    }
  }

  lemma RuntimeStands(rt: ResourceGroupRuntime)
    requires rt.Valid()
    ensures rt.Structure()
  {
    hide ResourceGroupRuntime.Structure, ResourceGroupRuntime.StagesOk, ResourceGroupRuntime.ResolvedRightly;
  }

  lemma LinksUp(igr: InstanceGraphReconciler)
    requires igr.cluster.g == DependencyRelation(igr.rt.resources) && igr.cluster.fin == InstanceFinalizerName(igr.uid)
    requires Ordered(igr.rt.resources, igr.rt.topologicalOrder)
    ensures igr.Linked()
  {
  }

  lemma SomethingExists(igr: InstanceGraphReconciler, id: string)
    requires igr.Linked() && id in igr.rt.resources
    ensures id in Below(igr.cluster.g, id)
  {
    hide Ordered, Reaches;
    OrderedIsClosed(igr.rt.resources, igr.rt.topologicalOrder);
    BelowIsClosed(igr.cluster.g, id);
  }

  /** What the pass found and deleted has a dependent. */
  lemma SeenIsDependedOn(igr: InstanceGraphReconciler, existing: set<string>, id: string, start: ClusterState)
    requires igr.Linked() && id in igr.rt.resources && igr.HitSeen(existing)
    requires existing == Below(igr.cluster.g, id) && start.children.Keys == existing
    requires id !in FoundAmong(igr.rt.resources, igr.rt.topologicalOrder, igr.rt.walk, existing,
                               |igr.rt.topologicalOrder|)
    ensures DeletedUnder(igr.cluster, start)
  {
    hide Ordered, FoundAmong, Reaches;
    igr.SeenExists(existing);
    OrderedIsClosed(igr.rt.resources, igr.rt.topologicalOrder);
    HasDependent(igr.cluster.g, id, igr.cluster.deleted[|igr.cluster.deleted| - 1]);
  }
}
