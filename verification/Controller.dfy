/** The controller: every reconciliation reads the instance anew and builds a fresh runtime. */
module Controller {
  import opened Ordering
  import opened Fieldpath
  import opened Values
  import opened Graphs
  import opened Finalizers
  import opened Protocol
  import opened ClusterModule
  import opened ExprStates
  import opened Scoping
  import Dag
  import opened Runtime
  import opened Reconciler
  import opened Statuses

  /** What the graph of a resource group gives the controller. */
  datatype Group = Group(
    instance: ResourceSpec, resources: map<string, ResourceSpec>, order: seq<string>,
    eval: Oracle, format: Value -> string)

  /** The graph builder's guarantees. */
  ghost predicate Fit(group: Group, refs: string -> set<string>) {
    && WellBuilt(group.resources, group.instance, refs, group.eval)
    && Ordered(group.resources, group.order)
  }

  /** The cluster of this group's instance. */
  predicate Serves(cluster: Cluster, group: Group, uid: string) {
    cluster.g == DependencyRelation(group.resources) && cluster.fin == InstanceFinalizerName(uid)
  }

  // ------------------------------------------------------------- what is left to do

  /** A bound on the passes that are still needed: the children to be created, while the instance is
      not being deleted, and those to be deleted. */
  ghost function Left(g: Graph, c: ClusterState): int {
    if c.instance.Some? && !c.instance.value.deleting then 2 * |g.Keys| - |c.children.Keys| else |c.children.Keys|
  }

  lemma FewerElements<T>(a: set<T>, b: set<T>)
    requires a <= b
    ensures |a| <= |b| && (a != b ==> |a| < |b|)
  {
    assert b == a + (b - a);
  }

  lemma LeftIsBounded(g: Graph, fin: string, c: ClusterState)
    requires Inv(g, fin, c)
    ensures 0 <= Left(g, c) <= 2 * |g.Keys|
  {
    FewerElements(c.children.Keys, g.Keys);
  }

  /** The environment alone leaves no more to do. */
  lemma DriftLeavesNoMore(g: Graph, fin: string, c: ClusterState, c': ClusterState)
    requires Inv(g, fin, c) && Drift(fin, c, c')
    ensures Left(g, c') <= Left(g, c)
  {
    FewerElements(c'.children.Keys, c.children.Keys);
    FewerElements(c.children.Keys, g.Keys);
    if c.instance.Some? && !c.instance.value.deleting {
      assert c'.children.Keys == c.children.Keys;
    }
  }

  /** A create pass leaves no more to do, and less if it created a child. */
  lemma CreatingLeavesLess(g: Graph, c: ClusterState, c': ClusterState)
    requires c.instance.Some? && !c.instance.value.deleting
    requires c.children.Keys <= c'.children.Keys <= g.Keys
    ensures Left(g, c') <= Left(g, c) && (c'.children.Keys != c.children.Keys ==> Left(g, c') < Left(g, c))
  {
    FewerElements(c.children.Keys, c'.children.Keys);
    FewerElements(c'.children.Keys, g.Keys);
  }

  /** A delete pass leaves no more to do, and less if a child is gone. */
  lemma DeletingLeavesLess(g: Graph, c: ClusterState, c': ClusterState)
    requires c.instance.Some? && c.instance.value.deleting
    requires c'.instance.Some? ==> c'.instance.value.deleting
    requires c'.children.Keys <= c.children.Keys
    ensures Left(g, c') <= Left(g, c) && (c'.children.Keys != c.children.Keys ==> Left(g, c') < Left(g, c))
  {
    FewerElements(c'.children.Keys, c.children.Keys);
  }

  ghost predicate Ending(c: ClusterState) { c.instance.Some? ==> c.instance.value.deleting }

  /** An instance marked for deletion stays so until it is gone, and then stays gone. */
  lemma {:induction false} EndingStays(g: Graph, fin: string, run: seq<ClusterState>, i: nat, j: nat)
    requires IsRun(g, fin, run) && i <= j < |run| && Ending(run[i])
    ensures Ending(run[j])
    decreases j - i
  {
    if i < j {
      assert Protocol.Step(g, fin, run[j - 1], run[j - 1 + 1]);
      EndingStays(g, fin, run, i, j - 1);
    }
  }

  lemma EndingNow(cluster: Cluster, before: seq<ClusterState>)
    requires cluster.Lawful() && before != [] && before <= cluster.run && Ending(before[|before| - 1])
    ensures Ending(cluster.state)
  {
    hide IsRun, Ending;
    assert before[|before| - 1] == cluster.run[|before| - 1];
    EndingStays(cluster.g, cluster.fin, cluster.run, |before| - 1, |cluster.run| - 1);
  }

  /** Between the two moments a child was shown whose readiness conditions do not hold, or at the
      later one a child is on its way out. */
  ghost predicate AwaitsChild(group: Group, shown: seq<Observation>, run: seq<ClusterState>, from: nat, to: Moment) {
    || (exists k :: from <= k < to.shown && k < |shown| && Unready(group, shown[k]))
    || (0 < to.run <= |run| && !NoneTerminating(run[to.run - 1]))
  }

  /** How much the cluster has shown and how long its run is. */
  datatype Moment = Moment(shown: nat, run: nat)

  ghost function Present(cluster: Cluster): Moment
    reads cluster`shown, cluster`run
  {
    Moment(|cluster.shown|, |cluster.run|)
  }

  lemma AwaitsLater(group: Group, shown: seq<Observation>, run: seq<ClusterState>, shown': seq<Observation>,
                    run': seq<ClusterState>, from: nat, to: Moment)
    requires AwaitsChild(group, shown, run, from, to) && shown <= shown' && run <= run'
    ensures AwaitsChild(group, shown', run', from, to)
  {
    hide Unready;
    if k :| from <= k < to.shown && k < |shown| && Unready(group, shown[k]) {
      assert shown'[k] == shown[k];
    }
  }

  predicate Unready(group: Group, seen: Observation) {
    seen.id in group.resources &&
    exists e ::
      && e in group.resources[seen.id].readyWhen
      && group.eval(e, {seen.id}, map[seen.id := seen.content]) != Some(Bool(true))
  }

  // --------------------------------------------------------- what is written to the instance

  /** The copy is the instance but for kro's own finalizer and the status fields. */
  ghost predicate UpdateOf(fin: string, base: Instance, copy: Instance) {
    && copy.version == base.version && copy.deleting == base.deleting && SameButStatus(base.content, copy.content)
    && !copy.finalizers.Malformed? && Others(copy.finalizers, fin) == Others(base.finalizers, fin)
  }

  /** Every update request from the given one on was for the instance as it was at some moment of the
      run, with no spec, no metadata and nobody else's finalizer changed. */
  ghost predicate UpdatesFrom(fin: string, updates: seq<Instance>, run: seq<ClusterState>, from: nat) {
    forall k | from <= k < |updates| :: UpdatesSome(fin, run, updates[k])
  }

  ghost predicate UpdatesSome(fin: string, run: seq<ClusterState>, copy: Instance) {
    exists j :: 0 <= j < |run| && run[j].instance.Some? && UpdateOf(fin, run[j].instance.value, copy)
  }

  lemma UpdatesLater(fin: string, updates: seq<Instance>, run: seq<ClusterState>, run': seq<ClusterState>, from: nat)
    requires UpdatesFrom(fin, updates, run, from) && run <= run'
    ensures UpdatesFrom(fin, updates, run', from)
  {
    hide UpdateOf;
    forall k | from <= k < |updates| ensures UpdatesSome(fin, run', updates[k]) {
      assert UpdatesSome(fin, run, updates[k]);
      var j :| 0 <= j < |run| && run[j].instance.Some? && UpdateOf(fin, run[j].instance.value, updates[k]);
      assert run'[j] == run[j];
    }
  }

  lemma UpdatesSoFar(cluster: Cluster, from: nat)
    requires |cluster.updates| <= from
    ensures UpdatesFrom(cluster.fin, cluster.updates, cluster.run, from)
  {
  }

  lemma MoreUpdates(cluster: Cluster, before: seq<Instance>, run: seq<ClusterState>, from: nat)
    requires UpdatesFrom(cluster.fin, before, run, from) && run <= cluster.run && from <= |before|
    requires before <= cluster.updates && UpdatesFrom(cluster.fin, cluster.updates, cluster.run, |before|)
    ensures UpdatesFrom(cluster.fin, cluster.updates, cluster.run, from)
  {
    hide UpdatesSome;
    UpdatesLater(cluster.fin, before, run, cluster.run, from);
    forall k | from <= k < |cluster.updates| ensures UpdatesSome(cluster.fin, cluster.run, cluster.updates[k]) {
      assert k < |before| ==> cluster.updates[k] == before[k];
    }
  }

  lemma UpdatesAreOfRead(igr: InstanceGraphReconciler, before: seq<Instance>, read: Instance, run: seq<ClusterState>)
    requires igr.UpdatesOk(before, read) && run != [] && run[|run| - 1].instance == Some(read)
    ensures UpdatesFrom(igr.cluster.fin, igr.cluster.updates, run, |before|)
  {
    hide SameButStatus;
    forall k | |before| <= k < |igr.cluster.updates|
      ensures UpdatesSome(igr.cluster.fin, run, igr.cluster.updates[k])
    {
      assert UpdateOf(igr.cluster.fin, run[|run| - 1].instance.value, igr.cluster.updates[k]);
    }
  }

  // ------------------------------------------------------------------ the controller

  /** `Reconcile`: the instance is read, a fresh runtime is built, ranging over the resources in any
      order, and one pass is made. Where sharing through the cache does no harm it keeps to the
      discipline and leaves no more to do; if it asks to be called again without waiting for a child,
      it leaves less. */
  method ReconcileOnce(cluster: Cluster, group: Group, uid: string, ghost refs: string -> set<string>)
    returns (o: Outcome, status: Option<InstanceStatus>, ghost waited: bool)
    requires cluster.Lawful() && Fit(group, refs) && Serves(cluster, group, uid)
    modifies cluster
    ensures cluster.Valid() && old(cluster.run) <= cluster.run
    ensures Scoped(group.resources) ==> cluster.Lawful()
    ensures |cluster.created| <= |old(cluster.created)| + 1 && cluster.hits <= old(cluster.hits) + 1
    ensures Scoped(group.resources) ==> Left(cluster.g, cluster.state) <= Left(cluster.g, old(cluster.state))
    ensures Scoped(group.resources) && o.Requeue? && !waited ==>
      Left(cluster.g, cluster.state) < Left(cluster.g, old(cluster.state))
    ensures waited ==> AwaitsChild(group, cluster.shown, cluster.run, |old(cluster.shown)|, Present(cluster))
    ensures old(cluster.shown) <= cluster.shown
    ensures old(cluster.updates) <= cluster.updates && |cluster.updates| <= |old(cluster.updates)| + 1
    ensures UpdatesFrom(cluster.fin, cluster.updates, cluster.run, |old(cluster.updates)|)
    ensures o.Done? && status.Some? ==> status.value == InstanceActive || status.value == InstanceDeleting
    ensures o.Done? && status == Some(InstanceDeleting) && Scoped(group.resources) ==> cluster.state.children == map[]
    ensures o.Done? && status.None? ==> cluster.state.instance.None? || cluster.failures > old(cluster.failures)
  {
    hide WellBuilt, Scoped, Ordered, Cluster.Valid, Cluster.Lawful, ResourceGroupRuntime.Valid,
      ResourceGroupRuntime.Synced, ResourceGroupRuntime.Structure, Left, AwaitsChild, Drift, Inv;
    status, waited := None, false;
    LawfulIsValid(cluster);
    cluster.Kept();
    var read, failed := cluster.GetInstance();
    DriftLeavesNoMore(cluster.g, cluster.fin, old(cluster.state), cluster.state);
    if failed || read.None? {
      return Done, status, waited;
    }
    DeletionShows(cluster);
    var walk := Dag.ListInSomeOrder(group.resources.Keys);
    var rt, ok := NewResourceGroupRuntime(group.instance, read.value.content, group.resources, group.order, walk,
                                          group.eval, group.format, refs);
    if !ok {
      return Failure, status, waited;
    }
    var igr := new InstanceGraphReconciler(cluster, rt, uid, read.value);
    o, waited := OnePass(igr, group);
    status := Some(igr.state);
  }

  /** The pass itself. */
  method OnePass(igr: InstanceGraphReconciler, ghost group: Group) returns (o: Outcome, ghost waited: bool)
    requires igr.Starting() && igr.cluster.Lawful() && igr.cluster.state.instance == Some(igr.instance)
    requires igr.instance.deleting || NoneTerminating(igr.cluster.state)
    requires igr.instance.content == igr.rt.instanceObject
    requires igr.rt.resources == group.resources && igr.rt.eval == group.eval
    modifies igr, igr.cluster, igr.rt, igr.rt.states
    ensures igr.cluster.Valid() && old(igr.cluster.run) <= igr.cluster.run
    ensures Scoped(group.resources) ==> igr.cluster.Lawful()
    ensures |igr.cluster.created| <= |old(igr.cluster.created)| + 1 && igr.cluster.hits <= old(igr.cluster.hits) + 1
    ensures Scoped(group.resources) ==>
      Left(igr.cluster.g, igr.cluster.state) <= Left(igr.cluster.g, old(igr.cluster.state))
    ensures Scoped(group.resources) && o.Requeue? && !waited ==>
      Left(igr.cluster.g, igr.cluster.state) < Left(igr.cluster.g, old(igr.cluster.state))
    ensures waited ==>
      AwaitsChild(group, igr.cluster.shown, igr.cluster.run, |old(igr.cluster.shown)|, Present(igr.cluster))
    ensures old(igr.cluster.shown) <= igr.cluster.shown
    ensures old(igr.cluster.updates) <= igr.cluster.updates && |igr.cluster.updates| <= |old(igr.cluster.updates)| + 1
    ensures UpdatesFrom(igr.cluster.fin, igr.cluster.updates, igr.cluster.run, |old(igr.cluster.updates)|)
    ensures o.Done? ==> igr.state == InstanceActive || igr.state == InstanceDeleting
    ensures o.Done? && igr.state == InstanceDeleting && Scoped(group.resources) ==> igr.cluster.state.children == map[]
  {
    hide Scoped, Cluster.Valid, Cluster.Lawful, ResourceGroupRuntime.Valid, ResourceGroupRuntime.Synced,
      ResourceGroupRuntime.Structure, Left, AwaitsChild, Inv, InstanceGraphReconciler.Linked,
      InstanceGraphReconciler.CreatedOne, InstanceGraphReconciler.IgnoredNow, InstanceGraphReconciler.AllSettled,
      InstanceGraphReconciler.SyncHasFailed, InstanceGraphReconciler.Blind, InstanceGraphReconciler.Sees,
      InstanceGraphReconciler.HitSeen;
    waited := false;
    var deleting, cluster := igr.instance.deleting, igr.cluster;
    LastOfRun(cluster);
    o := igr.Reconcile();
    UpdatesAreOfRead(igr, old(cluster.updates), old(igr.instance), old(cluster.run));
    UpdatesLater(cluster.fin, cluster.updates, old(cluster.run), cluster.run, |old(cluster.updates)|);
    if Scoped(group.resources) {
      cluster.Kept();
      if deleting {
        EndingNow(cluster, old(cluster.run));
        LastOfRun(cluster);
        waited := DeletePassLeaves(igr, group, old(cluster.state), o);
      } else {
        waited := CreatePassLeaves(igr, group, old(cluster.state), old(cluster.created), o);
      }
    }
  }

  /** A create pass that asks to be called again has created a child or waits for one to be ready. */
  lemma CreatePassLeaves(igr: InstanceGraphReconciler, group: Group, before: ClusterState, created: seq<string>,
                         o: Outcome)
    returns (waited: bool)
    requires igr.rt.resources == group.resources && igr.rt.eval == group.eval
    requires before.instance.Some? && !before.instance.value.deleting
    requires before.children.Keys <= igr.cluster.state.children.Keys
    requires Inv(igr.cluster.g, igr.cluster.fin, igr.cluster.state)
    requires o.Requeue? ==> igr.Asks(created) && Scoped(group.resources)
    requires o.Requeue? && igr.cluster.created != created ==> before.children.Keys != igr.cluster.state.children.Keys
    ensures Left(igr.cluster.g, igr.cluster.state) <= Left(igr.cluster.g, before)
    ensures o.Requeue? && !waited ==> Left(igr.cluster.g, igr.cluster.state) < Left(igr.cluster.g, before)
    ensures waited ==> AwaitsChild(group, igr.cluster.shown, igr.cluster.run, igr.passStart, Present(igr.cluster))
  {
    hide Left, Scoped, ResourceGroupRuntime.Structure, ResourceGroupRuntime.CanProcess;
    CreatingLeavesLess(igr.cluster.g, before, igr.cluster.state);
    waited := false;
    if o.Requeue? && igr.cluster.created == created {
      waited := true;
      var id := igr.rt.topologicalOrder[|igr.turns| - 1];
      assert igr.resourceStates[id] == WaitingForReadiness;
      var content := igr.rt.resolvedResources[id];
      var k :| igr.passStart <= k < |igr.cluster.shown| && igr.cluster.shown[k] == Observation(id, content);
      assert !igr.rt.ReadyFor(id, content);
      assert Unready(group, igr.cluster.shown[k]);
    }
  }

  /** A delete pass that asks to be called again has deleted a child, or started to. */
  lemma DeletePassLeaves(igr: InstanceGraphReconciler, group: Group, before: ClusterState, o: Outcome)
    returns (waited: bool)
    requires igr.cluster.run != [] && igr.cluster.run[|igr.cluster.run| - 1] == igr.cluster.state
    requires before.instance.Some? && before.instance.value.deleting && Ending(igr.cluster.state)
    requires igr.cluster.state.children.Keys <= before.children.Keys
    requires o.Requeue? ==> igr.HitFound(before.children.Keys)
    ensures Left(igr.cluster.g, igr.cluster.state) <= Left(igr.cluster.g, before)
    ensures o.Requeue? && !waited ==> Left(igr.cluster.g, igr.cluster.state) < Left(igr.cluster.g, before)
    ensures waited ==> AwaitsChild(group, igr.cluster.shown, igr.cluster.run, igr.passStart, Present(igr.cluster))
  {
    hide Left;
    DeletingLeavesLess(igr.cluster.g, before, igr.cluster.state);
    waited := false;
    if o.Requeue? {
      var last := igr.cluster.deleted[|igr.cluster.deleted| - 1];
      waited := last in igr.cluster.state.children;
    }
  }

  lemma LawfulIsValid(cluster: Cluster)
    ensures cluster.Lawful() ==> cluster.Valid()
  {
  }

  lemma LastOfRun(cluster: Cluster)
    requires cluster.Lawful()
    ensures cluster.run != [] && cluster.run[|cluster.run| - 1] == cluster.state
  {
  }

  /** Nothing terminates before the instance is marked for deletion. */
  lemma DeletionShows(cluster: Cluster)
    requires cluster.Lawful()
    ensures cluster.state.instance.Some? && !cluster.state.instance.value.deleting ==> NoneTerminating(cluster.state)
  {
    cluster.Kept();
  }

  /** How many of the passes ask to be called again without waiting for a child. */
  ghost function Demands(outcomes: seq<Outcome>, waits: seq<bool>): nat
    requires |outcomes| == |waits|
  {
    if outcomes == [] then 0
    else
      var n := |outcomes| - 1;
      Demands(outcomes[..n], waits[..n]) + if outcomes[n].Requeue? && !waits[n] then 1 else 0
  }

  /** Whatever the environment does and whichever calls fail, over any number of reconciliations
      and at every moment of them: all that an existing child depends on, directly or not,
      exists, and the instance is there and holds its finalizer while any child exists. And all but
      twice as many passes as there are resources are done, fail, or wait for a child. */
  method ReconcileRepeatedly(cluster: Cluster, group: Group, uid: string, times: nat, ghost refs: string -> set<string>)
    returns (outcomes: seq<Outcome>, ghost waits: seq<bool>, ghost moments: seq<Moment>)
    requires cluster.Lawful() && Fit(group, refs) && Scoped(group.resources) && Serves(cluster, group, uid)
    modifies cluster
    ensures cluster.Lawful() && old(cluster.run) <= cluster.run && |outcomes| == |waits| == times
    ensures |cluster.created| <= |old(cluster.created)| + times && cluster.hits <= old(cluster.hits) + times
    ensures forall k, a, b | 0 <= k < |cluster.run| && a in cluster.run[k].children && Reaches(cluster.g, a, b) ::
      b in cluster.run[k].children
    ensures forall k | 0 <= k < |cluster.run| && cluster.run[k].children != map[] :: Held(cluster.run[k], cluster.fin)
    ensures Demands(outcomes, waits) <= 2 * |group.resources|
    ensures UpdatesFrom(cluster.fin, cluster.updates, cluster.run, |old(cluster.updates)|)
    ensures |moments| == times + 1 && moments[0] == old(Present(cluster))
    ensures forall i | 0 <= i < times && waits[i] ::
      AwaitsChild(group, cluster.shown, cluster.run, moments[i].shown, moments[i + 1])
    ensures forall i | 0 <= i < times ::
      moments[i].shown <= moments[i + 1].shown && moments[i].run <= moments[i + 1].run
  {
    hide Fit, Scoped, Reaches, Held, Left, Inv, AwaitsChild, IsRun, UpdatesFrom;
    outcomes, waits, moments := [], [], [Present(cluster)];
    cluster.Kept();
    LeftIsBounded(cluster.g, cluster.fin, cluster.state);
    UpdatesSoFar(cluster, |old(cluster.updates)|);
    for i := 0 to times
      invariant cluster.Lawful() && old(cluster.run) <= cluster.run && |outcomes| == |waits| == i
      invariant |cluster.created| <= |old(cluster.created)| + i && cluster.hits <= old(cluster.hits) + i
      invariant |moments| == i + 1 && moments[i] == Present(cluster) && moments[0] == old(Present(cluster))
      invariant forall j | 0 <= j < i && waits[j] ::
        AwaitsChild(group, cluster.shown, cluster.run, moments[j].shown, moments[j + 1])
      invariant forall j | 0 <= j < i ::
        moments[j].shown <= moments[j + 1].shown && moments[j].run <= moments[j + 1].run
      invariant old(cluster.updates) <= cluster.updates
      invariant UpdatesFrom(cluster.fin, cluster.updates, cluster.run, |old(cluster.updates)|)
      invariant Demands(outcomes, waits) + Left(cluster.g, cluster.state) <= 2 * |cluster.g.Keys|
    {
      var o, status;
      ghost var waited;
      ghost var shown, run, updates := cluster.shown, cluster.run, cluster.updates;
      o, status, waited := ReconcileOnce(cluster, group, uid, refs);
      forall j | 0 <= j < i && waits[j]
        ensures AwaitsChild(group, cluster.shown, cluster.run, moments[j].shown, moments[j + 1])
      {
        AwaitsLater(group, shown, run, cluster.shown, cluster.run, moments[j].shown, moments[j + 1]);
      }
      MoreUpdates(cluster, updates, run, |old(cluster.updates)|);
      moments := moments + [Present(cluster)];
      assert (outcomes + [o])[..i] == outcomes && (waits + [waited])[..i] == waits;
      outcomes, waits := outcomes + [o], waits + [waited];
    }
    cluster.Kept();
    LeftIsBounded(cluster.g, cluster.fin, cluster.state);
    assert cluster.g.Keys == group.resources.Keys;
    SameSize(cluster.g, group.resources);
    forall k | 0 <= k < |cluster.run|
      ensures forall a, b | a in cluster.run[k].children && Reaches(cluster.g, a, b) :: b in cluster.run[k].children
      ensures cluster.run[k].children != map[] ==> Held(cluster.run[k], cluster.fin)
    {
      RunsAreOrdered(cluster.g, cluster.fin, cluster.run, k);
    }
  }

  lemma {:induction false} SameSize<A, B>(a: map<string, A>, b: map<string, B>)
    requires a.Keys == b.Keys
    ensures |a.Keys| == |b|
    decreases |b|
  {
    if k :| k in b {
      var a', b' := a - {k}, b - {k};
      assert b'.Keys == b.Keys - {k} && a'.Keys == a.Keys - {k};
      SameSize(a', b');
      assert b == b'[k := b[k]];
    }
  }
}
