/** One reconciliation of an instance: the create pass, the delete pass, and what they send
    to the cluster. */
module Reconciler {
  import opened Ordering
  import opened Fieldpath
  import opened Values
  import opened Graphs
  import opened Finalizers
  import opened Protocol
  import opened ClusterModule
  import opened ExprStates
  import opened Scoping
  import opened Runtime
  import opened Inclusion
  import opened Resolution
  import opened Refilling
  import opened Statuses

  datatype ResourceStatus =
    | Pending | InProgress | Skipped | Errored | Created | WaitingForReadiness | Synced
    | PendingDeletion | Deleted | DeletionStarted

  datatype InstanceStatus = InstanceInProgress | InstanceActive | InstanceDeleting | InstanceError

  /** No error, an error that asks to be called again, any other error. */
  datatype Outcome = Done | Requeue | Failure

  predicate Finished(s: ResourceStatus) { s == Synced || s == Skipped }

  class InstanceGraphReconciler {
    const cluster: Cluster
    const rt: ResourceGroupRuntime
    const uid: string
    /** The metadata of the instance as last read; its content is the runtime's. */
    var instance: Instance
    var state: InstanceStatus
    var resourceStates: map<string, ResourceStatus>
    var reconcileErr: Outcome
    /** How much the cluster had shown before this pass. */
    ghost const passStart: nat
    /** The instance as it was at each resource's turn in a create pass. */
    ghost var turns: seq<Value>

    constructor (cluster: Cluster, rt: ResourceGroupRuntime, uid: string, instance: Instance)
      ensures this.cluster == cluster && this.rt == rt && this.uid == uid && this.instance == instance
      ensures state == InstanceInProgress && resourceStates == map[] && turns == [] && passStart == |cluster.shown|
    {
      this.cluster, this.rt, this.uid, this.instance := cluster, rt, uid, instance;
      state, resourceStates, reconcileErr := InstanceInProgress, map[], Done;
      turns, passStart := [], |cluster.shown|;
    }

    ghost predicate Linked() {
      && cluster.g == DependencyRelation(rt.resources)
      && cluster.fin == InstanceFinalizerName(uid)
      && Ordered(rt.resources, rt.topologicalOrder)
    }

    ghost predicate Valid()
      reads this, cluster, rt, rt.states
    {
      && Linked() && rt.Valid() && cluster.Valid()
      && (Holds(instance.finalizers, cluster.fin) ==> Held(cluster.state, cluster.fin))
    }

    /** What the order says about one position. */
    lemma NextInOrder(i: nat)
      requires Linked() && i < |rt.topologicalOrder|
      ensures var id := rt.topologicalOrder[i];
        id in cluster.g && id in rt.resources && cluster.g[id] == Elements(rt.resources[id].dependencies)
      ensures NextAt(cluster.g, rt.topologicalOrder, i)
    {
      InOrder(rt.resources, rt.topologicalOrder, i);
      assert rt.topologicalOrder[i] in Elements(rt.topologicalOrder);
    }

    // ------------------------------------------------------------ the create pass

    /** The resource was looked up in this pass, the runtime has what was shown, and its readiness
        conditions hold of it. */
    ghost predicate ObservedReady(x: string)
      reads cluster`shown, rt`resolvedResources
    {
      ObservedIn(x, cluster.shown, rt.resolvedResources)
    }

    ghost predicate ObservedIn(x: string, shown: seq<Observation>, resolved: map<string, Value>) {
      x in rt.resources && x in resolved && rt.ReadyFor(x, resolved[x]) && ShownIn(x, resolved[x], shown)
    }

    /** The child was shown in this pass with that content. */
    ghost predicate ShownIn(x: string, content: Value, shown: seq<Observation>) {
      exists k :: passStart <= k < |shown| && shown[k] == Observation(x, content)
    }

    /** What was observed ready stays so when more is shown and one more resource is set. */
    lemma StillObserved(shown: seq<Observation>, shown': seq<Observation>, resolved: map<string, Value>,
                        resolved': map<string, Value>, id: string)
      requires forall x | x in resolved :: ObservedIn(x, shown, resolved)
      requires shown <= shown' && forall x | x in resolved && x != id :: x in resolved' && resolved'[x] == resolved[x]
      ensures forall x | x in resolved && x != id :: ObservedIn(x, shown', resolved')
    {
      forall x | x in resolved && x != id ensures ObservedIn(x, shown', resolved') {
        var k :| passStart <= k < |shown| && shown[k] == Observation(x, resolved[x]);
        assert shown'[k] == shown[k];
      }
    }

    /** The resources one of whose conditions fails of the instance at their turn. */
    ghost function FailingOf(ts: seq<Value>): set<string> {
      set j | 0 <= j < |ts| && j < |rt.topologicalOrder| && rt.topologicalOrder[j] in rt.resources
        && !rt.IncludedFor(rt.topologicalOrder[j], ts[j]) :: rt.topologicalOrder[j]
    }

    lemma FailingOneMore(ts: seq<Value>, obj: Value)
      requires |ts| < |rt.topologicalOrder| && rt.topologicalOrder[|ts|] in rt.resources
      ensures var id := rt.topologicalOrder[|ts|];
        FailingOf(ts + [obj]) == if rt.IncludedFor(id, obj) then FailingOf(ts) else FailingOf(ts) + {id}
    {
      var id, all := rt.topologicalOrder[|ts|], ts + [obj];
      forall x | x in FailingOf(ts) ensures x in FailingOf(all) {
        var j :| 0 <= j < |ts| && j < |rt.topologicalOrder| && rt.topologicalOrder[j] in rt.resources
          && !rt.IncludedFor(rt.topologicalOrder[j], ts[j]) && rt.topologicalOrder[j] == x;
        assert all[j] == ts[j];
      }
      forall x | x in FailingOf(all) ensures x in FailingOf(ts) || (x == id && !rt.IncludedFor(id, obj)) {
        var j :| 0 <= j < |all| && j < |rt.topologicalOrder| && rt.topologicalOrder[j] in rt.resources
          && !rt.IncludedFor(rt.topologicalOrder[j], all[j]) && rt.topologicalOrder[j] == x;
        assert j < |ts| ==> all[j] == ts[j];
      }
      assert all[|ts|] == obj;
    }

    /** Among the resources whose turn has come, exactly those are ignored from which one with a
        failing condition is reachable. */
    ghost predicate IgnoredNow()
      reads this`turns, rt`ignored
    {
      |turns| <= |rt.topologicalOrder| &&
      IgnoredRightly(cluster.g, Elements(rt.topologicalOrder[..|turns|]), FailingOf(turns), rt.ignored)
    }

    /** From one turn to the next, at most the status fields of the instance are written. */
    ghost predicate StatusOnly(before: Value, after: Value) {
      && SameButStatus(before, after)
      && (before == after || exists values :: WriteStatuses(before, rt.instance.variables, values) == Some(after))
    }

    /** The turns' instances start from `obj`. */
    ghost predicate TurnsOk(obj: Value, ts: seq<Value>) {
      && (ts != [] ==> ts[0] == obj)
      && forall j | 0 <= j < |ts| - 1 :: StatusOnly(ts[j], ts[j + 1])
    }

    /** The turns' instances start from `obj` and lead to `now`. */
    ghost predicate TurnsFrom(obj: Value, ts: seq<Value>, now: Value) {
      TurnsOk(obj, ts) && if ts == [] then now == obj else StatusOnly(ts[|ts| - 1], now)
    }

    ghost predicate CreatePass(i: nat)
      reads this, cluster, rt
    {
      && rt.resolvedResources.Keys <= cluster.state.children.Keys
      && (forall x | x in rt.resolvedResources :: ObservedReady(x))
      && |turns| == i
      && CreateAt(cluster.g, rt.topologicalOrder, i, resourceStates, rt.resolvedResources.Keys, rt.ignored,
                  FailingOf(turns))
    }

    /** In a create pass: the instance is held and no child is on its way out. */
    ghost predicate InPass()
      reads this, cluster, rt, rt.states
    {
      Valid() && Held(cluster.state, cluster.fin) && NoneTerminating(cluster.state) && passStart <= |cluster.shown|
    }

    /** The create request for `id` was sent after everything it depends on, directly or not,
        had been observed and found ready in this very pass. */
    ghost predicate DependenciesSynced(id: string)
      reads this`resourceStates, cluster`shown, rt`resolvedResources
    {
      forall x | Reaches(cluster.g, id, x) && x != id ::
        x in resourceStates && resourceStates[x] == Synced && ObservedReady(x)
    }

    /** `handleResourceCreation`. */
    method HandleResourceCreation(id: string, resource: Value) returns (o: Outcome)
      requires InPass() && id in cluster.g
      requires cluster.g[id] <= cluster.state.children.Keys && id in rt.resources && DependenciesSynced(id)
      requires Intended(id, resource)
      modifies this`resourceStates, cluster
      ensures cluster.updates == old(cluster.updates)
      ensures CreatedOne(old(cluster.created), o) && (o.Requeue? ==> Waits(id, old(cluster.created)))
      ensures InPass() && !o.Done?
      ensures old(cluster.Lawful()) ==> cluster.Lawful()
      ensures resourceStates == old(resourceStates)[id := if o.Requeue? then Created else Errored]
      ensures cluster.created == old(cluster.created) + [id] && cluster.sent == resource
      ensures cluster.deleted == old(cluster.deleted)
      ensures old(cluster.state.children.Keys) <= cluster.state.children.Keys <= old(cluster.state.children.Keys) + {id}
      ensures o.Requeue? ==> id in cluster.state.children
      ensures old(cluster.run) <= cluster.run && cluster.hits == old(cluster.hits)
      ensures cluster.shown == old(cluster.shown)
      ensures cluster.failures == if o.Failure? then old(cluster.failures) + 1 else old(cluster.failures)
    {
      hide Linked, ResourceGroupRuntime.Valid, Cluster.Lawful, Reaches, Intended, ObservedReady,
        ResourceGroupRuntime.Structure, Cluster.Valid;
      var ok := cluster.Create(id, resource);
      if !ok {
        resourceStates := resourceStates[id := Errored];
        return Failure;
      }
      resourceStates := resourceStates[id := Created];
      return Requeue;
    }

    /** The lookup of a child in a create pass, in which nothing disappears. */
    method LookUp(id: string) returns (r: GetReply)
      requires InPass()
      modifies cluster`state, cluster`run, cluster`calls, cluster`shown, cluster`failures
      ensures InPass() && (old(cluster.Lawful()) ==> cluster.Lawful()) && old(cluster.run) <= cluster.run
      ensures cluster.state.children.Keys == old(cluster.state.children.Keys)
      ensures if r.Found? then id in cluster.state.children else r.NotFound? ==> id !in cluster.state.children
      ensures cluster.shown ==
        if r.Found? then old(cluster.shown) + [Observation(id, r.content)] else old(cluster.shown)
      ensures cluster.failures == if r.GetFailed? then old(cluster.failures) + 1 else old(cluster.failures)
    {
      hide Linked, ResourceGroupRuntime.Valid, Cluster.Valid, Cluster.Lawful;
      r := cluster.GetChild(id);
    }

    /** `handleResourceReconciliation` and `updateResource`. */
    method HandleResourceReconciliation(id: string, resource: Value) returns (o: Outcome)
      requires InPass() && id in rt.resources && id in cluster.g && DependenciesSynced(id) && Intended(id, resource)
      requires cluster.g[id] <= rt.resolvedResources.Keys <= cluster.state.children.Keys
      modifies this`resourceStates, cluster, rt`resolvedResources
      ensures cluster.updates == old(cluster.updates)
      ensures InPass()
      ensures id in resourceStates && resourceStates == old(resourceStates)[id := resourceStates[id]]
      ensures o.Done? ==> resourceStates[id] == Synced && id in cluster.state.children && ObservedReady(id)
      ensures !o.Done? ==> !Finished(resourceStates[id])
      ensures o.Done? ==>
        id in rt.resolvedResources && rt.resolvedResources.Keys == old(rt.resolvedResources.Keys) + {id}
      ensures old(cluster.shown) <= cluster.shown
      ensures forall x | x in old(rt.resolvedResources) && x != id ::
        x in rt.resolvedResources && rt.resolvedResources[x] == old(rt.resolvedResources)[x]
      ensures o.Requeue? ==> Waits(id, old(cluster.created)) && resourceStates[id] != InProgress
      ensures cluster.failures == if o.Failure? then old(cluster.failures) + 1 else old(cluster.failures)
      ensures Progress(o)
    {
      hide Linked, ResourceGroupRuntime.Valid, Cluster.Valid, Cluster.Lawful, Reaches, Intended, CreatedOne, Waits,
        ResourceGroupRuntime.Structure, NextAt, Drift, NoneTerminating, Held;
      var observed := LookUp(id);
      match observed {
        case NotFound =>
          o := HandleResourceCreation(id, resource);
        case GetFailed =>
          resourceStates := resourceStates[id := Errored];
          return Failure;
        case Found(content) =>
          assert cluster.shown[|cluster.shown| - 1] == Observation(id, content);
          o := UpdateObserved(id, content, cluster.created);
      }
    }

    /** The runtime takes the observed state; the child may not be ready yet. */
    method UpdateObserved(id: string, observed: Value, ghost before: seq<string>) returns (o: Outcome)
      requires rt.Valid() && id in rt.resources && ShownIn(id, observed, cluster.shown)
      modifies this`resourceStates, rt`resolvedResources
      ensures rt.Valid() && rt.resolvedResources == old(rt.resolvedResources)[id := observed]
      ensures resourceStates == old(resourceStates)[id := if o.Done? then Synced else WaitingForReadiness]
      ensures if rt.ReadyAsObserved(id) then o.Done? else o.Requeue?
      ensures o.Requeue? ==> Waits(id, before)
    {
      hide ResourceGroupRuntime.Valid;
      rt.SetResource(id, observed);
      var ready, err := rt.IsResourceReady(id);
      if err || !ready {
        resourceStates := resourceStates[id := WaitingForReadiness];
        return Requeue;
      }
      resourceStates := resourceStates[id := Synced];
      return Done;
    }

    /** What a pass that asks to be called again waits for: the child it just created, the readiness
        of a child it just saw, or the values the resource needs. */
    ghost predicate Waits(id: string, before: seq<string>)
      reads this`resourceStates, cluster`created, cluster`shown, rt`resolvedResources, rt.states
    {
      id in rt.resources && id in resourceStates &&
      match resourceStates[id]
      case Created => cluster.created == before + [id]
      case WaitingForReadiness =>
        id in rt.resolvedResources && !rt.ReadyAsObserved(id) && ShownIn(id, rt.resolvedResources[id], cluster.shown)
      case InProgress => rt.Structure() && !rt.CanProcess(id)
      case _ => false
    }

    /** `reconcileResource`. The resource is ignored exactly if one of its direct dependencies is or
        one of its own conditions fails now. */
    method ReconcileResource(i: nat) returns (o: Outcome)
      requires InPass() && rt.Synced() && i < |rt.topologicalOrder| && CreatePass(i)
      modifies this`resourceStates, this`turns, cluster, rt`resolvedResources, rt`ignored
      ensures cluster.updates == old(cluster.updates)
      ensures InPass()
      ensures o.Done? ==> CreatePass(i + 1)
      ensures resourceStates.Keys == Elements(rt.topologicalOrder)
      ensures !o.Done? ==> Unfinished(i)
      ensures turns == old(turns) + [rt.instanceObject] && IgnoredNow()
      ensures rt.topologicalOrder[i] in rt.resources
      ensures rt.topologicalOrder[i] in rt.ignored <==>
        cluster.g[rt.topologicalOrder[i]] * old(rt.ignored) != {} || !rt.Included(rt.topologicalOrder[i])
      ensures rt.ignored <= old(rt.ignored) + {rt.topologicalOrder[i]} && old(rt.ignored) <= rt.ignored
      ensures o.Requeue? ==> Waits(rt.topologicalOrder[i], old(cluster.created))
      ensures o.Requeue? && Scoped(rt.resources) ==> resourceStates[rt.topologicalOrder[i]] != InProgress
      ensures cluster.failures == if o.Failure? then old(cluster.failures) + 1 else old(cluster.failures)
      ensures Progress(o)
    {
      hide Linked, ResourceGroupRuntime.Valid, ResourceGroupRuntime.Synced, ResourceGroupRuntime.CanProcess,
        ResourceGroupRuntime.Structure, ResourceGroupRuntime.IncludedFor, Cluster.Valid, Cluster.Lawful, CreateAt,
        NextAt, Reaches, Scoped, FailingOf, IgnoredRightly, ObservedReady, Waits, Intended, CreatedOne,
        DependenciesSynced, Wanted, InPass;
      var want := Decide(i);
      if want {
        o := ReconcileWanted(i, old(resourceStates));
      } else {
        Skip(i);
        o := Done;
      }
    }

    /** The inclusion check. */
    method Decide(i: nat) returns (want: bool)
      requires InPass() && rt.Synced() && i < |rt.topologicalOrder| && CreatePass(i)
      modifies this`resourceStates, this`turns
      ensures InPass() && turns == old(turns) + [rt.instanceObject]
      ensures rt.topologicalOrder[i] in rt.resources && rt.topologicalOrder[i] in cluster.g
      ensures rt.topologicalOrder[i] !in rt.ignored
      ensures want <==> cluster.g[rt.topologicalOrder[i]] * rt.ignored == {} && rt.Included(rt.topologicalOrder[i])
      ensures old(resourceStates).Keys == Elements(rt.topologicalOrder)
      ensures rt.topologicalOrder[i] in Elements(rt.topologicalOrder)
      ensures resourceStates == old(resourceStates)[rt.topologicalOrder[i] := InProgress]
      ensures want ==> Wanted(i, old(resourceStates)) && IgnoredNow()
      ensures !want ==> Skippable(i)
    {
      hide Linked, ResourceGroupRuntime.Valid, ResourceGroupRuntime.Synced, ResourceGroupRuntime.Structure,
        ResourceGroupRuntime.IncludedFor, Cluster.Valid, CreateAt, NextAt, ResolvedAt, Scoped, FailingOf,
        IgnoredRightly, ObservedReady;
      var id := rt.topologicalOrder[i];
      NextInOrder(i);
      FailingOneMore(turns, rt.instanceObject);
      CreateSteps(cluster.g, rt.topologicalOrder, i, resourceStates, rt.resolvedResources.Keys, rt.ignored,
                  FailingOf(turns),
                  !rt.Included(id));
      var err;
      want, err := rt.WantToCreateResource(id);
      ghost var before := resourceStates;
      turns := turns + [rt.instanceObject];
      resourceStates := resourceStates[id := InProgress];
      assert resourceStates[id := Skipped] == before[id := Skipped];
    }

    /** The facts of a create pass for an unwanted resource. */
    ghost predicate Skippable(i: nat)
      reads this, cluster, rt
    {
      && i < |rt.topologicalOrder| && |turns| == i + 1
      && rt.resolvedResources.Keys <= cluster.state.children.Keys
      && (forall x | x in rt.resolvedResources :: ObservedReady(x))
      && CreateAt(cluster.g, rt.topologicalOrder, i + 1, resourceStates[rt.topologicalOrder[i] := Skipped],
                  rt.resolvedResources.Keys, rt.ignored + {rt.topologicalOrder[i]}, FailingOf(turns))
      && IgnoredRightly(cluster.g, Elements(rt.topologicalOrder[..i + 1]), FailingOf(turns),
                        rt.ignored + {rt.topologicalOrder[i]})
    }

    /** The branch for an unwanted resource. */
    method Skip(i: nat)
      requires InPass() && Skippable(i)
      modifies this`resourceStates, rt`ignored
      ensures InPass() && CreatePass(i + 1) && IgnoredNow()
      ensures rt.ignored == old(rt.ignored) + {rt.topologicalOrder[i]}
      ensures resourceStates.Keys == old(resourceStates).Keys + {rt.topologicalOrder[i]}
    {
      hide Linked, ResourceGroupRuntime.Valid, Cluster.Valid, CreateAt, FailingOf, IgnoredRightly, ObservedReady,
        ResourceGroupRuntime.Structure;
      resourceStates := resourceStates[rt.topologicalOrder[i] := Skipped];
      rt.IgnoreResource(rt.topologicalOrder[i]);
    }

    /** The facts of a create pass for a wanted resource. */
    ghost predicate Wanted(i: nat, before: map<string, ResourceStatus>)
      reads this, cluster, rt, rt.states
    {
      && InPass() && i < |rt.topologicalOrder| && |turns| == i + 1
      && rt.resolvedResources.Keys <= cluster.state.children.Keys
      && (forall x | x in rt.resolvedResources :: ObservedReady(x))
      && ResolvedAt(cluster.g, before, rt.resolvedResources.Keys)
      && CreateAt(cluster.g, rt.topologicalOrder, i + 1, before[rt.topologicalOrder[i] := Synced],
                  rt.resolvedResources.Keys + {rt.topologicalOrder[i]}, rt.ignored, FailingOf(turns))
      && resourceStates == before[rt.topologicalOrder[i] := InProgress]
      && rt.topologicalOrder[i] in rt.resources && rt.topologicalOrder[i] in cluster.g
      && cluster.g[rt.topologicalOrder[i]] <= rt.resolvedResources.Keys
      && rt.topologicalOrder[i] !in rt.resolvedResources
      && rt.Included(rt.topologicalOrder[i])
    }

    /** The part after the inclusion check. */
    method ReconcileWanted(i: nat, ghost before: map<string, ResourceStatus>) returns (o: Outcome)
      requires Wanted(i, before) && rt.Synced()
      modifies this`resourceStates, cluster, rt`resolvedResources
      ensures cluster.updates == old(cluster.updates)
      ensures InPass()
      ensures o.Done? ==> CreatePass(i + 1)
      ensures resourceStates.Keys == before.Keys + {rt.topologicalOrder[i]}
      ensures !o.Done? ==> Unfinished(i)
      ensures o.Requeue? ==> Waits(rt.topologicalOrder[i], old(cluster.created))
      ensures o.Requeue? && Scoped(rt.resources) ==> resourceStates[rt.topologicalOrder[i]] != InProgress
      ensures cluster.failures == if o.Failure? then old(cluster.failures) + 1 else old(cluster.failures)
      ensures Progress(o)
    {
      hide Linked, ResourceGroupRuntime.Valid, ResourceGroupRuntime.Synced, ResourceGroupRuntime.CanProcess,
        Cluster.Valid, Cluster.Lawful, CreateAt, NextAt, Reaches, Scoped, Complete, Intended,
        ResourceGroupRuntime.Included, ResourceGroupRuntime.Structure, FailingOf,
        ResourceGroupRuntime.ReadyAsObserved, CreatedOne;
      var id := rt.topologicalOrder[i];
      ResolvedSynced(cluster.g, before, rt.resolvedResources.Keys, id);
      var resource := GetWanted(id);
      if !resource.Resolved? {
        StructureOfRuntime();
        return Requeue;
      }
      o := HandleWanted(i, before, resource.obj);
    }

    /** The part for a resource whose object is known. */
    method HandleWanted(i: nat, ghost before: map<string, ResourceStatus>, resource: Value) returns (o: Outcome)
      requires Wanted(i, before) && DependenciesSynced(rt.topologicalOrder[i])
      requires Intended(rt.topologicalOrder[i], resource)
      modifies this`resourceStates, cluster, rt`resolvedResources
      ensures cluster.updates == old(cluster.updates)
      ensures InPass()
      ensures o.Done? ==> CreatePass(i + 1)
      ensures resourceStates.Keys == before.Keys + {rt.topologicalOrder[i]}
      ensures !o.Done? ==> Unfinished(i)
      ensures o.Requeue? ==>
        Waits(rt.topologicalOrder[i], old(cluster.created)) && resourceStates[rt.topologicalOrder[i]] != InProgress
      ensures cluster.failures == if o.Failure? then old(cluster.failures) + 1 else old(cluster.failures)
      ensures Progress(o)
    {
      hide InPass, CreateAt, NextAt, ResolvedAt, Intended, ResourceGroupRuntime.Included,
        ResourceGroupRuntime.Structure, FailingOf, ResourceGroupRuntime.ReadyFor, CreatedOne, DependenciesSynced,
        Waits, Cluster.Lawful;
      var id := rt.topologicalOrder[i];
      assert before[id := InProgress][id := Synced] == before[id := Synced];
      o := HandleResourceReconciliation(id, resource);
      StillObserved(old(cluster.shown), cluster.shown, old(rt.resolvedResources), rt.resolvedResources, id);
    }

    /** The object to create; there is one where shared expressions bring no foreign dependencies. */
    method GetWanted(id: string) returns (resource: ResourceState)
      requires Linked() && rt.Valid() && rt.Synced() && id in rt.resources && id !in rt.resolvedResources
      requires rt.Included(id) && cluster.g[id] <= rt.resolvedResources.Keys
      requires forall d | d in rt.resolvedResources :: d in cluster.g && cluster.g[d] <= rt.resolvedResources.Keys
      ensures resource.Resolved? <==> rt.CanProcess(id)
      ensures Scoped(rt.resources) ==> resource.Resolved?
      ensures resource.Resolved? ==> Intended(id, resource.obj)
    {
      hide Linked, ResourceGroupRuntime.Valid, ResourceGroupRuntime.Synced, ResourceGroupRuntime.CanProcess,
        Complete, Scoped, Intended, ResourceGroupRuntime.Included;
      if Scoped(rt.resources) {
        NotWaiting(id);
      }
      resource := rt.GetResource(id);
      if resource.Resolved? {
        IsIntended(id, resource.obj);
      }
    }

    lemma IsIntended(id: string, obj: Value)
      requires rt.Valid() && id in rt.resources && rt.Included(id) && rt.Filled(id, obj)
      ensures Intended(id, obj)
    {
    }

    ghost predicate Unfinished(i: nat)
      reads this`resourceStates
    {
      && i < |rt.topologicalOrder| && rt.topologicalOrder[i] in resourceStates
      && !Finished(resourceStates[rt.topologicalOrder[i]])
    }

    /** One create request was sent, for a resource all of whose conditions hold and with
        everything it depends on ready; what was sent is its template with every expression
        replaced. */
    ghost predicate CreatedOne(before: seq<string>, o: Outcome)
      reads this`resourceStates, cluster, rt`instanceObject, rt`resolvedResources, rt.states
    {
      && !o.Done? && |cluster.created| == |before| + 1 && cluster.created[..|before|] == before
      && DependenciesSynced(cluster.created[|before|]) && Intended(cluster.created[|before|], cluster.sent)
    }

    /** The resource is included and the object is its template with every expression replaced. */
    ghost predicate Intended(id: string, obj: Value)
      reads rt`instanceObject, rt.states
    {
      rt.Structure() && id in rt.resources && rt.Included(id) && rt.Filled(id, obj)
    }

    /** What one resource, or a whole create pass, does to the cluster: it keeps to the discipline and
        sends at most one create request, and then ends; nothing is deleted; and the existing
        children are those that were there and the created one, which is new if the create request
        succeeded. */
    twostate predicate Progress(o: Outcome)
      reads this`resourceStates, cluster, rt`instanceObject, rt`resolvedResources, rt.states
    {
      && (old(cluster.Lawful()) ==> cluster.Lawful())
      && (cluster.created == old(cluster.created) || CreatedOne(old(cluster.created), o))
      && |cluster.created| <= |old(cluster.created)| + 1 && (o.Done? ==> cluster.created == old(cluster.created))
      && old(cluster.state.children.Keys) <= cluster.state.children.Keys
      && cluster.state.children.Keys - old(cluster.state.children.Keys) <=
           (if cluster.created == old(cluster.created) then {} else {cluster.created[|cluster.created| - 1]})
      && (cluster.created != old(cluster.created) && o.Requeue? ==>
           cluster.state.children.Keys == old(cluster.state.children.Keys) + {cluster.created[|cluster.created| - 1]} &&
           cluster.created[|cluster.created| - 1] !in old(cluster.state.children))
      && cluster.deleted == old(cluster.deleted) && cluster.hits == old(cluster.hits) && old(cluster.run) <= cluster.run
      && old(cluster.shown) <= cluster.shown
    }

    /** A wanted resource is never kept waiting when shared expressions bring no foreign dependencies. */
    lemma NotWaiting(id: string)
      requires Linked() && rt.Valid() && rt.Synced() && id in rt.resources && Scoped(rt.resources)
      requires cluster.g[id] <= rt.resolvedResources.Keys
      requires forall d | d in rt.resolvedResources :: d in cluster.g && cluster.g[d] <= rt.resolvedResources.Keys
      ensures rt.CanProcess(id)
    {
      hide ResourceGroupRuntime.Structure, ResourceGroupRuntime.StagesOk, ResourceGroupRuntime.CanProcess, Scoped,
        Ordered;
      rt.ProgressWhenScoped(id);
    }

    /** The copy differs from the instance as read, with this content, in kro's own finalizer at most. */
    ghost predicate OwnFinalizerOnly(obj: Instance, copy: Instance) {
      && copy.version == obj.version && copy.deleting == obj.deleting && copy.content == obj.content
      && !copy.finalizers.Malformed? && Others(copy.finalizers, cluster.fin) == Others(obj.finalizers, cluster.fin)
    }

    /** At most one update request was sent, for the instance as read but for kro's own finalizer and the
        status fields. */
    ghost predicate UpdatesOk(before: seq<Instance>, read: Instance)
      reads cluster`updates
    {
      && before <= cluster.updates && |cluster.updates| <= |before| + 1
      && forall k | |before| <= k < |cluster.updates| ::
           && SameButStatus(read.content, cluster.updates[k].content)
           && OwnFinalizerOnly(read.(content := cluster.updates[k].content), cluster.updates[k])
    }

    /** `setManaged`: refused with a malformed list of finalizers or by the API server. */
    method SetManaged(obj: Instance) returns (r: Option<Instance>)
      requires Linked() && cluster.Valid() && (Holds(obj.finalizers, cluster.fin) ==> Held(cluster.state, cluster.fin))
      modifies cluster`state, cluster`run, cluster`calls, cluster`updates, cluster`failures
      ensures cluster.Valid() && old(cluster.run) <= cluster.run
      ensures old(cluster.Lawful()) ==> cluster.Lawful()
      ensures old(Held(cluster.state, cluster.fin)) ==> Held(cluster.state, cluster.fin)
      ensures old(NoneTerminating(cluster.state)) ==>
        NoneTerminating(cluster.state) && cluster.state.children.Keys == old(cluster.state.children.Keys)
      ensures r.Some? ==>
        Held(cluster.state, cluster.fin) && Holds(r.value.finalizers, cluster.fin) && r.value.content == obj.content
      ensures obj.finalizers.Malformed? ==> r.None?
      ensures cluster.updates ==
        if Holds(obj.finalizers, cluster.fin) || obj.finalizers.Malformed? then old(cluster.updates)
        else old(cluster.updates) + [obj.(finalizers := Setting(obj.finalizers, cluster.fin).list)]
      ensures r.Some? ==> OwnFinalizerOnly(obj, r.value.(version := obj.version))
      ensures UpdatesOk(old(cluster.updates), obj)
      ensures r.Some? && cluster.updates != old(cluster.updates) ==>
        Shows(cluster.state, r.value.(version := obj.version))
      ensures cluster.failures ==
        if r.None? && !obj.finalizers.Malformed? then old(cluster.failures) + 1 else old(cluster.failures)
    {
      hide Cluster.Valid, Cluster.Lawful, SameButStatus, Without, NoneTerminating;
      SameAsItself(obj.content);
      var exist, err := HasInstanceFinalizer(obj.finalizers, uid);
      if exist {
        return Some(obj);
      }
      var set_ := SetInstanceFinalizer(obj.finalizers, uid);
      if set_.Refused? {
        return None;
      }
      SetIsIdempotent(obj.finalizers, cluster.fin);
      OthersStay(obj.finalizers, cluster.fin);
      r := cluster.Update(obj.(finalizers := set_.list));
    }

    /** `setupInstance`. */
    method SetupInstance() returns (ok: bool)
      requires Valid() && NoneTerminating(cluster.state)
      modifies this`instance, cluster`state, cluster`run, cluster`calls, cluster`updates, cluster`failures,
        rt`instanceObject
      ensures Valid() && NoneTerminating(cluster.state) && old(cluster.run) <= cluster.run
      ensures old(cluster.Lawful()) ==> cluster.Lawful()
      ensures cluster.state.children.Keys == old(cluster.state.children.Keys)
      ensures ok ==> Held(cluster.state, cluster.fin) && rt.instanceObject == old(rt.instanceObject)
      ensures rt.instanceObject == old(rt.instanceObject)
      ensures UpdatesOk(old(cluster.updates), old(instance).(content := old(rt.instanceObject)))
      ensures old(instance.finalizers.Malformed?) ==> !ok
      ensures cluster.failures ==
        if !ok && !old(instance.finalizers.Malformed?) then old(cluster.failures) + 1 else old(cluster.failures)
    {
      hide ResourceGroupRuntime.Valid, Cluster.Valid, Cluster.Lawful;
      var patched := SetManaged(instance.(content := rt.instanceObject));
      if patched.None? {
        return false;
      }
      instance := patched.value;
      rt.SetInstance(patched.value.content);
      return true;
    }

    /** All resources start as pending. */
    method InitialiseStates()
      requires resourceStates == map[]
      modifies this`resourceStates
      ensures resourceStates.Keys == Elements(rt.topologicalOrder)
      ensures forall x | x in resourceStates :: resourceStates[x] == Pending
    {
      var order := rt.topologicalOrder;
      for i := 0 to |order|
        invariant resourceStates.Keys == Elements(order[..i])
        invariant forall x | x in resourceStates :: resourceStates[x] == Pending
      {
        assert order[..i + 1] == order[..i] + [order[i]];
        resourceStates := resourceStates[order[i] := Pending];
      }
      assert order[..|order|] == order;
    }

    /** A runtime nothing was told to yet, and a pass that has not begun. */
    ghost predicate Starting()
      reads this, cluster, rt, rt.states
    {
      && Valid() && rt.Synced() && rt.resolvedResources == map[] && rt.ignored == {}
      && resourceStates == map[] && turns == [] && passStart == |cluster.shown|
    }

    /** Every resource is skipped, or was observed ready in this pass. */
    ghost predicate AllSettled()
      reads this`resourceStates, cluster`shown, rt`resolvedResources, rt`ignored
    {
      forall x | x in rt.topologicalOrder :: x in resourceStates &&
        ((resourceStates[x] == Skipped && x in rt.ignored) || (resourceStates[x] == Synced && ObservedReady(x)))
    }

    predicate AllFinished()
      reads this`resourceStates
    {
      forall x | x in rt.topologicalOrder :: x in resourceStates && Finished(resourceStates[x])
    }

    /** All calls of `Synchronize` since then succeeded. */
    ghost predicate SyncedSince(before: seq<bool>)
      reads rt`syncs
    {
      before <= rt.syncs && forall k | |before| <= k < |rt.syncs| :: rt.syncs[k]
    }

    /** The last call of `Synchronize` since then failed, for one of its reasons. */
    ghost predicate LastSyncFailed(before: seq<bool>)
      reads this`turns, rt, rt.states
    {
      && |before| < |rt.syncs| && !rt.syncs[|rt.syncs| - 1] && turns != []
      && rt.Structure() && rt.SyncFails(turns[|turns| - 1])
    }

    /** `reconcileInstance`. It is done exactly if the instance could be set up, all resources ended
        skipped or ready, and all synchronizations succeeded; it fails only for a call that the
        cluster answers by an error, a malformed list of finalizers, or a failed synchronization;
        and it asks to be called again only for the child it waits for. */
    method ReconcileInstance() returns (o: Outcome)
      requires Starting() && NoneTerminating(cluster.state)
      modifies this`instance, this`resourceStates, this`turns, cluster, rt, rt.states
      ensures Valid() && NoneTerminating(cluster.state)
      ensures Progress(o)
      ensures SameButStatus(old(rt.instanceObject), rt.instanceObject)
      ensures UpdatesOk(old(cluster.updates), old(instance).(content := old(rt.instanceObject)))
      ensures o.Done? <==>
        && cluster.failures == old(cluster.failures) && !old(instance.finalizers.Malformed?)
        && AllFinished() && SyncedSince(old(rt.syncs))
      ensures o.Done? ==> AllSettled() && |turns| == |rt.topologicalOrder|
      ensures o.Failure? ==>
        || cluster.failures == old(cluster.failures) + 1 || old(instance.finalizers.Malformed?)
        || LastSyncFailed(old(rt.syncs))
      ensures o.Requeue? ==> Asks(old(cluster.created))
      ensures IgnoredNow() && TurnsOk(old(rt.instanceObject), turns)
    {
      hide Linked, ResourceGroupRuntime.Valid, ResourceGroupRuntime.Synced, Cluster.Valid, Cluster.Lawful, CreateAt,
        IgnoredNow, TurnsOk, TurnsFrom, FailingOf, Asks, Scoped, CreatedOne, DependenciesSynced, Intended,
        ResourceGroupRuntime.Structure, AllFinished, AllSettled, LastSyncFailed, ObservedReady;
      ghost var obj := rt.instanceObject;
      NoTurns(obj);
      var ok := SetupInstance();
      if !ok {
        return Failure;
      }
      InitialiseStates();
      NothingSeen(cluster.g, rt.topologicalOrder, resourceStates);
      assert rt.resolvedResources.Keys == {};
      o := ReconcileResources(obj);
    }

    /** The loop over the resources in topological order. */
    method ReconcileResources(ghost obj: Value) returns (o: Outcome)
      requires InPass() && rt.Synced() && CreatePass(0)
      requires turns == [] && rt.instanceObject == obj && IgnoredNow()
      modifies this`resourceStates, this`turns, cluster, rt, rt.states
      ensures cluster.updates == old(cluster.updates)
      ensures SameButStatus(old(rt.instanceObject), rt.instanceObject)
      ensures Valid() && NoneTerminating(cluster.state)
      ensures Progress(o)
      ensures o.Done? <==> cluster.failures == old(cluster.failures) && AllFinished() && SyncedSince(old(rt.syncs))
      ensures o.Done? ==> AllSettled() && |turns| == |rt.topologicalOrder|
      ensures o.Failure? ==> cluster.failures == old(cluster.failures) + 1 || LastSyncFailed(old(rt.syncs))
      ensures o.Requeue? ==> Asks(old(cluster.created))
      ensures IgnoredNow() && TurnsOk(obj, turns)
    {
      hide Linked, ResourceGroupRuntime.Valid, ResourceGroupRuntime.Synced, ResourceGroupRuntime.SyncFails,
        Cluster.Valid, Cluster.Lawful, CreateAt, CreatedOne, DependenciesSynced, Intended, FailingOf, IgnoredNow,
        TurnsFrom, TurnsOk, ObservedReady, Scoped, Asks, NoneTerminating, LastSyncFailed, CreatePass, AllFinished,
        AllSettled;
      NoTurns(obj);
      for i := 0 to |rt.topologicalOrder|
        invariant InPass() && rt.Synced() && CreatePass(i)
        invariant cluster.failures == old(cluster.failures) && SyncedSince(old(rt.syncs))
        invariant cluster.updates == old(cluster.updates) && SameButStatus(old(rt.instanceObject), rt.instanceObject)
        invariant IgnoredNow() && TurnsFrom(obj, turns, rt.instanceObject) && TurnsOk(obj, turns)
        invariant Progress(Done)
      {
        o := ReconcileNext(i, obj, old(rt.syncs));
        if !o.Done? {
          return;
        }
      }
      EndOfPass();
      return Done;
    }

    /** The body of that loop. */
    method ReconcileNext(i: nat, ghost obj: Value, ghost syncs: seq<bool>) returns (o: Outcome)
      requires InPass() && rt.Synced() && i < |rt.topologicalOrder| && CreatePass(i)
      requires SyncedSince(syncs) && IgnoredNow() && TurnsFrom(obj, turns, rt.instanceObject)
      modifies this`resourceStates, this`turns, cluster, rt, rt.states
      ensures cluster.updates == old(cluster.updates)
      ensures SameButStatus(old(rt.instanceObject), rt.instanceObject)
      ensures InPass()
      ensures o.Done? ==>
        rt.Synced() && CreatePass(i + 1) && SyncedSince(syncs) && cluster.failures == old(cluster.failures)
      ensures o.Done? ==> TurnsFrom(obj, turns, rt.instanceObject)
      ensures !o.Done? ==> cluster.failures != old(cluster.failures) || !AllFinished() || !SyncedSince(syncs)
      ensures o.Failure? ==> cluster.failures == old(cluster.failures) + 1 || LastSyncFailed(syncs)
      ensures o.Requeue? ==> Asks(old(cluster.created))
      ensures IgnoredNow() && TurnsOk(obj, turns)
      ensures Progress(o)
    {
      hide Linked, ResourceGroupRuntime.Valid, ResourceGroupRuntime.Synced, ResourceGroupRuntime.SyncFails,
        Cluster.Valid, Cluster.Lawful, CreateAt, CreatedOne, DependenciesSynced, Intended, FailingOf, IgnoredNow,
        TurnsFrom, TurnsOk, StatusOnly, ObservedReady, Scoped, Waits, NoneTerminating, AllFinished;
      ghost var now, ts := rt.instanceObject, turns;
      o := ReconcileResource(i);
      SameStatus(now);
      TurnsStep(obj, ts, now, now);
      if !o.Done? {
        UnfinishedIsNotAll(i);
        return;
      }
      o := SynchronizeAfter(i, obj, syncs);
    }

    /** The synchronization after one resource; it sends nothing to the cluster. */
    method SynchronizeAfter(i: nat, ghost obj: Value, ghost syncs: seq<bool>) returns (o: Outcome)
      requires InPass() && CreatePass(i + 1) && SyncedSince(syncs) && IgnoredNow()
      requires TurnsFrom(obj, turns, rt.instanceObject) && turns[i] == rt.instanceObject
      modifies rt, rt.states
      ensures SameButStatus(old(rt.instanceObject), rt.instanceObject)
      ensures InPass() && !o.Requeue? && IgnoredNow()
      ensures rt.resolvedResources == old(rt.resolvedResources) && rt.ignored == old(rt.ignored)
      ensures o.Done? ==> rt.Synced() && SyncedSince(syncs) && TurnsFrom(obj, turns, rt.instanceObject)
      ensures o.Failure? ==> LastSyncFailed(syncs) && !SyncedSince(syncs)
    {
      hide Linked, ResourceGroupRuntime.Valid, ResourceGroupRuntime.Synced, ResourceGroupRuntime.SyncFails,
        Cluster.Valid, Cluster.Lawful, CreateAt, FailingOf, TurnsOk, StatusOnly, ObservedReady, NoneTerminating,
        IgnoredRightly, WriteStatuses;
      ghost var now := rt.instanceObject;
      var again, synced := rt.Synchronize();
      StructureOfRuntime();
      if !synced {
        return Failure;
      }
      StatusWritten(now, rt.instanceObject, rt.Values(), again);
      return Done;
    }

    /** At the end everything is settled. */
    lemma EndOfPass()
      requires CreatePass(|rt.topologicalOrder|)
      ensures AllFinished() && AllSettled() && |turns| == |rt.topologicalOrder|
    {
      hide ObservedReady, IgnoredRightly, CreateAt, FailingOf;
      SettledIn(cluster.g, rt.topologicalOrder, resourceStates, rt.resolvedResources.Keys, rt.ignored,
                FailingOf(turns));
    }

    /** The pass asks to be called again for the resource whose turn was last; only where shared
        expressions bring foreign dependencies can that be for values. */
    ghost predicate Asks(before: seq<string>)
      reads this`resourceStates, this`turns, cluster`created, cluster`shown, rt`resolvedResources, rt.states
    {
      && turns != [] && |turns| <= |rt.topologicalOrder|
      && Waits(rt.topologicalOrder[|turns| - 1], before)
      && (Scoped(rt.resources) ==> resourceStates[rt.topologicalOrder[|turns| - 1]] != InProgress)
    }

    lemma StructureOfRuntime()
      requires rt.Valid()
      ensures rt.Structure()
    {
    }

    lemma UnfinishedIsNotAll(i: nat)
      requires Unfinished(i)
      ensures !AllFinished()
    {
    }

    lemma SameStatus(obj: Value)
      ensures StatusOnly(obj, obj)
    {
    }

    lemma StatusWritten(before: Value, after: Value, values: map<string, Value>, again: bool)
      requires if again then WriteStatuses(before, rt.instance.variables, values) == Some(after) else after == before
      requires SameButStatus(before, after)
      ensures StatusOnly(before, after)
    {
    }

    lemma NoTurns(obj: Value)
      requires turns == []
      ensures TurnsFrom(obj, turns, obj) && TurnsOk(obj, turns)
      ensures rt.ignored == {} ==> IgnoredNow()
      ensures FailingOf(turns) == {}
    {
      assert rt.topologicalOrder[..0] == [];
    }

    lemma TurnsStep(obj: Value, ts: seq<Value>, now: Value, next: Value)
      requires TurnsFrom(obj, ts, now) && StatusOnly(now, next)
      ensures TurnsFrom(obj, ts + [now], next) && TurnsOk(obj, ts + [now])
    {
    }

    // ------------------------------------------------------------ the delete pass

    /** Before position `i` of the first half of a delete pass: the earlier resources that were
        found are pending deletion, all others do not exist, except that one that could not be
        looked up may exist where shared expressions bring foreign dependencies. */
    ghost predicate DeletePass(i: nat)
      reads this, cluster, rt
    {
      && Going()
      && DeleteAt(cluster.g, rt.topologicalOrder, i, resourceStates, rt.resolvedResources.Keys,
                  cluster.state.children.Keys,
                  Scoped(rt.resources))
    }

    /** The instance is being deleted, and it is held if any child was found. */
    ghost predicate Going()
      reads cluster, rt
    {
      && (cluster.state.instance.Some? ==> cluster.state.instance.value.deleting)
      && (rt.resolvedResources.Keys != {} ==> Held(cluster.state, cluster.fin))
    }

    ghost function FoundHere(existing: set<string>, i: nat): set<string>
      requires i <= |rt.topologicalOrder| && forall j | 0 <= j < |rt.topologicalOrder| ::
        rt.topologicalOrder[j] in rt.resources
    {
      FoundAmong(rt.resources, rt.topologicalOrder, rt.walk, existing, i)
    }

    /** Nobody else is at work, and a pass over this cluster finds no child. */
    ghost predicate Blind(c: ClusterState, i: Instance) {
      && cluster.Quiet() && Accepts(c, i, cluster.fin)
      && (forall j | 0 <= j < |rt.topologicalOrder| :: rt.topologicalOrder[j] in rt.resources)
      && FoundHere(c.children.Keys, |rt.topologicalOrder|) == {}
    }

    /** Nobody else is at work, and a pass over these children finds some. */
    ghost predicate Sees(existing: set<string>) {
      && cluster.Quiet()
      && (forall j | 0 <= j < |rt.topologicalOrder| :: rt.topologicalOrder[j] in rt.resources)
      && FoundHere(existing, |rt.topologicalOrder|) != {}
    }

    /** The last delete request was for a child that a pass over these children finds. */
    ghost predicate HitSeen(existing: set<string>)
      reads cluster`deleted
    {
      && (forall j | 0 <= j < |rt.topologicalOrder| :: rt.topologicalOrder[j] in rt.resources)
      && cluster.deleted != []
      && cluster.deleted[|cluster.deleted| - 1] in FoundHere(existing, |rt.topologicalOrder|)
    }

    /** What a pass finds exists. */
    lemma SeenExists(existing: set<string>)
      requires Linked() && forall j | 0 <= j < |rt.topologicalOrder| :: rt.topologicalOrder[j] in rt.resources
      ensures FoundHere(existing, |rt.topologicalOrder|) <= existing
    {
      hide Ordered, FoundAmong;
      FoundExists(rt.resources, rt.topologicalOrder, rt.walk, existing, |rt.topologicalOrder|);
    }

    /** With nobody else at work, what was found is what the specification of such a pass finds. */
    ghost predicate FoundSoFar(i: nat)
      requires Linked() && i <= |rt.topologicalOrder|
      reads cluster`state, rt`resolvedResources
    {
      (forall j | 0 <= j < |rt.topologicalOrder| :: rt.topologicalOrder[j] in rt.resources) &&
      (cluster.Quiet() ==> rt.resolvedResources.Keys == FoundHere(cluster.state.children.Keys, i))
    }

    /** A child that exists has everything it depends on found before. */
    lemma ExistingIsHeld(i: nat)
      requires Linked() && cluster.Lawful() && i < |rt.topologicalOrder| && NextAt(cluster.g, rt.topologicalOrder, i)
      requires DeletePass(i) && rt.topologicalOrder[i] in cluster.state.children
      ensures Held(cluster.state, cluster.fin)
      ensures Scoped(rt.resources) ==> cluster.g[rt.topologicalOrder[i]] <= rt.resolvedResources.Keys
    {
      hide Linked, Scoped, Cluster.Lawful;
      cluster.Kept();
    }

    /** Where shared expressions bring no foreign dependencies, an existing child can be looked up. */
    lemma ExistingIsProcessable(i: nat)
      requires Valid() && rt.Synced() && cluster.Lawful() && i < |rt.topologicalOrder|
      requires NextAt(cluster.g, rt.topologicalOrder, i)
      requires DeletePass(i) && Scoped(rt.resources) && rt.topologicalOrder[i] in rt.resources
      requires rt.topologicalOrder[i] in cluster.state.children
      ensures rt.CanProcess(rt.topologicalOrder[i])
    {
      hide ResourceGroupRuntime.Valid, ResourceGroupRuntime.Synced, ResourceGroupRuntime.CanProcess, Scoped, Linked,
        Cluster.Lawful;
      ExistingIsHeld(i);
      NotWaiting(rt.topologicalOrder[i]);
    }

    /** The body of the loop of `initializeDeletionState`: the resource is skipped exactly if the
        runtime cannot process it. */
    method InitialiseDeletionOf(i: nat) returns (o: Outcome)
      requires Valid() && cluster.Lawful() && i < |rt.topologicalOrder| && DeletePass(i) && FoundSoFar(i)
      modifies this`resourceStates, cluster`state, cluster`run, cluster`calls, cluster`shown, cluster`failures, rt,
        rt.states
      ensures Valid() && cluster.Lawful() && old(cluster.run) <= cluster.run
      ensures cluster.state.children.Keys <= old(cluster.state.children.Keys)
      ensures old(cluster.shown) <= cluster.shown
      ensures SameButStatus(old(rt.instanceObject), rt.instanceObject)
      ensures o.Done? ==> DeletePass(i + 1) && FoundSoFar(i + 1) && SkippedIff(i)
      ensures !o.Requeue? && (o.Done? ==> cluster.failures == old(cluster.failures))
      ensures cluster.Quiet() ==> cluster.state == old(cluster.state) && cluster.failures == old(cluster.failures)
      ensures o.Failure? ==> cluster.failures == old(cluster.failures) + 1 || SyncHasFailed()
    {
      hide Linked, ResourceGroupRuntime.Valid, ResourceGroupRuntime.Synced, ResourceGroupRuntime.SyncFails,
        Cluster.Valid, Cluster.Lawful, Scoped, DeleteAt, FoundHere, Cluster.Quiet, SkippedIff;
      var again, synced := rt.Synchronize();
      StructureOfRuntime();
      if !synced {
        assert rt.SyncFails(old(rt.instanceObject));
        return Failure;
      }
      o := SkipOrLookUp(i);
    }

    /** The resource is skipped exactly if the runtime cannot process it. */
    ghost predicate SkippedIff(i: nat)
      requires i < |rt.topologicalOrder|
      reads this`resourceStates, rt.states
    {
      var id := rt.topologicalOrder[i];
      && rt.Structure() && id in rt.resources && id in resourceStates
      && (resourceStates[id] == Skipped <==> !rt.CanProcess(id))
    }

    /** The part after the synchronization. */
    method SkipOrLookUp(i: nat) returns (o: Outcome)
      requires Valid() && rt.Synced() && cluster.Lawful() && i < |rt.topologicalOrder| && DeletePass(i) && FoundSoFar(i)
      modifies this`resourceStates, cluster`state, cluster`run, cluster`calls, cluster`shown, cluster`failures,
        rt`resolvedResources
      ensures Valid() && cluster.Lawful() && old(cluster.run) <= cluster.run
      ensures cluster.state.children.Keys <= old(cluster.state.children.Keys)
      ensures old(cluster.shown) <= cluster.shown
      ensures o.Done? ==> DeletePass(i + 1) && FoundSoFar(i + 1) && SkippedIff(i)
      ensures !o.Requeue? && (o.Done? ==> cluster.failures == old(cluster.failures))
      ensures cluster.Quiet() ==> cluster.state == old(cluster.state) && cluster.failures == old(cluster.failures)
      ensures o.Failure? ==> cluster.failures == old(cluster.failures) + 1
    {
      hide Linked, ResourceGroupRuntime.Valid, ResourceGroupRuntime.Structure, ResourceGroupRuntime.Synced,
        ResourceGroupRuntime.CanProcess, Cluster.Valid, Cluster.Lawful, Scoped, DeleteAt, NextAt,
        ResourceGroupRuntime.Filled, Processable, FoundHere, FoundAmong, Cluster.Quiet;
      var id := rt.topologicalOrder[i];
      NextInOrder(i);
      StructureOfRuntime();
      if id in cluster.state.children && Scoped(rt.resources) {
        ExistingIsProcessable(i);
      }
      ProcessableNow(id);
      var resource := rt.GetResource(id);
      if resource.Resolved? {
        NotYetFound(cluster.g, rt.topologicalOrder, i, resourceStates, rt.resolvedResources.Keys,
                    cluster.state.children.Keys,
                    Scoped(rt.resources));
        o := LookUpForDeletion(i);
      } else {
        SkipForDeletion(i);
        o := Done;
      }
    }

    /** The branch for what cannot be looked up. */
    method SkipForDeletion(i: nat)
      requires Valid() && i < |rt.topologicalOrder| && DeletePass(i) && NextAt(cluster.g, rt.topologicalOrder, i)
      requires rt.topologicalOrder[i] in rt.resources && FoundSoFar(i)
      requires Scoped(rt.resources) ==> rt.topologicalOrder[i] !in cluster.state.children
      requires !Processable(rt.resources, rt.walk, rt.topologicalOrder[i], rt.resolvedResources.Keys)
      modifies this`resourceStates
      ensures Valid() && DeletePass(i + 1) && FoundSoFar(i + 1)
      ensures rt.topologicalOrder[i] in resourceStates && resourceStates[rt.topologicalOrder[i]] == Skipped
    {
      hide Linked, ResourceGroupRuntime.Valid, Cluster.Valid, Scoped, DeleteAt, NextAt, Processable, FoundHere,
        FoundAmong, Cluster.Quiet;
      FoundStep(i);
      DeleteSkips(cluster.g, rt.topologicalOrder, i, resourceStates, rt.resolvedResources.Keys,
                  cluster.state.children.Keys,
                  Scoped(rt.resources), Skipped);
      resourceStates := resourceStates[rt.topologicalOrder[i] := Skipped];
    }

    lemma ProcessableNow(id: string)
      requires Linked() && rt.Valid() && rt.Synced() && id in rt.resources
      ensures rt.CanProcess(id) <==> Processable(rt.resources, rt.walk, id, rt.resolvedResources.Keys)
    {
      hide ResourceGroupRuntime.Structure, ResourceGroupRuntime.StagesOk, ResourceGroupRuntime.CanProcess,
        Processable, Ordered;
      rt.ProcessableIff(id);
    }

    /** The specification finds the resource. */
    ghost predicate FindsNext(i: nat)
      requires i < |rt.topologicalOrder| && rt.topologicalOrder[i] in rt.resources
      reads cluster`state, rt`resolvedResources
    {
      rt.topologicalOrder[i] in cluster.state.children &&
      Processable(rt.resources, rt.walk, rt.topologicalOrder[i], rt.resolvedResources.Keys)
    }

    /** One more step of the specification. */
    lemma FoundStep(i: nat)
      requires Linked() && i < |rt.topologicalOrder| && FoundSoFar(i) && rt.topologicalOrder[i] in rt.resources
      ensures cluster.Quiet() ==>
        FoundHere(cluster.state.children.Keys, i + 1) ==
          (if FindsNext(i) then rt.resolvedResources.Keys + {rt.topologicalOrder[i]} else rt.resolvedResources.Keys)
    {
      hide Linked, Processable;
    }

    /** Looking the child up. */
    method LookUpForDeletion(i: nat) returns (o: Outcome)
      requires Valid() && cluster.Lawful() && i < |rt.topologicalOrder| && DeletePass(i)
      requires NextAt(cluster.g, rt.topologicalOrder, i) && rt.topologicalOrder[i] in rt.resources
      requires FoundSoFar(i)
      requires Processable(rt.resources, rt.walk, rt.topologicalOrder[i], rt.resolvedResources.Keys)
      modifies this`resourceStates, cluster`state, cluster`run, cluster`calls, cluster`shown, cluster`failures,
        rt`resolvedResources
      ensures Valid() && cluster.Lawful() && old(cluster.run) <= cluster.run
      ensures cluster.state.children.Keys <= old(cluster.state.children.Keys)
      ensures old(cluster.shown) <= cluster.shown
      ensures o.Done? ==> DeletePass(i + 1) && FoundSoFar(i + 1)
      ensures o.Done? ==> rt.topologicalOrder[i] in resourceStates && resourceStates[rt.topologicalOrder[i]] != Skipped
      ensures !o.Requeue? && (o.Done? ==> cluster.failures == old(cluster.failures))
      ensures cluster.Quiet() ==> cluster.state == old(cluster.state) && cluster.failures == old(cluster.failures)
      ensures o.Failure? ==> cluster.failures == old(cluster.failures) + 1
    {
      hide Linked, ResourceGroupRuntime.Valid, Cluster.Valid, Cluster.Lawful, DeleteAt, NextAt, Scoped,
        ResourceGroupRuntime.Synced, ResourceGroupRuntime.CanProcess, Processable, FoundHere, FoundAmong,
        Cluster.Quiet;
      var id := rt.topologicalOrder[i];
      ghost var before, sure := cluster.state.children.Keys, Scoped(rt.resources);
      FoundStep(i);
      var observed := cluster.GetChild(id);
      FewerExist(cluster.g, rt.topologicalOrder, i, resourceStates, rt.resolvedResources.Keys, before,
                 cluster.state.children.Keys, sure);
      match observed {
        case NotFound =>
          DeleteSkips(cluster.g, rt.topologicalOrder, i, resourceStates, rt.resolvedResources.Keys,
                      cluster.state.children.Keys, sure, Deleted);
          resourceStates := resourceStates[id := Deleted];
          return Done;
        case GetFailed =>
          return Failure;
        case Found(content) =>
          ExistingIsHeld(i);
          DeleteFinds(cluster.g, rt.topologicalOrder, i, resourceStates, rt.resolvedResources.Keys,
                      cluster.state.children.Keys, sure);
          rt.SetResource(id, content);
          assert rt.resolvedResources.Keys == old(rt.resolvedResources.Keys) + {id};
          resourceStates := resourceStates[id := PendingDeletion];
          return Done;
      }
    }

    /** `initializeDeletionState`. With nobody else at work it finds exactly what the specification of
        such a pass finds, which is everything exactly if no shared expression brings a foreign
        dependency. */
    method InitialiseDeletionState() returns (o: Outcome)
      requires Valid() && cluster.Lawful() && DeletePass(0) && FoundSoFar(0)
      modifies this`resourceStates, cluster`state, cluster`run, cluster`calls, cluster`shown, cluster`failures, rt,
        rt.states
      ensures Valid() && cluster.Lawful() && old(cluster.run) <= cluster.run
      ensures cluster.state.children.Keys <= old(cluster.state.children.Keys)
      ensures old(cluster.shown) <= cluster.shown
      ensures SameButStatus(old(rt.instanceObject), rt.instanceObject)
      ensures o.Done? ==> DeletePass(|rt.topologicalOrder|) && FoundSoFar(|rt.topologicalOrder|)
      ensures !o.Requeue? && (o.Done? ==> cluster.failures == old(cluster.failures))
      ensures cluster.Quiet() ==> cluster.state == old(cluster.state) && cluster.failures == old(cluster.failures)
      ensures o.Failure? ==> cluster.failures == old(cluster.failures) + 1 || SyncHasFailed()
    {
      hide Linked, ResourceGroupRuntime.Valid, Cluster.Valid, Cluster.Lawful, DeleteAt, Scoped, FoundSoFar, Going,
        Cluster.Quiet, ResourceGroupRuntime.SyncFails;
      for i := 0 to |rt.topologicalOrder|
        invariant Valid() && cluster.Lawful() && DeletePass(i) && FoundSoFar(i) && old(cluster.run) <= cluster.run
        invariant cluster.Quiet() ==> cluster.state == old(cluster.state) && cluster.failures == old(cluster.failures)
        invariant cluster.failures == old(cluster.failures) && old(cluster.shown) <= cluster.shown
        invariant SameButStatus(old(rt.instanceObject), rt.instanceObject)
        invariant cluster.state.children.Keys <= old(cluster.state.children.Keys)
      {
        o := InitialiseDeletionOf(i);
        if !o.Done? {
          return;
        }
      }
      return Done;
    }

    /** The last call of `Synchronize` failed, for one of its reasons. */
    ghost predicate SyncHasFailed()
      reads rt, rt.states
    {
      rt.syncs != [] && !rt.syncs[|rt.syncs| - 1] && rt.Structure() && exists obj :: rt.SyncFails(obj)
    }

    /** The second half, down to position `n`: what is pending below `n` was found, all else does
        not exist, up to what could not be looked up. */
    ghost predicate DeleteBack(n: nat)
      reads this, cluster, rt
    {
      && Going()
      && BackAt(rt.topologicalOrder, n, resourceStates, rt.resolvedResources.Keys, cluster.state.children.Keys,
                Scoped(rt.resources))
    }

    /** Nothing existing depends on the last resource that is left. */
    lemma LastHasNoDependents(n: nat)
      requires Linked() && cluster.Lawful() && n < |rt.topologicalOrder|
      requires BackAt(rt.topologicalOrder, n + 1, resourceStates, rt.resolvedResources.Keys,
                      cluster.state.children.Keys, true)
      ensures NoDependents(cluster.g, cluster.state, rt.topologicalOrder[n])
    {
      var order := rt.topologicalOrder;
      cluster.Kept();
      forall x | x in cluster.state.children && x in cluster.g ensures order[n] !in cluster.g[x] {
        assert x in Elements(order);
        var k :| 0 <= k < |order| && order[k] == x;
        assert k < n + 1;
        TargetsAt(cluster.g, order, k);
        LaterIsNotEarlier(order, k, n);
      }
    }

    /** `deleteResource`. */
    method DeleteResource(id: string) returns (o: Outcome)
      requires Valid() && id in rt.resources && Held(cluster.state, cluster.fin)
      requires cluster.state.instance.value.deleting
      modifies this`resourceStates, cluster`state, cluster`run, cluster`calls, cluster`deleted, cluster`hits,
        cluster`failures
      ensures Valid() && Held(cluster.state, cluster.fin) && cluster.state.instance.value.deleting
      ensures old(cluster.Lawful()) && old(NoDependents(cluster.g, cluster.state, id)) ==> cluster.Lawful()
      ensures old(cluster.run) <= cluster.run && cluster.state.children.Keys <= old(cluster.state.children.Keys)
      ensures cluster.deleted == old(cluster.deleted) + [id] && cluster.hits <= old(cluster.hits) + 1
      ensures o.Done? ==> cluster.hits == old(cluster.hits) && id !in cluster.state.children
      ensures o.Requeue? ==> cluster.hits == old(cluster.hits) + 1
      ensures o.Requeue? ==> id in old(cluster.state.children)
      ensures o.Requeue? && id in cluster.state.children ==> cluster.state.children[id].terminating
      ensures cluster.Quiet() ==> !o.Failure? && (o.Requeue? <==> id in old(cluster.state.children))
      ensures cluster.Quiet() && o.Done? ==> cluster.state == old(cluster.state)
      ensures cluster.failures == if o.Failure? then old(cluster.failures) + 1 else old(cluster.failures)
      ensures resourceStates ==
        old(resourceStates)[id := if o.Done? then Deleted else if o.Requeue? then DeletionStarted else Errored]
    {
      hide Linked, ResourceGroupRuntime.Valid, Cluster.Valid, Cluster.Lawful;
      var resource := rt.GetResource(id);
      var r := cluster.Delete(id);
      match r {
        case NothingToDelete =>
          resourceStates := resourceStates[id := Deleted];
          return Done;
        case DeleteFailed =>
          resourceStates := resourceStates[id := Errored];
          return Failure;
        case DeleteStarted =>
          resourceStates := resourceStates[id := DeletionStarted];
          return Requeue;
      }
    }

    /** The last delete request was for an existing child that had been found; it is gone, or on its way out. */
    ghost predicate HitFound(existing: set<string>)
      reads cluster`deleted, cluster`state, rt`resolvedResources
    {
      cluster.deleted != [] &&
      var last := cluster.deleted[|cluster.deleted| - 1];
      && last in existing && last in rt.resolvedResources
      && (last in cluster.state.children ==> cluster.state.children[last].terminating)
    }

    /** `deleteResourcesInOrder`: the reverse order; at most one request meets an existing child, and
        one does with nobody else at work, if any was found. */
    method DeleteResourcesInOrder() returns (o: Outcome)
      requires Valid() && cluster.Lawful() && DeleteBack(|rt.topologicalOrder|)
      modifies this`resourceStates, cluster`state, cluster`run, cluster`calls, cluster`deleted, cluster`hits,
        cluster`failures
      ensures Valid() && old(cluster.run) <= cluster.run && (Scoped(rt.resources) ==> cluster.Lawful())
      ensures cluster.hits <= old(cluster.hits) + 1 && (o.Done? ==> cluster.hits == old(cluster.hits))
      ensures o.Requeue? ==> cluster.hits == old(cluster.hits) + 1
      ensures o.Requeue? ==> HitFound(old(cluster.state.children.Keys))
      ensures cluster.state.children.Keys <= old(cluster.state.children.Keys)
      ensures cluster.Quiet() && rt.resolvedResources.Keys * old(cluster.state.children.Keys) != {} ==> o.Requeue?
      ensures o.Done? ==> DeleteBack(0)
      ensures cluster.failures == if o.Failure? then old(cluster.failures) + 1 else old(cluster.failures)
      ensures rt.resolvedResources == map[] ==> o.Done? && cluster.state == old(cluster.state) && cluster.Lawful()
    {
      hide Linked, ResourceGroupRuntime.Valid, Cluster.Valid, Cluster.Lawful, BackAt, NextAt, NoDependents, Held,
        Scoped;
      var i := |rt.topologicalOrder|;
      while i > 0
        invariant 0 <= i <= |rt.topologicalOrder|
        invariant Valid() && DeleteBack(i) && old(cluster.run) <= cluster.run
        invariant (Scoped(rt.resources) ==> cluster.Lawful())
        invariant cluster.hits == old(cluster.hits) && cluster.failures == old(cluster.failures)
        invariant rt.resolvedResources == map[] ==> cluster.state == old(cluster.state) && cluster.Lawful()
        invariant cluster.state.children.Keys <= old(cluster.state.children.Keys)
        invariant cluster.Quiet() ==> cluster.state == old(cluster.state)
        invariant cluster.Quiet() ==> forall j | i <= j < |rt.topologicalOrder| ::
          rt.topologicalOrder[j] !in rt.resolvedResources || rt.topologicalOrder[j] !in old(cluster.state.children)
      {
        i := i - 1;
        o := DeleteNext(i);
        if !o.Done? {
          return;
        }
      }
      if cluster.Quiet() {
        NothingWasFound(old(cluster.state.children.Keys));
      }
      return Done;
    }

    lemma NothingWasFound(existing: set<string>)
      requires Valid() && forall j | 0 <= j < |rt.topologicalOrder| ::
        rt.topologicalOrder[j] !in rt.resolvedResources || rt.topologicalOrder[j] !in existing
      ensures rt.resolvedResources.Keys * existing == {}
    {
      hide ResourceGroupRuntime.Structure, ResourceGroupRuntime.StagesOk;
      forall x | x in rt.resolvedResources ensures x !in existing {
        assert x in Elements(rt.topologicalOrder);
        var j :| 0 <= j < |rt.topologicalOrder| && rt.topologicalOrder[j] == x;
      }
    }

    /** The body of that loop. */
    method DeleteNext(i: nat) returns (o: Outcome)
      requires i < |rt.topologicalOrder| && Valid() && DeleteBack(i + 1) && (Scoped(rt.resources) ==> cluster.Lawful())
      modifies this`resourceStates, cluster`state, cluster`run, cluster`calls, cluster`deleted, cluster`hits,
        cluster`failures
      ensures Valid() && old(cluster.run) <= cluster.run && (Scoped(rt.resources) ==> cluster.Lawful())
      ensures cluster.hits <= old(cluster.hits) + 1 && (o.Done? ==> cluster.hits == old(cluster.hits))
      ensures o.Requeue? ==> cluster.hits == old(cluster.hits) + 1
      ensures o.Requeue? ==> HitFound(old(cluster.state.children.Keys))
      ensures cluster.state.children.Keys <= old(cluster.state.children.Keys)
      ensures cluster.Quiet() ==> !o.Failure? && (o.Done? ==> cluster.state == old(cluster.state))
      ensures cluster.Quiet() && rt.topologicalOrder[i] in rt.resolvedResources.Keys * old(cluster.state.children.Keys)
        ==> o.Requeue?
      ensures o.Done? ==> DeleteBack(i)
      ensures cluster.failures == if o.Failure? then old(cluster.failures) + 1 else old(cluster.failures)
      ensures rt.resolvedResources == map[] ==> o.Done? && cluster.state == old(cluster.state)
      ensures rt.resolvedResources == map[] && old(cluster.Lawful()) ==> cluster.Lawful()
    {
      hide Linked, ResourceGroupRuntime.Valid, Cluster.Valid, Cluster.Lawful, BackAt, NextAt, NoDependents, Held,
        Scoped;
      var id := rt.topologicalOrder[i];
      NextInOrder(i);
      ghost var states, before, sure := resourceStates, cluster.state.children.Keys, Scoped(rt.resources);
      BackStep(rt.topologicalOrder, i, states, rt.resolvedResources.Keys, before, sure);
      if id in resourceStates && resourceStates[id] == PendingDeletion {
        if sure {
          LastHasNoDependents(i);
        }
        HeldMeansPresent();
        o := DeleteResource(id);
        if o.Done? {
          UniqueInOrder();
          BackDeletes(rt.topologicalOrder, i, states, rt.resolvedResources.Keys, before, cluster.state.children.Keys,
                      sure);
        }
      } else {
        o := Done;
      }
    }

    lemma HeldMeansPresent()
      ensures Held(cluster.state, cluster.fin) ==> cluster.state.instance.Some?
    {
    }

    lemma UniqueInOrder()
      requires Linked()
      ensures NoDup(rt.topologicalOrder)
    {
    }

    /** `setUnmanaged`. */
    method SetUnmanaged(obj: Instance) returns (r: Option<Instance>)
      requires Linked() && cluster.Valid()
      modifies cluster`state, cluster`run, cluster`calls, cluster`updates, cluster`failures
      ensures cluster.Valid() && old(cluster.run) <= cluster.run
      ensures old(cluster.Lawful()) && old(cluster.state.children) == map[] ==> cluster.Lawful()
      ensures cluster.state.children.Keys <= old(cluster.state.children.Keys)
      ensures r.Some? ==> !Holds(r.value.finalizers, cluster.fin) && r.value.content == obj.content
      ensures cluster.updates == if !Holds(obj.finalizers, cluster.fin) then old(cluster.updates)
        else old(cluster.updates) + [obj.(finalizers := Removing(obj.finalizers, cluster.fin).list)]
      ensures Holds(obj.finalizers, cluster.fin) && r.Some? ==> OwnFinalizerOnly(obj, r.value.(version := obj.version))
      ensures UpdatesOk(old(cluster.updates), obj)
      ensures r.Some? && cluster.updates != old(cluster.updates) ==>
        Shows(cluster.state, r.value.(version := obj.version))
      ensures cluster.failures == if r.None? then old(cluster.failures) + 1 else old(cluster.failures)
      ensures cluster.Quiet() && Accepts(old(cluster.state), obj, cluster.fin) ==>
        r.Some? && cluster.state.children == old(cluster.state.children)
        && (Holds(obj.finalizers, cluster.fin) ==> !Held(cluster.state, cluster.fin))
    {
      hide Cluster.Valid, Cluster.Lawful, SameButStatus, Without, NoneTerminating;
      SameAsItself(obj.content);
      var exist, err := HasInstanceFinalizer(obj.finalizers, uid);
      if !exist {
        return Some(obj);
      }
      var rest := RemoveInstanceFinalizer(obj.finalizers, uid);
      RemoveKeepsOthers(obj.finalizers, cluster.fin);
      OthersStay(obj.finalizers, cluster.fin);
      r := cluster.Update(obj.(finalizers := rest.list));
    }

    /** The loop of `finalizeDeletion`. */
    method SomethingLeft() returns (left: bool)
      ensures left <==> exists x :: x in resourceStates && !Gone(resourceStates[x])
    {
      var todo := resourceStates.Keys;
      while todo != {}
        invariant todo <= resourceStates.Keys
        invariant forall x | x in resourceStates && x !in todo :: Gone(resourceStates[x])
        decreases |todo|
      {
        var id :| id in todo;
        if !Gone(resourceStates[id]) {
          return true;
        }
        todo := todo - {id};
      }
      return false;
    }

    /** `finalizeDeletion`: it never has to wait for anything. */
    method FinaliseDeletion() returns (o: Outcome)
      requires Valid() && DeleteBack(0) && (Scoped(rt.resources) ==> cluster.Lawful())
      modifies this`instance, cluster`state, cluster`run, cluster`calls, cluster`updates, cluster`failures,
        rt`instanceObject
      ensures cluster.Valid() && rt.Valid() && old(cluster.run) <= cluster.run
      ensures !o.Requeue?
      ensures UpdatesOk(old(cluster.updates), old(instance).(content := old(rt.instanceObject)))
      ensures rt.instanceObject == old(rt.instanceObject)
      ensures cluster.state.children.Keys <= old(cluster.state.children.Keys)
      ensures Scoped(rt.resources) ==> cluster.Lawful() && cluster.state.children == map[]
      ensures o.Done? ==> !Holds(instance.finalizers, cluster.fin)
      ensures cluster.failures == if o.Failure? then old(cluster.failures) + 1 else old(cluster.failures)
      ensures cluster.Quiet() && old(Accepts(cluster.state, instance, cluster.fin)) ==>
        o.Done? && cluster.state.children == old(cluster.state.children)
        && (Holds(old(instance).finalizers, cluster.fin) ==> !Held(cluster.state, cluster.fin))
    {
      hide ResourceGroupRuntime.Valid, Cluster.Valid, Cluster.Lawful, BackAt, Scoped;
      NothingPending();
      if Scoped(rt.resources) {
        NothingLeft();
      }
      var waits := SomethingLeft();
      if waits {
        o := Requeue;
      } else {
        var patched := SetUnmanaged(instance.(content := rt.instanceObject));
        if patched.None? {
          o := Failure;
        } else {
          instance := patched.value;
          rt.SetInstance(patched.value.content);
          o := Done;
        }
      }
      if Scoped(rt.resources) {
        assert cluster.state.children.Keys == {};
      }
    }

    lemma NothingPending()
      requires Linked() && DeleteBack(0)
      ensures forall x | x in resourceStates :: Gone(resourceStates[x])
    {
      var order := rt.topologicalOrder;
      forall x | x in resourceStates ensures Gone(resourceStates[x]) {
        assert x in Elements(order);
        var k :| 0 <= k < |order| && order[k] == x;
        assert order[k] in resourceStates;
      }
    }

    lemma NothingLeft()
      requires Linked() && cluster.Lawful() && DeleteBack(0) && Scoped(rt.resources)
      ensures cluster.state.children == map[]
    {
      hide Scoped;
      cluster.Kept();
      var order := rt.topologicalOrder;
      forall x | x in order ensures x !in cluster.state.children {
        var k :| 0 <= k < |order| && order[k] == x;
        assert order[k] in Elements(order);
      }
      assert cluster.state.children.Keys * Elements(order) == {};
      assert cluster.state.children.Keys <= Elements(order);
      assert cluster.state.children.Keys == {};
    }

    /** `handleInstanceDeletion`. Where no shared expression brings a foreign dependency it keeps to
        the discipline and is done only with no child left. Elsewhere a pass that finds nothing, with
        nobody else at work, gives the finalizer up and leaves every child where it is. */
    method HandleInstanceDeletion() returns (o: Outcome)
      requires Starting() && cluster.Lawful()
      requires cluster.state.instance.Some? ==> cluster.state.instance.value.deleting
      modifies this`instance, this`resourceStates, this`turns, cluster, rt, rt.states
      ensures cluster.Valid() && old(cluster.run) <= cluster.run && cluster.created == old(cluster.created)
      ensures Scoped(rt.resources) ==> cluster.Lawful()
      ensures cluster.hits <= old(cluster.hits) + 1
      ensures o.Done? && Scoped(rt.resources) ==> cluster.state.children == map[]
      ensures o.Done? ==> !Holds(instance.finalizers, cluster.fin)
      ensures o.Done? ==> cluster.hits == old(cluster.hits)
      ensures o.Requeue? ==> cluster.hits == old(cluster.hits) + 1
      ensures cluster.state.children.Keys <= old(cluster.state.children.Keys)
      ensures old(cluster.shown) <= cluster.shown
      ensures SameButStatus(old(rt.instanceObject), rt.instanceObject)
      ensures UpdatesOk(old(cluster.updates), old(instance).(content := old(rt.instanceObject)))
      ensures o.Requeue? ==> HitFound(old(cluster.state.children.Keys))
      ensures Sees(old(cluster.state.children.Keys)) ==> o.Requeue? || (o.Failure? && SyncHasFailed())
      ensures Sees(old(cluster.state.children.Keys)) && o.Requeue? ==> HitSeen(old(cluster.state.children.Keys))
      ensures o.Failure? ==> cluster.failures == old(cluster.failures) + 1 || SyncHasFailed()
      ensures Blind(old(cluster.state), old(instance)) ==> o.Done? || (o.Failure? && SyncHasFailed())
      ensures Blind(old(cluster.state), old(instance)) ==> cluster.state.children == old(cluster.state.children)
      ensures Blind(old(cluster.state), old(instance)) && o.Done? && Holds(old(instance).finalizers, cluster.fin) ==>
        !Held(cluster.state, cluster.fin)
    {
      hide Linked, ResourceGroupRuntime.Valid, ResourceGroupRuntime.Synced, Cluster.Valid, Cluster.Lawful, Scoped,
        DeleteAt, BackAt, SyncHasFailed, FoundAmong, Cluster.Quiet;
      NothingDeleted(cluster.g, rt.topologicalOrder, cluster.state.children.Keys, Scoped(rt.resources));
      NothingFound();
      assert rt.resolvedResources.Keys == {};
      o := InitialiseDeletionState();
      if !o.Done? {
        return;
      }
      BackStarts(cluster.g, rt.topologicalOrder, resourceStates, rt.resolvedResources.Keys, cluster.state.children.Keys,
                 Scoped(rt.resources));
      assert rt.resolvedResources.Keys == {} ==> rt.resolvedResources == map[];
      if cluster.Quiet() {
        SeenExists(old(cluster.state.children.Keys));
      }
      o := DeleteResourcesInOrder();
      if !o.Done? {
        return;
      }
      o := FinaliseDeletion();
    }

    lemma NothingFound()
      requires Linked() && rt.resolvedResources == map[]
      ensures FoundSoFar(0)
    {
      forall j | 0 <= j < |rt.topologicalOrder| ensures rt.topologicalOrder[j] in rt.resources {
        InOrder(rt.resources, rt.topologicalOrder, j);
      }
    }

    // ------------------------------------------------------------- the whole pass

    /** `updateInstanceState`. */
    method UpdateInstanceState()
      modifies this`state
      ensures state == match reconcileErr
        case Requeue => old(state)
        case Failure => InstanceError
        case Done => if old(state) == InstanceDeleting then InstanceDeleting else InstanceActive
    {
      match reconcileErr {
        case Requeue =>
        case Failure => state := InstanceError;
        case Done =>
          if state != InstanceDeleting {
            state := InstanceActive;
          }
      }
    }

    /** `reconcile` and `handleReconciliation`. The instance is reported active exactly if it is not
        being deleted, no call was answered by an error, its finalizers are well formed, all resources
        ended ready or skipped and all synchronizations succeeded; then every resource is ignored or
        was observed ready in this pass. */
    method Reconcile() returns (o: Outcome)
      requires Starting() && cluster.Lawful()
      requires if instance.deleting then (cluster.state.instance.Some? ==> cluster.state.instance.value.deleting)
               else NoneTerminating(cluster.state)
      modifies this, cluster, rt, rt.states
      ensures cluster.Valid() && old(cluster.run) <= cluster.run && (Scoped(rt.resources) ==> cluster.Lawful())
      ensures |cluster.created| <= |old(cluster.created)| + 1 && cluster.hits <= old(cluster.hits) + 1
      ensures old(instance.deleting) ==> cluster.created == old(cluster.created)
      ensures old(instance.deleting) && o.Requeue? ==> cluster.hits == old(cluster.hits) + 1
      ensures old(instance.deleting) ==> cluster.state.children.Keys <= old(cluster.state.children.Keys)
      ensures old(cluster.shown) <= cluster.shown
      ensures SameButStatus(old(rt.instanceObject), rt.instanceObject)
      ensures UpdatesOk(old(cluster.updates), old(instance).(content := old(rt.instanceObject)))
      ensures old(instance.deleting) && o.Requeue? ==> HitFound(old(cluster.state.children.Keys))
      ensures old(instance.deleting) && Sees(old(cluster.state.children.Keys)) ==>
        o.Requeue? || (o.Failure? && SyncHasFailed())
      ensures old(instance.deleting) && Sees(old(cluster.state.children.Keys)) && o.Requeue? ==>
        HitSeen(old(cluster.state.children.Keys))
      ensures old(instance.deleting) ==> state == (if o.Failure? then InstanceError else InstanceDeleting)
      ensures old(instance.deleting) && o.Done? && Scoped(rt.resources) ==> cluster.state.children == map[]
      ensures !old(instance.deleting) ==> Progress(o) && cluster.Lawful()
      ensures !old(instance.deleting) ==> (state == InstanceActive <==>
        && cluster.failures == old(cluster.failures) && !old(instance.finalizers.Malformed?)
        && AllFinished() && SyncedSince(old(rt.syncs)))
      ensures state == InstanceActive ==>
        !old(instance.deleting) && AllSettled() && IgnoredNow() && |turns| == |rt.topologicalOrder|
      ensures !old(instance.deleting) ==>
        (state == InstanceInProgress <==> o.Requeue?) && (state == InstanceActive <==> o.Done?)
      ensures state == InstanceInProgress ==> Asks(old(cluster.created))
      ensures o.Failure? ==>
        || cluster.failures == old(cluster.failures) + 1 || old(instance.finalizers.Malformed?)
        || SyncHasFailed() || LastSyncFailed(old(rt.syncs))
      ensures old(instance.deleting) && Blind(old(cluster.state), old(instance)) ==>
        o.Done? || (o.Failure? && SyncHasFailed())
      ensures old(instance.deleting) && Blind(old(cluster.state), old(instance)) ==>
        cluster.state.children == old(cluster.state.children)
      ensures old(instance.deleting && Holds(instance.finalizers, cluster.fin)) && o.Done? ==>
        (Blind(old(cluster.state), old(instance)) ==> !Held(cluster.state, cluster.fin))
    {
      hide Linked, ResourceGroupRuntime.Valid, ResourceGroupRuntime.Synced, Cluster.Valid, Cluster.Lawful, Scoped,
        CreateAt, DependenciesSynced, CreatedOne, Intended, SyncHasFailed, FoundAmong, Cluster.Quiet, IgnoredNow,
        AllSettled, Asks, Held, Accepts;
      state := InstanceInProgress;
      if instance.deleting {
        state := InstanceDeleting;
        o := HandleInstanceDeletion();
      } else {
        o := ReconcileInstance();
      }
      reconcileErr := o;
      UpdateInstanceState();
    }
  }

  predicate Gone(s: ResourceStatus) { s == Deleted || s == Skipped }

  /** The first half of a delete pass, up to position `i`; `sure` says that what was skipped does not exist. */
  ghost predicate DeleteAt(g: Graph, order: seq<string>, i: nat, states: map<string, ResourceStatus>,
                           resolved: set<string>, existing: set<string>, sure: bool)
  {
    && i <= |order| && states.Keys == Elements(order[..i]) && resolved <= states.Keys
    && (sure ==> forall d | d in resolved :: d in g && g[d] <= resolved)
    && forall x | x in states ::
         if x in resolved then states[x] == PendingDeletion
         else Gone(states[x]) && (sure || states[x] == Deleted ==> x !in existing)
  }

  lemma NotYetFound(g: Graph, order: seq<string>, i: nat, states: map<string, ResourceStatus>,
                    resolved: set<string>, existing: set<string>, sure: bool)
    requires i < |order| && DeleteAt(g, order, i, states, resolved, existing, sure) && NextAt(g, order, i)
    ensures order[i] !in resolved
  {
  }

  lemma FewerExist(g: Graph, order: seq<string>, i: nat, states: map<string, ResourceStatus>,
                   resolved: set<string>, existing: set<string>, existing': set<string>, sure: bool)
    requires DeleteAt(g, order, i, states, resolved, existing, sure) && existing' <= existing
    ensures DeleteAt(g, order, i, states, resolved, existing', sure)
  {
  }

  lemma DeleteSkips(g: Graph, order: seq<string>, i: nat, states: map<string, ResourceStatus>,
                    resolved: set<string>, existing: set<string>, sure: bool, s: ResourceStatus)
    requires i < |order| && DeleteAt(g, order, i, states, resolved, existing, sure) && NextAt(g, order, i)
    requires Gone(s) && (sure || s == Deleted ==> order[i] !in existing)
    ensures DeleteAt(g, order, i + 1, states[order[i] := s], resolved, existing, sure)
  {
  }

  lemma DeleteFinds(g: Graph, order: seq<string>, i: nat, states: map<string, ResourceStatus>,
                    resolved: set<string>, existing: set<string>, sure: bool)
    requires i < |order| && DeleteAt(g, order, i, states, resolved, existing, sure) && NextAt(g, order, i)
    requires sure ==> g[order[i]] <= resolved
    ensures DeleteAt(g, order, i + 1, states[order[i] := PendingDeletion], resolved + {order[i]}, existing, sure)
  {
  }

  /** The second half of a delete pass, down to position `n`. */
  ghost predicate BackAt(order: seq<string>, n: nat, states: map<string, ResourceStatus>,
                         resolved: set<string>, existing: set<string>, sure: bool)
  {
    && n <= |order| && states.Keys == Elements(order)
    && forall j | 0 <= j < |order| ::
         if j < n && order[j] in resolved then states[order[j]] == PendingDeletion
         else Gone(states[order[j]]) && (sure || states[order[j]] == Deleted ==> order[j] !in existing)
  }

  lemma LaterIsNotEarlier(order: seq<string>, k: nat, n: nat)
    requires NoDup(order) && k <= n < |order|
    ensures order[n] !in Elements(order[..k])
  {
    forall m | 0 <= m < k ensures order[..k][m] != order[n] {
      assert order[m] != order[n];
    }
  }

  lemma NothingDeleted(g: Graph, order: seq<string>, existing: set<string>, sure: bool)
    ensures DeleteAt(g, order, 0, map[], {}, existing, sure)
  {
  }

  lemma BackStarts(g: Graph, order: seq<string>, states: map<string, ResourceStatus>, resolved: set<string>,
                   existing: set<string>,
                   sure: bool)
    requires DeleteAt(g, order, |order|, states, resolved, existing, sure)
    ensures BackAt(order, |order|, states, resolved, existing, sure)
  {
    assert order[..|order|] == order;
    forall j | 0 <= j < |order| ensures order[j] in states {
      assert order[j] in Elements(order);
    }
  }

  /** Position `n` is either pending and found, or settled already. */
  lemma BackStep(order: seq<string>, n: nat, states: map<string, ResourceStatus>, resolved: set<string>,
                 existing: set<string>,
                 sure: bool)
    requires n < |order| && BackAt(order, n + 1, states, resolved, existing, sure)
    ensures order[n] in states
    ensures states[order[n]] == PendingDeletion <==> order[n] in resolved
    ensures states[order[n]] != PendingDeletion ==> BackAt(order, n, states, resolved, existing, sure)
  {
    assert order[n] in Elements(order);
  }

  lemma BackDeletes(order: seq<string>, n: nat, states: map<string, ResourceStatus>, resolved: set<string>,
                    existing: set<string>, existing': set<string>, sure: bool)
    requires NoDup(order) && n < |order| && BackAt(order, n + 1, states, resolved, existing, sure)
    requires existing' <= existing && order[n] !in existing'
    ensures BackAt(order, n, states[order[n] := Deleted], resolved, existing', sure)
  {
    assert order[n] in Elements(order);
    forall j | 0 <= j < |order| && j != n ensures order[j] != order[n] {
      assert if j < n then order[j] != order[n] else order[n] != order[j];
    }
  }

  /** Before position `i` of a create pass: every earlier resource was observed ready or is
      ignored, with everything it depends on, and the ignored ones are those from which a
      failing one is reachable. */
  ghost predicate CreateAt(g: Graph, order: seq<string>, i: nat, states: map<string, ResourceStatus>,
                           resolved: set<string>, ignored: set<string>, failing: set<string>)
  {
    && i <= |order| && states.Keys == Elements(order)
    && resolved + ignored == Elements(order[..i]) && resolved !! ignored
    && ResolvedAt(g, states, resolved)
    && IgnoredRightly(g, Elements(order[..i]), failing, ignored)
    && (forall x | x in ignored :: x in states && states[x] == Skipped)
  }

  /** What is resolved was found ready, with everything it depends on. */
  ghost predicate ResolvedAt(g: Graph, states: map<string, ResourceStatus>, resolved: set<string>) {
    && (forall d | d in resolved :: d in g && g[d] <= resolved)
    && (forall x | x in resolved :: x in states && states[x] == Synced)
  }

  ghost predicate NextAt(g: Graph, order: seq<string>, i: nat)
    requires i < |order|
  {
    var id, seen := order[i], Elements(order[..i]);
    && id in g && id !in seen && g[id] <= seen && Elements(order[..i + 1]) == seen + {id} && id in Elements(order)
    && forall x | x in seen :: x in g && g[x] <= seen
  }

  /** The next resource is ignored or, once observed ready, resolved. */
  lemma CreateSteps(g: Graph, order: seq<string>, i: nat, states: map<string, ResourceStatus>,
                    resolved: set<string>, ignored: set<string>, failing: set<string>, fails: bool)
    requires i < |order| && CreateAt(g, order, i, states, resolved, ignored, failing) && NextAt(g, order, i)
    ensures var id := order[i];
      var failing' := if fails then failing + {id} else failing;
      if fails || g[id] * ignored != {} then CreateAt(g, order, i + 1, states[id := Skipped], resolved, ignored + {id},
                                                      failing')
      else g[id] <= resolved && CreateAt(g, order, i + 1, states[id := Synced], resolved + {id}, ignored, failing)
    ensures var id := order[i];
      IgnoredRightly(g, Elements(order[..i + 1]), if fails then failing + {id} else failing,
                     if fails || g[id] * ignored != {} then ignored + {id} else ignored)
    ensures states.Keys == Elements(order) && order[i] in Elements(order) && order[i] !in resolved
    ensures order[i] !in ignored
    ensures ResolvedAt(g, states, resolved)
  {
    hide IgnoredRightly;
    OneMoreResource(g, Elements(order[..i]), failing, ignored, order[i], fails);
  }

  lemma NothingSeen(g: Graph, order: seq<string>, states: map<string, ResourceStatus>)
    requires states.Keys == Elements(order)
    ensures CreateAt(g, order, 0, states, {}, {}, {})
  {
  }

  /** All that a resource depends on, directly or not, was found ready. */
  lemma ResolvedSynced(g: Graph, states: map<string, ResourceStatus>, resolved: set<string>, id: string)
    requires ResolvedAt(g, states, resolved) && id in g && g[id] <= resolved
    ensures forall d | d in resolved :: d in g && g[d] <= resolved
    ensures forall x | Reaches(g, id, x) && x != id :: x in resolved && x in states && states[x] == Synced
  {
    DependenciesAmong(g, resolved, id);
  }

  lemma SettledIn(g: Graph, order: seq<string>, states: map<string, ResourceStatus>,
                  resolved: set<string>, ignored: set<string>, failing: set<string>)
    requires CreateAt(g, order, |order|, states, resolved, ignored, failing)
    ensures forall x | x in order ::
      x in states && ((x in ignored && states[x] == Skipped) || (x in resolved && states[x] == Synced))
  {
    hide IgnoredRightly;
    assert order[..|order|] == order;
    forall x | x in order
      ensures x in states && ((x in ignored && states[x] == Skipped) || (x in resolved && states[x] == Synced))
    {
      assert x in Elements(order);
      assert x in resolved + ignored;
    }
  }
}
