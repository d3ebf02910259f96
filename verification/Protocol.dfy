/** The cluster while an instance is reconciled: what its environment may do, what the
    controller may do, and what every run of such steps keeps. */
module Protocol {
  import opened Ordering
  import opened Fieldpath
  import opened Values
  import opened Graphs
  import opened Finalizers

  /** A child resource; a terminating one waits for its own finalizers. */
  datatype Child = Child(content: Value, terminating: bool)

  /** The instance; `deleting` is its deletion timestamp, `version` its resource version. */
  datatype Instance = Instance(content: Value, finalizers: FinalizerList, deleting: bool, version: nat)

  datatype ClusterState = ClusterState(children: map<string, Child>, instance: Option<Instance>)

  /** What others do: objects change (also by becoming ready), terminating objects disappear,
      the user deletes the instance, other controllers update it. Nobody else deletes children
      or touches the instance's own kro finalizer. */
  datatype Move =
    | ChildChanges(id: string, content: Value)
    | ChildVanishes(id: string)
    | UserDeletes
    | InstanceChanges(content: Value, finalizers: FinalizerList)

  /** The writes of the controller. */
  datatype Action =
    | CreateChild(id: string, content: Value)
    | DeleteChild(id: string, immediately: bool)
    | UpdateInstance(copy: Instance)

  predicate NoFinalizers(list: FinalizerList) { list == Absent || list == Present([]) }

  /** An object without finalizers goes away once it is marked for deletion. */
  function Stored(i: Instance): Option<Instance> {
    if i.deleting && NoFinalizers(i.finalizers) then None else Some(i)
  }

  function AfterMove(c: ClusterState, m: Move, fin: string): ClusterState {
    match m
    case ChildChanges(id, content) =>
      if id in c.children then c.(children := c.children[id := c.children[id].(content := content)]) else c
    case ChildVanishes(id) =>
      if id in c.children && c.children[id].terminating then c.(children := c.children - {id}) else c
    case UserDeletes =>
      if c.instance.Some? && !c.instance.value.deleting then
        c.(instance := Stored(c.instance.value.(deleting := true, version := c.instance.value.version + 1)))
      else c
    case InstanceChanges(content, finalizers) =>
      if c.instance.Some? && (Holds(finalizers, fin) <==> Holds(c.instance.value.finalizers, fin)) then
        c.(instance := Stored(Instance(content, finalizers, c.instance.value.deleting, c.instance.value.version + 1)))
      else c
  }

  /** Optimistic concurrency, and no new finalizers on an object marked for deletion. */
  predicate Accepts(c: ClusterState, copy: Instance, fin: string) {
    && c.instance.Some? && c.instance.value.version == copy.version
    && (c.instance.value.deleting && Holds(copy.finalizers, fin) ==> Holds(c.instance.value.finalizers, fin))
  }

  function AfterAction(c: ClusterState, a: Action, fin: string): ClusterState {
    match a
    case CreateChild(id, content) =>
      if id in c.children then c else c.(children := c.children[id := Child(content, false)])
    case DeleteChild(id, immediately) =>
      if id !in c.children then c
      else if immediately then c.(children := c.children - {id})
      else c.(children := c.children[id := c.children[id].(terminating := true)])
    case UpdateInstance(copy) =>
      if Accepts(c, copy, fin) then
        c.(instance := Stored(Instance(copy.content, copy.finalizers, c.instance.value.deleting, copy.version + 1)))
      else c
  }

  /** The instance exists with the kro finalizer on it. */
  predicate Held(c: ClusterState, fin: string) {
    c.instance.Some? && Holds(c.instance.value.finalizers, fin)
  }

  predicate NoDependents(g: Graph, c: ClusterState, id: string) {
    forall x | x in c.children && x in g :: id !in g[x]
  }

  /** The discipline the controller is to keep: create only below the finalizer and after all
      dependencies, delete only what nothing existing depends on and only while the instance is
      being deleted, give the finalizer up only when no child is left. */
  predicate Legal(g: Graph, fin: string, c: ClusterState, a: Action) {
    match a
    case CreateChild(id, _) =>
      id in g && Held(c, fin) && forall d | d in g[id] :: d in c.children && !c.children[d].terminating
    case DeleteChild(id, _) =>
      NoDependents(g, c, id) && c.instance.Some? && c.instance.value.deleting
    case UpdateInstance(copy) =>
      Holds(copy.finalizers, fin) || c.children == map[] || !Held(c, fin)
  }

  ghost predicate Step(g: Graph, fin: string, c: ClusterState, c': ClusterState) {
    || (exists m: Move :: c' == AfterMove(c, m, fin))
    || (exists a: Action :: Legal(g, fin, c, a) && c' == AfterAction(c, a, fin))
  }

  /** A run of the environment and a disciplined controller, from a cluster without children. */
  ghost predicate IsRun(g: Graph, fin: string, run: seq<ClusterState>) {
    && run != [] && run[0].children == map[]
    && forall i | 0 <= i < |run| - 1 :: Step(g, fin, run[i], run[i + 1])
  }

  // -------------------------------------------------------------- invariants

  /** What every run keeps. */
  predicate Inv(g: Graph, fin: string, c: ClusterState) {
    && c.children.Keys <= g.Keys
    && (forall id | id in c.children :: g[id] <= c.children.Keys)
    && (forall id | id in c.children && c.children[id].terminating :: NoDependents(g, c, id))
    && (c.children != map[] ==> Held(c, fin))
    && (forall id | id in c.children && c.children[id].terminating :: c.instance.Some? && c.instance.value.deleting)
  }

  lemma MoveKeepsInv(g: Graph, fin: string, c: ClusterState, m: Move)
    requires Inv(g, fin, c)
    ensures Inv(g, fin, AfterMove(c, m, fin))
  {
  }

  lemma ActionKeepsInv(g: Graph, fin: string, c: ClusterState, a: Action)
    requires Inv(g, fin, c) && Legal(g, fin, c, a)
    ensures Inv(g, fin, AfterAction(c, a, fin))
  {
    match a
    case CreateChild(id, content) =>
      var c' := AfterAction(c, a, fin);
      forall t | t in c'.children && c'.children[t].terminating ensures NoDependents(g, c', t) {
        assert t in c.children && c.children[t].terminating;
      }
    case DeleteChild(id, immediately) =>
    case UpdateInstance(copy) =>
  }

  lemma {:induction false} RunKeepsInv(g: Graph, fin: string, run: seq<ClusterState>, k: nat)
    requires IsRun(g, fin, run) && k < |run|
    ensures Inv(g, fin, run[k])
  {
    if k > 0 {
      RunKeepsInv(g, fin, run, k - 1);
      var c, c' := run[k - 1], run[k];
      assert Step(g, fin, run[k - 1], run[k - 1 + 1]);
      if m: Move :| c' == AfterMove(c, m, fin) {
        MoveKeepsInv(g, fin, c, m);
      } else {
        var a: Action :| Legal(g, fin, c, a) && c' == AfterAction(c, a, fin);
        ActionKeepsInv(g, fin, c, a);
      }
    }
  }

  lemma {:induction false} ReachableExist(g: Graph, fin: string, c: ClusterState, p: seq<string>)
    requires Inv(g, fin, c) && IsWalk(g, p) && p[0] in c.children
    ensures p[|p| - 1] in c.children
    decreases |p|
  {
    if |p| > 1 {
      assert Edge(g, p[0], p[1]);
      WalkSlice(g, p, 1, |p|);
      ReachableExist(g, fin, c, p[1..]);
    }
  }

  /** In every run, at every moment: everything an existing child depends on, directly or not,
      exists; and while any child exists the instance exists and holds its finalizer. */
  lemma RunsAreOrdered(g: Graph, fin: string, run: seq<ClusterState>, k: nat)
    requires IsRun(g, fin, run) && k < |run|
    ensures forall a, b | a in run[k].children && Reaches(g, a, b) :: b in run[k].children
    ensures run[k].children != map[] ==> Held(run[k], fin)
  {
    RunKeepsInv(g, fin, run, k);
    forall a, b | a in run[k].children && Reaches(g, a, b) ensures b in run[k].children {
      var p :| IsWalk(g, p) && p[0] == a && p[|p| - 1] == b;
      ReachableExist(g, fin, run[k], p);
    }
  }

  /** In every run, at every step: a child appears only when all it depends on is there, starts
      terminating or disappears only when nothing existing depends on it, and the finalizer
      goes only from a cluster without children. */
  lemma StepsAreOrdered(g: Graph, fin: string, run: seq<ClusterState>, k: nat)
    requires IsRun(g, fin, run) && k + 1 < |run|
    ensures forall id | id in run[k + 1].children && id !in run[k].children ::
      id in g && g[id] <= run[k].children.Keys && Held(run[k], fin)
    ensures forall id | id in run[k].children
      && (id !in run[k + 1].children || (run[k + 1].children[id].terminating && !run[k].children[id].terminating)) ::
      NoDependents(g, run[k], id) && run[k].instance.Some? && run[k].instance.value.deleting
    ensures Held(run[k], fin) && !Held(run[k + 1], fin) ==> run[k].children == map[]
  {
    RunKeepsInv(g, fin, run, k);
    var c, c' := run[k], run[k + 1];
    assert Step(g, fin, c, c');
    if m: Move :| c' == AfterMove(c, m, fin) {
      assert Held(c, fin) ==> Held(c', fin);
    } else {
      var a: Action :| Legal(g, fin, c, a) && c' == AfterAction(c, a, fin);
      if a.UpdateInstance? && Held(c, fin) && Accepts(c, a.copy, fin) && Holds(a.copy.finalizers, fin) {
        assert Held(c', fin);
      }
    }
  }

  // ------------------------------------------------------- what moves leave alone

  /** What the environment's moves, alone, leave as it was. */
  predicate Drift(fin: string, c: ClusterState, c': ClusterState) {
    && c'.children.Keys <= c.children.Keys
    && (forall id | id in c.children && !c.children[id].terminating :: id in c'.children)
    && (forall id | id in c'.children :: c'.children[id].terminating == c.children[id].terminating)
    && (Held(c, fin) ==> Held(c', fin))
    && (c.instance.Some? && c.instance.value.deleting && c'.instance.Some? ==> c'.instance.value.deleting)
    && (c.instance.None? ==> c'.instance.None?)
    && (c.instance.Some? && c'.instance.Some? ==> c.instance.value.version <= c'.instance.value.version)
    && (c.instance.Some? && c'.instance.Some? && c.instance.value.version == c'.instance.value.version ==>
          c.instance == c'.instance)
  }

  lemma MoveDrifts(fin: string, c: ClusterState, m: Move)
    ensures Drift(fin, c, AfterMove(c, m, fin))
  {
  }

  lemma DriftTrans(fin: string, a: ClusterState, b: ClusterState, c: ClusterState)
    requires Drift(fin, a, b) && Drift(fin, b, c)
    ensures Drift(fin, a, c)
  {
  }
}
