/** The API server as the controller sees it: before every call the environment makes the moves
    of its schedule, and any call may fail, before or after it has taken effect. */
module ClusterModule {
  import opened Ordering
  import opened Fieldpath
  import opened Values
  import opened Graphs
  import opened Finalizers
  import opened Protocol

  datatype Fault = Works | FailsBefore | FailsAfter

  datatype GetReply = Found(content: Value) | NotFound | GetFailed

  datatype DeleteReply = DeleteStarted | NothingToDelete | DeleteFailed

  /** All of them exist, and none is on its way out. */
  predicate AllThere(ids: set<string>, c: ClusterState) {
    forall d | d in ids :: d in c.children && !c.children[d].terminating
  }

  /** The instance is stored as in the copy, or is gone with its last finalizer. */
  predicate Shows(c: ClusterState, copy: Instance) {
    if c.instance.Some? then
      && c.instance.value.content == copy.content && c.instance.value.finalizers == copy.finalizers
      && c.instance.value.version == copy.version + 1
    else NoFinalizers(copy.finalizers)
  }

  predicate NoneTerminating(c: ClusterState) {
    forall id | id in c.children :: !c.children[id].terminating
  }

  /** A child the controller was shown. */
  datatype Observation = Observation(id: string, content: Value)

  class Cluster {
    const g: Graph
    const fin: string
    /** The schedule, by number of calls made so far. */
    const moves: nat -> seq<Move>
    const faults: nat -> Fault
    const immediate: nat -> bool

    var calls: nat
    var state: ClusterState
    ghost var run: seq<ClusterState>
    /** The ids of the create and delete requests sent, and what the lookups have shown. */
    ghost var created: seq<string>
    ghost var deleted: seq<string>
    ghost var shown: seq<Observation>
    /** The copies of the instance sent in update requests. */
    ghost var updates: seq<Instance>
    /** The content of the last create request. */
    ghost var sent: Value
    /** How many delete requests met an existing child, and how many calls were answered by an error. */
    ghost var hits: nat
    ghost var failures: nat

    ghost predicate Valid()
      reads this
    {
      run != [] && run[|run| - 1] == state
    }

    /** All writes so far kept to the discipline. */
    ghost predicate Lawful()
      reads this
    {
      Valid() && IsRun(g, fin, run)
    }

    /** Nobody else moves and no call fails. */
    ghost predicate Quiet() {
      forall k: nat :: moves(k) == [] && faults(k) == Works
    }

    constructor (g: Graph, fin: string, moves: nat -> seq<Move>, faults: nat -> Fault, immediate: nat -> bool,
                 state: ClusterState, ghost run: seq<ClusterState>)
      requires IsRun(g, fin, run) && run[|run| - 1] == state
      ensures Lawful() && this.state == state && this.run == run && created == [] && deleted == [] && hits == 0
      ensures this.g == g && this.fin == fin && this.moves == moves && this.faults == faults
      ensures this.immediate == immediate
    {
      this.g, this.fin, this.moves, this.faults, this.immediate := g, fin, moves, faults, immediate;
      this.state, this.run := state, run;
      calls, created, deleted, shown, updates, hits, failures := 0, [], [], [], [], 0, 0;
    }

    lemma Kept()
      requires Lawful()
      ensures Inv(g, fin, state)
    {
      RunKeepsInv(g, fin, run, |run| - 1);
    }

    ghost method Extend(next: ClusterState)
      requires Valid()
      modifies this`run
      ensures run == old(run) + [next]
      ensures old(Lawful()) && Step(g, fin, state, next) ==> IsRun(g, fin, run)
    {
      hide Step;
      run := run + [next];
    }

    /** The environment's moves before the next call. */
    method Elapse()
      requires Valid()
      modifies this`state, this`run, this`calls
      ensures Valid() && (old(Lawful()) ==> Lawful())
      ensures Drift(fin, old(state), state) && old(run) <= run && (Quiet() ==> state == old(state))
    {
      hide AfterMove, Drift, IsRun, Step;
      var todo := moves(calls);
      calls := calls + 1;
      NoDrift(state);
      for i := 0 to |todo|
        invariant Valid() && Drift(fin, old(state), state) && old(run) <= run
        invariant old(Lawful()) ==> Lawful()
        invariant Quiet() ==> state == old(state)
      {
        MoveDrifts(fin, state, todo[i]);
        DriftTrans(fin, old(state), state, AfterMove(state, todo[i], fin));
        MoveIsStep(state, todo[i]);
        Extend(AfterMove(state, todo[i], fin));
        state := AfterMove(state, todo[i], fin);
      }
    }

    lemma NoDrift(c: ClusterState)
      ensures Drift(fin, c, c)
    {
    }

    lemma MoveIsStep(c: ClusterState, m: Move)
      ensures Step(g, fin, c, AfterMove(c, m, fin))
    {
    }

    lemma ActionIsStep(c: ClusterState, a: Action)
      requires Legal(g, fin, c, a)
      ensures Step(g, fin, c, AfterAction(c, a, fin))
    {
    }

    method Act(a: Action)
      requires Valid()
      modifies this`state, this`run
      ensures Valid() && state == AfterAction(old(state), a, fin) && old(run) <= run
      ensures old(Lawful()) && Legal(g, fin, old(state), a) ==> Lawful()
    {
      hide AfterAction, IsRun, Step, Legal;
      if Legal(g, fin, state, a) {
        ActionIsStep(state, a);
      }
      Extend(AfterAction(state, a, fin));
      state := AfterAction(state, a, fin);
    }

    method GetChild(id: string) returns (r: GetReply)
      requires Valid()
      modifies this`state, this`run, this`calls, this`shown, this`failures
      ensures Valid() && (old(Lawful()) ==> Lawful())
      ensures Drift(fin, old(state), state) && old(run) <= run && (Quiet() ==> state == old(state) && !r.GetFailed?)
      ensures r.Found? ==> id in state.children && r.content == state.children[id].content
      ensures r.NotFound? ==> id !in state.children
      ensures shown == if r.Found? then old(shown) + [Observation(id, r.content)] else old(shown)
      ensures failures == if r.GetFailed? then old(failures) + 1 else old(failures)
    {
      hide Drift, IsRun;
      var fault := faults(calls);
      Elapse();
      if fault != Works {
        failures := failures + 1;
        return GetFailed;
      }
      if id in state.children {
        shown := shown + [Observation(id, state.children[id].content)];
        return Found(state.children[id].content);
      }
      return NotFound;
    }

    method GetInstance() returns (r: Option<Instance>, failed: bool)
      requires Valid()
      modifies this`state, this`run, this`calls, this`failures
      ensures Valid() && (old(Lawful()) ==> Lawful())
      ensures Drift(fin, old(state), state) && old(run) <= run
      ensures !failed ==> r == state.instance
      ensures failures == if failed then old(failures) + 1 else old(failures)
    {
      hide Drift, IsRun;
      var fault := faults(calls);
      Elapse();
      if fault != Works {
        failures := failures + 1;
        return None, true;
      }
      return state.instance, false;
    }

    /** Within the discipline if the instance is held and what the new child depends on exists and
        is not on its way out. */
    method Create(id: string, content: Value) returns (ok: bool)
      requires Valid() && Held(state, fin)
      modifies this`state, this`run, this`calls, this`created, this`sent, this`failures
      ensures Valid() && old(run) <= run && created == old(created) + [id] && sent == content && Held(state, fin)
      ensures old(Lawful()) && id in g && AllThere(g[id], old(state)) ==> Lawful()
      ensures old(NoneTerminating(state)) ==> NoneTerminating(state)
      ensures old(NoneTerminating(state)) ==>
        old(state.children.Keys) <= state.children.Keys <= old(state.children.Keys) + {id}
      ensures ok ==> id in state.children
      ensures id in state.children && id !in old(state.children) ==> state.children[id] == Child(content, false)
      ensures failures == if ok then old(failures) else old(failures) + 1
    {
      hide IsRun;
      var fault := faults(calls);
      Elapse();
      created, sent := created + [id], content;
      if fault == FailsBefore || id in state.children {
        failures := failures + 1;
        return false;
      }
      Act(CreateChild(id, content));
      if fault != Works {
        failures := failures + 1;
      }
      return fault == Works;
    }

    /** Within the discipline if nothing existing depends on the child and the instance is being
        deleted. */
    method Delete(id: string) returns (r: DeleteReply)
      requires Valid()
      modifies this`state, this`run, this`calls, this`deleted, this`hits, this`failures
      ensures hits <= old(hits) + 1 && (r.NothingToDelete? ==> hits == old(hits))
      ensures (r.DeleteStarted? ==> hits == old(hits) + 1)
      ensures Valid() && old(run) <= run && deleted == old(deleted) + [id]
      ensures old(Lawful() && NoDependents(g, state, id) && Held(state, fin) && state.instance.value.deleting) ==>
        Lawful()
      ensures Held(old(state), fin) && old(state).instance.value.deleting ==>
        Held(state, fin) && state.instance.value.deleting
      ensures state.children.Keys <= old(state.children.Keys)
      ensures r.NothingToDelete? ==> id !in state.children
      ensures r.DeleteStarted? ==> id in old(state.children)
      ensures r.DeleteStarted? && id in state.children ==> state.children[id].terminating
      ensures Quiet() ==> !r.DeleteFailed? && (r.DeleteStarted? <==> id in old(state.children))
      ensures Quiet() && r.NothingToDelete? ==> state == old(state)
      ensures failures == if r.DeleteFailed? then old(failures) + 1 else old(failures)
    {
      hide IsRun;
      var fault, at := faults(calls), calls;
      Elapse();
      deleted := deleted + [id];
      if fault == FailsBefore || (fault == FailsAfter && id !in state.children) {
        failures := failures + 1;
        return DeleteFailed;
      }
      if id !in state.children {
        return NothingToDelete;
      }
      Act(DeleteChild(id, immediate(at)));
      hits := hits + 1;
      if fault != Works {
        failures := failures + 1;
        return DeleteFailed;
      }
      return DeleteStarted;
    }

    /** Within the discipline if the finalizer stays on the copy or no child is left. */
    method Update(copy: Instance) returns (r: Option<Instance>)
      requires Valid()
      modifies this`state, this`run, this`calls, this`updates, this`failures
      ensures Valid() && old(run) <= run && updates == old(updates) + [copy]
      ensures r.Some? ==> Shows(state, copy)
      ensures old(Lawful()) && (Holds(copy.finalizers, fin) || old(state).children == map[]) ==> Lawful()
      ensures state.children.Keys <= old(state.children.Keys)
      ensures old(NoneTerminating(state)) ==> NoneTerminating(state) && state.children.Keys == old(state.children.Keys)
      ensures Holds(copy.finalizers, fin) && old(Held(state, fin)) ==> Held(state, fin)
      ensures r.Some? ==> r.value == copy.(version := copy.version + 1)
      ensures r.Some? && Holds(copy.finalizers, fin) ==> Held(state, fin)
      ensures failures == if r.Some? then old(failures) else old(failures) + 1
      ensures Quiet() && Accepts(old(state), copy, fin) ==>
        r.Some? && state == AfterAction(old(state), UpdateInstance(copy), fin)
    {
      hide IsRun;
      var fault := faults(calls);
      updates := updates + [copy];
      Elapse();
      if fault == FailsBefore || !Accepts(state, copy, fin) {
        failures := failures + 1;
        return None;
      }
      Act(UpdateInstance(copy));
      if fault != Works {
        failures := failures + 1;
        return None;
      }
      return Some(copy.(version := copy.version + 1));
    }
  }
}
