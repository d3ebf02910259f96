/** The runtime of one instance: which expressions are evaluated when, and which resources
    may be processed. The CEL evaluator is an oracle. */
module Runtime {
  import opened Ordering
  import opened Fieldpath
  import opened PathText
  import opened Values
  import opened Flatten
  import opened Resolution
  import opened Refilling
  import opened Graphs
  import opened Scoping
  import opened Statuses
  import opened DependencyGraph
  import opened ExprStates

  /** Compiling with the declared ids and evaluating in a context; `None` is an error. */
  type Oracle = (string, set<string>, map<string, Value>) -> Option<Value>

  datatype ResourceState = Resolved(obj: Value) | WaitingOnDependencies

  function FieldsOf(vars: seq<Variable>): (r: seq<FieldDescriptor>)
    ensures |r| == |vars|
  {
    seq(|vars|, i requires 0 <= i < |vars| => vars[i].field)
  }

  predicate Parsable(path: string) { Parse(path) != Spins && Parse(SkipDot(path)) != Spins }

  /** The expressions of a field refer exactly to its dependencies; it is dynamic iff it has any. */
  predicate FieldBuilt(v: Variable, refs: string -> set<string>) {
    && Elements(v.dependencies) == (set e, d | e in v.field.expressions && d in refs(e) :: d)
    && v.kind == (if v.dependencies == [] then Static else Dynamic)
    && (v.field.standalone ==> v.field.expressions != [])
    && Parsable(v.field.path)
  }

  /** What the graph builder and the flattening establish for one resource. */
  ghost predicate SpecBuilt(spec: ResourceSpec, ids: set<string>, refs: string -> set<string>) {
    && (forall v | v in spec.variables :: FieldBuilt(v, refs))
    && Elements(spec.dependencies) == (set v, d | v in spec.variables && d in v.dependencies :: d)
    && Elements(spec.dependencies) <= ids
    && spec.template.Obj?
    && exists ws :: Lists(spec.template, [], spec.kept, FieldsOf(spec.variables), ws)
  }

  ghost predicate InstanceBuilt(spec: ResourceSpec, ids: set<string>) {
    forall v | v in spec.variables ::
      && v.kind == Dynamic && v.dependencies != [] && Elements(v.dependencies) <= ids
      && v.field.expressions != [] && Parsable(v.field.path) && BelowStatus(v.field.path)
  }

  /** Conditions were checked to be boolean in the dry run. */
  ghost predicate Conditions(exprs: seq<string>, eval: Oracle) {
    forall e, ids, ctx | e in exprs :: eval(e, ids, ctx).Some? ==> eval(e, ids, ctx).value.Bool?
  }

  ghost predicate WellBuilt(resources: map<string, ResourceSpec>, instance: ResourceSpec, refs: string -> set<string>,
                            eval: Oracle)
  {
    && INSTANCE !in resources && SCHEMA !in resources
    && (forall id | id in resources :: SpecBuilt(resources[id], resources.Keys, refs))
    && InstanceBuilt(instance, resources.Keys)
    && (forall id | id in resources ::
          Conditions(resources[id].readyWhen, eval) && Conditions(resources[id].includeWhen, eval))
  }

  class ResourceGroupRuntime {
    const instance: ResourceSpec
    const resources: map<string, ResourceSpec>
    const topologicalOrder: seq<string>
    const eval: Oracle
    const format: Value -> string
    const runtimeVariables: Variables
    const expressionsCache: Cache
    ghost const states: set<ExprState>
    ghost const refs: string -> set<string>
    /** The order in which the map of resources was ranged over. */
    ghost const walk: seq<string>

    var instanceObject: Value
    var objects: map<string, Value>
    var resolvedResources: map<string, Value>
    var ignored: set<string>
    /** The walks of each resource's template that are filled in. */
    ghost var filled: map<string, set<Walk>>
    /** The results of the calls to `Synchronize`. */
    ghost var syncs: seq<bool>

    ghost function Fields(): seq<Variable> { FieldsIn(resources, walk) }

    /** The constant part: what the states are and how they are shared. */
    ghost predicate Structure() {
      && WellBuilt(resources, instance, refs, eval)
      && runtimeVariables.Keys == resources.Keys + {INSTANCE}
      && NoDup(walk) && Elements(walk) == resources.Keys
      && Wired(resources, runtimeVariables, resources.Keys, expressionsCache, Fields() + instance.variables,
               ReadyTexts(resources))
      && (forall id, s | id in resources && s in runtimeVariables[id] ::
            SeenIn(s, Fields()) || ReadyEntry(s, ReadyTexts(resources)))
      && Readied(expressionsCache, ReadyTexts(resources)) && Origins(resources, runtimeVariables, walk)
      && (forall e | e in expressionsCache :: expressionsCache[e] in states)
      && (forall id, s | id in runtimeVariables && s in runtimeVariables[id] :: s in states)
      && (forall e | e in expressionsCache :: expressionsCache[e].expression == e && StateBuilt(expressionsCache[e]))
    }

    /** Consequences for one state: a dynamic one has dependencies, all of them resources. */
    ghost predicate StateBuilt(s: ExprState) {
      && (s.kind == Dynamic ==> s.dependencies != [] && Elements(s.dependencies) <= resources.Keys)
      && s.kind != IncludeWhen
    }

    ghost predicate Valid()
      reads this`resolvedResources, this`objects, this`filled, states
    {
      && Structure()
      && resolvedResources.Keys <= resources.Keys
      && (forall s | s in states && s.resolved :: ResolvedRightly(s))
      && StagesOk()
    }

    /** Only cached static and dynamic states are ever resolved, dynamic ones after their dependencies. */
    ghost predicate ResolvedRightly(s: ExprState)
      reads this`resolvedResources
    {
      && s.expression in expressionsCache && expressionsCache[s.expression] == s
      && (s.kind == Static || (s.kind == Dynamic && Elements(s.dependencies) <= resolvedResources.Keys))
    }

    /** The values known so far. */
    ghost function Values(): map<string, Value>
      requires Structure()
      reads states
    {
      map e | e in expressionsCache && expressionsCache[e].resolved :: expressionsCache[e].value
    }

    ghost predicate StagesOk()
      requires Structure()
      reads this`objects, this`filled, states
    {
      objects.Keys == filled.Keys == resources.Keys &&
      forall id | id in resources ::
        Stage(resources[id].template, resources[id].kept, objects[id], filled[id], Env(Values(), format))
    }

    ghost predicate Known(s: ExprState)
      reads this`resolvedResources
    {
      Elements(s.dependencies) <= resolvedResources.Keys
    }

    /** Every cached dynamic expression is resolved exactly if its dependencies are. */
    ghost predicate Settled()
      reads this`resolvedResources, states
    {
      Structure() &&
      forall e | e in expressionsCache && expressionsCache[e].kind == Dynamic ::
        expressionsCache[e].resolved <==> Known(expressionsCache[e])
    }

    predicate VariablesResolved(id: string)
      reads if id in runtimeVariables then Elements(runtimeVariables[id]) else {}
    {
      id in runtimeVariables ==> forall s | s in runtimeVariables[id] :: s.kind == Dynamic ==> s.resolved
    }

    ghost predicate CanProcess(id: string)
      requires Structure() && id in resources
      reads states
    {
      (forall d | d in resources[id].dependencies :: VariablesResolved(d)) && VariablesResolved(id)
    }

    /** Settled, and the templates of all resources that can be processed are filled in. */
    ghost predicate Synced()
      reads this`resolvedResources, this`objects, states
    {
      Settled() && objects.Keys == resources.Keys &&
      forall id | id in resources && id !in resolvedResources && CanProcess(id) ::
        Filled(id, objects[id])
    }

    /** The object is the resource's template with every listed string filled in. */
    ghost predicate Filled(id: string, obj: Value)
      requires Structure() && id in resources
      reads states
    {
      Complete(resources[id].template, resources[id].kept, obj, Env(Values(), format))
    }

    /** A dynamic expression whose dependencies are set cannot be evaluated. */
    ghost predicate EvaluationFails()
      requires Structure()
      reads this`resolvedResources, this`instanceObject, states
    {
      exists e :: e in expressionsCache && CannotEvaluate(expressionsCache[e])
    }

    ghost predicate CannotEvaluate(s: ExprState)
      reads this`resolvedResources, this`instanceObject, s
    {
      s.kind == Dynamic && !s.resolved && Known(s)
      && eval(s.expression, resolvedResources.Keys + {SCHEMA}, ContextOf(s, instanceObject)) == None
    }

    /** A static expression cannot be evaluated. */
    ghost predicate StaticFails()
      reads this`instanceObject
    {
      exists e :: e in expressionsCache && expressionsCache[e].kind == Static
        && eval(e, {SCHEMA}, map[SCHEMA := instanceObject]) == None
    }

    /** A resource that can be processed lacks the value of an expression. */
    ghost predicate PropagationFails()
      requires Structure()
      reads states
    {
      exists id :: id in resources && CanProcess(id) && Lacking(resources[id].template, resources[id].kept,
                                                                Env(Values(), format))
    }

    /** Nothing resolved is lost or changed. */
    twostate predicate Monotone()
      reads states
    {
      forall s | s in states && old(s.resolved) :: s.resolved && s.value == old(s.value)
    }

    // ----------------------------------------------------------- evaluation

    /** The context an expression is evaluated in: its dependencies as observed, and the instance. */
    ghost function ContextOf(s: ExprState, obj: Value): map<string, Value>
      reads this`resolvedResources
    {
      (map d | d in s.dependencies && d in resolvedResources :: resolvedResources[d])[SCHEMA := obj]
    }

    /** What `s` was resolved to is what the evaluator gave. */
    ghost predicate EvaluatedWith(s: ExprState, obj: Value)
      reads this`resolvedResources, s
    {
      s.kind == Dynamic && eval(s.expression, resolvedResources.Keys + {SCHEMA}, ContextOf(s, obj)) == Some(s.value)
    }

    /** A state becomes resolved; no template filled in so far is affected. */
    method Record(s: ExprState, v: Value)
      requires Valid() && s in states && !s.resolved
      requires s.expression in expressionsCache && expressionsCache[s.expression] == s
      requires s.kind == Static || (s.kind == Dynamic && Known(s))
      modifies s
      ensures Valid() && s.resolved && s.value == v
      ensures Knows(old(Values()), Values())
    {
      hide Structure, Stage;
      ghost var before := Values();
      s.resolved, s.value := true, v;
      CacheKeys();
      assert Knows(before, Values());
      forall id | id in resources
        ensures Stage(resources[id].template, resources[id].kept, objects[id], filled[id], Env(Values(), format))
      {
        StageStays(resources[id].template, resources[id].kept, objects[id], filled[id], before, Values(), format);
      }
    }

    lemma CacheKeys()
      requires Structure()
      ensures forall e | e in expressionsCache :: expressionsCache[e] in states && expressionsCache[e].expression == e
      ensures forall e | e in expressionsCache :: StateBuilt(expressionsCache[e])
    {
    }

    /** `containsAllElements`. */
    method ContainsAllElements(outer: set<string>, inner: seq<string>) returns (all: bool)
      ensures all <==> Elements(inner) <= outer
    {
      for i := 0 to |inner|
        invariant forall j | 0 <= j < i :: inner[j] in outer
      {
        if inner[i] !in outer {
          assert inner[i] in Elements(inner);
          return false;
        }
      }
      return true;
    }

    /** The body of the loop of `evaluateDynamicVariables`. */
    method EvaluateDynamicVariable(s: ExprState) returns (ok: bool)
      requires Valid() && s in states && s.expression in expressionsCache && expressionsCache[s.expression] == s
      modifies s
      ensures Valid() && (old(s.resolved) ==> s.resolved && s.value == old(s.value))
      ensures ok && s.kind == Dynamic ==> (s.resolved <==> Known(s))
      ensures !ok ==> CannotEvaluate(s)
      ensures s.resolved && !old(s.resolved) ==> EvaluatedWith(s, instanceObject)
    {
      hide Structure, StagesOk;
      if s.kind != Dynamic || s.resolved {
        return true;
      }
      CacheKeys();
      SchemaIsNoResource();
      var declared := resolvedResources.Keys + {SCHEMA};
      var all := ContainsAllElements(declared, s.dependencies);
      if |s.dependencies| > 0 && !all {
        return true;
      }
      assert Known(s) by {
        forall d | d in Elements(s.dependencies) ensures d in resolvedResources {
          assert d in declared && d in resources;
        }
      }
      var context: map<string, Value> := map[];
      for i := 0 to |s.dependencies|
        invariant context == map d | d in s.dependencies[..i] && d in resolvedResources :: resolvedResources[d]
      {
        var dep := s.dependencies[i];
        assert s.dependencies[..i + 1] == s.dependencies[..i] + [dep];
        assert dep in Elements(s.dependencies);
        context := context[dep := resolvedResources[dep]];
      }
      assert s.dependencies[..|s.dependencies|] == s.dependencies;
      context := context[SCHEMA := instanceObject];
      var value := eval(s.expression, declared, context);
      if !value.Some? {
        return false;
      }
      Record(s, value.value);
      return true;
    }

    lemma SchemaIsNoResource()
      requires Structure()
      ensures SCHEMA !in resources
    {
    }

    /** `evaluateDynamicVariables`: stops at the first expression that cannot be evaluated. */
    method EvaluateDynamicVariables() returns (ok: bool)
      requires Valid()
      modifies states
      ensures Valid() && Monotone()
      ensures ok ==> Settled()
      ensures !ok ==> EvaluationFails()
      ensures forall s | s in states && s.resolved && !old(s.resolved) :: EvaluatedWith(s, instanceObject)
    {
      hide Structure, StagesOk;
      CacheKeys();
      var todo := expressionsCache.Keys;
      while todo != {}
        invariant todo <= expressionsCache.Keys
        invariant Valid() && Monotone()
        invariant forall e | e in expressionsCache && e !in todo && expressionsCache[e].kind == Dynamic ::
          expressionsCache[e].resolved <==> Known(expressionsCache[e])
        invariant forall s | s in states && s.resolved && !old(s.resolved) :: EvaluatedWith(s, instanceObject)
        decreases |todo|
      {
        var e :| e in todo;
        ok := EvaluateDynamicVariable(expressionsCache[e]);
        if !ok {
          return;
        }
        todo := todo - {e};
      }
      ok := true;
    }

    /** `evaluateStaticVariables`. */
    method EvaluateStaticVariables() returns (ok: bool)
      requires Valid()
      requires forall s | s in states :: !s.resolved
      modifies states
      ensures Valid()
      ensures forall s | s in states && s.resolved ::
        s.kind == Static && eval(s.expression, {SCHEMA}, map[SCHEMA := instanceObject]) == Some(s.value)
      ensures ok ==> forall e | e in expressionsCache ::
        expressionsCache[e].resolved <==> expressionsCache[e].kind == Static
      ensures !ok ==> StaticFails()
    {
      hide Structure, StagesOk;
      CacheKeys();
      var todo := expressionsCache.Keys;
      while todo != {}
        invariant todo <= expressionsCache.Keys
        invariant Valid()
        invariant forall e | e in expressionsCache ::
          expressionsCache[e].resolved <==> expressionsCache[e].kind == Static && e !in todo
        invariant forall s | s in states && s.resolved ::
          s.kind == Static && eval(s.expression, {SCHEMA}, map[SCHEMA := instanceObject]) == Some(s.value)
        decreases |todo|
      {
        var e :| e in todo;
        var s := expressionsCache[e];
        if s.kind == Static {
          var value := eval(e, {SCHEMA}, map[SCHEMA := instanceObject]);
          if !value.Some? {
            return false;
          }
          Record(s, value.value);
        }
        todo := todo - {e};
      }
      ok := true;
    }

    // ---------------------------------------------------------- propagation

    /** `resourceVariablesResolved`. */
    method ResourceVariablesResolved(id: string) returns (r: bool)
      ensures r == VariablesResolved(id)
    {
      if id in runtimeVariables {
        for i := 0 to |runtimeVariables[id]|
          invariant forall j | 0 <= j < i ::
            runtimeVariables[id][j].kind == Dynamic ==> runtimeVariables[id][j].resolved
        {
          var s := runtimeVariables[id][i];
          if s.kind == Dynamic && !s.resolved {
            return false;
          }
        }
      }
      return true;
    }

    /** `canProcessResource`. */
    method CanProcessResource(id: string) returns (r: bool)
      requires Structure() && id in resources
      ensures r <==> CanProcess(id)
    {
      hide Structure;
      var deps := resources[id].dependencies;
      for i := 0 to |deps|
        invariant forall j | 0 <= j < i :: VariablesResolved(deps[j])
      {
        var fine := ResourceVariablesResolved(deps[i]);
        if !fine {
          assert deps[i] in deps;
          return false;
        }
      }
      r := ResourceVariablesResolved(id);
    }

    method KnownValues() returns (values: map<string, Value>)
      requires Structure()
      ensures values == Values()
    {
      hide Structure;
      CacheKeys();
      values := map[];
      var todo := expressionsCache.Keys;
      while todo != {}
        invariant todo <= expressionsCache.Keys
        invariant values == map e | e in expressionsCache && e !in todo && expressionsCache[e].resolved ::
          expressionsCache[e].value
        decreases |todo|
      {
        var e :| e in todo;
        if expressionsCache[e].resolved {
          values := values[expressionsCache[e].expression := expressionsCache[e].value];
        }
        todo := todo - {e};
      }
    }

    /** `evaluateResourceExpressions`: resolves the resource in place with the values known so far. */
    method EvaluateResourceExpressions(id: string) returns (ok: bool)
      requires Valid() && id in resources
      modifies this`objects, this`filled
      ensures Valid()
      ensures objects == old(objects)[id := objects[id]]
      ensures ok ==> Filled(id, objects[id])
      ensures !ok ==> Lacking(resources[id].template, resources[id].kept, Env(Values(), format))
    {
      hide Structure, Stage, Complete, Lacking, ResolveAll, Leaves, Lists, ReadyAmong, Usable, ResolvedRightly;
      var exprValues := KnownValues();
      var spec := resources[id];
      var exprFields := FieldsOf(spec.variables);
      ghost var ws := SpecFacts(id);
      ghost var env := Env(exprValues, format);
      StageResolves(spec.template, spec.kept, objects[id], filled[id], exprFields, ws, env);
      var summary := ResolveAll(objects[id], exprFields, Env(exprValues, format));
      objects := objects[id := summary.tree];
      filled := filled[id := ReadyAmong(spec.template, spec.kept, env)];
      ok := summary.resolved == |exprFields|;
    }

    lemma SpecFacts(id: string) returns (ws: seq<Walk>)
      requires Structure() && id in resources
      ensures Usable(FieldsOf(resources[id].variables)) && resources[id].template.Obj?
      ensures Lists(resources[id].template, [], resources[id].kept, FieldsOf(resources[id].variables), ws)
    {
      hide Lists, Structure;
      SpecIsBuilt(id);
      var vars := resources[id].variables;
      forall i | 0 <= i < |vars| ensures vars[i].field.standalone ==> vars[i].field.expressions != [] {
        assert vars[i] in vars && FieldBuilt(vars[i], refs);
      }
      ws :| Lists(resources[id].template, [], resources[id].kept, FieldsOf(resources[id].variables), ws);
    }

    lemma SpecIsBuilt(id: string)
      requires Structure() && id in resources
      ensures SpecBuilt(resources[id], resources.Keys, refs)
    {
      hide SpecBuilt, Wired, SeenIn, ReadyEntry, StateBuilt;
    }

    /** `propagateResourceVariables`. */
    method PropagateResourceVariables() returns (ok: bool)
      requires Valid()
      modifies this`objects, this`filled
      ensures Valid()
      ensures ok ==> forall id | id in resources && CanProcess(id) :: Filled(id, objects[id])
      ensures !ok ==> PropagationFails()
    {
      hide Structure, StagesOk, Filled, Lacking, ResolvedRightly, CanProcess;
      ObjectKeys();
      var todo := resources.Keys;
      while todo != {}
        invariant todo <= resources.Keys && Valid() && objects.Keys == resources.Keys
        invariant forall id | id in resources && id !in todo && CanProcess(id) :: Filled(id, objects[id])
        decreases |todo|
      {
        var id :| id in todo;
        var can := CanProcessResource(id);
        if can {
          ok := EvaluateResourceExpressions(id);
          if !ok {
            return;
          }
        }
        todo := todo - {id};
      }
      ok := true;
    }

    lemma ObjectKeys()
      requires Valid()
      ensures objects.Keys == resources.Keys
    {
    }

    /** `evaluateInstanceStatuses`: writes the status fields whose expressions are resolved. */
    method EvaluateInstanceStatuses() returns (ok: bool)
      requires Valid()
      modifies this`instanceObject
      ensures Valid()
      ensures ok <==> WriteStatuses(old(instanceObject), instance.variables, Values()).Some?
      ensures ok ==> WriteStatuses(old(instanceObject), instance.variables, Values()) == Some(instanceObject)
      ensures SameButStatus(old(instanceObject), instanceObject)
    {
      hide Structure, StagesOk, Stage, ResolvedRightly, WritePath, Parsable, BelowStatus, SameButStatus;
      var vars := instance.variables;
      SameAsItself(instanceObject);
      for i := 0 to |vars|
        invariant Valid() && SameButStatus(old(instanceObject), instanceObject)
        invariant WriteStatuses(old(instanceObject), vars[..i], Values()) == Some(instanceObject)
      {
        var v := vars[i];
        assert vars[..i + 1][..i] == vars[..i];
        WritingStops(old(instanceObject), vars, i + 1, Values());
        StatusFieldFacts(v);
        var e := v.field.expressions[0];
        if e in expressionsCache && expressionsCache[e].resolved {
          var written := WritePath(instanceObject, v.field.path, expressionsCache[e].value);
          if !written.Some? {
            return false;
          }
          WriteBelowStatus(instanceObject, v.field.path, expressionsCache[e].value);
          SameButStatusTrans(old(instanceObject), instanceObject, written.value);
          instanceObject := written.value;
        }
      }
      assert vars[..|vars|] == vars;
      return true;
    }

    lemma StatusFieldFacts(v: Variable)
      requires Structure() && v in instance.variables
      ensures v.field.expressions != [] && Parsable(v.field.path) && BelowStatus(v.field.path)
    {
    }

    /** `allExpressionsAreResolved`. */
    method AllExpressionsAreResolved() returns (all: bool)
      ensures all <==> forall e | e in expressionsCache :: expressionsCache[e].resolved
    {
      var todo := expressionsCache.Keys;
      while todo != {}
        invariant todo <= expressionsCache.Keys
        invariant forall e | e in expressionsCache && e !in todo :: expressionsCache[e].resolved
        decreases |todo|
      {
        var e :| e in todo;
        if !expressionsCache[e].resolved {
          return false;
        }
        todo := todo - {e};
      }
      return true;
    }

    lemma AllResolvedIsSynced()
      requires Valid() && |resolvedResources| == |resources|
      requires forall e | e in expressionsCache :: expressionsCache[e].resolved
      ensures Synced()
    {
      hide Structure, StagesOk, Filled, CanProcess;
      ObjectKeys();
      CacheKeys();
      SubsetOfSameSize(resolvedResources.Keys, resources.Keys);
    }

    /** What one call of `Synchronize` can fail on; `obj` is the instance before it. */
    ghost predicate SyncFails(obj: Value)
      requires Structure()
      reads this`resolvedResources, this`instanceObject, states
    {
      EvaluationFails() || PropagationFails() || WriteStatuses(obj, instance.variables, Values()).None?
    }

    /** `Synchronize`. */
    method Synchronize() returns (again: bool, ok: bool)
      requires Valid()
      modifies states, this`objects, this`filled, this`instanceObject, this`syncs
      ensures Valid() && Monotone() && syncs == old(syncs) + [ok]
      ensures ok ==> Synced()
      ensures !ok ==> SyncFails(old(instanceObject))
      ensures forall s | s in states && s.resolved && !old(s.resolved) :: EvaluatedWith(s, old(instanceObject))
      ensures ok && again ==> WriteStatuses(old(instanceObject), instance.variables, Values()) == Some(instanceObject)
      ensures ok && !again ==> instanceObject == old(instanceObject)
      ensures SameButStatus(old(instanceObject), instanceObject)
    {
      hide WriteStatuses, Structure, StagesOk, Filled, Stage, ResolvedRightly, Settled, CanProcess, CannotEvaluate,
        PropagationFails;
      SameAsItself(instanceObject);
      again, ok := true, false;
      var all := AllExpressionsAreResolved();
      if all && |resolvedResources| == |resources| {
        AllResolvedIsSynced();
        again, ok := false, true;
      } else {
        ok := SynchronizeStates();
      }
      syncs := syncs + [ok];
    }

    /** The part after the early exit. */
    method SynchronizeStates() returns (ok: bool)
      requires Valid()
      modifies states, this`objects, this`filled, this`instanceObject
      ensures Valid() && Monotone()
      ensures ok ==> Synced()
      ensures !ok ==> SyncFails(old(instanceObject))
      ensures forall s | s in states && s.resolved && !old(s.resolved) :: EvaluatedWith(s, old(instanceObject))
      ensures ok ==> WriteStatuses(old(instanceObject), instance.variables, Values()) == Some(instanceObject)
      ensures SameButStatus(old(instanceObject), instanceObject)
    {
      hide SameButStatus, WriteStatuses, Structure, StagesOk, Filled, Stage, ResolvedRightly, Settled, CanProcess,
        CannotEvaluate, PropagationFails, EvaluatedWith;
      SameAsItself(instanceObject);
      ok := EvaluateDynamicVariables();
      if !ok {
        return;
      }
      ok := PropagateResourceVariables();
      if !ok {
        return;
      }
      ObjectKeys();
      ok := EvaluateInstanceStatuses();
    }

    // ---------------------------------------------------- the rest of the interface

    /** `GetResource`. A resource nobody has set is handed out as resolved only when everything
        it depends on was set, and then, after a successful synchronization, as its template with
        every expression replaced. */
    method GetResource(id: string) returns (state: ResourceState)
      requires Valid() && id in resources
      ensures state.Resolved? <==> id in resolvedResources || CanProcess(id)
      ensures id in resolvedResources ==> state == Resolved(resolvedResources[id])
      ensures id !in resolvedResources && state.Resolved? ==> state.obj == objects[id]
      ensures Apart(resources) && state.Resolved? && id !in resolvedResources ==>
        Elements(resources[id].dependencies) <= resolvedResources.Keys
      ensures Synced() && TameNow(id) && state.Resolved? && id !in resolvedResources ==>
        Elements(resources[id].dependencies) <= resolvedResources.Keys
      ensures Synced() && state.Resolved? && id !in resolvedResources ==> Filled(id, state.obj)
    {
      hide Structure, StagesOk, Filled, Apart, ResolvedRightly, CanProcess, TameNow;
      ObjectKeys();
      if id in resolvedResources {
        return Resolved(resolvedResources[id]);
      }
      var can := CanProcessResource(id);
      if can {
        if Apart(resources) {
          DependenciesWereSet(id);
        }
        if Synced() && TameNow(id) {
          DependenciesWereSetWhenSynced(id);
        }
        return Resolved(objects[id]);
      }
      return WaitingOnDependencies;
    }

    /** `SetResource`. */
    method SetResource(id: string, obj: Value)
      requires Valid() && id in resources
      modifies this`resolvedResources
      ensures Valid() && resolvedResources == old(resolvedResources)[id := obj]
    {
      hide Structure, Stage;
      resolvedResources := resolvedResources[id := obj];
    }

    /** `SetInstance`. */
    method SetInstance(obj: Value)
      requires Valid()
      modifies this`instanceObject
      ensures Valid() && instanceObject == obj
    {
      instanceObject := obj;
    }

    /** `IgnoreResource`. */
    method IgnoreResource(id: string)
      modifies this`ignored
      ensures ignored == old(ignored) + {id}
    {
      ignored := ignored + {id};
    }

    /** `areDependenciesIgnored`. */
    method AreDependenciesIgnored(id: string) returns (r: bool)
      requires id in resources
      ensures r <==> Elements(resources[id].dependencies) * ignored != {}
    {
      var deps := resources[id].dependencies;
      for i := 0 to |deps|
        invariant forall j | 0 <= j < i :: deps[j] !in ignored
      {
        if deps[i] in ignored {
          assert deps[i] in Elements(deps) * ignored;
          return true;
        }
      }
      assert forall d | d in Elements(deps) :: d !in ignored;
      return false;
    }

    /** All conditions of the resource hold of the instance as it is now. */
    predicate Included(id: string)
      requires id in resources
      reads this`instanceObject
    {
      IncludedFor(id, instanceObject)
    }

    /** All conditions of the resource hold of the instance `obj`. */
    predicate IncludedFor(id: string, obj: Value)
      requires id in resources
    {
      forall e | e in resources[id].includeWhen :: eval(e, {SCHEMA}, map[SCHEMA := obj]) == Some(Bool(true))
    }

    /** `WantToCreateResource`; a condition that is false is reported as an error, too. */
    method WantToCreateResource(id: string) returns (want: bool, err: bool)
      requires Valid() && id in resources
      ensures want <==> Elements(resources[id].dependencies) * ignored == {} && Included(id)
      ensures err <==> Elements(resources[id].dependencies) * ignored == {} && !Included(id)
    {
      hide Structure, StagesOk, ResolvedRightly;
      var skip := AreDependenciesIgnored(id);
      if skip {
        return false, false;
      }
      ConditionsAreBoolean(id);
      want, err := AllHold(resources[id].includeWhen, {SCHEMA}, map[SCHEMA := instanceObject]);
      err := !want;
    }

    /** The loop over conditions: up to the first that fails or is false. */
    method AllHold(exprs: seq<string>, env: set<string>, context: map<string, Value>) returns (hold: bool, err: bool)
      requires Conditions(exprs, eval)
      ensures hold <==> forall e | e in exprs :: eval(e, env, context) == Some(Bool(true))
      ensures err ==> !hold
    {
      for i := 0 to |exprs|
        invariant forall j | 0 <= j < i :: eval(exprs[j], env, context) == Some(Bool(true))
      {
        BooleanCondition(exprs, exprs[i], env, context);
        var out := eval(exprs[i], env, context);
        if !out.Some? {
          return false, true;
        }
        if !out.value.b {
          return false, false;
        }
      }
      return true, false;
    }

    lemma ConditionsAreBoolean(id: string)
      requires Structure() && id in resources
      ensures Conditions(resources[id].readyWhen, eval) && Conditions(resources[id].includeWhen, eval)
    {
    }

    lemma BooleanCondition(exprs: seq<string>, e: string, ids: set<string>, ctx: map<string, Value>)
      requires Conditions(exprs, eval) && e in exprs
      ensures eval(e, ids, ctx).Some? ==> eval(e, ids, ctx).value.Bool?
    {
    }

    /** All readiness conditions hold of the resource as observed. */
    predicate ReadyAsObserved(id: string)
      requires id in resources
      reads this`resolvedResources
    {
      id in resolvedResources && ReadyFor(id, resolvedResources[id])
    }

    /** All readiness conditions hold of the object. */
    predicate ReadyFor(id: string, obj: Value)
      requires id in resources
    {
      forall e | e in resources[id].readyWhen :: eval(e, {id}, map[id := obj]) == Some(Bool(true))
    }

    /** `IsResourceReady`. */
    method IsResourceReady(id: string) returns (ready: bool, err: bool)
      requires Valid() && id in resources
      ensures ready <==> ReadyAsObserved(id)
      ensures err ==> !ready && id in resolvedResources
    {
      hide Structure, StagesOk, ResolvedRightly;
      if id !in resolvedResources {
        return false, false;
      }
      ConditionsAreBoolean(id);
      ready, err := AllHold(resources[id].readyWhen, {id}, map[id := resolvedResources[id]]);
    }

    // -------------------------------------------------------------- progress

    /** What is known of every state of a resource. */
    lemma StateFacts(id: string, s: ExprState)
      requires Structure() && id in resources && s in runtimeVariables[id]
      ensures s in states && s.expression in expressionsCache && s.expression in Texts(resources[id].variables)
      ensures s.expression in ReadyTexts(resources) || expressionsCache[s.expression] == s
      ensures SeenIn(s, Fields()) || ReadyEntry(s, ReadyTexts(resources))
      ensures s.expression in ReadyTexts(resources) ==> expressionsCache[s.expression].kind == ReadyWhen
    {
      hide SeenIn, ReadyEntry, WellBuilt, StateBuilt, CacheOk, ReadyTexts, FieldsIn, Origins;
      var list := Texts(resources[id].variables);
      assert StatesOf(runtimeVariables[id], list, expressionsCache, Fields() + instance.variables,
                      ReadyTexts(resources));
      var i :| 0 <= i < |list| && runtimeVariables[id][i] == s;
    }

    lemma FieldKinds(s: ExprState)
      requires Structure() && SeenIn(s, Fields())
      ensures s.kind != ReadyWhen
    {
      hide Structure;
      WalkKeys();
      var v := FirstWith(Fields(), s.expression).value;
      FieldsAreOfResources(resources, walk, v);
      var id :| id in walk && id in resources && v in resources[id].variables;
      SpecIsBuilt(id);
      assert FieldBuilt(v, refs);
    }

    lemma WalkKeys()
      requires Structure()
      ensures NoDup(walk) && Elements(walk) == resources.Keys
    {
    }

    /** Exactly the fields whose texts are no readiness conditions keep a state of their own that
        is evaluated; any other field's state never gets a value. */
    lemma UsableIff(id: string, s: ExprState)
      requires Valid() && id in resources && s in runtimeVariables[id]
      ensures s.expression in expressionsCache
      ensures expressionsCache[s.expression] == s && s.kind != ReadyWhen <==> s.expression !in ReadyTexts(resources)
      ensures s.expression in ReadyTexts(resources) ==> !s.resolved && s.expression !in Values()
    {
      hide Structure, StagesOk, SeenIn, ReadyTexts;
      StateFacts(id, s);
      if s.expression !in ReadyTexts(resources) {
        FieldKinds(s);
      }
      var c := expressionsCache[s.expression];
      CacheKeys();
      assert s.resolved ==> ResolvedRightly(s);
      assert c.resolved ==> ResolvedRightly(c);
    }

    /** With readiness texts kept apart, the states of a resource are the cached ones and stem
        from the first field with their expression. */
    lemma StatesAreShared(id: string, s: ExprState)
      requires Structure() && Apart(resources) && id in resources && s in runtimeVariables[id]
      ensures s.expression in expressionsCache && expressionsCache[s.expression] == s && s in states
      ensures SeenIn(s, Fields())
      ensures s.expression in Texts(resources[id].variables)
    {
      hide Structure, SeenIn, ReadyTexts;
      StateFacts(id, s);
      TextsAreExpressions(resources[id].variables, s.expression);
    }

    /** Each dependency of a resource is a dependency of one of its dynamic states. */
    lemma Covered(id: string, d: string) returns (s: ExprState)
      requires Structure() && Apart(resources) && id in resources && d in resources[id].dependencies
      ensures s in runtimeVariables[id] && s.kind == Dynamic && d in s.dependencies
    {
      hide Structure, Apart, StatesOf, ReadyTexts, FieldsIn;
      SpecIsBuilt(id);
      assert d in Elements(resources[id].dependencies);
      var v :| v in resources[id].variables && d in v.dependencies;
      assert FieldBuilt(v, refs) && d in Elements(v.dependencies);
      var e :| e in v.field.expressions && d in refs(e);
      TextsHasAll(resources[id].variables, v, e);
      s := StateOf(id, e);
      StatesAreShared(id, s);
      FirstIsBuilt(e);
      assert d in Elements(FirstWith(Fields(), e).value.dependencies);
    }

    /** The first field with an expression is a built field. */
    lemma FirstIsBuilt(e: string)
      requires Structure() && FirstWith(Fields(), e).Some?
      ensures FieldBuilt(FirstWith(Fields(), e).value, refs)
    {
      hide Structure, FieldBuilt;
      var v := FirstWith(Fields(), e).value;
      FieldsAreOfResources(resources, walk, v);
      var id :| id in walk && id in resources && v in resources[id].variables;
      SpecIsBuilt(id);
    }

    lemma StateOf(id: string, e: string) returns (s: ExprState)
      requires Structure() && id in resources && e in Texts(resources[id].variables)
      ensures s in runtimeVariables[id] && s.expression == e
    {
      hide SeenIn, ReadyEntry, WellBuilt, StateBuilt, CacheOk, Texts, ReadyTexts, FieldsIn;
      var list := Texts(resources[id].variables);
      assert StatesOf(runtimeVariables[id], list, expressionsCache, Fields() + instance.variables,
                      ReadyTexts(resources));
      var i :| 0 <= i < |list| && list[i] == e;
      s := runtimeVariables[id][i];
    }

    /** A resource that can be processed has all its dependencies set. */
    lemma DependenciesWereSet(id: string)
      requires Valid() && Apart(resources) && id in resources && CanProcess(id)
      ensures Elements(resources[id].dependencies) <= resolvedResources.Keys
    {
      hide Structure, Apart, StagesOk;
      RuntimeKeys();
      forall d | d in resources[id].dependencies ensures d in resolvedResources {
        var s := Covered(id, d);
        StatesAreShared(id, s);
        assert s.resolved && ResolvedRightly(s);
        assert d in Elements(s.dependencies);
      }
    }

    /** All values for a tame template that was filled in are known. */
    lemma ExpressionsKnown(id: string, obj: Value, v: Variable, e: string)
      requires Valid() && id in resources && Filled(id, obj) && TameNow(id)
      requires v in resources[id].variables && e in v.field.expressions
      ensures e in Values()
    {
      hide Structure, StagesOk, CanProcess, Complete, Tame, Lists, Values, Settled, ResolvedRightly;
      var ws := SpecFacts(id);
      var vars := resources[id].variables;
      CompleteKnows(resources[id].template, resources[id].kept, obj, FieldsOf(vars), ws, Env(Values(), format));
      var i :| 0 <= i < |vars| && vars[i] == v;
      assert FieldsOf(vars)[i] == v.field;
    }

    /** The values known now leave the template's strings tame. */
    ghost predicate TameNow(id: string)
      requires Structure() && id in resources
      reads states
    {
      Tame(resources[id].template, resources[id].kept, Env(Values(), format))
    }

    /** What the evaluation of a known expression had to wait for was set. */
    lemma KnownAfterDependencies(e: string, v: Variable)
      requires Valid() && e in Values() && v in Fields() && e in v.field.expressions
      ensures refs(e) <= resolvedResources.Keys
    {
      hide StagesOk, FieldsIn, ReadyTexts, WellBuilt, StatesOf, Readied, StateBuilt, AllMade;
      var s := expressionsCache[e];
      assert ResolvedRightly(s);
      assert SeenIn(s, Fields() + instance.variables);
      FirstOfAppend(Fields(), instance.variables, e);
      assert FirstWith(Fields(), e).Some? by { assert Mentions(v, e); }
      FirstIsBuilt(e);
      var first := FirstWith(Fields(), e).value;
      forall d | d in refs(e) ensures d in resolvedResources {
        assert d in Elements(first.dependencies);
      }
    }

    /** In a synchronized runtime a resource with a tame template can be processed only after all its
        dependencies were set. */
    lemma DependenciesWereSetWhenSynced(id: string)
      requires Valid() && Synced() && id in resources && id !in resolvedResources && CanProcess(id) && TameNow(id)
      ensures Elements(resources[id].dependencies) <= resolvedResources.Keys
    {
      hide Structure, StagesOk, CanProcess, Filled, TameNow, Settled, Values, ResolvedRightly, FieldsIn;
      SpecIsBuilt(id);
      WalkKeys();
      forall d | d in resources[id].dependencies ensures d in resolvedResources {
        assert d in Elements(resources[id].dependencies);
        var v :| v in resources[id].variables && d in v.dependencies;
        assert FieldBuilt(v, refs) && d in Elements(v.dependencies);
        var e :| e in v.field.expressions && d in refs(e);
        ExpressionsKnown(id, objects[id], v, e);
        assert id in Elements(walk);
        FieldsAreOfResources(resources, walk, v);
        KnownAfterDependencies(e, v);
      }
    }

    /** No tame template is ever filled in that holds the text of a readiness condition. */
    lemma ReadinessTextIsNeverFilled(id: string, obj: Value, v: Variable, e: string)
      requires Valid() && id in resources && TameNow(id)
      requires v in resources[id].variables && e in v.field.expressions && e in ReadyTexts(resources)
      ensures !Filled(id, obj)
    {
      hide Structure, StagesOk, Filled, TameNow, Values, ReadyTexts;
      ReadyTextHasNoValue(e);
      if Filled(id, obj) {
        ExpressionsKnown(id, obj, v, e);
      }
    }

    /** So in a synchronized runtime such a resource, while it is not set, is never processed. */
    lemma ReadinessTextBlocks(id: string, v: Variable, e: string)
      requires Valid() && Synced() && id in resources && id !in resolvedResources && TameNow(id)
      requires v in resources[id].variables && e in v.field.expressions && e in ReadyTexts(resources)
      ensures !CanProcess(id)
    {
      hide Structure, StagesOk, CanProcess, Filled, TameNow, Settled, Values, ReadyTexts;
      ReadinessTextIsNeverFilled(id, objects[id], v, e);
    }

    lemma ReadyTextHasNoValue(e: string)
      requires Valid() && e in ReadyTexts(resources)
      ensures e !in Values()
    {
      hide StagesOk, ReadyTexts, WellBuilt, Wired, StateBuilt, SeenIn, ReadyEntry;
      assert forall s | s in states && s.resolved :: s.kind != ReadyWhen;
    }

    /** Where a state comes from. */
    lemma OriginOf(id: string, s: ExprState)
      requires Structure() && id in resources && s in runtimeVariables[id]
      ensures s.expression in Texts(resources[id].variables)
      ensures s.expression in ReadyAt(resources, IdsBefore(walk, id)) ==> s.kind == ReadyWhen
      ensures s.expression !in ReadyAt(resources, IdsBefore(walk, id)) ==> SeenIn(s, Fields())
    {
      hide SeenIn, WellBuilt, StateBuilt, Wired, ReadyAt, ReadyTexts, FieldsIn, Readied, Texts;
      assert id in walk by { assert id in Elements(walk); }
      var i :| 0 <= i < |runtimeVariables[id]| && runtimeVariables[id][i] == s;
      assert FromAt(runtimeVariables[id], Texts(resources[id].variables), Fields(),
                    ReadyAt(resources, IdsBefore(walk, id)));
    }

    /** A dynamic state shares the state of a field with dependencies. */
    lemma DynamicIsField(id: string, s: ExprState)
      requires Structure() && id in resources && s in runtimeVariables[id] && s.kind == Dynamic
      ensures FieldOf(resources, walk, id, s.expression).Some?
      ensures FieldOf(resources, walk, id, s.expression).value.dependencies == s.dependencies != []
    {
      hide Structure, FieldsIn, ReadyAt, FirstWith, Texts, IdsBefore;
      OriginOf(id, s);
      FirstIsBuilt(s.expression);
      NoElements(s.dependencies);
    }

    /** The state of a field with dependencies is dynamic. */
    lemma FieldIsDynamic(id: string, e: string) returns (s: ExprState)
      requires Structure() && id in resources && e in Texts(resources[id].variables)
      requires FieldOf(resources, walk, id, e).Some? && FieldOf(resources, walk, id, e).value.dependencies != []
      ensures s in runtimeVariables[id] && s.expression == e && s.kind == Dynamic
      ensures s.dependencies == FieldOf(resources, walk, id, e).value.dependencies
    {
      hide Structure, FieldsIn, ReadyAt, FirstWith, Texts, IdsBefore;
      s := StateOf(id, e);
      OriginOf(id, s);
      FirstIsBuilt(e);
    }

    /** After a synchronization, a resource can be processed exactly if none of its own states and of
        those of its dependencies lost its place in the cache to a readiness condition, and everything
        that they wait for is set. */
    lemma ProcessableIff(id: string)
      requires Valid() && Settled() && id in resources
      ensures CanProcess(id) <==> Processable(resources, walk, id, resolvedResources.Keys)
    {
      hide Structure, Known, WaitsFor, Dead, StagesOk;
      RuntimeKeys();
      SpecIsBuilt(id);
      VariablesResolvedIff(id);
      forall r | r in resources[id].dependencies
        ensures r in resources && (VariablesResolved(r) <==> Free(resources, walk, r, resolvedResources.Keys))
      {
        assert r in Elements(resources[id].dependencies);
        VariablesResolvedIff(r);
      }
    }

    lemma VariablesResolvedIff(id: string)
      requires Valid() && Settled() && id in resources
      ensures VariablesResolved(id) <==> Free(resources, walk, id, resolvedResources.Keys)
    {
      hide Structure, FieldOf, Texts, StagesOk, ReadyTexts;
      RuntimeKeys();
      if Free(resources, walk, id, resolvedResources.Keys) {
        forall s | s in runtimeVariables[id] && s.kind == Dynamic ensures s.resolved {
          DynamicResolved(id, s);
        }
      }
      if VariablesResolved(id) {
        forall e | e in Texts(resources[id].variables) && FieldOf(resources, walk, id, e).Some?
          ensures Elements(FieldOf(resources, walk, id, e).value.dependencies) <= resolvedResources.Keys
          ensures FieldOf(resources, walk, id, e).value.dependencies != [] ==> e !in ReadyTexts(resources)
        {
          FieldWasKnown(id, e);
        }
        forall d | d in WaitsFor(resources, walk, id) ensures d in resolvedResources {
          var e :| e in Texts(resources[id].variables) && FieldOf(resources, walk, id, e).Some?
            && d in FieldOf(resources, walk, id, e).value.dependencies;
          assert d in Elements(FieldOf(resources, walk, id, e).value.dependencies);
        }
      }
    }

    lemma DynamicResolved(id: string, s: ExprState)
      requires Settled() && id in resources && s in runtimeVariables[id] && s.kind == Dynamic
      requires Free(resources, walk, id, resolvedResources.Keys)
      ensures s.resolved
    {
      hide Structure, FieldOf, Texts, ReadyTexts;
      DynamicIsField(id, s);
      StateFacts(id, s);
      forall d | d in Elements(s.dependencies) ensures d in resolvedResources {
        assert d in WaitsFor(resources, walk, id);
      }
    }

    lemma FieldWasKnown(id: string, e: string)
      requires Valid() && Settled() && id in resources && VariablesResolved(id) && id in runtimeVariables
      requires e in Texts(resources[id].variables) && FieldOf(resources, walk, id, e).Some?
      ensures Elements(FieldOf(resources, walk, id, e).value.dependencies) <= resolvedResources.Keys
      ensures FieldOf(resources, walk, id, e).value.dependencies != [] ==> e !in ReadyTexts(resources)
    {
      hide Structure, FieldOf, Texts, StagesOk, ReadyTexts;
      NoElements(FieldOf(resources, walk, id, e).value.dependencies);
      if FieldOf(resources, walk, id, e).value.dependencies != [] {
        var s := FieldIsDynamic(id, e);
        StateFacts(id, s);
        assert s.resolved && ResolvedRightly(s);
      }
    }

    lemma RuntimeKeys()
      requires Structure()
      ensures runtimeVariables.Keys == resources.Keys + {INSTANCE}
    {
    }

    /** Where sharing keeps nothing waiting for anything else, a resource can be processed as soon as
        its dependencies are set, if those of everything set are. */
    lemma ProgressWhenScoped(id: string)
      requires Valid() && Settled() && Scoped(resources) && id in resources
      requires Elements(resources[id].dependencies) <= resolvedResources.Keys
      requires forall x | x in resolvedResources ::
        x in resources && DependencyRelation(resources)[x] <= resolvedResources.Keys
      ensures CanProcess(id)
    {
      hide Structure, Scoped, Processable, CanProcess, StagesOk;
      ProcessableIff(id);
      WalkKeys();
      ProcessableWhenClosed(resources, walk, id, resolvedResources.Keys);
    }

    /** A state with a foreign dependency that is not set keeps its resource waiting. */
    lemma ForeignDependencyBlocks(id: string, s: ExprState, d: string)
      requires Valid() && id in resources && s in runtimeVariables[id] && s.kind == Dynamic
      requires d in s.dependencies && d !in resolvedResources
      ensures !CanProcess(id)
    {
      hide Structure, StagesOk;
      RuntimeKeys();
      StatesKnown(id, s);
      assert d in Elements(s.dependencies);
      assert s.resolved ==> ResolvedRightly(s);
    }

    lemma StatesKnown(id: string, s: ExprState)
      requires Structure() && id in runtimeVariables && s in runtimeVariables[id]
      ensures s in states
    {
    }

    constructor (instance: ResourceSpec, instanceObject: Value, resources: map<string, ResourceSpec>,
                 order: seq<string>, eval: Oracle, format: Value -> string,
                 rv: Variables, cache: Cache, ghost made: set<ExprState>, ghost refs: string -> set<string>,
                 ghost walk: seq<string>)
      requires WellBuilt(resources, instance, refs, eval) && Ranges(resources, walk)
      requires rv.Keys == resources.Keys + {INSTANCE}
      requires Wired(resources, rv, resources.Keys, cache, FieldsIn(resources, walk) + instance.variables,
                     ReadyTexts(resources))
      requires forall id, s | id in resources && s in rv[id] ::
        SeenIn(s, FieldsIn(resources, walk)) || ReadyEntry(s, ReadyTexts(resources))
      requires Readied(cache, ReadyTexts(resources)) && Origins(resources, rv, walk)
      requires AllMade(made, cache, rv)
      ensures Structure() && Fresh() && ignored == {}
      ensures this.resources == resources && this.instance == instance && this.instanceObject == instanceObject
      ensures topologicalOrder == order && this.eval == eval && this.format == format && states == made
      ensures this.refs == refs && this.walk == walk && syncs == []
      ensures runtimeVariables == rv && expressionsCache == cache
    {
      hide WellBuilt, StatesOf, SeenIn, ReadyEntry, FieldsIn, ReadyTexts, Stage, Readied;
      this.instance, this.instanceObject, this.resources := instance, instanceObject, resources;
      topologicalOrder, this.eval, this.format := order, eval, format;
      runtimeVariables, expressionsCache, states, this.refs, this.walk := rv, cache, made, refs, walk;
      syncs := [];
      resolvedResources, ignored := map[], {};
      objects, filled := map id | id in resources :: resources[id].template, map id | id in resources :: {};
      CachedStatesBuilt(resources, instance, refs, eval, cache, walk);
      new;
    }

    lemma StillSettled()
      requires Valid() && resolvedResources == map[]
      requires forall e | e in expressionsCache :: expressionsCache[e].resolved <==> expressionsCache[e].kind == Static
      ensures Settled()
    {
      hide Structure, StagesOk;
      CacheKeys();
      forall e | e in expressionsCache && expressionsCache[e].kind == Dynamic ensures !Known(expressionsCache[e]) {
        assert expressionsCache[e].dependencies[0] in Elements(expressionsCache[e].dependencies);
      }
    }

    /** Nothing is set, resolved or filled in yet. */
    ghost predicate Fresh()
      reads this`resolvedResources, this`objects, this`filled, states
    {
      && resolvedResources == map[]
      && objects == (map id | id in resources :: resources[id].template)
      && filled == (map id | id in resources :: {})
      && forall s | s in states :: !s.resolved
    }

    lemma StartsValid()
      requires Structure() && Fresh()
      ensures Valid() && Settled()
    {
      hide Structure, Stage;
      CacheKeys();
      forall e | e in expressionsCache && expressionsCache[e].kind == Dynamic ensures !Known(expressionsCache[e]) {
        assert expressionsCache[e].dependencies[0] in Elements(expressionsCache[e].dependencies);
      }
      forall id | id in resources
        ensures Stage(resources[id].template, resources[id].kept, objects[id], filled[id], Env(Values(), format))
      {
        StageStarts(resources[id].template, resources[id].kept, Env(Values(), format));
      }
    }
  }

  /** `NewResourceGroupRuntime`: static expressions are evaluated at once. */
  method NewResourceGroupRuntime(instance: ResourceSpec, instanceObject: Value, resources: map<string, ResourceSpec>,
                                 order: seq<string>, walk: seq<string>, eval: Oracle, format: Value -> string,
                                 ghost refs: string -> set<string>)
    returns (rt: ResourceGroupRuntime, ok: bool)
    requires WellBuilt(resources, instance, refs, eval) && Ranges(resources, walk)
    ensures fresh(rt) && fresh(rt.states)
    ensures rt.Valid() && rt.resolvedResources == map[] && rt.ignored == {} && rt.instanceObject == instanceObject
    ensures rt.resources == resources && rt.instance == instance && rt.topologicalOrder == order && rt.walk == walk
    ensures rt.eval == eval && rt.format == format && rt.refs == refs && rt.syncs == []
    ensures ok ==> rt.Synced()
    ensures !ok ==> rt.StaticFails() || rt.PropagationFails()
    ensures ok ==> forall e | e in rt.expressionsCache ::
      rt.expressionsCache[e].resolved <==> rt.expressionsCache[e].kind == Static
  {
    hide WellBuilt, Wired, SeenIn, ReadyEntry, Readied, ReadyTexts, FieldsIn, Origins,
      ResourceGroupRuntime.Structure, ResourceGroupRuntime.Filled, ResourceGroupRuntime.CanProcess,
      ResourceGroupRuntime.PropagationFails;
    NoInstanceResource(resources, instance, refs, eval);
    var rv, cache;
    ghost var made;
    rv, cache, made := BuildStates(resources, instance, walk);
    rt := new ResourceGroupRuntime(instance, instanceObject, resources, order, eval, format, rv, cache, made, refs,
                                   walk);
    rt.StartsValid();
    ok := rt.EvaluateStaticVariables();
    if ok {
      rt.StillSettled();
      ok := rt.PropagateResourceVariables();
      rt.ObjectKeys();
    }
  }

  lemma NoInstanceResource(resources: map<string, ResourceSpec>, instance: ResourceSpec, refs: string -> set<string>,
                           eval: Oracle)
    requires WellBuilt(resources, instance, refs, eval)
    ensures INSTANCE !in resources
  {
  }

  /** What the builder's and the wiring's properties say of the cached states. */
  lemma CachedStatesBuilt(resources: map<string, ResourceSpec>, instance: ResourceSpec, refs: string -> set<string>,
                          eval: Oracle, cache: Cache, walk: seq<string>)
    requires WellBuilt(resources, instance, refs, eval)
    requires CacheOk(cache, FieldsIn(resources, walk) + instance.variables, ReadyTexts(resources))
    ensures forall e | e in cache :: cache[e].expression == e && cache[e].kind != IncludeWhen
    ensures forall e | e in cache && cache[e].kind == Dynamic ::
      cache[e].dependencies != [] && Elements(cache[e].dependencies) <= resources.Keys
  {
    hide FieldsIn, FirstWith, ReadyTexts;
    forall e | e in cache
      ensures cache[e].kind != IncludeWhen
      ensures cache[e].kind == Dynamic ==>
        cache[e].dependencies != [] && Elements(cache[e].dependencies) <= resources.Keys
    {
      if cache[e].kind != ReadyWhen {
        var fields := FieldsIn(resources, walk) + instance.variables;
        var v := FirstWith(fields, cache[e].expression).value;
        FieldsAreOfResources(resources, walk, v);
        if v in FieldsIn(resources, walk) {
          var id :| id in walk && id in resources && v in resources[id].variables;
          assert SpecBuilt(resources[id], resources.Keys, refs) && FieldBuilt(v, refs);
          forall d | d in v.dependencies ensures d in resources {
            assert d in Elements(resources[id].dependencies);
          }
        }
      }
    }
  }

  /** No readiness condition has the text of a field expression. */
  ghost predicate Apart(resources: map<string, ResourceSpec>) {
    forall id, v, e | id in resources && v in resources[id].variables && e in v.field.expressions ::
      e !in ReadyTexts(resources)
  }
}
