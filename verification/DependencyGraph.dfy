/** Inferring the dependency graph of a resource group from its CEL expressions.
    The AST inspector is an oracle from expression text to what it found. */
module DependencyGraph {
  import opened Ordering
  import opened Graphs
  import opened Dag

  datatype Inspection =
    | Inspected(resourceIds: seq<string>, unknownResources: seq<string>, unknownFunctions: seq<string>)
    | InspectError

  datatype Kind = Static | Dynamic | ReadyWhen | IncludeWhen

  datatype Extraction = Extracted(dependencies: seq<string>, isStatic: bool) | ExtractError

  /** A field holding expressions (`variable.ResourceField`). */
  class ResourceField {
    const expressions: seq<string>
    var kind: Kind
    var dependencies: seq<string>

    constructor (exprs: seq<string>)
      ensures expressions == exprs && kind == Static && dependencies == []
    {
      expressions := exprs;
      kind, dependencies := Static, [];
    }

    method AddDependencies(deps: seq<string>)
      requires NoDup(dependencies)
      modifies this`dependencies
      ensures NoDup(dependencies) && old(dependencies) <= dependencies
      ensures Elements(dependencies) == Elements(old(dependencies)) + Elements(deps)
    {
      for i := 0 to |deps|
        invariant NoDup(dependencies) && old(dependencies) <= dependencies
        invariant Elements(dependencies) == Elements(old(dependencies)) + Elements(deps[..i])
      {
        AppendElements(dependencies, deps[i]);
        AppendElements(deps[..i], deps[i]);
        assert deps[..i + 1] == deps[..i] + [deps[i]];
        if deps[i] !in dependencies {
          dependencies := dependencies + [deps[i]];
        }
      }
      assert deps[..|deps|] == deps;
    }
  }

  lemma AppendElements(s: seq<string>, x: string)
    ensures Elements(s + [x]) == Elements(s) + {x}
    ensures x in s ==> Elements(s) == Elements(s) + {x}
    ensures x in s <==> x in Elements(s)
  {
  }

  /** A resource of the group (`graph.Resource`), as far as dependencies go. */
  class Resource {
    const id: string
    const variables: seq<ResourceField>
    var dependencies: seq<string>

    constructor (name: string, vars: seq<ResourceField>)
      ensures id == name && variables == vars && dependencies == []
    {
      id, variables, dependencies := name, vars, [];
    }

    predicate HasDependency(dep: string)
      reads this`dependencies
    {
      dep in dependencies
    }

    method AddDependencies(deps: seq<string>)
      requires NoDup(dependencies)
      modifies this`dependencies
      ensures NoDup(dependencies) && old(dependencies) <= dependencies
      ensures Elements(dependencies) == Elements(old(dependencies)) + Elements(deps)
    {
      for i := 0 to |deps|
        invariant NoDup(dependencies) && old(dependencies) <= dependencies
        invariant Elements(dependencies) == Elements(old(dependencies)) + Elements(deps[..i])
      {
        AppendElements(dependencies, deps[i]);
        AppendElements(deps[..i], deps[i]);
        assert deps[..i + 1] == deps[..i] + [deps[i]];
        if !HasDependency(deps[i]) {
          dependencies := dependencies + [deps[i]];
        }
      }
      assert deps[..|deps|] == deps;
    }
  }

  // -------------------------------------------------- the extracted relation

  const SCHEMA := "schema"

  /** The resources an expression refers to; the instance spec does not count. */
  function ExprDeps(inspect: string -> Inspection, e: string): set<string> {
    match inspect(e)
    case Inspected(ids, _, _) => set d | d in ids && d != SCHEMA
    case InspectError => {}
  }

  /** The expression passes the context check and the dependency extraction. */
  predicate ExprOk(inspect: string -> Inspection, known: set<string>, e: string) {
    match inspect(e)
    case Inspected(ids, unknownResources, unknownFunctions) =>
      unknownResources == [] && unknownFunctions == [] && Elements(ids) <= known + {SCHEMA}
    case InspectError => false
  }

  function FieldDeps(inspect: string -> Inspection, exprs: seq<string>): set<string> {
    set e, d | e in exprs && d in ExprDeps(inspect, e) :: d
  }

  function ResourceDeps(inspect: string -> Inspection, vars: seq<ResourceField>): set<string> {
    set v, d | v in vars && d in FieldDeps(inspect, v.expressions) :: d
  }

  ghost predicate FieldOk(inspect: string -> Inspection, known: set<string>, exprs: seq<string>) {
    forall e | e in exprs :: ExprOk(inspect, known, e)
  }

  ghost predicate ResourceOk(inspect: string -> Inspection, known: set<string>, vars: seq<ResourceField>) {
    forall v | v in vars :: FieldOk(inspect, known, v.expressions)
  }

  /** The dependency relation the expressions induce over the known ids. */
  function Relation(inspect: string -> Inspection, resources: map<string, Resource>): Graph {
    map id | id in resources :: ResourceDeps(inspect, resources[id].variables)
  }

  function Merge(g: Graph, id: string, targets: set<string>): Graph
    requires id in g
  {
    g[id := g[id] + targets]
  }

  /** Removing edges keeps a graph acyclic. */
  lemma AcyclicSubgraph(g: Graph, h: Graph)
    requires Acyclic(h) && forall v | v in g :: v in h && g[v] <= h[v]
    ensures Acyclic(g)
  {
    forall p: seq<string> ensures !IsCycle(g, p) {
      if IsCycle(g, p) {
        WalkInLargerGraph(g, h, p);
      }
      assert IsCycle(g, p) ==> IsCycle(h, p);
    }
  }

  lemma MergeMerge(g: Graph, id: string, a: set<string>, b: set<string>)
    requires id in g
    ensures Merge(Merge(g, id, a), id, b) == Merge(g, id, a + b)
  {
    assert g[id] + a + b == g[id] + (a + b);
  }

  // ------------------------------------------------------------ the methods

  /** `extractDependencies`, after `validateCELExpressionContext` on the same inspection. */
  method ExtractDependencies(inspect: string -> Inspection, known: set<string>, e: string)
    returns (r: Extraction)
    ensures r.Extracted? <==> ExprOk(inspect, known, e)
    ensures r.Extracted? ==> NoDup(r.dependencies) && Elements(r.dependencies) == ExprDeps(inspect, e)
    ensures r.Extracted? ==> (r.isStatic <==> ExprDeps(inspect, e) == {})
  {
    match inspect(e)
    case InspectError => return ExtractError;
    case Inspected(ids, unknownResources, unknownFunctions) =>
      for i := 0 to |ids|
        invariant Elements(ids[..i]) <= known + {SCHEMA}
      {
        AppendElements(ids[..i], ids[i]);
        assert ids[..i + 1] == ids[..i] + [ids[i]];
        if ids[i] !in known + {SCHEMA} {
          assert ids[i] in Elements(ids);
          return ExtractError;
        }
      }
      assert ids[..|ids|] == ids;
      var isStatic, dependencies := true, [];
      for i := 0 to |ids|
        invariant NoDup(dependencies)
        invariant Elements(dependencies) == set d | d in ids[..i] && d != SCHEMA
        invariant isStatic <==> dependencies == []
      {
        AppendElements(dependencies, ids[i]);
        assert ids[..i + 1] == ids[..i] + [ids[i]];
        if ids[i] != SCHEMA && ids[i] !in dependencies {
          isStatic := false;
          dependencies := dependencies + [ids[i]];
        }
      }
      if unknownResources != [] || unknownFunctions != [] {
        return ExtractError;
      }
      NoElements(dependencies);
      return Extracted(dependencies, isStatic);
  }

  /** The edges of one expression, in order, stopping at the first that is refused. */
  method AddEdges(dag: DirectedAcyclicGraph, id: string, deps: seq<string>) returns (ok: bool)
    requires dag.Valid() && id in dag.vertices && Elements(deps) <= dag.vertices.Keys
    modifies dag
    ensures dag.Valid()
    ensures ok <==> Acyclic(Merge(old(dag.vertices), id, Elements(deps)))
    ensures ok ==> dag.vertices == Merge(old(dag.vertices), id, Elements(deps))
  {
    ghost var g := dag.vertices;
    assert Elements(deps[..0]) == {};
    assert Merge(g, id, {}) == g by { assert g[id] + {} == g[id]; }
    for i := 0 to |deps|
      invariant dag.Valid() && dag.vertices == Merge(g, id, Elements(deps[..i]))
    {
      assert deps[i] in Elements(deps);
      AppendElements(deps[..i], deps[i]);
      assert deps[..i + 1] == deps[..i] + [deps[i]];
      ghost var h := dag.vertices;
      MergeMerge(g, id, Elements(deps[..i]), {deps[i]});
      assert WithEdge(h, id, deps[i]) == Merge(h, id, {deps[i]});
      var r := dag.AddEdge(id, deps[i]);
      if !r.EdgeAdded? {
        RefusedEdgeIsCyclic(h, id, deps[i]);
        SubMerge(g, id, Elements(deps[..i + 1]), Elements(deps));
        return false;
      }
    }
    assert deps[..|deps|] == deps;
    return true;
  }

  lemma RefusedEdgeIsCyclic(g: Graph, a: string, b: string)
    requires Acyclic(g) && a in g && (a == b || Reaches(g, b, a))
    ensures !Acyclic(WithEdge(g, a, b))
  {
    if a == b {
      assert Edge(WithEdge(g, a, b), a, a);
      assert IsCycle(WithEdge(g, a, b), [a, a]);
    } else {
      EdgeClosesCycleIffReaches(g, a, b);
    }
  }

  lemma SubMerge(g: Graph, id: string, a: set<string>, b: set<string>)
    requires id in g && a <= b
    ensures Acyclic(Merge(g, id, b)) ==> Acyclic(Merge(g, id, a))
  {
    if Acyclic(Merge(g, id, b)) {
      AcyclicSubgraph(Merge(g, id, a), Merge(g, id, b));
    }
  }

  lemma DepsKnown(inspect: string -> Inspection, known: set<string>, e: string)
    requires ExprOk(inspect, known, e)
    ensures ExprDeps(inspect, e) <= known
  {
    var ids := inspect(e).resourceIds;
    forall d | d in ExprDeps(inspect, e) ensures d in known {
      assert d in Elements(ids);
    }
  }

  /** A field whose processed expressions depend on exactly `acc`. */
  ghost predicate FieldState(field: ResourceField, acc: set<string>)
    reads field
  {
    && NoDup(field.dependencies)
    && Elements(field.dependencies) == acc
    && field.kind == if acc == {} then Static else Dynamic
  }

  lemma FieldDepsStep(inspect: string -> Inspection, exprs: seq<string>, i: nat)
    requires i < |exprs|
    ensures FieldDeps(inspect, exprs[..i + 1]) ==
      FieldDeps(inspect, exprs[..i]) + ExprDeps(inspect, exprs[i])
    ensures FieldDeps(inspect, exprs[..i + 1]) <= FieldDeps(inspect, exprs)
  {
    assert exprs[..i + 1] == exprs[..i] + [exprs[i]];
    forall d | d in ExprDeps(inspect, exprs[i]) ensures d in FieldDeps(inspect, exprs[..i + 1]) {
      assert exprs[i] in exprs[..i + 1];
    }
  }

  /** The first `i` expressions of the field are in: their edges were added to `g`, their
      dependencies to `base` on the resource and to nothing on the field. */
  ghost predicate FieldProgress(inspect: string -> Inspection, dag: DirectedAcyclicGraph, resource: Resource,
                                field: ResourceField, id: string, g: Graph, base: set<string>, i: nat)
    requires i <= |field.expressions| && id in g
    reads dag, resource, field
  {
    var acc := FieldDeps(inspect, field.expressions[..i]);
    && dag.Valid()
    && dag.vertices == Merge(g, id, acc)
    && NoDup(resource.dependencies)
    && Elements(resource.dependencies) == base + acc
    && FieldState(field, acc)
  }

  /** Body of the innermost expression loop. */
  method ProcessExpression(inspect: string -> Inspection, dag: DirectedAcyclicGraph,
                           resource: Resource, field: ResourceField, id: string, i: nat,
                           ghost g: Graph, ghost base: set<string>)
    returns (ok: bool)
    requires i < |field.expressions| && id in g
    requires FieldProgress(inspect, dag, resource, field, id, g, base, i)
    modifies dag, resource`dependencies, field`kind, field`dependencies
    ensures dag.Valid() && NoDup(resource.dependencies)
    ensures ok <==>
      && ExprOk(inspect, g.Keys, field.expressions[i])
      && Acyclic(Merge(g, id, FieldDeps(inspect, field.expressions[..i + 1])))
    ensures ok ==> FieldProgress(inspect, dag, resource, field, id, g, base, i + 1)
  {
    var e := field.expressions[i];
    var x := ExtractDependencies(inspect, dag.vertices.Keys, e);
    if x.ExtractError? {
      return false;
    }
    FieldDepsStep(inspect, field.expressions, i);
    MergeMerge(g, id, FieldDeps(inspect, field.expressions[..i]), ExprDeps(inspect, e));
    if !x.isStatic && field.kind == Static {
      field.kind := Dynamic;
    }
    DepsKnown(inspect, dag.vertices.Keys, e);
    resource.AddDependencies(x.dependencies);
    field.AddDependencies(x.dependencies);
    ok := AddEdges(dag, id, x.dependencies);
  }

  method ProcessField(inspect: string -> Inspection, dag: DirectedAcyclicGraph,
                      resource: Resource, field: ResourceField, id: string)
    returns (ok: bool)
    requires dag.Valid() && id in dag.vertices
    requires NoDup(resource.dependencies) && field.dependencies == [] && field.kind == Static
    modifies dag, resource`dependencies, field`kind, field`dependencies
    ensures dag.Valid() && NoDup(resource.dependencies)
    ensures ok <==>
      && FieldOk(inspect, old(dag.vertices).Keys, field.expressions)
      && Acyclic(Merge(old(dag.vertices), id, FieldDeps(inspect, field.expressions)))
    ensures ok ==> dag.vertices == Merge(old(dag.vertices), id, FieldDeps(inspect, field.expressions))
    ensures ok ==>
      Elements(resource.dependencies) == Elements(old(resource.dependencies)) + FieldDeps(inspect, field.expressions)
    ensures ok ==> FieldDone(inspect, field)
  {
    hide ExprOk, ExprDeps, FieldDeps, Acyclic;
    ghost var g, base := dag.vertices, Elements(resource.dependencies);
    var exprs := field.expressions;
    assert Merge(g, id, {}) == g by { assert g[id] + {} == g[id]; }
    NoFieldDeps(inspect, exprs);
    for i := 0 to |exprs|
      invariant FieldProgress(inspect, dag, resource, field, id, g, base, i)
      invariant forall k | 0 <= k < i :: ExprOk(inspect, g.Keys, exprs[k])
    {
      FieldDepsStep(inspect, exprs, i);
      SubMerge(g, id, FieldDeps(inspect, exprs[..i + 1]), FieldDeps(inspect, exprs));
      ok := ProcessExpression(inspect, dag, resource, field, id, i, g, base);
      if !ok {
        assert exprs[i] in exprs;
        return false;
      }
    }
    assert exprs[..|exprs|] == exprs;
    return true;
  }

  lemma NoFieldDeps(inspect: string -> Inspection, exprs: seq<string>)
    ensures FieldDeps(inspect, exprs[..0]) == {}
  {
  }

  /** The field lists the dependencies of its expressions, once each, and is dynamic iff it has any. */
  ghost predicate FieldDone(inspect: string -> Inspection, field: ResourceField)
    reads field
  {
    FieldState(field, FieldDeps(inspect, field.expressions))
  }

  lemma ResourceDepsStep(inspect: string -> Inspection, vars: seq<ResourceField>, i: nat)
    requires i < |vars|
    ensures ResourceDeps(inspect, vars[..i + 1]) ==
      ResourceDeps(inspect, vars[..i]) + FieldDeps(inspect, vars[i].expressions)
    ensures ResourceDeps(inspect, vars[..i + 1]) <= ResourceDeps(inspect, vars)
  {
    assert vars[..i + 1] == vars[..i] + [vars[i]];
    forall d | d in FieldDeps(inspect, vars[i].expressions)
      ensures d in ResourceDeps(inspect, vars[..i + 1])
    {
      assert vars[i] in vars[..i + 1];
    }
  }

  /** The objects a resource is made of. */
  ghost function Objects(resource: Resource): set<object> {
    {resource} + set v: ResourceField | v in resource.variables
  }

  /** The resource lists the dependencies of its fields, once each. */
  ghost predicate ResourceDone(inspect: string -> Inspection, resource: Resource)
    reads Objects(resource)
  {
    && NoDup(resource.dependencies)
    && Elements(resource.dependencies) == ResourceDeps(inspect, resource.variables)
    && forall v | v in resource.variables :: FieldDone(inspect, v)
  }

  ghost predicate Untouched(resource: Resource)
    reads Objects(resource)
  {
    && resource.dependencies == []
    && forall v | v in resource.variables :: v.dependencies == [] && v.kind == Static
  }

  method ProcessResource(inspect: string -> Inspection, dag: DirectedAcyclicGraph,
                         resource: Resource, id: string)
    returns (ok: bool)
    requires dag.Valid() && id in dag.vertices
    requires Untouched(resource)
    requires NoDup(resource.variables)
    modifies dag, Objects(resource)
    ensures dag.Valid()
    ensures ok <==>
      && ResourceOk(inspect, old(dag.vertices).Keys, resource.variables)
      && Acyclic(Merge(old(dag.vertices), id, ResourceDeps(inspect, resource.variables)))
    ensures ok ==> dag.vertices == Merge(old(dag.vertices), id, ResourceDeps(inspect, resource.variables))
    ensures ok ==> ResourceDone(inspect, resource)
  {
    ghost var g, acc := dag.vertices, {};
    var vars := resource.variables;
    assert Merge(g, id, acc) == g by { assert g[id] + {} == g[id]; }
    hide ResourceDeps, FieldDeps, FieldOk, FieldState, Acyclic, Closed, Elements, NoDup;
    for i := 0 to |vars|
      invariant dag.Valid() && NoDup(resource.dependencies)
      invariant forall k | 0 <= k < i :: FieldOk(inspect, g.Keys, vars[k].expressions)
      invariant acc == ResourceDeps(inspect, vars[..i])
      invariant dag.vertices == Merge(g, id, acc) && Elements(resource.dependencies) == acc
      invariant forall k | 0 <= k < i :: FieldDone(inspect, vars[k])
      invariant forall k | i <= k < |vars| :: vars[k].dependencies == [] && vars[k].kind == Static
    {
      ghost var next := acc + FieldDeps(inspect, vars[i].expressions);
      ResourceDepsStep(inspect, vars, i);
      MergeMerge(g, id, acc, FieldDeps(inspect, vars[i].expressions));
      SubMerge(g, id, next, ResourceDeps(inspect, vars));
      ok := ProcessField(inspect, dag, resource, vars[i], id);
      if !ok {
        assert vars[i] in vars;
        return false;
      }
      acc := next;
    }
    assert vars[..|vars|] == vars;
    return true;
  }

  ghost predicate Separate(resources: map<string, Resource>) {
    && (forall a, b | a in resources && b in resources && a != b ::
          Objects(resources[a]) !! Objects(resources[b]))
    && (forall a | a in resources :: NoDup(resources[a].variables))
  }

  ghost function Footprint(resources: map<string, Resource>): set<object> {
    set a, o | a in resources && o in Objects(resources[a]) :: o
  }

  /** `buildDependencyGraph`: succeeds exactly when every expression is acceptable and the
      extracted relation is acyclic, in whatever order the maps are ranged over. */
  method BuildDependencyGraph(inspect: string -> Inspection, resources: map<string, Resource>)
    returns (ok: bool, dag: DirectedAcyclicGraph)
    requires Separate(resources)
    requires forall id | id in resources :: Untouched(resources[id])
    modifies Footprint(resources)
    ensures fresh(dag) && dag.Valid()
    ensures ok <==>
      && (forall id | id in resources :: ResourceOk(inspect, resources.Keys, resources[id].variables))
      && Acyclic(Relation(inspect, resources))
    ensures ok ==> dag.vertices == Relation(inspect, resources)
    ensures ok ==> forall id | id in resources :: ResourceDone(inspect, resources[id])
  {
    dag := AddVertices(resources.Keys);
    var todo := resources.Keys;
    while todo != {}
      invariant todo <= resources.Keys && fresh(dag)
      invariant Progress(inspect, dag, resources, todo)
      decreases |todo|
    {
      var id :| id in todo;
      if Acyclic(Relation(inspect, resources)) {
        PartialRelationStep(inspect, resources, todo, id);
      }
      var fine := ProcessNext(inspect, dag, resources, todo, id);
      if !fine {
        return false, dag;
      }
      todo := todo - {id};
    }
    assert PartialRelation(inspect, resources, todo) == Relation(inspect, resources);
    return true, dag;
  }

  /** The resources outside `todo` are done and their edges are in the graph. */
  ghost predicate Progress(inspect: string -> Inspection, dag: DirectedAcyclicGraph,
                           resources: map<string, Resource>, todo: set<string>)
    reads dag, Footprint(resources)
  {
    && dag.Valid()
    && dag.vertices == PartialRelation(inspect, resources, todo)
    && forall id | id in resources ::
         if id in todo then Untouched(resources[id])
         else ResourceOk(inspect, resources.Keys, resources[id].variables) && ResourceDone(inspect, resources[id])
  }

  /** One round of the outer loop; the objects of the other resources are not touched. */
  method ProcessNext(inspect: string -> Inspection, dag: DirectedAcyclicGraph,
                     resources: map<string, Resource>, ghost todo: set<string>, id: string)
    returns (ok: bool)
    requires Separate(resources) && id in todo && id in resources
    requires Progress(inspect, dag, resources, todo)
    modifies dag, Footprint(resources)
    ensures dag.Valid()
    ensures ok <==>
      && ResourceOk(inspect, resources.Keys, resources[id].variables)
      && Acyclic(PartialRelation(inspect, resources, todo - {id}))
    ensures ok ==> Progress(inspect, dag, resources, todo - {id})
  {
    MergeRelation(inspect, resources, todo, id);
    assert Objects(resources[id]) <= Footprint(resources);
    ok := ProcessResource(inspect, dag, resources[id], id);
  }

  method AddVertices(ids: set<string>) returns (dag: DirectedAcyclicGraph)
    ensures fresh(dag) && dag.Valid() && dag.vertices == map id | id in ids :: {}
  {
    dag := new DirectedAcyclicGraph();
    var todo := ids;
    while todo != {}
      invariant todo <= ids && dag.Valid() && fresh(dag)
      invariant dag.vertices == map id | id in ids - todo :: {}
      decreases |todo|
    {
      var id :| id in todo;
      var r := dag.AddVertex(id);
      todo := todo - {id};
    }
  }

  /** The relation as far as it is known while `todo` is still to be processed. */
  ghost function PartialRelation(inspect: string -> Inspection, resources: map<string, Resource>,
                                 todo: set<string>): Graph
  {
    map id | id in resources :: if id in todo then {} else ResourceDeps(inspect, resources[id].variables)
  }

  lemma MergeRelation(inspect: string -> Inspection, resources: map<string, Resource>,
                      todo: set<string>, id: string)
    requires id in resources && id in todo
    ensures Merge(PartialRelation(inspect, resources, todo), id,
                  ResourceDeps(inspect, resources[id].variables))
         == PartialRelation(inspect, resources, todo - {id})
  {
    var ds := ResourceDeps(inspect, resources[id].variables);
    assert {} + ds == ds;
  }

  lemma PartialRelationStep(inspect: string -> Inspection, resources: map<string, Resource>,
                            todo: set<string>, id: string)
    requires Acyclic(Relation(inspect, resources))
    ensures Acyclic(PartialRelation(inspect, resources, todo - {id}))
  {
    AcyclicSubgraph(PartialRelation(inspect, resources, todo - {id}), Relation(inspect, resources));
  }
}
