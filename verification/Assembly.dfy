/** From the definition of a group to what the runtime and the controller take for granted:
    templates are flattened, the dependency graph is built and sorted. */
module Assembly {
  import opened Ordering
  import opened Fieldpath
  import opened PathText
  import opened Values
  import opened Flatten
  import opened SchemaFlatten
  import opened Resolution
  import opened Graphs
  import opened Dag
  import opened DependencyGraph
  import opened ExprStates
  import opened Scoping
  import opened Statuses
  import opened Runtime
  import opened Reconciler
  import opened Controller
  import Cel

  /** A resource as the author of the group gives it, with the schema found for its kind. */
  datatype Definition = Definition(
    fields: map<string, Value>, schema: Option<Schema>, isCrd: bool, readyWhen: seq<string>, includeWhen: seq<string>)

  /** Custom resource definitions may not hold expressions, everything else follows its schema. */
  ghost predicate TemplateOk(d: Definition) {
    var template := Obj(d.fields);
    if d.isCrd then !HasNested(template) && Leaves(template) == {} else Conforms(template, d.schema)
  }

  predicate AllStandalone(conditions: seq<string>) {
    forall i | 0 <= i < |conditions| :: Cel.Standalone(conditions[i])
  }

  /** The conditions as the runtime reads them. */
  function Trimmed(conditions: seq<string>): (r: seq<string>)
    ensures |r| == |conditions|
  {
    seq(|conditions|, i requires 0 <= i < |conditions| => Trim(conditions[i]))
  }

  ghost predicate Accepted(d: Definition) {
    TemplateOk(d) && AllStandalone(d.readyWhen) && AllStandalone(d.includeWhen)
  }

  ghost function KeptOf(d: Definition): set<Walk>
    requires Accepted(d)
  {
    if d.isCrd then {} else Kept(Obj(d.fields), d.schema)
  }

  ghost function ExpressionsAt(t: Value, w: Walk): seq<string> {
    var s := Get(t, w);
    if s.Some? && s.value.Str? && HasExpressions(s.value.s) then Describe(w, s.value.s, "").expressions else []
  }

  /** The expressions of a definition's template. */
  ghost function ExpressionsOf(d: Definition): set<string>
    requires Accepted(d)
  {
    set w, e | w in KeptOf(d) && e in ExpressionsAt(Obj(d.fields), w) :: e
  }

  ghost predicate ExpressionsOk(inspect: string -> Inspection, known: set<string>, d: Definition)
    requires Accepted(d)
  {
    forall e | e in ExpressionsOf(d) :: ExprOk(inspect, known, e)
  }

  /** What the definitions' expressions refer to. */
  ghost function RelationOf(inspect: string -> Inspection, defs: map<string, Definition>): Graph
    requires forall id | id in defs :: Accepted(defs[id])
  {
    map id | id in defs :: set e, d | e in ExpressionsOf(defs[id]) && d in ExprDeps(inspect, e) :: d
  }

  /** `ParseConditionExpressions`. */
  method ParseConditionExpressions(conditions: seq<string>) returns (parsed: Option<seq<string>>)
    ensures parsed.Some? <==> AllStandalone(conditions)
    ensures parsed.Some? ==> parsed.value == Trimmed(conditions)
  {
    hide Cel.Extract, Trim;
    var expressions: seq<string> := [];
    for i := 0 to |conditions|
      invariant |expressions| == i && forall j | 0 <= j < i :: Cel.Standalone(conditions[j])
      invariant forall j | 0 <= j < i :: expressions[j] == Trim(conditions[j])
    {
      var standalone, nested := Cel.IsStandaloneExpression(conditions[i]);
      if nested || !standalone {
        return None;
      }
      expressions := expressions + [Trim(conditions[i])];
    }
    assert expressions == Trimmed(conditions);
    return Some(expressions);
  }

  /** The part of `buildRGResource` that extracts the fields. */
  method ParseDefinition(d: Definition) returns (ok: bool, fields: seq<FieldDescriptor>, ghost ws: seq<Walk>)
    ensures ok <==> TemplateOk(d)
    ensures ok && Accepted(d) ==> Lists(Obj(d.fields), [], KeptOf(d), fields, ws)
    ensures ok ==> d.isCrd || Typed(d.schema, fields, ws)
  {
    hide Lists, Conforms, HasNested, Leaves, Kept;
    var template, parsed := Obj(d.fields), Rejected;
    if d.isCrd {
      parsed, ws := ParseSchemaless(template, "", []);
      if parsed.Rejected? {
        return false, [], [];
      }
      NothingListed(template, [], Leaves(template), parsed.fields, ws);
      if |parsed.fields| > 0 {
        return false, [], [];
      }
      return true, [], ws;
    }
    parsed, ws := ParseResource(template, d.schema, "", []);
    if parsed.Rejected? {
      return false, [], [];
    }
    return true, parsed.fields, ws;
  }

  lemma NothingListed(v: Value, w: Walk, leaves: set<Walk>, fs: seq<FieldDescriptor>, ws: seq<Walk>)
    requires Lists(v, w, leaves, fs, ws)
    ensures fs == [] <==> leaves == {}
  {
    NoElements(ws);
  }

  /** The resource has one field for each descriptor. */
  ghost predicate Shows(fields: seq<FieldDescriptor>, resource: Resource) {
    |fields| == |resource.variables| &&
    forall i | 0 <= i < |fields| :: resource.variables[i].expressions == fields[i].expressions
  }

  method NewResource(id: string, fields: seq<FieldDescriptor>) returns (resource: Resource)
    ensures fresh(Objects(resource)) && NoDup(resource.variables) && Untouched(resource) && Shows(fields, resource)
  {
    var vars: seq<ResourceField> := [];
    for i := 0 to |fields|
      invariant |vars| == i && NoDup(vars) && forall v | v in vars :: fresh(v)
      invariant forall v | v in vars :: v.dependencies == [] && v.kind == Static
      invariant forall j | 0 <= j < i :: vars[j].expressions == fields[j].expressions
    {
      var field := new ResourceField(fields[i].expressions);
      vars := vars + [field];
    }
    resource := new Resource(id, vars);
  }

  /** The definition was parsed, and the resource made of it. */
  ghost predicate MadeOf(d: Definition, fields: seq<FieldDescriptor>, resource: Resource) {
    && Accepted(d) && Shows(fields, resource)
    && exists ws :: Lists(Obj(d.fields), [], KeptOf(d), fields, ws) && (d.isCrd || Typed(d.schema, fields, ws))
  }

  ghost predicate AllMade(defs: map<string, Definition>, parsed: map<string, seq<FieldDescriptor>>,
                          resources: map<string, Resource>)
  {
    && defs.Keys == parsed.Keys == resources.Keys
    && forall id | id in defs :: MadeOf(defs[id], parsed[id], resources[id])
  }

  /** `buildRGResource`. */
  method BuildRGResource(id: string, d: Definition) returns (built: Option<Resource>, fields: seq<FieldDescriptor>)
    ensures built.Some? <==> Accepted(d)
    ensures built.Some? ==> MadeOf(d, fields, built.value) && fresh(Objects(built.value))
    ensures built.Some? ==> NoDup(built.value.variables) && Untouched(built.value)
  {
    hide MadeOf, Accepted, Shows, Lists, KeptOf, NoDup, Objects, Untouched;
    BothParsed(d);
    var accepted;
    ghost var ws;
    accepted, fields, ws := ParseDefinition(d);
    if !accepted {
      return None, [];
    }
    var readyWhen := ParseConditionExpressions(d.readyWhen);
    var includeWhen := ParseConditionExpressions(d.includeWhen);
    if readyWhen.None? || includeWhen.None? {
      return None, [];
    }
    var resource := NewResource(id, fields);
    NowMade(d, fields, ws, resource);
    return Some(resource), fields;
  }

  method BuildResources(defs: map<string, Definition>)
    returns (ok: bool, parsed: map<string, seq<FieldDescriptor>>, resources: map<string, Resource>)
    ensures ok <==> forall id | id in defs :: Accepted(defs[id])
    ensures ok ==>
      AllMade(defs, parsed, resources) && Separate(resources) && fresh(DependencyGraph.Footprint(resources))
    ensures ok ==> forall id | id in resources :: Untouched(resources[id])
  {
    hide MadeOf, Accepted, Shows, Lists, KeptOf, NoDup, Separate, Objects, DependencyGraph.Footprint, Untouched;
    NoResources();
    parsed, resources := map[], map[];
    var todo := defs.Keys;
    ghost var made: set<object> := {};
    while todo != {}
      invariant todo <= defs.Keys && parsed.Keys == resources.Keys == defs.Keys - todo
      invariant forall id | id in resources :: Accepted(defs[id]) && MadeOf(defs[id], parsed[id], resources[id])
      invariant Separate(resources) && made == DependencyGraph.Footprint(resources) && fresh(made)
      invariant forall id | id in resources :: Untouched(resources[id])
      decreases |todo|
    {
      var id :| id in todo;
      var built, fields := BuildRGResource(id, defs[id]);
      if built.None? {
        return false, map[], map[];
      }
      var resource := built.value;
      OneMoreResource(resources, id, resource);
      made := made + Objects(resource);
      parsed, resources, todo := parsed[id := fields], resources[id := resource], todo - {id};
    }
    return true, parsed, resources;
  }

  lemma BothParsed(d: Definition)
    ensures Accepted(d) <==> TemplateOk(d) && AllStandalone(d.readyWhen) && AllStandalone(d.includeWhen)
  {
  }

  lemma NowMade(d: Definition, fields: seq<FieldDescriptor>, ws: seq<Walk>, resource: Resource)
    requires Accepted(d) && Shows(fields, resource) && Lists(Obj(d.fields), [], KeptOf(d), fields, ws)
    requires d.isCrd || Typed(d.schema, fields, ws)
    ensures MadeOf(d, fields, resource)
  {
  }

  lemma NoResources()
    ensures Separate(map[]) && DependencyGraph.Footprint(map[]) == {}
  {
  }

  lemma OneMoreResource(resources: map<string, Resource>, id: string, resource: Resource)
    requires Separate(resources) && id !in resources && NoDup(resource.variables)
    requires Objects(resource) !! DependencyGraph.Footprint(resources)
    ensures Separate(resources[id := resource])
    ensures DependencyGraph.Footprint(resources[id := resource]) ==
      DependencyGraph.Footprint(resources) + Objects(resource)
    ensures forall a | a in resources :: Objects(resources[a]) <= DependencyGraph.Footprint(resources)
  {
    hide NoDup, Objects;
    var more := resources[id := resource];
    assert forall a | a in resources ::
      more[a] == resources[a] && Objects(resources[a]) <= DependencyGraph.Footprint(resources);
    assert more[id] == resource;
    forall o | o in DependencyGraph.Footprint(resources) + Objects(resource)
      ensures o in DependencyGraph.Footprint(more)
    {
      if o in Objects(resource) {
        assert o in Objects(more[id]);
      } else {
        var a :| a in resources && o in Objects(resources[a]);
        assert o in Objects(more[a]);
      }
    }
  }

  /** The graph is built and sorted. */
  method BuildAndSort(inspect: string -> Inspection, resources: map<string, Resource>)
    returns (ok: bool, order: seq<string>)
    requires Separate(resources)
    requires forall id | id in resources :: Untouched(resources[id])
    modifies DependencyGraph.Footprint(resources)
    ensures ok <==>
      && (forall id | id in resources :: ResourceOk(inspect, resources.Keys, resources[id].variables))
      && Acyclic(Relation(inspect, resources))
    ensures ok ==> Closed(Relation(inspect, resources)) && order == TopologicalOrder(Relation(inspect, resources))
    ensures ok ==> forall id | id in resources :: ResourceDone(inspect, resources[id])
  {
    hide Acyclic, Closed, ResourceOk, Relation, TopologicalOrder;
    var dag;
    ok, dag := BuildDependencyGraph(inspect, resources);
    if !ok {
      return false, [];
    }
    var sorted := dag.TopologicalSort();
    order := sorted.order;
  }

  // ---------------------------------------------- the runtime's view of a resource

  /** What the runtime reads of a definition and the resource built from it. */
  ghost function SpecOf(d: Definition, fields: seq<FieldDescriptor>, resource: Resource): ResourceSpec
    requires Accepted(d) && Shows(fields, resource)
    reads Objects(resource)
  {
    ResourceSpec(Obj(d.fields), KeptOf(d),
                 seq(|fields|, i requires 0 <= i < |fields| reads Objects(resource) =>
                   Variable(fields[i], resource.variables[i].dependencies, resource.variables[i].kind)),
                 resource.dependencies, Trimmed(d.readyWhen), Trimmed(d.includeWhen))
  }

  ghost function SpecsOf(defs: map<string, Definition>, parsed: map<string, seq<FieldDescriptor>>,
                         resources: map<string, Resource>): map<string, ResourceSpec>
    requires AllMade(defs, parsed, resources)
    reads DependencyGraph.Footprint(resources)
  {
    map id | id in defs :: SpecOf(defs[id], parsed[id], resources[id])
  }

  function Refs(inspect: string -> Inspection): string -> set<string> {
    (e: string) => ExprDeps(inspect, e)
  }

  /** The paths of all fields can be read: the parser comes to an end. */
  ghost predicate PathsEnd(d: Definition)
    requires Accepted(d)
  {
    forall w | w in KeptOf(d) :: Parsable(PathOf(w))
  }

  /** On clean names they do unless the last one is an undotted name of one byte. */
  lemma ParsableIff(w: Walk)
    requires Clean(w) && InRange(w)
    ensures Parsable(PathOf(w)) <==> !EndsShort(w)
  {
    PathHasNoLeadingDot(w);
    PathSpinsIff(w);
  }

  /** A field's dependencies are those of its expressions, and it is dynamic iff it has any. */
  lemma FieldFits(inspect: string -> Inspection, d: Definition, fields: seq<FieldDescriptor>, ws: seq<Walk>,
                  resource: Resource, i: nat)
    requires Accepted(d) && Shows(fields, resource) && ResourceDone(inspect, resource) && i < |fields|
    requires Lists(Obj(d.fields), [], KeptOf(d), fields, ws)
    ensures ws[i] in KeptOf(d) && fields[i].path == PathOf(ws[i])
    ensures fields[i].expressions == ExpressionsAt(Obj(d.fields), ws[i])
    ensures FieldBuilt(SpecOf(d, fields, resource).variables[i], Refs(inspect)) <==> Parsable(PathOf(ws[i]))
  {
    hide KeptOf, Parsable, PathOf, Leaves, Cel.Standalone, Cel.Extract, Trim, Accepted, ExprDeps;
    var f, v := resource.variables[i], SpecOf(d, fields, resource).variables[i];
    assert FieldDone(inspect, f);
    NoElements(f.dependencies);
    assert [] + ws[i] == ws[i] && ws[i] in Elements(ws);
    assert Entry(Obj(d.fields), [], ws[i], fields[i]);
    assert forall e :: Refs(inspect)(e) == ExprDeps(inspect, e);
    assert Elements(v.dependencies) == FieldDeps(inspect, f.expressions);
    assert Elements(v.dependencies) == set e, d | e in v.field.expressions && d in Refs(inspect)(e) :: d;
  }

  /** What a parsed and built resource lacks to be all that the runtime asks of it is that the
      paths of its fields can be read. */
  lemma BuiltIffPathsEnd(inspect: string -> Inspection, d: Definition, fields: seq<FieldDescriptor>, resource: Resource,
                         ids: set<string>)
    requires MadeOf(d, fields, resource) && ResourceDone(inspect, resource) && Elements(resource.dependencies) <= ids
    ensures SpecBuilt(SpecOf(d, fields, resource), ids, Refs(inspect)) <==> PathsEnd(d)
  {
    hide KeptOf, FieldBuilt, ExpressionsAt, Accepted, Parsable, PathOf, Lists, SpecBuilt, ResourceDone, NoDup, Refs;
    var spec := SpecOf(d, fields, resource);
    var ws :| Lists(Obj(d.fields), [], KeptOf(d), fields, ws);
    assert FieldsOf(spec.variables) == fields;
    DependenciesOfFields(inspect, d, fields, resource);
    FieldsDecide(spec, ids, Refs(inspect), ws) by {
      ListedCount(spec.template, [], spec.kept, fields, ws);
      forall i | 0 <= i < |fields| ensures FieldBuilt(spec.variables[i], Refs(inspect)) <==> Parsable(PathOf(ws[i])) {
        FieldFits(inspect, d, fields, ws, resource, i);
      }
    }
  }

  lemma ListedCount(v: Value, w: Walk, leaves: set<Walk>, fs: seq<FieldDescriptor>, ws: seq<Walk>)
    requires Lists(v, w, leaves, fs, ws)
    ensures |fs| == |ws| && Elements(ws) == leaves
  {
  }

  lemma FieldsDecide(spec: ResourceSpec, ids: set<string>, refs: string -> set<string>, ws: seq<Walk>)
    requires spec.template.Obj? && Elements(spec.dependencies) <= ids
    requires Elements(spec.dependencies) == (set v, d | v in spec.variables && d in v.dependencies :: d)
    requires Lists(spec.template, [], spec.kept, FieldsOf(spec.variables), ws) && |ws| == |spec.variables|
    requires forall i | 0 <= i < |ws| :: FieldBuilt(spec.variables[i], refs) <==> Parsable(PathOf(ws[i]))
    ensures SpecBuilt(spec, ids, refs) <==> forall w | w in spec.kept :: Parsable(PathOf(w))
  {
    hide FieldBuilt, Parsable, PathOf, Lists, NoDup;
    ListedCount(spec.template, [], spec.kept, FieldsOf(spec.variables), ws);
    if forall v | v in spec.variables :: FieldBuilt(v, refs) {
      forall w | w in spec.kept ensures Parsable(PathOf(w)) {
        assert w in Elements(ws);
        var i :| 0 <= i < |ws| && ws[i] == w;
        assert spec.variables[i] in spec.variables;
      }
    }
    if forall w | w in spec.kept :: Parsable(PathOf(w)) {
      forall v | v in spec.variables ensures FieldBuilt(v, refs) {
        var i :| 0 <= i < |ws| && spec.variables[i] == v;
        assert ws[i] in Elements(ws);
      }
    }
  }

  lemma DependenciesOfFields(inspect: string -> Inspection, d: Definition, fields: seq<FieldDescriptor>,
                             resource: Resource)
    requires Accepted(d) && Shows(fields, resource) && ResourceDone(inspect, resource)
    ensures var spec := SpecOf(d, fields, resource);
      Elements(spec.dependencies) == (set v, d | v in spec.variables && d in v.dependencies :: d)
  {
    hide Accepted, KeptOf;
    var spec := SpecOf(d, fields, resource);
    var all := set v, d | v in spec.variables && d in v.dependencies :: d;
    forall d | d in Elements(spec.dependencies) ensures d in all {
      assert d in ResourceDeps(inspect, resource.variables);
      var f :| f in resource.variables && d in FieldDeps(inspect, f.expressions);
      var i :| 0 <= i < |resource.variables| && resource.variables[i] == f;
      assert FieldDone(inspect, f) && d in Elements(f.dependencies);
      assert spec.variables[i] in spec.variables && d in spec.variables[i].dependencies;
    }
    forall d | d in all ensures d in Elements(spec.dependencies) {
      var v :| v in spec.variables && d in v.dependencies;
      var i :| 0 <= i < |spec.variables| && spec.variables[i] == v;
      var f := resource.variables[i];
      assert f in resource.variables && FieldDone(inspect, f) && d in Elements(f.dependencies);
      assert d in ResourceDeps(inspect, resource.variables);
    }
  }

  // ------------------------------------------------------------ the instance

  /** The expression refers to known resources only; the instance spec is not among them. */
  predicate StatusExprOk(inspect: string -> Inspection, known: set<string>, e: string) {
    inspect(e).Inspected? && Elements(inspect(e).resourceIds) <= known
  }

  /** A status field refers to known resources, and its first expression to at least one. */
  predicate StatusFieldOk(inspect: string -> Inspection, known: set<string>, exprs: seq<string>) {
    && (forall i | 0 <= i < |exprs| :: StatusExprOk(inspect, known, exprs[i]))
    && (exprs != [] ==> ExprOk(inspect, known, exprs[0]) && ExprDeps(inspect, exprs[0]) != {})
  }

  ghost predicate StatusOk(inspect: string -> Inspection, known: set<string>, status: Value) {
    && !HasNested(status)
    && forall w | w in Leaves(status) :: StatusFieldOk(inspect, known, ExpressionsAt(status, w))
  }

  /** Of several expressions in a status field only the first gives dependencies. */
  ghost predicate StatusVariable(inspect: string -> Inspection, v: Variable, f: FieldDescriptor) {
    && v.field == f.(path := STATUS_PREFIX + f.path) && v.kind == Dynamic && f.expressions != []
    && NoDup(v.dependencies) && Elements(v.dependencies) == ExprDeps(inspect, f.expressions[0])
  }

  /** `buildInstanceResource`, as far as the status fields go. */
  method BuildInstance(inspect: string -> Inspection, known: set<string>, status: map<string, Value>)
    returns (built: Option<seq<Variable>>, ghost fields: seq<FieldDescriptor>, ghost ws: seq<Walk>)
    ensures built.Some? <==> StatusOk(inspect, known, Obj(status))
    ensures built.Some? ==> Lists(Obj(status), [], Leaves(Obj(status)), fields, ws) && AllAny(fields)
    ensures built.Some? ==> |built.value| == |fields|
    ensures built.Some? ==> forall i | 0 <= i < |fields| ::
      StatusVariable(inspect, built.value[i], fields[i]) && StatusFieldOk(inspect, known, fields[i].expressions)
  {
    hide Lists, HasNested, Leaves, ExprOk, ExprDeps, StatusFieldOk;
    fields, ws := [], [];
    var parsed;
    parsed, ws := ParseSchemaless(Obj(status), "", []);
    if parsed.Rejected? {
      return None, fields, ws;
    }
    fields := parsed.fields;
    AllFieldsHold(inspect, known, Obj(status), fields, ws);
    var vars: seq<Variable> := [];
    for i := 0 to |parsed.fields|
      invariant |vars| == i
      invariant forall j | 0 <= j < i ::
        StatusVariable(inspect, vars[j], fields[j]) && StatusFieldOk(inspect, known, fields[j].expressions)
    {
      var f := parsed.fields[i];
      var ok, deps := ExtractStatusDependencies(inspect, known, f.expressions);
      if !ok {
        return None, fields, ws;
      }
      vars := vars + [Variable(f.(path := STATUS_PREFIX + f.path), deps, Dynamic)];
    }
    return Some(vars), fields, ws;
  }

  method ExtractStatusDependencies(inspect: string -> Inspection, known: set<string>, exprs: seq<string>)
    returns (ok: bool, deps: seq<string>)
    requires exprs != []
    ensures ok <==> StatusFieldOk(inspect, known, exprs)
    ensures ok ==> NoDup(deps) && Elements(deps) == ExprDeps(inspect, exprs[0])
  {
    hide ExprOk, ExprDeps;
    for i := 0 to |exprs|
      invariant forall j | 0 <= j < i :: StatusExprOk(inspect, known, exprs[j])
    {
      if inspect(exprs[i]).InspectError? || !(Elements(inspect(exprs[i]).resourceIds) <= known) {
        return false, [];
      }
    }
    var r := ExtractDependencies(inspect, known, exprs[0]);
    if r.ExtractError? || r.isStatic {
      return false, [];
    }
    return true, r.dependencies;
  }

  lemma AllFieldsHold(inspect: string -> Inspection, known: set<string>, t: Value, fields: seq<FieldDescriptor>,
                      ws: seq<Walk>)
    requires Lists(t, [], Leaves(t), fields, ws)
    ensures forall i | 0 <= i < |fields| :: fields[i].expressions != [] && fields[i].path == PathOf(ws[i])
    ensures (forall w | w in Leaves(t) :: StatusFieldOk(inspect, known, ExpressionsAt(t, w))) <==>
      forall i | 0 <= i < |fields| :: StatusFieldOk(inspect, known, fields[i].expressions)
  {
    hide PathOf, Leaves, Cel.Standalone, Cel.Extract, Trim, StatusFieldOk;
    forall i | 0 <= i < |fields|
      ensures ws[i] in Leaves(t) && fields[i].path == PathOf(ws[i])
      ensures fields[i].expressions != [] && fields[i].expressions == ExpressionsAt(t, ws[i])
    {
      assert [] + ws[i] == ws[i] && ws[i] in Elements(ws) && Entry(t, [], ws[i], fields[i]);
    }
    if forall i | 0 <= i < |fields| :: StatusFieldOk(inspect, known, fields[i].expressions) {
      forall w | w in Leaves(t) ensures StatusFieldOk(inspect, known, ExpressionsAt(t, w)) {
        assert w in Elements(ws);
        var i :| 0 <= i < |ws| && ws[i] == w;
      }
    }
  }

  /** The built instance is all that the runtime asks of it, if the paths can be read. */
  lemma InstanceFits(inspect: string -> Inspection, known: set<string>, status: map<string, Value>, vars: seq<Variable>,
                     fields: seq<FieldDescriptor>, ws: seq<Walk>, spec: ResourceSpec)
    requires Lists(Obj(status), [], Leaves(Obj(status)), fields, ws) && |vars| == |fields| && spec.variables == vars
    requires forall i | 0 <= i < |fields| ::
      StatusVariable(inspect, vars[i], fields[i]) && StatusFieldOk(inspect, known, fields[i].expressions)
    ensures InstanceBuilt(spec, known) <==> forall w | w in Leaves(Obj(status)) :: Parsable(STATUS_PREFIX + PathOf(w))
  {
    hide PathOf, Leaves, Parsable, ExprDeps, ExprOk, Entry, NoDup;
    var t := Obj(status);
    AllFieldsHold(inspect, known, t, fields, ws);
    forall i | 0 <= i < |vars|
      ensures vars[i].kind == Dynamic && vars[i].dependencies != [] && Elements(vars[i].dependencies) <= known
      ensures vars[i].field.path == STATUS_PREFIX + PathOf(ws[i])
    {
      assert StatusVariable(inspect, vars[i], fields[i]);
      NoElements(vars[i].dependencies);
      DepsKnown(inspect, known, fields[i].expressions[0]);
    }
    if InstanceBuilt(spec, known) {
      forall w | w in Leaves(t) ensures Parsable(STATUS_PREFIX + PathOf(w)) {
        assert w in Elements(ws);
        var i :| 0 <= i < |ws| && ws[i] == w;
        assert vars[i] in vars;
      }
    }
    if forall w | w in Leaves(t) :: Parsable(STATUS_PREFIX + PathOf(w)) {
      forall v | v in vars ensures Parsable(v.field.path) {
        var i :| 0 <= i < |vars| && vars[i] == v;
        assert ws[i] in Elements(ws);
      }
    }
  }

  // ------------------------------------------------------- the whole group

  /** The expressions of the fields are those of the template. */
  lemma FieldExpressions(d: Definition, fields: seq<FieldDescriptor>, resource: Resource, e: string)
    requires MadeOf(d, fields, resource)
    ensures e in ExpressionsOf(d) <==> exists v :: v in resource.variables && e in v.expressions
  {
    hide KeptOf, Leaves, Cel.Standalone, Cel.Extract, Trim, Accepted, PathOf;
    var t := Obj(d.fields);
    var ws :| Lists(t, [], KeptOf(d), fields, ws);
    forall i | 0 <= i < |ws|
      ensures ws[i] in KeptOf(d) && ExpressionsAt(t, ws[i]) == resource.variables[i].expressions
    {
      assert ws[i] in Elements(ws) && Entry(t, [], ws[i], fields[i]);
    }
    if e in ExpressionsOf(d) {
      var w :| w in KeptOf(d) && e in ExpressionsAt(t, w);
      assert w in Elements(ws);
      var i :| 0 <= i < |ws| && ws[i] == w;
      assert resource.variables[i] in resource.variables;
    }
    if v :| v in resource.variables && e in v.expressions {
      var i :| 0 <= i < |ws| && resource.variables[i] == v;
      assert e in ExpressionsAt(t, ws[i]);
    }
  }

  /** What is said of the resources' expressions is said of the definitions'. */
  lemma ExpressionsAgree(inspect: string -> Inspection, defs: map<string, Definition>,
                         parsed: map<string, seq<FieldDescriptor>>,
                         resources: map<string, Resource>)
    requires AllMade(defs, parsed, resources)
    ensures Relation(inspect, resources) == RelationOf(inspect, defs)
    ensures forall id | id in defs ::
      ResourceOk(inspect, defs.Keys, resources[id].variables) <==> ExpressionsOk(inspect, defs.Keys, defs[id])
  {
    hide ExprOk, ExprDeps, ExpressionsOf, Shows, Lists, Accepted;
    forall id | id in defs
      ensures ResourceDeps(inspect, resources[id].variables) == RelationOf(inspect, defs)[id]
      ensures ResourceOk(inspect, defs.Keys, resources[id].variables) <==>
        ExpressionsOk(inspect, defs.Keys, defs[id])
    {
      assert MadeOf(defs[id], parsed[id], resources[id]);
      ResourceExpressionsAgree(inspect, defs.Keys, defs[id], parsed[id], resources[id]);
    }
  }

  lemma ResourceExpressionsAgree(inspect: string -> Inspection, known: set<string>, d: Definition,
                                 fields: seq<FieldDescriptor>,
                                 resource: Resource)
    requires MadeOf(d, fields, resource)
    ensures ResourceDeps(inspect, resource.variables) ==
      set e, x | e in ExpressionsOf(d) && x in ExprDeps(inspect, e) :: x
    ensures ResourceOk(inspect, known, resource.variables) <==>
      ExpressionsOk(inspect, known, d)
  {
    hide ExprOk, ExprDeps, ExpressionsOf, Shows, Lists, Accepted;
    forall e ensures e in ExpressionsOf(d) <==> exists v :: v in resource.variables && e in v.expressions {
      FieldExpressions(d, fields, resource, e);
    }
    var all := set e, x | e in ExpressionsOf(d) && x in ExprDeps(inspect, e) :: x;
    forall x | x in all ensures x in ResourceDeps(inspect, resource.variables) {
      var e :| e in ExpressionsOf(d) && x in ExprDeps(inspect, e);
      var v :| v in resource.variables && e in v.expressions;
      assert x in FieldDeps(inspect, v.expressions);
    }
  }

  predicate Reserved(id: string) {
    id in [
    "apiVersion", "context", "dependency", "dependencies", "externalRef", "externalReference", "externalRefs",
    "externalReferences", "graph", "instance", "kind", "metadata", "namespace", "object", "resource", "resourcegroup",
    "resources", "runtime", "serviceAccountName", "spec", "status", "kro", "variables", "vars", "version"]
  }

  /** `^[a-z][a-zA-Z0-9]*$`. */
  predicate LowerCamelCase(id: string) {
    && id != "" && 'a' <= id[0] <= 'z'
    && forall i | 0 <= i < |id| :: 'a' <= id[i] <= 'z' || 'A' <= id[i] <= 'Z' || '0' <= id[i] <= '9'
  }

  predicate ValidId(id: string) { !Reserved(id) && LowerCamelCase(id) }

  lemma InstanceIsReserved()
    ensures !ValidId(INSTANCE)
  {
  }

  /** Templates, expressions and dependencies are all as they should be. */
  ghost predicate GroupOk(inspect: string -> Inspection, defs: map<string, Definition>) {
    && (forall id | id in defs :: ValidId(id))
    && (forall id | id in defs :: Accepted(defs[id]))
    && (forall id, e | id in defs && e in ExpressionsOf(defs[id]) :: ExprOk(inspect, defs.Keys, e))
    && Acyclic(RelationOf(inspect, defs))
  }

  /** `NewResourceGroup`, without the dry run: ids are checked, templates are flattened, the status
      fields of the instance are read, the graph is built and sorted. The order is a function of the
      definitions. */
  method NewResourceGroup(inspect: string -> Inspection, inspectStatus: string -> Inspection,
                          defs: map<string, Definition>, status: map<string, Value>)
    returns (ok: bool, parsed: map<string, seq<FieldDescriptor>>, resources: map<string, Resource>,
             order: seq<string>, instance: seq<Variable>, ghost specs: map<string, ResourceSpec>)
    ensures ok <==> GroupOk(inspect, defs) && StatusOk(inspectStatus, defs.Keys, Obj(status))
    ensures ok ==> AllMade(defs, parsed, resources) && specs == SpecsOf(defs, parsed, resources)
    ensures ok ==> forall id | id in resources :: ResourceDone(inspect, resources[id])
    ensures ok ==> SpecsFor(inspect, defs, specs) && Closed(RelationOf(inspect, defs))
    ensures ok ==> StatusFields(inspectStatus, status, instance)
    ensures ok ==> order == TopologicalOrder(RelationOf(inspect, defs))
    ensures ok ==> forall spec: ResourceSpec | spec.variables == instance ::
      InstanceBuilt(spec, defs.Keys) <==> StatusPathsEnd(status)
  {
    hide ValidId, Accepted, ExpressionsOf, Acyclic, TopologicalOrder, RelationOf, Relation, ResourceOk, ExprOk, Lists,
      MadeOf, Separate, DependencyGraph.Footprint, SpecsOf, SpecFor, ResourceDone, Closed, StatusOk,
      StatusVariable, StatusFieldOk, InstanceBuilt, StatusPathsEnd;
    parsed, resources, order, instance, specs := map[], map[], [], [], map[];
    if id :| id in defs && !ValidId(id) {
      return false, parsed, resources, order, instance, specs;
    }
    ok, parsed, resources := BuildResources(defs);
    if !ok {
      return false, parsed, resources, order, instance, specs;
    }
    var built;
    ghost var fields, ws;
    built, fields, ws := BuildInstance(inspectStatus, defs.Keys, status);
    if built.None? {
      return false, parsed, resources, order, instance, specs;
    }
    instance := built.value;
    InstanceEnds(inspectStatus, defs.Keys, status, instance, fields, ws);
    ExpressionsAgree(inspect, defs, parsed, resources);
    ok, order := BuildAndSort(inspect, resources);
    if ok {
      specs := SpecsOf(defs, parsed, resources);
      AllSpecs(inspect, defs, parsed, resources);
    }
  }

  /** One variable for each string with expressions in the status, below `status`, with its expressions,
      its expected type and the dependencies of the first expression. */
  ghost predicate StatusFields(inspect: string -> Inspection, status: map<string, Value>, vars: seq<Variable>) {
    exists fields, ws ::
      && Lists(Obj(status), [], Leaves(Obj(status)), fields, ws) && AllAny(fields) && |vars| == |fields|
      && forall i | 0 <= i < |fields| :: StatusVariable(inspect, vars[i], fields[i])
  }

  /** The paths of all status fields can be read. */
  ghost predicate StatusPathsEnd(status: map<string, Value>) {
    forall w | w in Leaves(Obj(status)) :: Parsable(STATUS_PREFIX + PathOf(w))
  }

  lemma InstanceEnds(inspect: string -> Inspection, known: set<string>, status: map<string, Value>, vars: seq<Variable>,
                     fields: seq<FieldDescriptor>, ws: seq<Walk>)
    requires Lists(Obj(status), [], Leaves(Obj(status)), fields, ws) && |vars| == |fields|
    requires forall i | 0 <= i < |fields| ::
      StatusVariable(inspect, vars[i], fields[i]) && StatusFieldOk(inspect, known, fields[i].expressions)
    ensures forall spec: ResourceSpec | spec.variables == vars :: InstanceBuilt(spec, known) <==> StatusPathsEnd(status)
  {
    hide Lists, StatusVariable, StatusFieldOk, InstanceBuilt, Leaves, Parsable, PathOf;
    forall spec: ResourceSpec | spec.variables == vars ensures InstanceBuilt(spec, known) <==> StatusPathsEnd(status) {
      InstanceFits(inspect, known, status, vars, fields, ws, spec);
    }
  }

  /** For every definition there is what the runtime reads of it. */
  ghost predicate SpecsFor(inspect: string -> Inspection, defs: map<string, Definition>,
                           specs: map<string, ResourceSpec>)
  {
    && defs.Keys == specs.Keys
    && (forall id | id in defs :: SpecFor(inspect, defs, specs[id], id))
  }

  ghost predicate SpecFor(inspect: string -> Inspection, defs: map<string, Definition>, spec: ResourceSpec, id: string)
    requires id in defs
  {
    var d := defs[id];
    && Accepted(d)
    && spec.template == Obj(d.fields) && spec.kept == KeptOf(d)
    && spec.readyWhen == Trimmed(d.readyWhen) && spec.includeWhen == Trimmed(d.includeWhen)
    && Elements(spec.dependencies) == (set e, x | e in ExpressionsOf(d) && x in ExprDeps(inspect, e) :: x)
    && (SpecBuilt(spec, defs.Keys, Refs(inspect)) <==> PathsEnd(d))
  }

  lemma AllSpecs(inspect: string -> Inspection, defs: map<string, Definition>,
                 parsed: map<string, seq<FieldDescriptor>>,
                 resources: map<string, Resource>)
    requires AllMade(defs, parsed, resources) && forall id | id in resources :: ResourceDone(inspect, resources[id])
    requires Closed(Relation(inspect, resources))
    ensures SpecsFor(inspect, defs, SpecsOf(defs, parsed, resources))
  {
    hide SpecBuilt, PathsEnd, FieldDone, ExprDeps, Lists, Shows, Accepted, ExpressionsOf, KeptOf, NoDup,
      ResourceDeps, ResourceDone, SpecOf, SpecFor;
    ExpressionsAgree(inspect, defs, parsed, resources);
    forall id | id in defs ensures SpecFor(inspect, defs, SpecsOf(defs, parsed, resources)[id], id) {
      assert Relation(inspect, resources)[id] == RelationOf(inspect, defs)[id] <= defs.Keys;
      OneSpec(inspect, defs, id, parsed[id], resources[id]);
    }
  }

  lemma OneSpec(inspect: string -> Inspection, defs: map<string, Definition>, id: string,
                fields: seq<FieldDescriptor>, resource: Resource)
    requires id in defs && MadeOf(defs[id], fields, resource) && ResourceDone(inspect, resource)
    requires ResourceDeps(inspect, resource.variables) <= defs.Keys
    requires ResourceDeps(inspect, resource.variables) ==
      set e, d | e in ExpressionsOf(defs[id]) && d in ExprDeps(inspect, e) :: d
    ensures SpecFor(inspect, defs, SpecOf(defs[id], fields, resource), id)
  {
    hide SpecBuilt, PathsEnd, FieldDone, ExprDeps, Lists, Shows, Accepted, ExpressionsOf, KeptOf, NoDup, ResourceDeps;
    BuiltIffPathsEnd(inspect, defs[id], fields, resource, defs.Keys);
  }

  /** Every group that was built is all that the runtime and the controller ask for, exactly if
      the paths of its fields can be read (those of the instance too, by `InstanceFits`), no resource
      is called like the instance spec, and its conditions are boolean: the graph builder sees to
      everything else. */
  lemma BuiltGroupFits(inspect: string -> Inspection, defs: map<string, Definition>, group: Group)
    requires GroupOk(inspect, defs) && SpecsFor(inspect, defs, group.resources)
    requires Closed(RelationOf(inspect, defs)) && group.order == TopologicalOrder(RelationOf(inspect, defs))
    ensures Fit(group, Refs(inspect)) <==>
      && (forall id | id in defs :: PathsEnd(defs[id]))
      && InstanceBuilt(group.instance, defs.Keys)
      && SCHEMA !in defs
      && (forall id | id in defs :: Conditions(Trimmed(defs[id].readyWhen), group.eval))
      && (forall id | id in defs :: Conditions(Trimmed(defs[id].includeWhen), group.eval))
  {
    hide ValidId, Trimmed, Acyclic, TopologicalOrder, TargetsFirst, NoDup, SpecBuilt, PathsEnd,
      Conditions, ExpressionsOf,
      ExprDeps, InstanceBuilt, Accepted;
    var g := RelationOf(inspect, defs);
    InstanceIsReserved();
    assert DependencyRelation(group.resources) == g by {
      forall id | id in defs ensures Elements(group.resources[id].dependencies) == g[id] {
        assert SpecFor(inspect, defs, group.resources[id], id);
      }
    }
    TopologicalOrderValid(g);
    forall id | id in defs
      ensures SpecBuilt(group.resources[id], defs.Keys, Refs(inspect)) <==> PathsEnd(defs[id])
      ensures group.resources[id].readyWhen == Trimmed(defs[id].readyWhen)
      ensures group.resources[id].includeWhen == Trimmed(defs[id].includeWhen)
    {
      assert SpecFor(inspect, defs, group.resources[id], id);
    }
  }
}
