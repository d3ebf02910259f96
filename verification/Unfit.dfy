/** Groups that are built although something is wrong with them. */
module Unfit {
  import opened Ordering
  import opened Fieldpath
  import opened PathText
  import opened Values
  import opened Graphs
  import opened Flatten
  import opened SchemaFlatten
  import opened Resolution
  import opened Refilling
  import opened DependencyGraph
  import opened ExprStates
  import opened Scoping
  import opened Runtime
  import opened Controller
  import opened Assembly
  import opened Example
  import Cel

  // ------------------------------------- a readiness text that is a field's

  /** `x` takes its name from `b`, and the very expression is a readiness condition of `b`. */
  const BLOCKED := map["b" := NO_FIELDS.(readyWhen := [PORT]), "x" := OneField(Cel.Span(PORT), [PORT], true, ["b"])]

  const BLOCKED_GROUP := Group(NO_FIELDS, BLOCKED, ["b", "x"], Always, Blank)

  lemma BlockedIsBuilt()
    ensures SpecBuilt(BLOCKED["b"], BLOCKED.Keys, Example.Refs) && SpecBuilt(BLOCKED["x"], BLOCKED.Keys, Example.Refs)
  {
    hide Lists, Parsable, FieldBuilt;
    FittingIsBuilt();
    assert BLOCKED.Keys == FITTING.Keys;
    assert BLOCKED["b"].variables == FITTING["b"].variables;
  }

  /** The group meets the conditions of the controller, but its sharing does harm. */
  lemma BlockedFits()
    ensures Fit(BLOCKED_GROUP, Example.Refs) && !Scoped(BLOCKED)
  {
    hide SpecBuilt, Parsable, Reaches;
    BlockedIsBuilt();
    assert ["b", "x"][..0] == [] && ["b", "x"][..1] == ["b"];
    NoElements<string>([]);
    assert Elements(["b"]) == {"b"} && Elements(["b", "x"]) == {"b", "x"};
    PortIsReadinessText();
    assert FirstWith(BLOCKED["x"].variables, PORT) == Some(BLOCKED["x"].variables[0]);
    assert !BringsNothing(BLOCKED, "x", "x", PORT);
  }

  lemma PortIsReadinessText()
    ensures PORT in ReadyTexts(BLOCKED) && PORT in BLOCKED["x"].variables[0].field.expressions
    ensures PORT in Texts(BLOCKED["x"].variables)
  {
    assert [PORT][0] == PORT && [PORT][0] in BLOCKED["b"].readyWhen;
    assert BLOCKED["x"].variables[..0] == [];
  }

  /** In no run is there an object for `x`: whatever was set and evaluated, its template is not filled
      in, and after a synchronization it is not processed. */
  lemma BlockedIsNeverFilled(rt: ResourceGroupRuntime, obj: Value)
    requires rt.Valid() && rt.resources == BLOCKED
    ensures rt.Structure() && !rt.Filled("x", obj)
    ensures rt.Synced() && "x" !in rt.resolvedResources ==> !rt.CanProcess("x")
  {
    hide ResourceGroupRuntime.Structure, ResourceGroupRuntime.StagesOk, ResourceGroupRuntime.Synced,
      ResourceGroupRuntime.Filled, ResourceGroupRuntime.CanProcess, ResourceGroupRuntime.ResolvedRightly, Parses,
      ReadyTexts;
    PortIsReadinessText();
    PlainNames();
    TextOfOneSpan(PORT);
    OneSpanIsTame(PORT, ["b"], Env(rt.Values(), rt.format));
    var v := BLOCKED["x"].variables[0];
    assert v in BLOCKED["x"].variables;
    rt.ReadinessTextIsNeverFilled("x", obj, v, PORT);
    if rt.Synced() && "x" !in rt.resolvedResources {
      rt.ReadinessTextBlocks("x", v, PORT);
    }
  }

  /** A field that is one span is tame with any values. */
  lemma OneSpanIsTame(e: string, deps: seq<string>, env: Env)
    requires Parses(Cel.Span(e), OneSpan(e), true)
    ensures var spec := OneField(Cel.Span(e), [e], true, deps); Tame(spec.template, spec.kept, env)
  {
    hide Cel.Decompose, Cel.Extract, Cel.Standalone, Trim, TameWalk, Lists;
    NameIsRead();
    assert Cel.ExprsOf(OneSpan(e).chunks) == [e];
    NameIsListed(Cel.Span(e), OneSpan(e), true, deps);
  }

  // ----------------------------------- definitions that the builder accepts

  const OBJECT := Schema(["object"], [], map["n" := Schema(["string"], [], map[], NoAdditional, None, false)],
                         NoAdditional, None, false)

  /** A resource named like the instance in expressions. */
  const NAMED_SCHEMA := map["schema" := Definition(map[], Some(OBJECT), false, [], [])]

  /** A field with a name of one byte. */
  const SHORT_NAME := map["x" := Definition(map["n" := Str("${schema.n}")], Some(OBJECT), false, [], [])]

  function Inspect(e: string): Inspection { Inspected([SCHEMA], [], []) }

  /** No dependency comes out of expressions that refer to the instance only. */
  lemma NothingDepends(defs: map<string, Definition>)
    requires forall id | id in defs :: Accepted(defs[id])
    ensures Acyclic(RelationOf(Inspect, defs))
    ensures forall e :: ExprOk(Inspect, defs.Keys, e)
  {
    hide Acyclic, Accepted, ExpressionsOf;
    assert forall e :: ExprDeps(Inspect, e) == {};
    forall id | id in defs ensures RelationOf(Inspect, defs)[id] == {} {
    }
    NoEdgesNoCycle(RelationOf(Inspect, defs));
    assert Elements([SCHEMA]) == {SCHEMA};
  }

  lemma IdsAreValid()
    ensures ValidId("schema") && ValidId("x")
  {
  }

  lemma EmptyConforms()
    ensures Conforms(Obj(map[]), Some(OBJECT))
  {
    assert OBJECT.types == ["object"];
  }

  /** It is built, but it is not what the runtime takes for granted. */
  lemma SchemaIsAccepted()
    ensures GroupOk(Inspect, NAMED_SCHEMA) && SCHEMA in NAMED_SCHEMA
  {
    hide Acyclic, ValidId, ExprOk, Conforms, RelationOf, ExpressionsOf;
    EmptyConforms();
    IdsAreValid();
    assert Accepted(NAMED_SCHEMA["schema"]);
    NothingDepends(NAMED_SCHEMA);
  }

  const SHORT := "${schema.n}"

  lemma ShortText()
    ensures Cel.Extract(SHORT).Expressions? && Cel.Standalone(SHORT) && HasExpressions(SHORT)
  {
    hide Cel.Extract, Cel.Standalone, Cel.Decompose, Trim;
    PlainNames();
    TextOfOneSpan(SHARED);
    assert Cel.Span(SHARED) == SHORT;
    TextIsField(SHORT, OneSpan(SHARED), true);
  }

  lemma ShortLeaf()
    ensures Conforms(Str(SHORT), FieldSchema(OBJECT, "n")) && Kept(Str(SHORT), FieldSchema(OBJECT, "n")) == {[]}
    ensures FieldSchema(OBJECT, "n").Some?
  {
    hide Cel.Extract, Cel.Standalone, HasExpressions;
    ShortText();
    assert FieldSchema(OBJECT, "n") == Some(Schema(["string"], [], map[], NoAdditional, None, false));
    assert Leaves(Str(SHORT)) == {[]};
  }

  lemma ShortNameIsKept()
    ensures Conforms(Obj(map["n" := Str(SHORT)]), Some(OBJECT))
    ensures [Key("n")] in Kept(Obj(map["n" := Str(SHORT)]), Some(OBJECT))
  {
    hide FieldSchema, HasExpressions, Cel.Extract, Cel.Standalone;
    ShortLeaf();
    var fields, schema := map["n" := Str(SHORT)], Some(OBJECT);
    assert SingleType(schema) == Some("object");
    ObjectConforms(fields, schema);
    var kept := map k | k in fields :: Kept(fields[k], FieldSchema(OBJECT, k));
    ObjectKept(fields, schema, kept);
    assert [] in kept["n"] && [Key("n")] == [Key("n")] + [];
  }

  lemma ShortPathSpins()
    ensures !Parsable(PathOf([Key("n")]))
  {
    var w := [Key("n")];
    assert w[..0] == [] && PathOf([]) == "" && PathOf(w) == "n";
    assert EndsShort(w);
    PathSpinsIff(w);
  }

  /** It is built, and the first attempt to fill it in never returns. */
  lemma ShortNameIsAccepted()
    ensures GroupOk(Inspect, SHORT_NAME) && !PathsEnd(SHORT_NAME["x"])
  {
    hide Acyclic, ValidId, ExprOk, Conforms, RelationOf, ExpressionsOf, PathOf, Parsable, Kept;
    ShortNameIsKept();
    IdsAreValid();
    assert Accepted(SHORT_NAME["x"]);
    assert [Key("n")] in KeptOf(SHORT_NAME["x"]);
    NothingDepends(SHORT_NAME);
    ShortPathSpins();
  }
}
