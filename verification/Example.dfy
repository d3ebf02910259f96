/** Two small groups: one that meets all that the runtime and the controller ask for, and one in
    which a shared expression brings a foreign dependency and a child outlives its instance. */
module Example {
  import opened Ordering
  import opened Fieldpath
  import opened PathText
  import opened Values
  import opened Graphs
  import opened Flatten
  import opened Interpolation
  import opened Resolution
  import opened Refilling
  import opened Finalizers
  import opened Protocol
  import opened ClusterModule
  import opened DependencyGraph
  import opened ExprStates
  import opened Scoping
  import opened Runtime
  import opened Reconciler
  import opened Controller
  import opened Histories
  import Damage
  import Cel

  const NAME := [Key("name")]
  const NO_FIELDS := ResourceSpec(Obj(map[]), {}, [], [], [], [])

  /** A resource whose field `name` holds the text. */
  function OneField(text: string, exprs: seq<string>, standalone: bool, deps: seq<string>): ResourceSpec {
    ResourceSpec(Obj(map["name" := Str(text)]), {NAME},
                 [Variable(FieldDescriptor("name", exprs, "any", standalone), deps,
                           if deps == [] then Static else Dynamic)],
                 deps, [], [])
  }

  /** The text of a field is one span, or two with a dash between them. */
  const SHARED := "schema.n"
  const PORT := "b.port"

  function OneSpan(e: string): Cel.Template { Cel.Template([Cel.Chunk("", e)], "") }

  /** What parsing such a text gives. */
  ghost predicate Parses(text: string, t: Cel.Template, standalone: bool) {
    && Cel.Decompose(text) == Some(t) && Cel.Extract(text) == Cel.Expressions(Cel.ExprsOf(t.chunks))
    && (Cel.Standalone(text) <==> standalone) && (standalone ==> |t.chunks| == 1 && Trim(text) == t.chunks[0].expr)
    && t.chunks != [] && forall i | 0 <= i < |t.chunks| :: BareEnds(t.chunks[i].expr)
  }

  predicate Plain(e: string) { forall k | 0 <= k < |e| :: e[k] !in SPAN_CHARS }

  lemma {:induction false} PlainScan(s: string, i: nat)
    requires i < |s| && s[|s| - 1] == '}' && forall k | i <= k < |s| - 1 :: s[k] !in SPAN_CHARS
    ensures Cel.ScanFrom(s, i, 1) == Cel.Closed(|s| - 1)
    decreases |s| - i
  {
    if i < |s| - 1 {
      PlainScan(s, i + 1);
    }
  }

  lemma PlainIsBalanced(e: string)
    requires Plain(e)
    ensures Cel.Balanced(e) && BareEnds(e)
  {
    PlainScan(e + Cel.EXPR_END, 0);
  }

  lemma TextOfOneSpan(e: string)
    requires Plain(e)
    ensures Parses(Cel.Span(e), OneSpan(e), true)
  {
    hide Cel.Extract, Cel.Decompose, Cel.Balanced, Cel.Standalone, Trim;
    var t := OneSpan(e);
    PlainIsBalanced(e);
    assert Cel.Render(Cel.Template(t.chunks[1..], "")) == "";
    assert Cel.Render(t) == Cel.Span(e);
    Cel.DecomposeRender(t);
    Cel.ExtractRender(t);
    Cel.StandaloneIff(Cel.Span(e));
    TrimSpan(e);
    TrimKeepsIff(e);
  }

  lemma TextOfTwoSpans(a: string, e: string)
    requires Plain(a) && Plain(e)
    ensures Parses(Cel.Span(a) + ("-" + Cel.Span(e)), TwoSpans("", a, "-", e), false)
    ensures Cel.ExprsOf(TwoSpans("", a, "-", e).chunks) == [a, e]
  {
    hide Cel.Extract, Cel.Decompose, Cel.Balanced, Cel.Standalone, Trim, Cel.Render;
    var t := TwoSpans("", a, "-", e);
    PlainIsBalanced(a);
    PlainIsBalanced(e);
    TwoSpansShape("", a, "-", e, (x: string) => "");
    assert "" + (Cel.Span(a) + ("-" + Cel.Span(e))) == Cel.Span(a) + ("-" + Cel.Span(e));
    Cel.DecomposeRender(t);
    Cel.ExtractRender(t);
    Cel.StandaloneIff(Cel.Render(t));
  }

  lemma NameIsRead()
    ensures PathOf(NAME) == "name" && Parsable("name") && TameWalk(NAME)
  {
    assert NAME[..0] == [] && PathOf([]) == "";
    assert !EndsShort(NAME);
    PathSpinsIff(NAME);
  }

  lemma TextIsField(text: string, t: Cel.Template, standalone: bool)
    requires Parses(text, t, standalone)
    ensures HasExpressions(text)
  {
  }

  lemma OnlyLeaf(text: string)
    requires HasExpressions(text)
    ensures Leaves(Obj(map["name" := Str(text)])) == {NAME}
    ensures Get(Obj(map["name" := Str(text)]), NAME) == Some(Str(text))
  {
    hide HasExpressions;
    assert Leaves(Str(text)) == {[]};
    assert NAME == [Key("name")] + [] && NAME[1..] == [];
  }

  lemma NameIsListed(text: string, t: Cel.Template, standalone: bool, deps: seq<string>)
    requires Parses(text, t, standalone)
    ensures var spec := OneField(text, Cel.ExprsOf(t.chunks), standalone, deps);
      && Lists(spec.template, [], spec.kept, FieldsOf(spec.variables), [NAME])
      && Get(spec.template, NAME) == Some(Str(text))
  {
    hide Cel.Extract, Cel.Decompose, Cel.Standalone, Trim, PathOf, Leaves, HasExpressions;
    NameIsRead();
    var spec := OneField(text, Cel.ExprsOf(t.chunks), standalone, deps);
    assert HasExpressions(text) by { TextIsField(text, t, standalone); }
    OnlyLeaf(text);
    assert Elements([NAME]) == {NAME} && [] + NAME == NAME;
    assert standalone ==> Cel.ExprsOf(t.chunks) == [Trim(text)];
    assert Entry(spec.template, [], NAME, spec.variables[0].field);
  }

  lemma OneFieldIsBuilt(text: string, t: Cel.Template, standalone: bool, deps: seq<string>, ids: set<string>,
                        refs: string -> set<string>)
    requires Parses(text, t, standalone) && Elements(deps) <= ids
    requires Elements(deps) == set e, d | e in Cel.ExprsOf(t.chunks) && d in refs(e) :: d
    ensures SpecBuilt(OneField(text, Cel.ExprsOf(t.chunks), standalone, deps), ids, refs)
  {
    hide Parses, Lists, Parsable, PathOf;
    var spec := OneField(text, Cel.ExprsOf(t.chunks), standalone, deps);
    NameIsListed(text, t, standalone, deps);
    NameIsRead();
    assert t.chunks != [] by { NotEmpty(text, t, standalone); }
    var v := spec.variables[0];
    assert FieldBuilt(v, refs);
    assert forall u | u in spec.variables :: u == v;
    assert v in spec.variables;
    assert Elements(deps) == set u, d | u in spec.variables && d in u.dependencies :: d;
  }

  lemma NotEmpty(text: string, t: Cel.Template, standalone: bool)
    requires Parses(text, t, standalone)
    ensures t.chunks != []
  {
  }

  lemma NoFieldsIsBuilt(ids: set<string>, refs: string -> set<string>)
    ensures SpecBuilt(NO_FIELDS, ids, refs)
  {
    NoElements<Walk>([]);
    NoElements<string>([]);
    assert FieldsOf(NO_FIELDS.variables) == [];
    assert Lists(NO_FIELDS.template, [], {}, [], []);
  }

  function Refs(e: string): set<string> { if e == PORT then {"b"} else {} }

  function Always(e: string, ids: set<string>, ctx: map<string, Value>): Option<Value> { Some(Bool(true)) }

  function Blank(v: Value): string { "" }

  lemma PlainNames()
    ensures Plain(SHARED) && Plain(PORT)
  {
  }

  lemma RefsOfPort(exprs: seq<string>)
    requires PORT in exprs
    ensures Elements(["b"]) == {"b"} == set e, d | e in exprs && d in Refs(e) :: d
  {
    assert "b" in Refs(PORT);
  }

  // ------------------------------------------------------------ a group that fits

  /** `x` takes its name from `b`. */
  const FITTING := map["b" := NO_FIELDS, "x" := OneField(Cel.Span(PORT), [PORT], true, ["b"])]

  const GROUP := Group(NO_FIELDS, FITTING, ["b", "x"], Always, Blank)

  lemma FittingIsBuilt()
    ensures SpecBuilt(FITTING["b"], FITTING.Keys, Refs) && SpecBuilt(FITTING["x"], FITTING.Keys, Refs)
  {
    hide SpecBuilt, Parses;
    PlainNames();
    NoFieldsIsBuilt(FITTING.Keys, Refs);
    TextOfOneSpan(PORT);
    assert Cel.ExprsOf(OneSpan(PORT).chunks) == [PORT];
    assert [PORT][0] == PORT;
    RefsOfPort([PORT]);
    OneFieldIsBuilt(Cel.Span(PORT), OneSpan(PORT), true, ["b"], FITTING.Keys, Refs);
  }

  /** The conditions of the controller can be met by a group with a dependency. */
  lemma GroupFits()
    ensures Fit(GROUP, Refs) && Scoped(GROUP.resources)
  {
    hide SpecBuilt, Parsable, Reaches;
    FittingIsBuilt();
    assert ["b", "x"][..0] == [] && ["b", "x"][..1] == ["b"];
    NoElements<string>([]);
    assert Elements(["b"]) == {"b"} && Elements(["b", "x"]) == {"b", "x"};
    assert ReadyTexts(FITTING) == {};
    var g := DependencyRelation(FITTING);
    assert Reaches(g, "x", "b") by { EdgeReaches(g, "x", "b"); }
    assert Texts([]) == [] && FITTING["b"].variables == [];
    assert FITTING["x"].variables[..0] == [] && Texts(FITTING["x"].variables) == [PORT];
    forall first, id, e | first in FITTING && id in FITTING ensures BringsNothing(FITTING, first, id, e) {
    }
  }

  lemma EdgeReaches(g: Graph, a: string, b: string)
    requires Edge(g, a, b)
    ensures Reaches(g, a, b)
  {
    assert IsWalk(g, [a, b]);
  }

  // ------------------------------------- a child that outlives its instance

  /** `a` and `x` share an expression about the instance; the field of `x` that holds it also
      refers to `b`. */
  const A := OneField(Cel.Span(SHARED), [SHARED], true, [])
  const X := OneField(Cel.Span(SHARED) + ("-" + Cel.Span(PORT)), [SHARED, PORT], false, ["b"])
  const SHARING := map["a" := A, "b" := NO_FIELDS, "x" := X]
  const ORDER := ["a", "b", "x"]
  /** The order in which the runtimes below range over the map of resources. */
  const WALK := ["x", "a", "b"]

  const SHARING_GROUP := Group(NO_FIELDS, SHARING, ORDER, Always, Blank)

  lemma SharingIsBuilt()
    ensures SpecBuilt(A, SHARING.Keys, Refs) && SpecBuilt(NO_FIELDS, SHARING.Keys, Refs)
    ensures SpecBuilt(X, SHARING.Keys, Refs)
  {
    hide SpecBuilt, Parses;
    PlainNames();
    NoFieldsIsBuilt(SHARING.Keys, Refs);
    TextOfOneSpan(SHARED);
    assert Cel.ExprsOf(OneSpan(SHARED).chunks) == [SHARED];
    NoElements<string>([]);
    assert Elements<string>([]) == set e, d | e in [SHARED] && d in Refs(e) :: d;
    OneFieldIsBuilt(Cel.Span(SHARED), OneSpan(SHARED), true, [], SHARING.Keys, Refs);
    TextOfTwoSpans(SHARED, PORT);
    assert [SHARED, PORT][1] == PORT;
    RefsOfPort([SHARED, PORT]);
    OneFieldIsBuilt(Cel.Span(SHARED) + ("-" + Cel.Span(PORT)), TwoSpans("", SHARED, "-", PORT), false, ["b"],
                    SHARING.Keys, Refs);
  }

  lemma SharingIsOrdered()
    ensures Ordered(SHARING, ORDER) && Ranges(SHARING, WALK)
  {
    assert ORDER[..0] == [] && ORDER[..1] == ["a"] && ORDER[..2] == ["a", "b"];
    NoElements<string>([]);
    assert Elements(["b"]) == {"b"} && "b" in Elements(["a", "b"]);
    assert ORDER[0] == "a" && ORDER[1] == "b" && ORDER[2] == "x" && WALK[0] == "x" && WALK[1] == "a" && WALK[2] == "b";
    assert Elements(ORDER) == SHARING.Keys == Elements(WALK);
  }

  /** The group meets every other condition. */
  lemma SharingFits()
    ensures Fit(SHARING_GROUP, Refs)
  {
    hide SpecBuilt, Ordered;
    SharingIsBuilt();
    SharingIsOrdered();
  }

  lemma NoReadinessTexts()
    ensures ReadyTexts(SHARING) == {} && Apart(SHARING) && forall ids :: ReadyAt(SHARING, ids) == {}
  {
  }

  /** Both states of the shared expression wait for `b`. */
  lemma SharedWaits(e: string)
    requires e == SHARED || e == PORT
    ensures FirstWith(FieldsIn(SHARING, WALK), e) == Some(X.variables[0])
    ensures X.variables[0].kind == Dynamic && X.variables[0].dependencies == ["b"]
  {
    hide FieldsIn;
    assert [SHARED, PORT][0] == SHARED && [SHARED, PORT][1] == PORT;
    FirstFieldWins(SHARING, WALK, e);
  }

  lemma TextsOfSharing()
    ensures Texts(A.variables) == [SHARED] && Texts(NO_FIELDS.variables) == [] && Texts(X.variables) == [SHARED, PORT]
  {
    assert A.variables[..0] == [] && X.variables[..0] == [];
  }

  /** While `b` exists the passes find it, and `x` as long as that exists; once `b` is gone they do
      not find `a`: the group is not scoped. */
  lemma SharingIsNotScoped()
    ensures !Scoped(SHARING)
    ensures forall i | 0 <= i < |ORDER| :: ORDER[i] in SHARING
    ensures FoundAmong(SHARING, ORDER, WALK, {"a", "b", "x"}, |ORDER|) == {"b", "x"}
    ensures FoundAmong(SHARING, ORDER, WALK, {"a", "b"}, |ORDER|) == {"b"}
    ensures FoundAmong(SHARING, ORDER, WALK, {"a"}, |ORDER|) == {}
  {
    hide FieldsIn, FirstWith, Ordered, Ranges, Scoped, WaitsFor, Dead, Texts;
    WaitsOfSharing();
    SharingIsOrdered();
    assert ORDER[0] == "a" && ORDER[1] == "b" && ORDER[2] == "x";
    assert SHARING["a"].dependencies == [] && SHARING["b"].dependencies == [] && SHARING["x"].dependencies == ["b"];
    forall existing: set<string> |
      existing <= {"a", "b", "x"} && "a" in existing && ("x" in existing ==> "b" in existing)
      ensures FoundAmong(SHARING, ORDER, WALK, existing, 3) == existing - {"a"}
    {
      assert FoundAmong(SHARING, ORDER, WALK, existing, 0) == {};
      assert FoundAmong(SHARING, ORDER, WALK, existing, 1) == {};
      assert FoundAmong(SHARING, ORDER, WALK, existing, 2) == if "b" in existing then {"b"} else {};
    }
    FindsAllIff(SHARING, ORDER);
    assert ClosedUnder(DependencyRelation(SHARING), {"a"}) by { NoElements<string>([]); }
  }

  lemma WaitsOfSharing()
    ensures WaitsFor(SHARING, WALK, "a") == {"b"} == WaitsFor(SHARING, WALK, "x") && WaitsFor(SHARING, WALK, "b") == {}
    ensures !Dead(SHARING, WALK, "a") && !Dead(SHARING, WALK, "b") && !Dead(SHARING, WALK, "x")
  {
    hide FieldsIn, FirstWith, Texts, ReadyTexts, ReadyAt, IdsBefore;
    NoReadinessTexts();
    TextsOfSharing();
    SharedWaits(SHARED);
    SharedWaits(PORT);
    assert [SHARED][0] == SHARED && [SHARED, PORT][0] == SHARED;
    assert FieldOf(SHARING, WALK, "a", SHARED) == Some(X.variables[0]) == FieldOf(SHARING, WALK, "x", SHARED);
    assert "b" in ["b"];
  }

  const UID := "uid"
  const FINALIZER := InstanceFinalizerName(UID)
  const G := DependencyRelation(SHARING)

  /** The cluster with these children. */
  function With(children: set<string>, deleting: bool): ClusterState { Now(Null, FINALIZER, children, deleting) }

  /** All children are created, the user deletes the instance, and the children that the passes find
      are deleted, `x` before `b`. */
  const HISTORY := [
    With({}, false), With({"a"}, false), With({"a", "b"}, false), With({"a", "b", "x"}, false),
    With({"a", "b", "x"}, true), With({"a", "b"}, true), With({"a"}, true)]

  /** Everything up to here keeps to the discipline. */
  lemma HistoryIsLawful()
    ensures IsRun(G, FINALIZER, HISTORY)
  {
    hide Protocol.Step;
    assert G["a"] == {} && G["b"] == {} && G["x"] == {"b"} by { NoElements<string>([]); assert "b" in ["b"]; }
    Creates(G, Null, FINALIZER, {}, "a");
    Creates(G, Null, FINALIZER, {"a"}, "b");
    Creates(G, Null, FINALIZER, {"a", "b"}, "x");
    assert {} + {"a"} == {"a"} && {"a"} + {"b"} == {"a", "b"} && {"a", "b"} + {"x"} == {"a", "b", "x"};
    assert Protocol.Step(G, FINALIZER, HISTORY[3], HISTORY[4]) by { Marks(G, Null, FINALIZER, {"a", "b", "x"}); }
    Deletes(G, Null, FINALIZER, {"a", "b", "x"}, "x");
    Deletes(G, Null, FINALIZER, {"a", "b"}, "b");
    assert {"a", "b", "x"} - {"x"} == {"a", "b"} && {"a", "b"} - {"b"} == {"a"};
  }

  // ------------------------------------------- nothing else goes wrong in the pass

  ghost predicate Sharing(rt: ResourceGroupRuntime) {
    rt.resources == SHARING && rt.instance == NO_FIELDS && rt.eval == Always && rt.format == Blank && rt.walk == WALK
  }

  /** A resource of this group is processed only with its expressions evaluated. */
  lemma ValuesAreKnown(rt: ResourceGroupRuntime, id: string, e: string)
    requires rt.Structure() && Sharing(rt) && Apart(SHARING)
    requires id in SHARING && rt.CanProcess(id) && e in Texts(SHARING[id].variables) && (e == SHARED || e == PORT)
    ensures e in rt.Values()
  {
    hide ResourceGroupRuntime.Structure, Apart, FirstWith, FieldsIn, Texts;
    rt.RuntimeKeys();
    var s := rt.StateOf(id, e);
    rt.StatesAreShared(id, s);
    SharedWaits(e);
  }

  /** Blank values leave the texts tame. */
  lemma TameText(text: string, t: Cel.Template, standalone: bool, env: Env)
    requires Parses(text, t, standalone) && env.format == Blank
    requires forall i | 0 <= i < |t.chunks| :: t.chunks[i].lit in ["", "-"] && t.chunks[i].expr in env.data
    ensures TameString(text, env) && Ready(text, env)
  {
    hide Cel.Decompose, Cel.Extract, Cel.Standalone, Trim;
    EmptyOpensNothing();
    Cel.IndexStartIs("-", 1);
    Cel.RenderDecompose(text);
    assert Quiet(t, Print(env));
    QuietIsSafe(t, Print(env));
  }

  lemma NothingLacks(text: string, t: Cel.Template, standalone: bool, deps: seq<string>, env: Env)
    requires Parses(text, t, standalone) && env.format == Blank
    requires forall i | 0 <= i < |t.chunks| :: t.chunks[i].lit in ["", "-"] && t.chunks[i].expr in env.data
    ensures var spec := OneField(text, Cel.ExprsOf(t.chunks), standalone, deps); !Lacking(spec.template, spec.kept, env)
  {
    hide Parses, TameString, Ready, TameWalk, Lists;
    NameIsRead();
    NameIsListed(text, t, standalone, deps);
    TameText(text, t, standalone, env);
  }

  lemma NothingFails(rt: ResourceGroupRuntime)
    requires rt.Structure() && Sharing(rt) && Apart(SHARING)
    ensures !rt.PropagationFails() && !rt.StaticFails() && forall obj :: !rt.SyncFails(obj)
  {
    hide ResourceGroupRuntime.Structure, Apart, Lacking, ResourceGroupRuntime.CanProcess, Parses, Texts;
    var env := Env(rt.Values(), rt.format);
    PlainNames();
    TextsOfSharing();
    if rt.CanProcess("a") {
      ValuesAreKnown(rt, "a", SHARED);
      TextOfOneSpan(SHARED);
      assert Cel.ExprsOf(OneSpan(SHARED).chunks) == [SHARED];
      NothingLacks(Cel.Span(SHARED), OneSpan(SHARED), true, [], env);
    }
    if rt.CanProcess("x") {
      ValuesAreKnown(rt, "x", SHARED);
      ValuesAreKnown(rt, "x", PORT);
      TextOfTwoSpans(SHARED, PORT);
      NothingLacks(Cel.Span(SHARED) + ("-" + Cel.Span(PORT)), TwoSpans("", SHARED, "-", PORT), false, ["b"], env);
    }
    NoFieldsLackNothing(env);
    assert !rt.PropagationFails();
  }

  lemma NoFieldsLackNothing(env: Env)
    ensures !Lacking(NO_FIELDS.template, NO_FIELDS.kept, env)
  {
  }

  /** The next pass, with nobody else at work and every call answered, finds no child, gives the
      finalizer up and reports success: `a` stays without its instance. */
  method ChildOutlivesInstance() returns (o: Outcome, left: set<string>, held: bool)
    ensures o.Done? && left == {"a"} && !held
  {
    hide IsRun, Ordered, Apart, WellBuilt, Scoped, FoundAmong, ResourceGroupRuntime.Valid,
      ResourceGroupRuntime.Synced, ResourceGroupRuntime.Structure, ResourceGroupRuntime.PropagationFails,
      ResourceGroupRuntime.StaticFails, ResourceGroupRuntime.SyncFails, Cluster.Valid, Cluster.Lawful,
      InstanceGraphReconciler.Linked;
    HistoryIsLawful();
    SharingFits();
    SharingIsOrdered();
    SharingIsNotScoped();
    var start := With({"a"}, true);
    var cluster := new Cluster(G, FINALIZER, (k: nat) => [], (k: nat) => Works, (k: nat) => true, start, HISTORY);
    var rt, ok := NewResourceGroupRuntime(NO_FIELDS, start.instance.value.content, SHARING, ORDER, WALK, Always, Blank,
                                          Refs);
    Damage.RuntimeStands(rt);
    NoReadinessTexts();
    NothingFails(rt);
    assert ok;
    var igr := new InstanceGraphReconciler(cluster, rt, UID, start.instance.value);
    assert [FINALIZER][0] == FINALIZER;
    assert start.children.Keys == {"a"};
    Damage.LinksUp(igr);
    assert igr.Blind(cluster.state, igr.instance);
    o := igr.Reconcile();
    NoSyncFailed(igr);
    left := cluster.state.children.Keys;
    held := Held(cluster.state, FINALIZER);
  }

  lemma NoSyncFailed(igr: InstanceGraphReconciler)
    requires igr.rt.Structure() && Sharing(igr.rt)
    ensures !igr.SyncHasFailed()
  {
    hide ResourceGroupRuntime.Structure, ResourceGroupRuntime.SyncFails, Ordered, Apart;
    NoReadinessTexts();
    NothingFails(igr.rt);
  }
}
