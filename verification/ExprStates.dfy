/** The shared expression states a runtime starts from. */
module ExprStates {
  import opened Ordering
  import opened Fieldpath
  import opened PathText
  import opened Values
  import opened Flatten
  import opened Resolution
  import opened DependencyGraph

  /** A field of a resource, as the graph builder leaves it. */
  datatype Variable = Variable(field: FieldDescriptor, dependencies: seq<string>, kind: Kind)

  /** A resource of the graph: what the runtime reads of it, and the walks to those strings of
      its template that its fields stand for. */
  datatype ResourceSpec = ResourceSpec(
    template: Value, kept: set<Walk>, variables: seq<Variable>, dependencies: seq<string>,
    readyWhen: seq<string>, includeWhen: seq<string>)

  const INSTANCE := "instance"

  /** `expressionEvaluationState`. */
  class ExprState {
    const expression: string
    const dependencies: seq<string>
    const kind: Kind
    var resolved: bool
    var value: Value

    constructor (e: string, deps: seq<string>, k: Kind)
      ensures expression == e && dependencies == deps && kind == k && !resolved
    {
      expression, dependencies, kind := e, deps, k;
      resolved, value := false, Null;
    }
  }

  // ------------------------------------------------------ which field is first

  predicate Mentions(v: Variable, e: string) { e in v.field.expressions }

  /** The first field that holds the expression. */
  function FirstWith(fields: seq<Variable>, e: string): (r: Option<Variable>)
    ensures r.Some? ==> r.value in fields && Mentions(r.value, e)
    ensures r.None? ==> forall v | v in fields :: !Mentions(v, e)
  {
    if fields == [] then None
    else if Mentions(fields[0], e) then Some(fields[0])
    else FirstWith(fields[1..], e)
  }

  lemma {:induction false} FirstOfAppend(a: seq<Variable>, b: seq<Variable>, e: string)
    ensures FirstWith(a + b, e) == if FirstWith(a, e).Some? then FirstWith(a, e) else FirstWith(b, e)
  {
    if a == [] {
      assert a + b == b;
    } else {
      assert (a + b)[1..] == a[1..] + b;
      FirstOfAppend(a[1..], b, e);
    }
  }

  /** The fields of the resources in the order in which they are ranged over. */
  function FieldsIn(resources: map<string, ResourceSpec>, walk: seq<string>): seq<Variable> {
    if walk == [] then []
    else FieldsIn(resources, walk[..|walk| - 1]) +
         if walk[|walk| - 1] in resources then resources[walk[|walk| - 1]].variables else []
  }

  lemma {:induction false} FieldsAreOfResources(resources: map<string, ResourceSpec>, walk: seq<string>, v: Variable)
    ensures v in FieldsIn(resources, walk) <==>
      exists id :: id in walk && id in resources && v in resources[id].variables
  {
    if walk != [] {
      var n := |walk| - 1;
      FieldsAreOfResources(resources, walk[..n], v);
      assert walk == walk[..n] + [walk[n]];
    }
  }

  /** The fields of the resource that is ranged over first come first. */
  lemma {:induction false} FirstResourceFirst(resources: map<string, ResourceSpec>, walk: seq<string>)
    requires walk != [] && walk[0] in resources
    ensures resources[walk[0]].variables <= FieldsIn(resources, walk)
  {
    var n := |walk| - 1;
    if n == 0 {
      assert walk[..0] == [];
    } else {
      FirstResourceFirst(resources, walk[..n]);
    }
  }

  // ---------------------------------------------------------------- the states

  /** The state's kind and dependencies are those of the first field that holds its expression. */
  ghost predicate SeenIn(s: ExprState, fields: seq<Variable>) {
    var v := FirstWith(fields, s.expression);
    v.Some? && s.dependencies == v.value.dependencies && s.kind == v.value.kind
  }

  ghost predicate ReadyEntry(s: ExprState, texts: set<string>) {
    s.kind == ReadyWhen && s.expression in texts && s.dependencies == []
  }

  ghost function ReadyTexts(resources: map<string, ResourceSpec>): set<string> {
    set id, e | id in resources && e in resources[id].readyWhen :: e
  }

  /** All expressions of a list of fields, in order. */
  function Texts(vars: seq<Variable>): seq<string> {
    if vars == [] then [] else Texts(vars[..|vars| - 1]) + vars[|vars| - 1].field.expressions
  }

  lemma {:induction false} TextsAreExpressions(vars: seq<Variable>, e: string)
    requires e in Texts(vars)
    ensures exists v :: v in vars && e in v.field.expressions
  {
    var n := |vars| - 1;
    if e !in vars[n].field.expressions {
      TextsAreExpressions(vars[..n], e);
    }
  }

  lemma {:induction false} TextsHasAll(vars: seq<Variable>, v: Variable, e: string)
    requires v in vars && e in v.field.expressions
    ensures e in Texts(vars)
  {
    var n := |vars| - 1;
    if v != vars[n] {
      assert v in vars[..n];
      TextsHasAll(vars[..n], v, e);
    }
  }

  type Cache = map<string, ExprState>

  ghost predicate CacheOk(cache: Cache, fields: seq<Variable>, texts: set<string>) {
    forall e | e in cache ::
      cache[e].expression == e && (SeenIn(cache[e], fields) || ReadyEntry(cache[e], texts))
  }

  /** Every expression of the fields has an entry. */
  ghost predicate Covers(cache: Cache, fields: seq<Variable>) {
    forall e | FirstWith(fields, e).Some? :: e in cache
  }

  /** The states of a list of fields: one per expression, shared with the cache unless a
      readiness condition with the same text has taken the cache entry since. */
  ghost predicate StatesOf(states: seq<ExprState>, list: seq<string>, cache: Cache, fields: seq<Variable>,
                           texts: set<string>) {
    && |states| == |list|
    && forall i | 0 <= i < |list| ::
         && states[i].expression == list[i] && list[i] in cache
         && (SeenIn(states[i], fields) || ReadyEntry(states[i], texts))
         && (list[i] in texts || states[i] == cache[list[i]])
  }

  /** Entries are only added, except that readiness texts may be overwritten. */
  ghost predicate Grows(cache: Cache, cache': Cache, texts: set<string>) {
    forall e | e in cache :: e in cache' && (e in texts || cache'[e] == cache[e])
  }

  /** The readiness texts have readiness entries. */
  ghost predicate Readied(cache: Cache, texts: set<string>) {
    forall e | e in texts :: e in cache && cache[e].kind == ReadyWhen
  }

  lemma SeenInMore(s: ExprState, fields: seq<Variable>, more: seq<Variable>)
    requires SeenIn(s, fields)
    ensures SeenIn(s, fields + more)
  {
    FirstOfAppend(fields, more, s.expression);
  }

  lemma CacheOkExtends(cache: Cache, fields: seq<Variable>, more: seq<Variable>, texts: set<string>)
    requires CacheOk(cache, fields, texts)
    ensures CacheOk(cache, fields + more, texts)
  {
    hide SeenIn;
    forall e | e in cache && SeenIn(cache[e], fields) ensures SeenIn(cache[e], fields + more) {
      SeenInMore(cache[e], fields, more);
    }
  }

  lemma StatesOfGrows(states: seq<ExprState>, list: seq<string>, cache: Cache, cache': Cache,
                      fields: seq<Variable>, more: seq<Variable>, texts: set<string>)
    requires StatesOf(states, list, cache, fields, texts) && Grows(cache, cache', texts)
    ensures StatesOf(states, list, cache', fields + more, texts)
  {
    hide SeenIn;
    forall i | 0 <= i < |list| && SeenIn(states[i], fields) ensures SeenIn(states[i], fields + more) {
      SeenInMore(states[i], fields, more);
    }
  }

  lemma StatesOfMore(states: seq<ExprState>, list: seq<string>, cache: Cache, cache': Cache, fields: seq<Variable>,
                     texts: set<string>, e: string, s: ExprState)
    requires StatesOf(states, list, cache, fields, texts) && Grows(cache, cache', texts)
    requires CacheOk(cache', fields, texts)
    requires e in cache' && s == cache'[e]
    ensures StatesOf(states + [s], list + [e], cache', fields, texts)
  {
    hide SeenIn;
    StatesOfGrows(states, list, cache, cache', fields, [], texts);
    assert fields + [] == fields;
  }

  lemma CacheOkMore(cache: Cache, fields: seq<Variable>, texts: set<string>, e: string, s: ExprState)
    requires CacheOk(cache, fields, texts) && s.expression == e
    requires SeenIn(s, fields) || ReadyEntry(s, texts)
    ensures CacheOk(cache[e := s], fields, texts)
  {
  }

  /** The states made so far are unresolved and include those in use. */
  ghost predicate Made(made: set<ExprState>, cache: Cache, states: seq<ExprState>)
    reads made
  {
    && (forall s | s in made :: !s.resolved)
    && (forall e | e in cache :: cache[e] in made)
    && (forall s | s in states :: s in made)
  }

  /** The states are those the cache holds now. */
  ghost predicate Direct(states: seq<ExprState>, list: seq<string>, cache: Cache) {
    |states| == |list| && forall i | 0 <= i < |list| :: list[i] in cache && states[i] == cache[list[i]]
  }

  lemma DirectMore(states: seq<ExprState>, list: seq<string>, cache: Cache, cache': Cache, e: string)
    requires Direct(states, list, cache) && Grows(cache, cache', {}) && e in cache'
    ensures Direct(states + [cache'[e]], list + [e], cache')
  {
  }

  lemma GrowsMore(cache: Cache, cache': Cache, texts: set<string>)
    requires Grows(cache, cache', {})
    ensures Grows(cache, cache', texts)
  {
  }

  lemma GrowsSelf(cache: Cache, texts: set<string>)
    ensures Grows(cache, cache, texts)
  {
  }

  lemma GrowsOver(cache0: Cache, cache: Cache, e: string, s: ExprState, texts: set<string>)
    requires Grows(cache0, cache, texts) && (e !in cache || e in texts)
    ensures Grows(cache0, cache[e := s], texts) && Grows(cache, cache[e := s], texts)
  {
  }

  lemma GrowsTrans(a: Cache, b: Cache, c: Cache, texts: set<string>)
    requires Grows(a, b, texts) && Grows(b, c, texts)
    ensures Grows(a, c, texts)
  {
  }

  lemma CoversGrows(a: Cache, b: Cache, fields: seq<Variable>, texts: set<string>)
    requires Covers(a, fields) && Grows(a, b, texts)
    ensures Covers(b, fields)
  {
  }

  /** The loop over the expressions of one field, the last of `fields`. */
  method AddVariable(v: Variable, states0: seq<ExprState>, ghost list: seq<string>, cache0: Cache,
                     ghost made0: set<ExprState>, ghost fields: seq<Variable>, ghost texts: set<string>)
    returns (states: seq<ExprState>, cache: Cache, ghost made: set<ExprState>)
    requires CacheOk(cache0, fields, texts) && StatesOf(states0, list, cache0, fields, texts)
    requires forall e | Mentions(v, e) && e !in cache0 :: FirstWith(fields, e) == Some(v)
    requires Direct(states0, list, cache0)
    requires Made(made0, cache0, states0)
    ensures CacheOk(cache, fields, texts) && Grows(cache0, cache, {}) && forall e | Mentions(v, e) :: e in cache
    ensures Direct(states, list + v.field.expressions, cache)
    ensures StatesOf(states, list + v.field.expressions, cache, fields, texts)
    ensures Made(made, cache, states) && made0 <= made && fresh(made - made0)
  {
    hide CacheOk, StatesOf, Grows, Direct, FirstWith;
    var exprs := v.field.expressions;
    states, cache, made := states0, cache0, made0;
    GrowsSelf(cache, {});
    assert list + exprs[..0] == list;
    for i := 0 to |exprs|
      invariant CacheOk(cache, fields, texts) && Grows(cache0, cache, {}) && cache0.Keys <= cache.Keys
      invariant forall j | 0 <= j < i :: exprs[j] in cache
      invariant Direct(states, list + exprs[..i], cache)
      invariant StatesOf(states, list + exprs[..i], cache, fields, texts)
      invariant Made(made, cache, states) && made0 <= made && fresh(made - made0)
    {
      var e := exprs[i];
      assert list + exprs[..i + 1] == list + exprs[..i] + [e];
      GrowsSelf(cache, {});
      ghost var before := cache;
      if e !in cache {
        var ees := new ExprState(e, v.dependencies, v.kind);
        assert Mentions(v, e);
        assert SeenIn(ees, fields);
        CacheOkMore(cache, fields, texts, e, ees);
        cache := cache[e := ees];
        made := made + {ees};
        GrowsOver(cache0, before, e, ees, {});
      }
      GrowsMore(before, cache, texts);
      DirectMore(states, list + exprs[..i], before, cache, e);
      StatesOfMore(states, list + exprs[..i], before, cache, fields, texts, e, cache[e]);
      states := states + [cache[e]];
    }
    assert exprs[..|exprs|] == exprs;
  }

  lemma NewField(fields: seq<Variable>, v: Variable, cache: Cache)
    requires Covers(cache, fields)
    ensures forall e | Mentions(v, e) && e !in cache :: FirstWith(fields + [v], e) == Some(v)
  {
    forall e | Mentions(v, e) && e !in cache ensures FirstWith(fields + [v], e) == Some(v) {
      FirstOfAppend(fields, [v], e);
    }
  }

  lemma CoversField(fields: seq<Variable>, v: Variable, cache: Cache, cache': Cache)
    requires Covers(cache, fields) && Grows(cache, cache', {}) && forall e | Mentions(v, e) :: e in cache'
    ensures Covers(cache', fields + [v])
  {
    forall e | FirstWith(fields + [v], e).Some? ensures e in cache' {
      FirstOfAppend(fields, [v], e);
    }
  }

  /** The loop over the fields of one resource. */
  method AddVariables(list: seq<Variable>, cache0: Cache, ghost made0: set<ExprState>,
                      ghost fields: seq<Variable>, ghost texts: set<string>)
    returns (states: seq<ExprState>, cache: Cache, ghost made: set<ExprState>)
    requires CacheOk(cache0, fields, texts) && Covers(cache0, fields) && Made(made0, cache0, [])
    ensures CacheOk(cache, fields + list, texts) && Covers(cache, fields + list)
    ensures Grows(cache0, cache, {}) && Direct(states, Texts(list), cache)
    ensures StatesOf(states, Texts(list), cache, fields + list, texts)
    ensures Made(made, cache, states) && made0 <= made && fresh(made - made0)
  {
    hide CacheOk, Covers, Grows, Direct, StatesOf, FirstWith;
    states, cache, made := [], cache0, made0;
    GrowsSelf(cache, {});
    assert fields + list[..0] == fields;
    NoStates(cache, fields, texts);
    for i := 0 to |list|
      invariant CacheOk(cache, fields + list[..i], texts) && Covers(cache, fields + list[..i])
      invariant Grows(cache0, cache, {}) && Direct(states, Texts(list[..i]), cache)
      invariant StatesOf(states, Texts(list[..i]), cache, fields + list[..i], texts)
      invariant Made(made, cache, states) && made0 <= made && fresh(made - made0)
    {
      ghost var before := cache;
      assert list[..i + 1][..i] == list[..i];
      assert fields + list[..i + 1] == fields + list[..i] + [list[i]];
      NewField(fields + list[..i], list[i], cache);
      CacheOkExtends(cache, fields + list[..i], [list[i]], texts);
      GrowsSelf(cache, texts);
      StatesOfGrows(states, Texts(list[..i]), cache, cache, fields + list[..i], [list[i]], texts);
      states, cache, made := AddVariable(list[i], states, Texts(list[..i]), cache, made, fields + list[..i + 1], texts);
      CoversField(fields + list[..i], list[i], before, cache);
      GrowsTrans(cache0, before, cache, {});
    }
    assert list[..|list|] == list;
  }

  lemma NoStates(cache: Cache, fields: seq<Variable>, texts: set<string>)
    ensures Direct([], Texts([]), cache) && StatesOf([], Texts([]), cache, fields, texts)
  {
  }

  /** The loop over the readiness conditions: every one takes its cache entry. */
  method AddReadyWhen(exprs: seq<string>, cache0: Cache, ghost made0: set<ExprState>,
                      ghost fields: seq<Variable>, ghost texts: set<string>)
    returns (cache: Cache, ghost made: set<ExprState>)
    requires (forall e | e in exprs :: e in texts) && CacheOk(cache0, fields, texts) && Made(made0, cache0, [])
    ensures CacheOk(cache, fields, texts) && Grows(cache0, cache, texts)
    ensures Readied(cache, Elements(exprs))
    ensures forall e | e in cache0 :: e in cache && (cache[e] == cache0[e] || cache[e].kind == ReadyWhen)
    ensures Made(made, cache, []) && made0 <= made && fresh(made - made0)
  {
    hide CacheOk, Grows;
    cache, made := cache0, made0;
    GrowsSelf(cache, texts);
    for i := 0 to |exprs|
      invariant CacheOk(cache, fields, texts) && Grows(cache0, cache, texts)
      invariant forall j | 0 <= j < i :: exprs[j] in cache && cache[exprs[j]].kind == ReadyWhen
      invariant forall e | e in cache0 :: e in cache && (cache[e] == cache0[e] || cache[e].kind == ReadyWhen)
      invariant Made(made, cache, []) && made0 <= made && fresh(made - made0)
    {
      assert exprs[i] in exprs;
      var ees := new ExprState(exprs[i], [], ReadyWhen);
      CacheOkMore(cache, fields, texts, exprs[i], ees);
      GrowsOver(cache0, cache, exprs[i], ees, texts);
      cache := cache[exprs[i] := ees];
      made := made + {ees};
    }
  }

  type Variables = map<string, seq<ExprState>>

  /** The runtime variables of the resources `ids`. */
  ghost predicate Wired(resources: map<string, ResourceSpec>, rv: Variables, ids: set<string>, cache: Cache,
                        fields: seq<Variable>, texts: set<string>)
  {
    && CacheOk(cache, fields, texts)
    && forall id | id in ids ::
      id in resources && id in rv && StatesOf(rv[id], Texts(resources[id].variables), cache, fields, texts)
  }

  ghost predicate AllMade(made: set<ExprState>, cache: Cache, rv: Variables)
    reads made
  {
    Made(made, cache, []) && forall id, s | id in rv && s in rv[id] :: s in made
  }

  /** What the readiness conditions of some of the resources have done to the cache. */
  ghost function ReadyAt(resources: map<string, ResourceSpec>, ids: set<string>): set<string> {
    set id, e | id in ids && id in resources && e in resources[id].readyWhen :: e
  }

  /** The ids that come before the first occurrence of `id`. */
  function IdsBefore(walk: seq<string>, id: string): set<string> {
    if walk == [] || walk[0] == id then {} else {walk[0]} + IdsBefore(walk[1..], id)
  }

  lemma {:induction false} IdsBeforeSnoc(walk: seq<string>, last: string, id: string)
    requires id in walk || id == last
    ensures IdsBefore(walk + [last], id) == if id in walk then IdsBefore(walk, id) else Elements(walk)
  {
    if walk == [] {
      assert [] + [last] == [last];
    } else {
      assert (walk + [last])[1..] == walk[1..] + [last];
      if walk[0] != id {
        IdsBeforeSnoc(walk[1..], last, id);
        assert walk == [walk[0]] + walk[1..];
      }
    }
  }

  /** The states of a list of fields, where the conditions `taken` had taken their texts before. */
  ghost predicate FromAt(states: seq<ExprState>, list: seq<string>, fields: seq<Variable>, taken: set<string>) {
    |states| == |list| &&
    forall i | 0 <= i < |list| ::
      && states[i].expression == list[i]
      && if list[i] in taken then states[i].kind == ReadyWhen else SeenIn(states[i], fields)
  }

  lemma FromCache(states: seq<ExprState>, list: seq<string>, cache: Cache, fields: seq<Variable>, taken: set<string>)
    requires Direct(states, list, cache) && CacheOk(cache, fields, taken) && Readied(cache, taken)
    ensures FromAt(states, list, fields, taken)
  {
    hide SeenIn;
  }

  lemma FromAtMore(states: seq<ExprState>, list: seq<string>, fields: seq<Variable>, more: seq<Variable>,
                   taken: set<string>)
    requires FromAt(states, list, fields, taken)
    ensures FromAt(states, list, fields + more, taken)
  {
    hide SeenIn;
    forall i | 0 <= i < |list| && SeenIn(states[i], fields) ensures SeenIn(states[i], fields + more) {
      SeenInMore(states[i], fields, more);
    }
  }

  /** Every state of a resource is a readiness one exactly if a resource ranged over before has a
      readiness condition with its text, and else that of the first field. */
  ghost predicate Origins(resources: map<string, ResourceSpec>, rv: Variables, walk: seq<string>) {
    forall id | id in walk :: id in resources && id in rv &&
      FromAt(rv[id], Texts(resources[id].variables), FieldsIn(resources, walk), ReadyAt(resources, IdsBefore(walk, id)))
  }

  lemma NoOrigins(resources: map<string, ResourceSpec>)
    ensures Origins(resources, map[], [])
  {
  }

  lemma OriginsSnoc(resources: map<string, ResourceSpec>, rv: Variables, walk: seq<string>, id: string,
                    states: seq<ExprState>)
    requires Origins(resources, rv, walk) && id in resources && id !in walk
    requires FromAt(states, Texts(resources[id].variables), FieldsIn(resources, walk) + resources[id].variables,
                    ReadyAt(resources, Elements(walk)))
    ensures Origins(resources, rv[id := states], walk + [id])
  {
    hide FromAt, FieldsIn, ReadyAt;
    FieldsSnoc(resources, walk, id);
    forall j | j in walk + [id]
      ensures j in resources && j in rv[id := states]
      ensures FromAt(rv[id := states][j], Texts(resources[j].variables), FieldsIn(resources, walk + [id]),
                     ReadyAt(resources, IdsBefore(walk + [id], j)))
    {
      IdsBeforeSnoc(walk, id, j);
      if j in walk {
        FromAtMore(rv[j], Texts(resources[j].variables), FieldsIn(resources, walk), resources[id].variables,
                   ReadyAt(resources, IdsBefore(walk, j)));
      }
    }
  }

  lemma CacheOkTexts(cache: Cache, fields: seq<Variable>, texts: set<string>, texts': set<string>)
    requires CacheOk(cache, fields, texts) && texts <= texts'
    ensures CacheOk(cache, fields, texts')
  {
    hide SeenIn;
  }

  lemma StatesOfTexts(states: seq<ExprState>, list: seq<string>, cache: Cache, fields: seq<Variable>,
                      texts: set<string>,
                      texts': set<string>)
    requires StatesOf(states, list, cache, fields, texts) && texts <= texts'
    ensures StatesOf(states, list, cache, fields, texts')
  {
    hide SeenIn;
  }

  lemma ReadiedGrows(cache: Cache, cache': Cache, texts: set<string>)
    requires Readied(cache, texts) && Grows(cache, cache', {})
    ensures Readied(cache', texts)
  {
  }

  lemma ReadyAtMore(resources: map<string, ResourceSpec>, ids: set<string>, id: string)
    requires id in resources
    ensures ReadyAt(resources, ids + {id}) == ReadyAt(resources, ids) + Elements(resources[id].readyWhen)
  {
  }

  /** The two loops of the runtime's constructor. The order `walk` in which the map of resources is
      ranged over is arbitrary, and with it which of two fields with the same expression is first. */
  method BuildStates(resources: map<string, ResourceSpec>, instance: ResourceSpec, walk: seq<string>)
    returns (rv: Variables, cache: Cache, ghost made: set<ExprState>)
    requires INSTANCE !in resources && NoDup(walk) && Elements(walk) == resources.Keys
    ensures rv.Keys == resources.Keys + {INSTANCE}
    ensures Wired(resources, rv, resources.Keys, cache, FieldsIn(resources, walk) + instance.variables,
                  ReadyTexts(resources))
    ensures Origins(resources, rv, walk)
    ensures forall id, s | id in resources && s in rv[id] ::
      SeenIn(s, FieldsIn(resources, walk)) || ReadyEntry(s, ReadyTexts(resources))
    ensures StatesOf(rv[INSTANCE], Texts(instance.variables), cache,
                     FieldsIn(resources, walk) + instance.variables, ReadyTexts(resources))
    ensures Readied(cache, ReadyTexts(resources))
    ensures AllMade(made, cache, rv) && fresh(made)
  {
    hide CacheOk, StatesOf, SeenIn, ReadyEntry, FieldsIn, ReadyTexts, Covers, Readied, Wired, Origins, FromAt;
    rv, cache, made := AddResources(resources, walk);
    rv, cache, made := AddInstance(resources, instance, walk, rv, cache, made);
  }

  method AddResources(resources: map<string, ResourceSpec>, walk: seq<string>)
    returns (rv: Variables, cache: Cache, ghost made: set<ExprState>)
    requires NoDup(walk) && Elements(walk) == resources.Keys
    ensures rv.Keys == resources.Keys
    ensures Wired(resources, rv, resources.Keys, cache, FieldsIn(resources, walk), ReadyTexts(resources))
    ensures Covers(cache, FieldsIn(resources, walk)) && Readied(cache, ReadyTexts(resources))
    ensures Origins(resources, rv, walk)
    ensures AllMade(made, cache, rv) && fresh(made)
  {
    hide Wired, AllMade, ReadyTexts, Covers, Readied, FieldsIn, ReadyAt, Origins;
    rv, cache, made := map[], map[], {};
    NothingWired(resources);
    NoOrigins(resources);
    assert Elements(walk[..0]) == {} && walk[..0] == [];
    for i := 0 to |walk|
      invariant rv.Keys == Elements(walk[..i])
      invariant Wired(resources, rv, Elements(walk[..i]), cache, FieldsIn(resources, walk[..i]),
                      ReadyAt(resources, Elements(walk[..i])))
      invariant Origins(resources, rv, walk[..i])
      invariant Covers(cache, FieldsIn(resources, walk[..i])) && Readied(cache, ReadyAt(resources, Elements(walk[..i])))
      invariant AllMade(made, cache, rv) && fresh(made)
    {
      NextInWalk(resources, walk, i);
      rv, cache, made := AddResource(resources, walk[i], rv, cache, made, walk[..i]);
    }
    assert walk[..|walk|] == walk;
    AllReadied(resources);
  }

  lemma NextInWalk(resources: map<string, ResourceSpec>, walk: seq<string>, i: nat)
    requires NoDup(walk) && Elements(walk) == resources.Keys && i < |walk|
    ensures walk[i] in resources && walk[i] !in Elements(walk[..i])
    ensures walk[..i + 1] == walk[..i] + [walk[i]] && Elements(walk[..i + 1]) == Elements(walk[..i]) + {walk[i]}
  {
    assert walk[i] in Elements(walk);
    assert walk[..i + 1] == walk[..i] + [walk[i]];
  }

  lemma AllReadied(resources: map<string, ResourceSpec>)
    ensures ReadyAt(resources, resources.Keys) == ReadyTexts(resources)
  {
  }

  lemma NothingWired(resources: map<string, ResourceSpec>)
    ensures Wired(resources, map[], {}, map[], FieldsIn(resources, []), ReadyAt(resources, {}))
    ensures Covers(map[], FieldsIn(resources, [])) && Readied(map[], ReadyAt(resources, {}))
    ensures AllMade({}, map[], map[])
  {
  }

  method AddResource(resources: map<string, ResourceSpec>, id: string, rv0: Variables, cache0: Cache,
                     ghost made0: set<ExprState>, ghost walk: seq<string>)
    returns (rv: Variables, cache: Cache, ghost made: set<ExprState>)
    requires id in resources && id !in Elements(walk) && rv0.Keys == Elements(walk)
    requires Wired(resources, rv0, Elements(walk), cache0, FieldsIn(resources, walk),
                   ReadyAt(resources, Elements(walk)))
    requires Covers(cache0, FieldsIn(resources, walk)) && Readied(cache0, ReadyAt(resources, Elements(walk)))
    requires AllMade(made0, cache0, rv0) && Origins(resources, rv0, walk)
    ensures rv.Keys == Elements(walk) + {id}
    ensures Wired(resources, rv, Elements(walk) + {id}, cache, FieldsIn(resources, walk + [id]),
                  ReadyAt(resources, Elements(walk) + {id}))
    ensures Origins(resources, rv, walk + [id])
    ensures Covers(cache, FieldsIn(resources, walk + [id])) && Readied(cache, ReadyAt(resources, Elements(walk) + {id}))
    ensures AllMade(made, cache, rv) && made0 <= made && fresh(made - made0)
  {
    hide CacheOk, Grows, StatesOf, Covers, FieldsIn, Readied, ReadyAt, Origins, FromAt, Direct;
    ghost var fields, taken := FieldsIn(resources, walk), ReadyAt(resources, Elements(walk));
    ghost var texts := ReadyAt(resources, Elements(walk) + {id});
    var spec := resources[id];
    ghost var more := fields + spec.variables;
    ReadyAtMore(resources, Elements(walk), id);
    var states;
    states, cache, made := AddVariables(spec.variables, cache0, made0, fields, taken);
    ghost var mid := cache;
    ReadiedGrows(cache0, mid, taken);
    FromCache(states, Texts(spec.variables), mid, more, taken);
    OriginsSnoc(resources, rv0, walk, id, states);
    FieldsSnoc(resources, walk, id);
    CacheOkTexts(mid, more, taken, texts);
    StatesOfTexts(states, Texts(spec.variables), mid, more, taken, texts);
    cache, made := AddReadyWhen(spec.readyWhen, cache, made, more, texts);
    rv := rv0[id := states];
    CoversGrows(mid, cache, more, texts);
    StillReadied(resources, Elements(walk), id, cache0, mid, cache);
    GrowsMore(cache0, mid, texts);
    GrowsTrans(cache0, mid, cache, texts);
    StatesOfGrows(states, Texts(spec.variables), mid, cache, more, [], texts);
    assert more + [] == more;
    forall j | j in Elements(walk) ensures StatesOf(rv[j], Texts(resources[j].variables), cache, more, texts) {
      StatesOfTexts(rv0[j], Texts(resources[j].variables), cache0, fields, taken, texts);
      StatesOfGrows(rv0[j], Texts(resources[j].variables), cache0, cache, fields, spec.variables, texts);
    }
  }

  lemma FieldsSnoc(resources: map<string, ResourceSpec>, walk: seq<string>, id: string)
    requires id in resources
    ensures FieldsIn(resources, walk + [id]) == FieldsIn(resources, walk) + resources[id].variables
  {
    assert (walk + [id])[..|walk|] == walk;
  }

  lemma StillReadied(resources: map<string, ResourceSpec>, ids: set<string>, id: string, cache0: Cache, mid: Cache,
                     cache: Cache)
    requires id in resources && Readied(cache0, ReadyAt(resources, ids)) && Grows(cache0, mid, {})
    requires Readied(cache, Elements(resources[id].readyWhen))
    requires forall e | e in mid :: e in cache && (cache[e] == mid[e] || cache[e].kind == ReadyWhen)
    ensures Readied(cache, ReadyAt(resources, ids + {id}))
  {
    forall e | e in ReadyAt(resources, ids + {id}) ensures e in cache && cache[e].kind == ReadyWhen {
      if e !in ReadyAt(resources, ids) {
        assert e in resources[id].readyWhen;
      }
    }
  }

  method AddInstance(resources: map<string, ResourceSpec>, instance: ResourceSpec, ghost walk: seq<string>,
                     rv0: Variables,
                     cache0: Cache, ghost made0: set<ExprState>)
    returns (rv: Variables, cache: Cache, ghost made: set<ExprState>)
    requires INSTANCE !in resources && rv0.Keys == resources.Keys
    requires Wired(resources, rv0, resources.Keys, cache0, FieldsIn(resources, walk), ReadyTexts(resources))
    requires Covers(cache0, FieldsIn(resources, walk)) && Readied(cache0, ReadyTexts(resources))
    requires AllMade(made0, cache0, rv0) && Elements(walk) == resources.Keys && Origins(resources, rv0, walk)
    ensures rv.Keys == resources.Keys + {INSTANCE} && Origins(resources, rv, walk)
    ensures Wired(resources, rv, resources.Keys, cache, FieldsIn(resources, walk) + instance.variables,
                  ReadyTexts(resources))
    ensures StatesOf(rv[INSTANCE], Texts(instance.variables), cache,
                     FieldsIn(resources, walk) + instance.variables, ReadyTexts(resources))
    ensures forall id, s | id in resources && s in rv[id] ::
      SeenIn(s, FieldsIn(resources, walk)) || ReadyEntry(s, ReadyTexts(resources))
    ensures Readied(cache, ReadyTexts(resources))
    ensures AllMade(made, cache, rv) && made0 <= made && fresh(made - made0)
  {
    hide Covers, FieldsIn, FirstWith, SeenIn, ReadyEntry, Direct, FromAt;
    ghost var fields, texts := FieldsIn(resources, walk), ReadyTexts(resources);
    assert INSTANCE !in walk by { assert INSTANCE in walk ==> INSTANCE in Elements(walk); }
    var states;
    states, cache, made := AddVariables(instance.variables, cache0, made0, fields, texts);
    GrowsMore(cache0, cache, texts);
    rv := rv0[INSTANCE := states];
    forall j | j in resources
      ensures StatesOf(rv[j], Texts(resources[j].variables), cache, fields + instance.variables, texts)
    {
      StatesOfGrows(rv0[j], Texts(resources[j].variables), cache0, cache, fields, instance.variables, texts);
    }
  }
}
