/** Extracting field descriptors under an OpenAPI schema, against the schema-free traversal. */
module SchemaFlatten {
  import opened Ordering
  import opened Fieldpath
  import opened PathText
  import opened Values
  import opened Flatten
  import Cel

  /** What the traversal looks at in a `spec.Schema`. */
  datatype Schema = Schema(
    types: seq<string>,
    oneOf: seq<Schema>,
    properties: map<string, Schema>,
    additional: Additional,
    items: Option<Schema>,
    preserveUnknown: bool)

  datatype Additional = NoAdditional | Additional(allows: bool, schema: Option<Schema>)

  const EMPTY_SCHEMA := Schema([], [], map[], NoAdditional, None, false)

  /** The single type a schema stands for, as `validateSchema` leaves it. `None` where the
      schema is refused; a first alternative without any type makes the source panic and
      counts as refused here. */
  function SingleType(schema: Option<Schema>): Option<string> {
    if schema.None? then None
    else
      var s := schema.value;
      if |s.types| == 1 then Some(s.types[0])
      else if s.oneOf != [] && s.oneOf[0].types != [] then Some(s.oneOf[0].types[0])
      else None
  }

  predicate AllowsAny(s: Schema) { s.additional.Additional? && s.additional.allows }

  function ExpectedType(s: Schema, single: string): string {
    if single != "" then single else if AllowsAny(s) then "any" else ""
  }

  function FieldSchema(s: Schema, field: string): Option<Schema> {
    if field in s.properties then Some(s.properties[field])
    else match s.additional
      case NoAdditional => None
      case Additional(allows, schema) =>
        if schema.Some? then schema else if allows then Some(EMPTY_SCHEMA) else None
  }

  /** The expected type a value is checked against, if its schema is usable. */
  predicate TypeFits(v: Value, s: Schema, expected: string) {
    match v
    case Obj(_) => expected == "object" || AllowsAny(s)
    case Arr(_) => expected == "array" && s.items.Some?
    case Str(str) =>
      Cel.Extract(str).Expressions? && (Cel.Standalone(str) || expected == "string" || expected == "any")
    case Null => true
    case Float(_) => expected == "any" || expected == "number"
    case Int(_) => expected == "any" || expected == "integer"
    case Bool(_) => expected == "any" || expected == "boolean"
  }

  /** The template conforms to the schema, with unknown-preserving objects taken as they are. */
  ghost predicate Conforms(v: Value, schema: Option<Schema>)
    decreases v
  {
    && SingleType(schema).Some?
    && var s := schema.value;
    && TypeFits(v, s, ExpectedType(s, SingleType(schema).value))
    && match v
       case Obj(fields) =>
         s.preserveUnknown || forall k | k in fields :: FieldSchema(s, k).Some? && Conforms(fields[k],
           FieldSchema(s, k))
       case Arr(items) => forall i | 0 <= i < |items| :: Conforms(items[i], s.items)
       case _ => true
  }

  // ----------------------------------------- which values a schema admits

  /** The name of the value's type in a schema. */
  function TypeName(v: Value): string {
    match v
    case Null => "null"
    case Bool(_) => "boolean"
    case Int(_) => "integer"
    case Float(_) => "number"
    case Str(_) => "string"
    case Arr(_) => "array"
    case Obj(_) => "object"
  }

  /** The schema has the one type `t`, or else its first alternative begins with it. */
  predicate Declares(s: Schema, t: string) {
    s.types == [t] || (|s.types| != 1 && s.oneOf != [] && s.oneOf[0].types != [] && s.oneOf[0].types[0] == t)
  }

  /** Nulls are of every type, and so are strings that are nothing but an expression. Where the type
      is open, scalars and strings of any type are admitted; objects are admitted wherever additional
      properties are. */
  predicate OfType(v: Value, s: Schema, t: string) {
    || v.Null?
    || TypeName(v) == t
    || (v.Str? && Cel.Standalone(v.s))
    || ((t == "any" || (t == "" && AllowsAny(s))) && !v.Arr? && !v.Obj?)
    || (v.Obj? && AllowsAny(s))
  }

  /** What the schema is for. Of the fields of an object the declared ones follow their own schema and
      the others the one for additional properties, where there is one; elements follow the item schema. */
  ghost predicate Admits(s: Schema, v: Value)
    decreases v, 0
  {
    && (exists t :: Declares(s, t) && OfType(v, s, t))
    && match v
       case Str(str) => Cel.Extract(str).Expressions?
       case Arr(items) => s.items.Some? && forall i | 0 <= i < |items| :: Admits(s.items.value, items[i])
       case Obj(fields) => s.preserveUnknown || forall k | k in fields :: AdmitsField(s, k, fields[k])
       case _ => true
  }

  ghost predicate AdmitsField(s: Schema, k: string, v: Value)
    decreases v, 1
  {
    if k in s.properties then Admits(s.properties[k], v)
    else s.additional.Additional? && s.additional.schema.Some? && Admits(s.additional.schema.value, v)
  }

  lemma DeclaredIsSingle(s: Schema)
    ensures SingleType(Some(s)).Some? <==> exists t :: Declares(s, t)
    ensures forall t | Declares(s, t) :: SingleType(Some(s)) == Some(t)
  {
    if SingleType(Some(s)).Some? {
      assert Declares(s, SingleType(Some(s)).value);
    }
  }

  /** A value conforms exactly if the schema admits it. */
  lemma {:induction false} ConformsIff(v: Value, s: Schema)
    ensures Conforms(v, Some(s)) <==> Admits(s, v)
    decreases v
  {
    DeclaredIsSingle(s);
    match v
    case Arr(items) =>
      if s.items.Some? {
        forall i | 0 <= i < |items| ensures Conforms(items[i], s.items) <==> Admits(s.items.value, items[i]) {
          ConformsIff(items[i], s.items.value);
        }
      }
    case Obj(fields) =>
      forall k | k in fields
        ensures FieldSchema(s, k).Some? && Conforms(fields[k], FieldSchema(s, k)) <==> AdmitsField(s, k, fields[k])
      {
        FieldConformsIff(s, k, fields[k]);
        if k in s.properties {
          ConformsIff(fields[k], s.properties[k]);
        } else if s.additional.Additional? && s.additional.schema.Some? {
          ConformsIff(fields[k], s.additional.schema.value);
        }
      }
    case Str(str) =>
    case _ =>
  }

  /** A field that is only allowed, without a schema, conforms to nothing: it is refused whatever it holds. */
  lemma FieldConformsIff(s: Schema, k: string, v: Value)
    ensures k in s.properties ==> FieldSchema(s, k) == Some(s.properties[k])
    ensures k !in s.properties && s.additional.Additional? && s.additional.schema.Some? ==>
      FieldSchema(s, k) == s.additional.schema
    ensures k !in s.properties && !(s.additional.Additional? && s.additional.schema.Some?) ==>
      FieldSchema(s, k).None? || !Conforms(v, FieldSchema(s, k))
  {
  }

  /** Walks to the strings with expressions outside unknown-preserving objects. */
  ghost function Kept(v: Value, schema: Option<Schema>): set<Walk>
    requires Conforms(v, schema)
    decreases v
  {
    var s := schema.value;
    match v
    case Obj(fields) =>
      if s.preserveUnknown then {}
      else ObjWalks(map k | k in fields :: Kept(fields[k], FieldSchema(s, k)), fields.Keys)
    case Arr(items) =>
      ArrWalks(seq(|items|, i requires 0 <= i < |items| => Kept(items[i], s.items)), |items|)
    case _ => Leaves(v)
  }

  /** Some object on the way is marked preserve-unknown-fields. */
  ghost predicate MeetsPreserved(v: Value, schema: Option<Schema>)
    requires Conforms(v, schema)
    decreases v
  {
    var s := schema.value;
    match v
    case Obj(fields) => s.preserveUnknown || exists k :: k in fields && MeetsPreserved(fields[k], FieldSchema(s, k))
    case Arr(items) => exists i :: 0 <= i < |items| && MeetsPreserved(items[i], s.items)
    case _ => false
  }

  /** Without unknown-preserving objects nothing is skipped. */
  lemma {:induction false} KeptIsLeaves(v: Value, schema: Option<Schema>)
    requires Conforms(v, schema) && !MeetsPreserved(v, schema)
    ensures Kept(v, schema) == Leaves(v)
    decreases v
  {
    var s := schema.value;
    match v
    case Obj(fields) =>
      forall k | k in fields ensures Kept(fields[k], FieldSchema(s, k)) == Leaves(fields[k]) {
        KeptIsLeaves(fields[k], FieldSchema(s, k));
      }
      AllObjectWalks(fields, map k | k in fields :: Kept(fields[k], FieldSchema(s, k)));
    case Arr(items) =>
      forall i | 0 <= i < |items| ensures Kept(items[i], s.items) == Leaves(items[i]) {
        KeptIsLeaves(items[i], s.items);
      }
    case _ =>
  }

  /** The schema for what is at the walk. */
  function SchemaAt(schema: Option<Schema>, w: Walk): Option<Schema>
    decreases |w|
  {
    if w == [] || schema.None? then schema
    else match w[0]
      case Key(k) => SchemaAt(FieldSchema(schema.value, k), w[1..])
      case At(_) => SchemaAt(schema.value.items, w[1..])
  }

  /** The type declared for what is at the walk. */
  function ExpectedAt(schema: Option<Schema>, w: Walk): string {
    var s := SchemaAt(schema, w);
    if SingleType(s).None? then "" else ExpectedType(s.value, SingleType(s).value)
  }

  /** On the way there is an object marked preserve-unknown-fields. */
  ghost predicate PassesPreserved(v: Value, schema: Option<Schema>, w: Walk) {
    exists i :: 0 <= i < |w| && PreservedAt(v, schema, w[..i])
  }

  predicate PreservedAt(v: Value, schema: Option<Schema>, w: Walk) {
    Get(v, w).Some? && Get(v, w).value.Obj? && SchemaAt(schema, w).Some? && SchemaAt(schema, w).value.preserveUnknown
  }

  /** Exactly the strings with expressions are kept on whose way nothing preserves unknown fields. */
  lemma {:induction false} KeptIff(v: Value, schema: Option<Schema>, u: Walk)
    requires Conforms(v, schema)
    ensures u in Kept(v, schema) <==> u in Leaves(v) && !PassesPreserved(v, schema, u)
    decreases |u|
  {
    hide HasExpressions;
    if u == [] {
      assert !PassesPreserved(v, schema, u);
    } else {
      var s, rest := schema.value, u[1..];
      assert u == [u[0]] + rest && u[..0] == [];
      assert PreservedAt(v, schema, []) <==> v.Obj? && s.preserveUnknown;
      if v.Obj? && s.preserveUnknown {
        assert PreservedAt(v, schema, u[..0]);
      } else if Child(v, u[0]).Some? {
        var c, inner := Child(v, u[0]).value, if u[0].Key? then FieldSchema(s, u[0].name) else s.items;
        KeptIff(c, inner, rest);
        PassesInside(v, schema, u, c, inner);
      }
    }
  }

  lemma PassesInside(v: Value, schema: Option<Schema>, u: Walk, c: Value, inner: Option<Schema>)
    requires u != [] && schema.Some? && Child(v, u[0]) == Some(c) && !PreservedAt(v, schema, [])
    requires inner == if u[0].Key? then FieldSchema(schema.value, u[0].name) else schema.value.items
    ensures PassesPreserved(v, schema, u) <==> PassesPreserved(c, inner, u[1..])
  {
    forall i | 0 < i <= |u| ensures PreservedAt(v, schema, u[..i]) <==> PreservedAt(c, inner, u[1..][..i - 1]) {
      assert u[..i][0] == u[0] && u[..i][1..] == u[1..][..i - 1];
    }
    assert u[..0] == [];
    if i :| 0 <= i < |u| && PreservedAt(v, schema, u[..i]) {
      assert i > 0;
      assert PreservedAt(c, inner, u[1..][..i - 1]);
    }
    if i :| 0 <= i < |u| - 1 && PreservedAt(c, inner, u[1..][..i]) {
      assert PreservedAt(v, schema, u[..i + 1]);
    }
  }

  /** A declared type is expected as it is, an open one as any. */
  lemma ExpectedIs(s: Schema, t: string)
    requires Declares(s, t)
    ensures ExpectedAt(Some(s), []) == if t == "" && AllowsAny(s) then "any" else t
  {
    DeclaredIsSingle(s);
  }

  /** Every descriptor carries the type declared where its string is. */
  ghost predicate Typed(schema: Option<Schema>, fs: seq<FieldDescriptor>, ws: seq<Walk>) {
    |fs| == |ws| && forall i | 0 <= i < |fs| :: fs[i].expectedType == ExpectedAt(schema, ws[i])
  }

  lemma NothingTyped(schema: Option<Schema>)
    ensures Typed(schema, [], [])
  {
  }

  lemma TypedAppend(schema: Option<Schema>, st: Step, child: Option<Schema>, fs: seq<FieldDescriptor>, ws: seq<Walk>,
                    fs': seq<FieldDescriptor>, ws': seq<Walk>)
    requires SingleType(schema).Some? && Typed(schema, fs, ws) && Typed(child, fs', ws')
    requires child == if st.Key? then FieldSchema(schema.value, st.name) else schema.value.items
    ensures Typed(schema, fs + fs', ws + Under(st, ws'))
  {
    forall i | 0 <= i < |ws'| ensures ExpectedAt(schema, [st] + ws'[i]) == ExpectedAt(child, ws'[i]) {
      assert ([st] + ws'[i])[1..] == ws'[i];
    }
  }

  /** `ParseResource`: succeeds exactly on conforming templates and then lists the strings
      with expressions outside unknown-preserving objects, with the types declared for them. */
  method ParseResource(resource: Value, schema: Option<Schema>, path: string, ghost w: Walk)
    returns (r: ParseOutcome, ghost ws: seq<Walk>)
    requires path == PathOf(w)
    ensures r.Fields? <==> Conforms(resource, schema)
    ensures r.Fields? ==> Lists(resource, w, Kept(resource, schema), r.fields, ws) && Typed(schema, r.fields, ws)
    decreases resource, 1
  {
    var single := SingleType(schema);
    if single.None? {
      return Rejected, [];
    }
    var s := schema.value;
    var expected := ExpectedType(s, single.value);
    match resource
    case Obj(fields) =>
      if expected != "object" && !AllowsAny(s) {
        return Rejected, [];
      }
      if s.preserveUnknown {
        ListsNothing(resource, w);
        return Fields([]), [];
      }
      r, ws := ParseObject(resource, fields, schema, path, w);
    case Arr(items) =>
      if expected != "array" || s.items.None? {
        return Rejected, [];
      }
      r, ws := ParseArray(resource, items, schema, path, w);
    case Str(str) =>
      r, ws := ParseString(resource, str, expected, path, w);
    case Null => r, ws := Fields([]), [];
    case Float(_) =>
      r, ws := if expected == "any" || expected == "number" then Fields([]) else Rejected, [];
    case Int(_) =>
      r, ws := if expected == "any" || expected == "integer" then Fields([]) else Rejected, [];
    case Bool(_) =>
      r, ws := if expected == "any" || expected == "boolean" then Fields([]) else Rejected, [];
  }

  method ParseString(resource: Value, str: string, expected: string, path: string, ghost w: Walk)
    returns (r: ParseOutcome, ghost ws: seq<Walk>)
    requires path == PathOf(w) && resource == Str(str)
    ensures r.Fields? <==>
      Cel.Extract(str).Expressions? && (Cel.Standalone(str) || expected == "string" || expected == "any")
    ensures r.Fields? ==> Lists(resource, w, Leaves(resource), r.fields, ws)
    ensures r.Fields? ==> |r.fields| <= 1 && forall f | f in r.fields :: f.expectedType == expected
    ensures r.Fields? ==> forall u | u in ws :: u == []
  {
    ws := [];
    assert w + [] == w;
    var standalone, nested := Cel.IsStandaloneExpression(str);
    if nested {
      return Rejected, ws;
    }
    if standalone {
      ws := [[]];
      return Fields([FieldDescriptor(path, [Trim(str)], expected, true)]), ws;
    }
    if expected != "string" && expected != "any" {
      return Rejected, ws;
    }
    var x := Cel.ExtractExpressions(str);
    if x.NestedExpression? {
      return Rejected, ws;
    }
    if |x.expressions| > 0 {
      ws := [[]];
      return Fields([FieldDescriptor(path, x.expressions, expected, false)]), ws;
    }
    return Fields([]), ws;
  }

  method ParseObject(resource: Value, fields: map<string, Value>, schema: Option<Schema>, path: string, ghost w: Walk)
    returns (r: ParseOutcome, ghost ws: seq<Walk>)
    requires path == PathOf(w) && resource == Obj(fields) && SingleType(schema).Some?
    requires TypeFits(resource, schema.value, ExpectedType(schema.value, SingleType(schema).value))
    requires !schema.value.preserveUnknown
    ensures r.Fields? <==> Conforms(resource, schema)
    ensures r.Fields? ==> Lists(resource, w, Kept(resource, schema), r.fields, ws) && Typed(schema, r.fields, ws)
    decreases resource, 0
  {
    hide Lists, ObjWalks, PathOf, JoinPathAndFieldName, TypeFits, FieldSchema, Kept, Conforms, Typed;
    assert Typed(schema, [], []) by { NothingTyped(schema); }
    ObjectConforms(fields, schema);
    var s := schema.value;
    ghost var kept := map k | k in fields ::
      if Conforms(fields[k], FieldSchema(s, k)) then Kept(fields[k], FieldSchema(s, k)) else {};
    var fs: seq<FieldDescriptor> := [];
    ws := [];
    var todo := fields.Keys;
    ghost var done: set<string> := {};
    ListsNothing(resource, w);
    NoObjectWalks(kept);
    while todo != {}
      invariant todo + done == fields.Keys && todo !! done
      invariant Lists(resource, w, ObjWalks(kept, done), fs, ws) && Typed(schema, fs, ws)
      invariant forall k | k in done :: FieldSchema(s, k).Some? && Conforms(fields[k], FieldSchema(s, k))
      decreases |todo|
    {
      var k :| k in todo;
      var fieldSchema := FieldSchema(s, k);
      if fieldSchema.None? {
        return Rejected, [];
      }
      PathOfSnoc(w, Key(k));
      ghost var ws': seq<Walk>;
      var sub: ParseOutcome;
      sub, ws' := ParseResource(fields[k], fieldSchema, JoinPathAndFieldName(path, k), w + [Key(k)]);
      if sub.Rejected? {
        return Rejected, [];
      }
      ObjectStep(fields, w, kept, done, k, fs, ws, sub.fields, ws');
      TypedAppend(schema, Key(k), fieldSchema, fs, ws, sub.fields, ws');
      fs, ws := fs + sub.fields, ws + Under(Key(k), ws');
      MoveOne(todo, done, fields.Keys, k);
      todo, done := todo - {k}, done + {k};
    }
    ObjectKept(fields, schema, kept);
    return Fields(fs), ws;
  }

  lemma ObjectConforms(fields: map<string, Value>, schema: Option<Schema>)
    requires SingleType(schema).Some? && !schema.value.preserveUnknown
    requires TypeFits(Obj(fields), schema.value, ExpectedType(schema.value, SingleType(schema).value))
    ensures Conforms(Obj(fields), schema) <==> forall k | k in fields ::
      FieldSchema(schema.value, k).Some? && Conforms(fields[k], FieldSchema(schema.value, k))
  {
  }

  lemma ObjectKept(fields: map<string, Value>, schema: Option<Schema>, kept: map<string, set<Walk>>)
    requires Conforms(Obj(fields), schema) && !schema.value.preserveUnknown && kept.Keys == fields.Keys
    requires forall k | k in fields :: kept[k] == Kept(fields[k], FieldSchema(schema.value, k))
    ensures Kept(Obj(fields), schema) == ObjWalks(kept, fields.Keys)
  {
    assert kept == map k | k in fields :: Kept(fields[k], FieldSchema(schema.value, k));
  }

  lemma NoObjectWalks(kept: map<string, set<Walk>>)
    ensures ObjWalks(kept, {}) == {}
  {
  }

  method ParseArray(resource: Value, items: seq<Value>, schema: Option<Schema>, path: string, ghost w: Walk)
    returns (r: ParseOutcome, ghost ws: seq<Walk>)
    requires path == PathOf(w) && resource == Arr(items) && SingleType(schema).Some?
    requires TypeFits(resource, schema.value, ExpectedType(schema.value, SingleType(schema).value))
    ensures r.Fields? <==> Conforms(resource, schema)
    ensures r.Fields? ==> Lists(resource, w, Kept(resource, schema), r.fields, ws) && Typed(schema, r.fields, ws)
    decreases resource, 0
  {
    hide Lists, PathOf, ItemPath, TypeFits, Typed;
    assert Typed(schema, [], []) by { NothingTyped(schema); }
    var itemSchema := schema.value.items;
    ghost var kept := seq(|items|, i requires 0 <= i < |items| =>
      if Conforms(items[i], itemSchema) then Kept(items[i], itemSchema) else {});
    var fs: seq<FieldDescriptor> := [];
    ws := [];
    ListsNothing(resource, w);
    assert ArrWalks(kept, 0) == {};
    for i := 0 to |items|
      invariant Lists(resource, w, ArrWalks(kept, i), fs, ws) && Typed(schema, fs, ws)
      invariant forall j | 0 <= j < i :: Conforms(items[j], itemSchema)
    {
      PathOfSnoc(w, At(i));
      ghost var ws': seq<Walk>;
      var sub: ParseOutcome;
      sub, ws' := ParseResource(items[i], itemSchema, ItemPath(path, i), w + [At(i)]);
      if sub.Rejected? {
        return Rejected, [];
      }
      ArrayStep(items, w, kept, i, fs, ws, sub.fields, ws');
      TypedAppend(schema, At(i), itemSchema, fs, ws, sub.fields, ws');
      fs, ws := fs + sub.fields, ws + Under(At(i), ws');
    }
    assert kept == seq(|items|, i requires 0 <= i < |items| => Kept(items[i], itemSchema));
    return Fields(fs), ws;
  }

  // ------------------------------------------- the two traversals agree

  /** What the comparison is about: everything but the expected type. */
  function Core(f: FieldDescriptor): FieldDescriptor { f.(expectedType := "") }

  function Cores(fs: seq<FieldDescriptor>): (r: seq<FieldDescriptor>)
    ensures |r| == |fs|
  {
    seq(|fs|, i requires 0 <= i < |fs| => Core(fs[i]))
  }

  lemma ListedCore(v: Value, w: Walk, leaves: set<Walk>, fs: seq<FieldDescriptor>, ws: seq<Walk>, i: nat,
                   gs: seq<FieldDescriptor>, us: seq<Walk>, j: nat)
    requires Lists(v, w, leaves, fs, ws) && Lists(v, w, leaves, gs, us)
    requires i < |ws| && j < |us| && ws[i] == us[j]
    ensures Core(fs[i]) == Core(gs[j])
  {
    assert Entry(v, w, ws[i], fs[i]) && Entry(v, w, us[j], gs[j]);
  }

  function RemoveAt<T>(s: seq<T>, j: nat): (r: seq<T>)
    requires j < |s|
    ensures |r| == |s| - 1
    ensures multiset(s) == multiset(r) + multiset{s[j]}
  {
    assert s == s[..j] + [s[j]] + s[j + 1..];
    s[..j] + s[j + 1..]
  }

  /** Two lists over the same strings are the same up to order and expected type. */
  lemma {:induction false} ListsAgree(v: Value, w: Walk, leaves: set<Walk>, fs: seq<FieldDescriptor>, ws: seq<Walk>,
                                      gs: seq<FieldDescriptor>, us: seq<Walk>)
    requires Lists(v, w, leaves, fs, ws) && Lists(v, w, leaves, gs, us)
    ensures multiset(Cores(fs)) == multiset(Cores(gs))
    decreases |ws|
  {
    hide Entry;
    if ws == [] {
      NoElements(ws);
      NoElements(us);
      assert Cores(fs) == Cores(gs);
    } else {
      var n := |ws| - 1;
      assert ws[n] in Elements(ws) && ws[n] in Elements(us);
      var j :| 0 <= j < |us| && us[j] == ws[n];
      ListedCore(v, w, leaves, fs, ws, n, gs, us, j);
      RemoveListed(v, w, leaves, fs, ws, n);
      RemoveListed(v, w, leaves, gs, us, j);
      ListsAgree(v, w, leaves - {ws[n]}, RemoveAt(fs, n), RemoveAt(ws, n), RemoveAt(gs, j), RemoveAt(us, j));
      CoresRemoveAt(fs, n);
      CoresRemoveAt(gs, j);
    }
  }

  lemma CoresRemoveAt(fs: seq<FieldDescriptor>, j: nat)
    requires j < |fs|
    ensures multiset(Cores(fs)) == multiset(Cores(RemoveAt(fs, j))) + multiset{Core(fs[j])}
  {
    assert Cores(RemoveAt(fs, j)) == RemoveAt(Cores(fs), j);
  }

  lemma RemoveListed(v: Value, w: Walk, leaves: set<Walk>, fs: seq<FieldDescriptor>, ws: seq<Walk>, j: nat)
    requires Lists(v, w, leaves, fs, ws) && j < |ws|
    ensures Lists(v, w, leaves - {ws[j]}, RemoveAt(fs, j), RemoveAt(ws, j))
  {
    hide Entry, Leaves;
    var r := RemoveAt(ws, j);
    forall u | u in leaves - {ws[j]} ensures u in r {
      assert u in Elements(ws);
      var i :| 0 <= i < |ws| && ws[i] == u;
      assert r[if i < j then i else i - 1] == u;
    }
    forall u | u in r ensures u in leaves - {ws[j]} {
      var i :| 0 <= i < |r| && r[i] == u;
      var i' := if i < j then i else i + 1;
      assert ws[i'] == u && ws[i'] in Elements(ws);
    }
    assert Elements(r) == leaves - {ws[j]};
  }

  /** On a template that conforms and meets no unknown-preserving object, both traversals
      succeed and yield the same paths, expressions and standalone marks. */
  lemma TraversalsAgree(v: Value, schema: Option<Schema>, w: Walk,
                        fs: seq<FieldDescriptor>, ws: seq<Walk>, gs: seq<FieldDescriptor>, us: seq<Walk>)
    requires Conforms(v, schema) && !MeetsPreserved(v, schema)
    requires Lists(v, w, Kept(v, schema), fs, ws) && Lists(v, w, Leaves(v), gs, us)
    ensures !HasNested(v)
    ensures multiset(Cores(fs)) == multiset(Cores(gs))
  {
    KeptIsLeaves(v, schema);
    ConformingHasNoNested(v, schema);
    ListsAgree(v, w, Leaves(v), fs, ws, gs, us);
  }

  lemma {:induction false} ConformingHasNoNested(v: Value, schema: Option<Schema>)
    requires Conforms(v, schema) && !MeetsPreserved(v, schema)
    ensures !HasNested(v)
    decreases v
  {
    var s := schema.value;
    match v
    case Obj(fields) =>
      forall k | k in fields ensures !HasNested(fields[k]) {
        ConformingHasNoNested(fields[k], FieldSchema(s, k));
      }
    case Arr(items) =>
      forall i | 0 <= i < |items| ensures !HasNested(items[i]) {
        ConformingHasNoNested(items[i], s.items);
      }
    case _ =>
  }
}
