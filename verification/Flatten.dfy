/** Extracting field descriptors from a template, with and without a schema. */
module Flatten {
  import opened Ordering
  import opened Fieldpath
  import opened PathText
  import opened Values
  import Cel

  /** A field holding expressions: where, which, and whether the field is nothing but one span. */
  datatype FieldDescriptor = FieldDescriptor(
    path: string, expressions: seq<string>, expectedType: string, standalone: bool)

  datatype ParseOutcome = Fields(fields: seq<FieldDescriptor>) | Rejected

  // -------------------------------------------------------- strings.Trim

  const SPAN_CHARS: set<char> := {'$', '{', '}'}

  function TrimLeft(s: string): string {
    if s != "" && s[0] in SPAN_CHARS then TrimLeft(s[1..]) else s
  }

  function TrimRight(s: string): string {
    if s != "" && s[|s| - 1] in SPAN_CHARS then TrimRight(s[..|s| - 1]) else s
  }

  /** `strings.Trim(s, "${}")`. */
  function Trim(s: string): string { TrimRight(TrimLeft(s)) }

  /** Neither end is a dollar or a brace. */
  predicate BareEnds(s: string) {
    s == "" || (s[0] !in SPAN_CHARS && s[|s| - 1] !in SPAN_CHARS)
  }

  lemma {:induction false} TrimRightShape(s: string)
    ensures TrimRight(s) <= s && (TrimRight(s) == s <==> s == "" || s[|s| - 1] !in SPAN_CHARS)
    ensures TrimRight(s) == "" || TrimRight(s)[|TrimRight(s)| - 1] !in SPAN_CHARS
  {
    if s != "" && s[|s| - 1] in SPAN_CHARS {
      TrimRightShape(s[..|s| - 1]);
    }
  }

  lemma {:induction false} TrimLeftShape(s: string)
    ensures |TrimLeft(s)| <= |s| && (TrimLeft(s) == s <==> s == "" || s[0] !in SPAN_CHARS)
    ensures TrimLeft(s) == "" || (TrimLeft(s)[0] !in SPAN_CHARS && TrimLeft(s)[|TrimLeft(s)| - 1] == s[|s| - 1])
  {
    if s != "" && s[0] in SPAN_CHARS {
      TrimLeftShape(s[1..]);
    }
  }

  /** Trimming takes span characters off both ends, and as many as there are. */
  lemma TrimIs(s: string) returns (i: nat, j: nat)
    ensures i <= j <= |s| && Trim(s) == s[i..j]
    ensures forall k | 0 <= k < i || j <= k < |s| :: s[k] in SPAN_CHARS
    ensures i < j ==> s[i] !in SPAN_CHARS && s[j - 1] !in SPAN_CHARS
  {
    i := TrimLeftIs(s);
    var n := TrimRightIs(TrimLeft(s));
    j := i + n;
    assert s[i..][..n] == s[i..j];
  }

  lemma {:induction false} TrimLeftIs(s: string) returns (i: nat)
    ensures i <= |s| && TrimLeft(s) == s[i..] && (i < |s| ==> s[i] !in SPAN_CHARS)
    ensures forall k | 0 <= k < i :: s[k] in SPAN_CHARS
  {
    i := 0;
    if s != "" && s[0] in SPAN_CHARS {
      i := TrimLeftIs(s[1..]);
      i := i + 1;
      assert s[1..][i - 1..] == s[i..];
    }
  }

  lemma {:induction false} TrimRightIs(s: string) returns (n: nat)
    ensures n <= |s| && TrimRight(s) == s[..n] && (n > 0 ==> s[n - 1] !in SPAN_CHARS)
    ensures forall k | n <= k < |s| :: s[k] in SPAN_CHARS
  {
    n := |s|;
    if s != "" && s[|s| - 1] in SPAN_CHARS {
      n := TrimRightIs(s[..|s| - 1]);
      assert s[..|s| - 1][..n] == s[..n];
    }
  }

  /** Trimming leaves an expression alone exactly when neither of its ends is a span
      character; otherwise the resolver looks its value up under another text. */
  lemma TrimKeepsIff(e: string)
    ensures Trim(e) == e <==> BareEnds(e)
    ensures BareEnds(Trim(e)) && Trim(Trim(e)) == Trim(e)
  {
    var l := TrimLeft(e);
    TrimLeftShape(e);
    TrimRightShape(l);
    var t := Trim(e);
    assert t != "" ==> t[0] == l[0];
    TrimLeftShape(t);
    TrimRightShape(t);
  }

  /** Trimming a whole standalone string gives what trimming its expression gives. */
  lemma TrimSpan(e: string)
    ensures Trim(Cel.Span(e)) == Trim(e)
  {
    var s := Cel.Span(e);
    assert s[1..] == "{" + e + "}" && s[1..][1..] == e + "}";
    assert TrimLeft(s) == TrimLeft(e + "}");
    TrimLeftAppend(e);
  }

  lemma {:induction false} TrimLeftAppend(e: string)
    ensures TrimRight(TrimLeft(e + "}")) == TrimRight(TrimLeft(e))
  {
    if e == "" {
      assert e + "}" == "}" && "}"[1..] == "";
    } else if e[0] in SPAN_CHARS {
      assert (e + "}")[1..] == e[1..] + "}";
      TrimLeftAppend(e[1..]);
    } else {
      assert (e + "}")[..|e|] == e;
    }
  }

  // ------------------------------------------------- which strings are fields

  predicate HasExpressions(s: string) {
    Cel.Extract(s).Expressions? && Cel.Extract(s).expressions != []
  }

  /** The descriptor of a string field found at the end of the walk `w`. */
  function Describe(w: Walk, s: string, expectedType: string): FieldDescriptor
    requires HasExpressions(s)
  {
    if Cel.Standalone(s) then FieldDescriptor(PathOf(w), [Trim(s)], expectedType, true)
    else FieldDescriptor(PathOf(w), Cel.Extract(s).expressions, expectedType, false)
  }

  /** Walks to the strings that hold expressions. */
  ghost function Leaves(v: Value): set<Walk> {
    match v
    case Str(s) => if HasExpressions(s) then {[]} else {}
    case Arr(items) => set i, u | 0 <= i < |items| && u in Leaves(items[i]) :: [At(i)] + u
    case Obj(fields) => set k, u | k in fields && u in Leaves(fields[k]) :: [Key(k)] + u
    case _ => {}
  }

  /** Some string holds a nested expression. */
  ghost predicate HasNested(v: Value) {
    match v
    case Str(s) => Cel.Extract(s) == Cel.NestedExpression
    case Arr(items) => exists i :: 0 <= i < |items| && HasNested(items[i])
    case Obj(fields) => exists k :: k in fields && HasNested(fields[k])
    case _ => false
  }

  lemma {:induction false} LeavesAreStrings(v: Value, u: Walk)
    requires u in Leaves(v)
    ensures Get(v, u).Some? && Get(v, u).value.Str? && HasExpressions(Get(v, u).value.s)
    decreases |u|
  {
    match v
    case Str(s) =>
    case Arr(items) =>
      var i, t :| 0 <= i < |items| && t in Leaves(items[i]) && u == [At(i)] + t;
      assert u[1..] == t;
      LeavesAreStrings(items[i], t);
    case Obj(fields) =>
      var k, t :| k in fields && t in Leaves(fields[k]) && u == [Key(k)] + t;
      assert u[1..] == t;
      LeavesAreStrings(fields[k], t);
    case _ =>
  }

  /** Exactly the walks to strings with expressions are listed. */
  lemma {:induction false} LeavesIff(v: Value, u: Walk)
    ensures u in Leaves(v) <==> Get(v, u).Some? && Get(v, u).value.Str? && HasExpressions(Get(v, u).value.s)
    decreases |u|
  {
    hide HasExpressions;
    if u in Leaves(v) {
      LeavesAreStrings(v, u);
    } else if u != [] && Child(v, u[0]).Some? {
      LeavesIff(Child(v, u[0]).value, u[1..]);
      assert u == [u[0]] + u[1..];
    }
  }

  /** The same field up to the expected type. */
  predicate Matches(f: FieldDescriptor, w: Walk, s: string)
    requires HasExpressions(s)
  {
    f == Describe(w, s, f.expectedType)
  }

  /** The descriptors `fs` describe, once each and in the order of `ws`, the strings of `v`
      at the walks of `leaves`; `w` leads to `v`. */
  ghost predicate Lists(v: Value, w: Walk, leaves: set<Walk>, fs: seq<FieldDescriptor>, ws: seq<Walk>) {
    && |fs| == |ws| && NoDup(ws) && Elements(ws) == leaves && leaves <= Leaves(v)
    && forall i | 0 <= i < |ws| :: Entry(v, w, ws[i], fs[i])
  }

  /** `f` describes the string of `v` at `u`. */
  predicate Entry(v: Value, w: Walk, u: Walk, f: FieldDescriptor) {
    var s := Get(v, u);
    s.Some? && s.value.Str? && HasExpressions(s.value.s) && Matches(f, w + u, s.value.s)
  }

  // ------------------------------------------------------ combining children

  function Under(st: Step, ws: seq<Walk>): (r: seq<Walk>)
    ensures |r| == |ws| && forall i | 0 <= i < |ws| :: r[i] == [st] + ws[i]
  {
    seq(|ws|, i requires 0 <= i < |ws| => [st] + ws[i])
  }

  ghost function SetUnder(st: Step, us: set<Walk>): set<Walk> {
    set u | u in us :: [st] + u
  }

  /** The lists of one child, appended to those of the children before it. */
  lemma AppendChild(v: Value, w: Walk, st: Step, c: Value, done: set<Walk>, fs: seq<FieldDescriptor>, ws: seq<Walk>,
                    leaves: set<Walk>, fs': seq<FieldDescriptor>, ws': seq<Walk>)
    requires Lists(v, w, done, fs, ws) && Lists(c, w + [st], leaves, fs', ws')
    requires Child(v, st) == Some(c)
    requires forall u | u in done :: u != [] && u[0] != st
    requires SetUnder(st, leaves) <= Leaves(v)
    ensures Lists(v, w, done + SetUnder(st, leaves), fs + fs', ws + Under(st, ws'))
  {
    hide Entry, Leaves, SetUnder, NoDup, Elements;
    AppendWalks(st, ws, ws', done, leaves);
    forall i | 0 <= i < |ws'| ensures Entry(v, w, [st] + ws'[i], fs'[i]) {
      EntryUnder(v, w, st, c, ws'[i], fs'[i]);
    }
  }

  lemma EntryUnder(v: Value, w: Walk, st: Step, c: Value, u: Walk, f: FieldDescriptor)
    requires Child(v, st) == Some(c) && Entry(c, w + [st], u, f)
    ensures Entry(v, w, [st] + u, f)
  {
    assert ([st] + u)[1..] == u;
    assert w + ([st] + u) == w + [st] + u;
  }

  lemma AppendWalks(st: Step, ws: seq<Walk>, ws': seq<Walk>, done: set<Walk>, leaves: set<Walk>)
    requires NoDup(ws) && NoDup(ws') && Elements(ws) == done && Elements(ws') == leaves
    requires forall u | u in done :: u != [] && u[0] != st
    ensures NoDup(ws + Under(st, ws'))
    ensures Elements(ws + Under(st, ws')) == done + SetUnder(st, leaves)
  {
    var us := Under(st, ws');
    forall i, j | 0 <= i < j < |us| ensures us[i] != us[j] {
      assert us[i][1..] == ws'[i] && us[j][1..] == ws'[j];
    }
    forall i, j | 0 <= i < |ws| && 0 <= j < |us| ensures ws[i] != us[j] {
      assert ws[i] in Elements(ws);
    }
    forall u | u in SetUnder(st, leaves) ensures u in us {
      var t :| t in leaves && u == [st] + t;
      assert t in Elements(ws');
      var i :| 0 <= i < |ws'| && ws'[i] == t;
      assert us[i] == u;
    }
    forall u | u in us ensures u in SetUnder(st, leaves) {
      var i :| 0 <= i < |us| && us[i] == u;
      assert ws'[i] in Elements(ws');
    }
    assert Elements(ws + us) == Elements(ws) + Elements(us);
  }

  /** The walks kept below the first `n` positions, given those kept in each item. */
  ghost function ArrWalks(kept: seq<set<Walk>>, n: nat): set<Walk>
    requires n <= |kept|
  {
    set i, u | 0 <= i < n && u in kept[i] :: [At(i)] + u
  }

  ghost function ObjWalks(kept: map<string, set<Walk>>, keys: set<string>): set<Walk> {
    set k, u | k in keys && k in kept && u in kept[k] :: [Key(k)] + u
  }

  lemma ArrayStep(items: seq<Value>, w: Walk, kept: seq<set<Walk>>, n: nat,
                  fs: seq<FieldDescriptor>, ws: seq<Walk>, fs': seq<FieldDescriptor>, ws': seq<Walk>)
    requires |kept| == |items| && n < |items|
    requires Lists(Arr(items), w, ArrWalks(kept, n), fs, ws)
    requires Lists(items[n], w + [At(n)], kept[n], fs', ws')
    ensures Lists(Arr(items), w, ArrWalks(kept, n + 1), fs + fs', ws + Under(At(n), ws'))
  {
    hide Lists;
    assert ArrWalks(kept, n + 1) == ArrWalks(kept, n) + SetUnder(At(n), kept[n]);
    ListedAreLeaves(items[n], w + [At(n)], kept[n], fs', ws');
    assert SetUnder(At(n), kept[n]) <= Leaves(Arr(items));
    AppendChild(Arr(items), w, At(n), items[n], ArrWalks(kept, n), fs, ws, kept[n], fs', ws');
  }

  lemma ObjectStep(fields: map<string, Value>, w: Walk, kept: map<string, set<Walk>>, keys: set<string>, k: string,
                   fs: seq<FieldDescriptor>, ws: seq<Walk>, fs': seq<FieldDescriptor>, ws': seq<Walk>)
    requires kept.Keys == fields.Keys && k in fields && k !in keys
    requires Lists(Obj(fields), w, ObjWalks(kept, keys), fs, ws)
    requires Lists(fields[k], w + [Key(k)], kept[k], fs', ws')
    ensures Lists(Obj(fields), w, ObjWalks(kept, keys + {k}), fs + fs', ws + Under(Key(k), ws'))
  {
    hide Lists;
    assert ObjWalks(kept, keys + {k}) == ObjWalks(kept, keys) + SetUnder(Key(k), kept[k]);
    ListedAreLeaves(fields[k], w + [Key(k)], kept[k], fs', ws');
    assert SetUnder(Key(k), kept[k]) <= Leaves(Obj(fields));
    AppendChild(Obj(fields), w, Key(k), fields[k], ObjWalks(kept, keys), fs, ws, kept[k], fs', ws');
  }

  lemma ListedAreLeaves(v: Value, w: Walk, leaves: set<Walk>, fs: seq<FieldDescriptor>, ws: seq<Walk>)
    requires Lists(v, w, leaves, fs, ws)
    ensures leaves <= Leaves(v)
  {
  }

  lemma AllObjectWalks(fields: map<string, Value>, kept: map<string, set<Walk>>)
    requires kept.Keys == fields.Keys && forall k | k in fields :: kept[k] == Leaves(fields[k])
    ensures ObjWalks(kept, {}) == {} && ObjWalks(kept, fields.Keys) == Leaves(Obj(fields))
  {
  }

  lemma ListsNothing(v: Value, w: Walk)
    ensures Lists(v, w, {}, [], [])
  {
  }

  // ----------------------------------------------------- without a schema

  /** Without a schema any type is expected. */
  predicate AllAny(fs: seq<FieldDescriptor>) { forall f | f in fs :: f.expectedType == "any" }

  lemma NoFieldsAny()
    ensures AllAny([])
  {
  }

  lemma NestedInObject(fields: map<string, Value>)
    ensures HasNested(Obj(fields)) <==> exists k :: k in fields && HasNested(fields[k])
  {
  }

  lemma AnyAppend(fs: seq<FieldDescriptor>, fs': seq<FieldDescriptor>)
    requires AllAny(fs) && AllAny(fs')
    ensures AllAny(fs + fs')
  {
  }

  method ParseSchemaless(resource: Value, path: string, ghost w: Walk)
    returns (r: ParseOutcome, ghost ws: seq<Walk>)
    requires path == PathOf(w)
    ensures r.Rejected? <==> HasNested(resource)
    ensures r.Fields? ==> Lists(resource, w, Leaves(resource), r.fields, ws) && AllAny(r.fields)
    decreases resource
  {
    match resource
    case Obj(fields) => r, ws := SchemalessObject(resource, fields, path, w);
    case Arr(items) => r, ws := SchemalessArray(resource, items, path, w);
    case Str(s) =>
      ws := [];
      var standalone, nested := Cel.IsStandaloneExpression(s);
      if nested {
        return Rejected, ws;
      }
      if standalone {
        ws := [[]];
        assert w + [] == w;
        return Fields([FieldDescriptor(path, [Trim(s)], "any", true)]), ws;
      }
      var x := Cel.ExtractExpressions(s);
      if x.NestedExpression? {
        return Rejected, ws;
      }
      if |x.expressions| > 0 {
        ws := [[]];
        assert w + [] == w;
        return Fields([FieldDescriptor(path, x.expressions, "any", false)]), ws;
      }
      return Fields([]), ws;
    case _ =>
      return Fields([]), [];
  }

  method SchemalessObject(resource: Value, fields: map<string, Value>, path: string, ghost w: Walk)
    returns (r: ParseOutcome, ghost ws: seq<Walk>)
    requires path == PathOf(w) && resource == Obj(fields)
    ensures r.Rejected? <==> HasNested(resource)
    ensures r.Fields? ==> Lists(resource, w, Leaves(resource), r.fields, ws) && AllAny(r.fields)
    decreases resource, 0
  {
    hide Lists, ObjWalks, Leaves, PathOf, JoinPathAndFieldName, AllAny, HasNested;
    assert AllAny([]) by { NoFieldsAny(); }
    NestedInObject(fields);
    ghost var kept := map k | k in fields :: Leaves(fields[k]);
    var fs: seq<FieldDescriptor> := [];
    ws := [];
    var todo := fields.Keys;
    ghost var done: set<string> := {};
    ListsNothing(resource, w);
    AllObjectWalks(fields, kept);
    while todo != {}
      invariant todo + done == fields.Keys && todo !! done
      invariant Lists(resource, w, ObjWalks(kept, done), fs, ws) && AllAny(fs)
      invariant forall k | k in done :: !HasNested(fields[k])
      decreases |todo|
    {
      var k :| k in todo;
      PathOfSnoc(w, Key(k));
      ghost var ws': seq<Walk>;
      var sub: ParseOutcome;
      sub, ws' := ParseSchemaless(fields[k], JoinPathAndFieldName(path, k), w + [Key(k)]);
      if sub.Rejected? {
        return Rejected, [];
      }
      ObjectStep(fields, w, kept, done, k, fs, ws, sub.fields, ws');
      AnyAppend(fs, sub.fields);
      fs, ws := fs + sub.fields, ws + Under(Key(k), ws');
      MoveOne(todo, done, fields.Keys, k);
      todo, done := todo - {k}, done + {k};
    }
    return Fields(fs), ws;
  }

  method SchemalessArray(resource: Value, items: seq<Value>, path: string, ghost w: Walk)
    returns (r: ParseOutcome, ghost ws: seq<Walk>)
    requires path == PathOf(w) && resource == Arr(items)
    ensures r.Rejected? <==> HasNested(resource)
    ensures r.Fields? ==> Lists(resource, w, Leaves(resource), r.fields, ws) && AllAny(r.fields)
    decreases resource, 0
  {
    hide Lists, PathOf, AllAny, HasExpressions;
    ghost var kept := seq(|items|, i requires 0 <= i < |items| => Leaves(items[i]));
    var fs: seq<FieldDescriptor> := [];
    ws := [];
    ListsNothing(resource, w);
    assert AllAny([]) by { NoFieldsAny(); }
    assert ArrWalks(kept, 0) == {};
    for i := 0 to |items|
      invariant Lists(resource, w, ArrWalks(kept, i), fs, ws) && AllAny(fs)
      invariant forall j | 0 <= j < i :: !HasNested(items[j])
    {
      PathOfSnoc(w, At(i));
      ghost var ws': seq<Walk>;
      var sub: ParseOutcome;
      sub, ws' := ParseSchemaless(items[i], ItemPath(path, i), w + [At(i)]);
      if sub.Rejected? {
        return Rejected, [];
      }
      ArrayStep(items, w, kept, i, fs, ws, sub.fields, ws');
      AnyAppend(fs, sub.fields);
      fs, ws := fs + sub.fields, ws + Under(At(i), ws');
    }
    assert ArrWalks(kept, |items|) == Leaves(resource);
    return Fields(fs), ws;
  }

  lemma PathOfSnoc(w: Walk, st: Step)
    ensures PathOf(w + [st]) ==
      if st.Key? then JoinPathAndFieldName(PathOf(w), st.name) else ItemPath(PathOf(w), st.index)
  {
    assert (w + [st])[..|w|] == w;
  }
}
