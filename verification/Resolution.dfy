/** Resolving a flattened template: the detour through path strings, expression texts and
    replace-all calls against structural substitution. */
module Resolution {
  import opened Ordering
  import opened Fieldpath
  import opened PathText
  import opened Values
  import opened Flatten
  import opened Interpolation
  import Cel

  /** The values known so far, by expression, and how a value prints under `%v`. */
  datatype Env = Env(data: map<string, Value>, format: Value -> string)

  // ---------------------------------------------------- what the resolver does

  /** `getValueFromPath`. */
  function ReadPath(t: Value, path: string): Option<Value> {
    match Parse(SkipDot(path))
    case Segments(segments) => Get(t, StepsOf(segments))
    case _ => None
  }

  /** `setValueAtPath`; an empty path does nothing. */
  function WritePath(t: Value, path: string, x: Value): Option<Value> {
    match Parse(path)
    case Segments(segments) => if segments == [] then Some(t) else Set(t, StepsOf(segments), x)
    case _ => None
  }

  /** How the resolver prints an expression: it looks the trimmed text up. */
  function TrimmedPrint(env: Env): Printed {
    (e: string) => if Trim(e) in env.data then env.format(env.data[Trim(e)]) else Cel.Span(e)
  }

  predicate AllKnown(order: seq<string>, env: Env) {
    forall i | 0 <= i < |order| :: Trim(order[i]) in env.data
  }

  /** `resolveField`; `None` stands for an error, which leaves the resource as it was. */
  function ResolveField(t: Value, f: FieldDescriptor, env: Env): Option<Value>
    requires f.standalone ==> f.expressions != []
  {
    match ReadPath(t, f.path)
    case None => None
    case Some(v) =>
      if f.standalone then
        var key := Trim(f.expressions[0]);
        if key in env.data then WritePath(t, f.path, env.data[key]) else None
      else if v.Str? && AllKnown(f.expressions, env) then
        WritePath(t, f.path, Str(ReplaceInOrder(v.s, f.expressions, TrimmedPrint(env))))
      else None
  }

  predicate Usable(fs: seq<FieldDescriptor>) {
    forall i | 0 <= i < |fs| :: fs[i].standalone ==> fs[i].expressions != []
  }

  datatype Summary = Summary(tree: Value, resolved: nat)

  /** One turn of the loop of `Resolve`. */
  function ResolveNext(before: Summary, f: FieldDescriptor, env: Env): Summary
    requires f.standalone ==> f.expressions != []
  {
    match ResolveField(before.tree, f, env)
    case Some(t) => Summary(t, before.resolved + 1)
    case None => before
  }

  /** `Resolve`: the resource afterwards and the number of resolved fields. */
  function ResolveAll(t: Value, fs: seq<FieldDescriptor>, env: Env): Summary
    requires Usable(fs)
  {
    if fs == [] then Summary(t, 0)
    else ResolveNext(ResolveAll(t, fs[..|fs| - 1], env), fs[|fs| - 1], env)
  }

  // --------------------------------------------------- structural substitution

  function Print(env: Env): Printed {
    (e: string) => if e in env.data then env.format(env.data[e]) else Cel.Span(e)
  }

  /** All expressions of the string have a value. */
  predicate Ready(s: string, env: Env) {
    Cel.Decompose(s).Some? &&
    forall i | 0 <= i < |Cel.Decompose(s).value.chunks| :: Cel.Decompose(s).value.chunks[i].expr in env.data
  }

  predicate SingleSpan(t: Cel.Template) {
    |t.chunks| == 1 && t.chunks[0].lit == "" && t.tail == ""
  }

  /** A string that is one span becomes the value; any other gets its spans filled in. */
  function FillString(s: string, env: Env): Value {
    if !Ready(s, env) then Str(s)
    else
      var t := Cel.Decompose(s).value;
      if SingleSpan(t) then env.data[t.chunks[0].expr] else Str(Substitute(t, Print(env)))
  }

  function Substituted(t: Value, env: Env): Value {
    match t
    case Str(s) => FillString(s, env)
    case Arr(items) => Arr(seq(|items|, i requires 0 <= i < |items| => Substituted(items[i], env)))
    case Obj(fields) => Obj(map k | k in fields :: Substituted(fields[k], env))
    case _ => t
  }

  // ------------------------------------------------ substitution at some leaves

  ghost function Tails(walks: set<Walk>, st: Step): set<Walk> {
    set u | u in walks && u != [] && u[0] == st :: u[1..]
  }

  /** Substitution only in the strings at the walks of `done`. */
  ghost function SubstitutedAt(t: Value, done: set<Walk>, env: Env): Value
    decreases t
  {
    match t
    case Str(s) => if [] in done then FillString(s, env) else t
    case Arr(items) => Arr(seq(|items|,
                               i requires 0 <= i < |items| => SubstitutedAt(items[i], Tails(done, At(i)), env)))
    case Obj(fields) => Obj(map k | k in fields :: SubstitutedAt(fields[k], Tails(done, Key(k)), env))
    case _ => t
  }

  lemma {:induction false} NowhereIsNothing(t: Value, env: Env)
    ensures SubstitutedAt(t, {}, env) == t
    decreases t
  {
    match t
    case Arr(items) =>
      forall i | 0 <= i < |items| ensures SubstitutedAt(items[i], Tails({}, At(i)), env) == items[i] {
        assert Tails({}, At(i)) == {};
        NowhereIsNothing(items[i], env);
      }
      assert SubstitutedAt(t, {}, env).items == items;
    case Obj(fields) =>
      forall k | k in fields ensures SubstitutedAt(fields[k], Tails({}, Key(k)), env) == fields[k] {
        assert Tails({}, Key(k)) == {};
        NowhereIsNothing(fields[k], env);
      }
      assert SubstitutedAt(t, {}, env).fields == fields;
    case _ =>
  }

  lemma NoExpressionsNoChange(s: string, env: Env)
    requires !HasExpressions(s)
    ensures FillString(s, env) == Str(s)
  {
    Cel.ExtractIsExprsOfCut(s);
    if Cel.Decompose(s).Some? {
      Cel.RenderDecompose(s);
    }
  }

  lemma {:induction false} EverywhereIsAll(t: Value, env: Env)
    ensures SubstitutedAt(t, Leaves(t), env) == Substituted(t, env)
    decreases t
  {
    match t
    case Str(s) =>
      if !HasExpressions(s) {
        NoExpressionsNoChange(s, env);
      }
    case Arr(items) =>
      forall i | 0 <= i < |items|
        ensures SubstitutedAt(items[i], Tails(Leaves(t), At(i)), env) == Substituted(items[i], env)
      {
        ChildLeaves(t, At(i));
        EverywhereIsAll(items[i], env);
      }
    case Obj(fields) =>
      forall k | k in fields
        ensures SubstitutedAt(fields[k], Tails(Leaves(t), Key(k)), env) == Substituted(fields[k], env)
      {
        ChildLeaves(t, Key(k));
        EverywhereIsAll(fields[k], env);
      }
    case _ =>
  }

  lemma ChildLeaves(t: Value, st: Step)
    requires Child(t, st).Some?
    ensures Tails(Leaves(t), st) == Leaves(Child(t, st).value)
  {
    var inner := Leaves(Child(t, st).value);
    forall u | u in inner ensures u in Tails(Leaves(t), st) {
      assert [st] + u in Leaves(t) && ([st] + u)[1..] == u;
    }
    forall u | u in Tails(Leaves(t), st) ensures u in inner {
      var x :| x in Leaves(t) && x != [] && x[0] == st && u == x[1..];
      assert x[1..] == u && x == [st] + u;
    }
  }

  /** The leaf text, which later substitutions at other leaves do not disturb, and what
      writing the substituted text there gives. */
  lemma {:induction false} SubstituteOne(t: Value, done: set<Walk>, w: Walk, env: Env)
    requires w in Leaves(t)
    ensures Get(t, w).Some? && Get(t, w).value.Str?
    ensures Get(SubstitutedAt(t, done, env), w) ==
      Some(if w in done then FillString(Get(t, w).value.s, env) else Get(t, w).value)
    ensures Set(SubstitutedAt(t, done, env), w, FillString(Get(t, w).value.s, env)) ==
      Some(SubstitutedAt(t, done + {w}, env))
    decreases |w|
  {
    LeavesAreStrings(t, w);
    if w != [] {
      var st := w[0];
      var c := Child(t, st).value;
      ChildLeaves(t, st);
      var inner := Tails(done, st);
      assert w == [st] + w[1..];
      SubstituteOne(c, inner, w[1..], env);
      TailsOfMore(done, w, st);
      ChildOfSubstituted(t, done, st, env);
      PutSubstituted(t, done, w, env);
    }
  }

  lemma TailsOfMore(done: set<Walk>, w: Walk, st: Step)
    requires w != []
    ensures Tails(done + {w}, st) == if w[0] == st then Tails(done, st) + {w[1..]} else Tails(done, st)
    ensures w[0] == st ==> (w in done <==> w[1..] in Tails(done, st))
  {
    forall u | u in Tails(done, st) && w[0] == st && u == w[1..] ensures w in done {
      var x :| x in done && x != [] && x[0] == st && u == x[1..];
      assert x == [st] + u == w;
    }
  }

  lemma ChildOfSubstituted(t: Value, done: set<Walk>, st: Step, env: Env)
    requires Child(t, st).Some?
    ensures Fits(SubstitutedAt(t, done, env), st)
    ensures Child(SubstitutedAt(t, done, env), st) == Some(SubstitutedAt(Child(t, st).value, Tails(done, st), env))
  {
  }

  lemma PutSubstituted(t: Value, done: set<Walk>, w: Walk, env: Env)
    requires w != [] && Child(t, w[0]).Some?
    ensures Fits(SubstitutedAt(t, done, env), w[0])
    ensures Put(SubstitutedAt(t, done, env), w[0],
                SubstitutedAt(Child(t, w[0]).value, Tails(done + {w}, w[0]), env)) ==
      SubstitutedAt(t, done + {w}, env)
  {
    hide FillString;
    var before, after := SubstitutedAt(t, done, env), SubstitutedAt(t, done + {w}, env);
    var c := SubstitutedAt(Child(t, w[0]).value, Tails(done + {w}, w[0]), env);
    match w[0]
    case At(i) =>
      forall j | 0 <= j < |t.items| ensures after.items[j] == before.items[i := c][j] {
        TailsOfMore(done, w, At(j));
      }
      assert after.items == before.items[i := c];
    case Key(k) =>
      forall j | j in t.fields ensures after.fields[j] == before.fields[k := c][j] {
        TailsOfMore(done, w, Key(j));
      }
      assert after.fields == before.fields[k := c];
  }

  // -------------------------------------------------------------- one descriptor

  /** The string at a leaf can be treated as text: no expression has a dollar or brace at
      either end, and, if it is not a single span, the finished text shows none of its spans. */
  predicate TameString(s: string, env: Env) {
    Cel.Decompose(s).Some? &&
    var t := Cel.Decompose(s).value;
    && (forall i | 0 <= i < |t.chunks| :: BareEnds(t.chunks[i].expr))
    && (SingleSpan(t) || !Ready(s, env) || Safe(t, Print(env)))
  }

  /** The walk survives the trip through its path string. */
  predicate TameWalk(w: Walk) { Clean(w) && InRange(w) && !EndsShort(w) }

  lemma {:induction false} SamePrint(s: string, order: seq<string>, p: Printed, q: Printed)
    requires forall i | 0 <= i < |order| :: p(order[i]) == q(order[i])
    ensures ReplaceInOrder(s, order, p) == ReplaceInOrder(s, order, q)
    decreases |order|
  {
    if order != [] {
      SamePrint(ReplaceAll(s, Cel.Span(order[0]), p(order[0])), order[1..], p, q);
    }
  }

  lemma PathOfWalk(t: Value, w: Walk)
    requires TameWalk(w) && w != []
    ensures ReadPath(t, PathOf(w)) == Get(t, w)
    ensures forall x :: WritePath(t, PathOf(w), x) == Set(t, w, x)
  {
    PathRoundTripIff(w);
    StepsOfSegmentsOf(w);
    assert SegmentsOf(w) != [];
    PathHasNoLeadingDot(w);
  }

  lemma PathHasNoLeadingDot(w: Walk)
    requires Clean(w)
    ensures SkipDot(PathOf(w)) == PathOf(w)
  {
    PathOfIsText(w);
    if w != [] {
      TextOfHead(w);
      assert Piece(w[0], true) != "" && Piece(w[0], true)[0] != '.';
    }
  }

  /** A leaf's text before and after substitution. */
  predicate LeafText(v: Value, s: string, env: Env) { v == Str(s) || v == FillString(s, env) }

  lemma MixedFilled(v: Value, s: string, w: Walk, f: FieldDescriptor, env: Env)
    requires HasExpressions(s) && TameString(s, env) && !Cel.Standalone(s) && LeafText(v, s, env) && Matches(f, w, s)
    ensures v.Str? && (AllKnown(f.expressions, env) <==> Ready(s, env))
    ensures Ready(s, env) ==> Str(ReplaceInOrder(v.s, f.expressions, TrimmedPrint(env))) == FillString(s, env)
  {
    hide Cel.Decompose, Cel.Extract, Fill, ReplaceInOrder, TrimmedPrint, Print;
    Cel.ExtractIsExprsOfCut(s);
    Cel.StandaloneIff(s);
    Cel.RenderDecompose(s);
    var t := Cel.Decompose(s).value;
    var order := Cel.ExprsOf(t.chunks);
    forall i | 0 <= i < |order| ensures Trim(order[i]) == order[i] {
      assert order[i] == t.chunks[i].expr;
      TrimKeepsIff(order[i]);
    }
    assert AllKnown(order, env) <==> forall i | 0 <= i < |order| :: order[i] in env.data;
    ReadyByOrder(s, env);
    if Ready(s, env) {
      SamePrintAsTrimmed(v.s, order, env);
      SequentialIsSimultaneous(t, order, Print(env));
    }
  }

  lemma ReadyByOrder(s: string, env: Env)
    requires Cel.Decompose(s).Some?
    ensures var order := Cel.ExprsOf(Cel.Decompose(s).value.chunks);
      Ready(s, env) <==> forall i | 0 <= i < |order| :: order[i] in env.data
  {
    hide Cel.Decompose;
    var chunks := Cel.Decompose(s).value.chunks;
    forall i | 0 <= i < |chunks| ensures Cel.ExprsOf(chunks)[i] == chunks[i].expr {
    }
  }

  lemma SamePrintAsTrimmed(s: string, order: seq<string>, env: Env)
    requires forall i | 0 <= i < |order| :: Trim(order[i]) == order[i]
    ensures ReplaceInOrder(s, order, TrimmedPrint(env)) == ReplaceInOrder(s, order, Print(env))
  {
    SamePrint(s, order, TrimmedPrint(env), Print(env));
  }

  lemma StandaloneFilled(s: string, w: Walk, f: FieldDescriptor, env: Env)
    requires HasExpressions(s) && TameString(s, env) && Cel.Standalone(s) && Matches(f, w, s)
    ensures f.standalone && f.expressions != []
    ensures Trim(f.expressions[0]) in env.data <==> Ready(s, env)
    ensures Ready(s, env) ==> env.data[Trim(f.expressions[0])] == FillString(s, env)
  {
    hide Cel.Decompose, Cel.Extract, Trim;
    Cel.StandaloneIff(s);
    Cel.RenderDecompose(s);
    Cel.ExtractIsExprsOfCut(s);
    var t := Cel.Decompose(s).value;
    var e := t.chunks[0].expr;
    assert Cel.ExprsOf(t.chunks)[0] == e;
    assert s == Cel.Span(e);
    TrimSpan(e);
    TrimKeepsIff(e);
    TrimKeepsIff(s);
  }

  /** One descriptor fills in exactly its leaf, whatever was filled in before, also a second time. */
  lemma FieldFillsLeaf(t: Value, done: set<Walk>, w: Walk, f: FieldDescriptor, env: Env)
    requires t.Obj? && w in Leaves(t) && Entry(t, [], w, f) && TameWalk(w)
    requires TameString(Get(t, w).value.s, env)
    ensures f.standalone ==> f.expressions != []
    ensures var after := ResolveField(SubstitutedAt(t, done, env), f, env);
      if Ready(Get(t, w).value.s, env) then after == Some(SubstitutedAt(t, done + {w}, env))
      else after == None && SubstitutedAt(t, done + {w}, env) == SubstitutedAt(t, done, env)
  {
    hide Leaves, SubstitutedAt, Get, Set, Trim, ReplaceInOrder, Cel.Extract, Cel.Decompose, PathOf, Ready,
      FillString;
    var s, now := Get(t, w).value.s, SubstitutedAt(t, done, env);
    assert [] + w == w;
    LeafInside(t, w);
    SubstituteOne(t, done, w, env);
    PathOfWalk(now, w);
    var v := Get(now, w).value;
    if Cel.Standalone(s) {
      StandaloneFilled(s, w, f, env);
    } else {
      MixedFilled(v, s, w, f, env);
    }
    if !Ready(s, env) {
      UnreadyUnchanged(s, env);
      SetWhatIsThere(now, w);
    }
  }

  lemma LeafInside(t: Value, w: Walk)
    requires t.Obj? && w in Leaves(t)
    ensures w != []
  {
  }

  lemma UnreadyUnchanged(s: string, env: Env)
    requires !Ready(s, env)
    ensures FillString(s, env) == Str(s)
  {
  }

  /** Writing what is already there changes nothing. */
  lemma {:induction false} SetWhatIsThere(v: Value, w: Walk)
    requires Get(v, w).Some?
    ensures Set(v, w, Get(v, w).value) == Some(v)
    decreases |w|
  {
    if w != [] {
      var c := Child(v, w[0]).value;
      SetWhatIsThere(c, w[1..]);
      match w[0]
      case At(i) => assert v.items[i := c] == v.items;
      case Key(k) => assert v.fields[k := c] == v.fields;
    }
  }

  // ------------------------------------------------------------------ all of them

  /** What the strings at `walks` and the values must be like. */
  ghost predicate Tame(t: Value, walks: set<Walk>, env: Env) {
    forall w | w in walks ::
      TameWalk(w) && Get(t, w).Some? && Get(t, w).value.Str? && TameString(Get(t, w).value.s, env)
  }

  ghost predicate LeafReady(t: Value, w: Walk, env: Env) {
    Get(t, w).Some? && Get(t, w).value.Str? && Ready(Get(t, w).value.s, env)
  }

  /** The leaves among `walks` whose expressions all have a value. */
  ghost function ReadyAmong(t: Value, walks: set<Walk>, env: Env): set<Walk> {
    set w | w in walks && LeafReady(t, w, env)
  }

  lemma NoneReady(t: Value, env: Env)
    ensures ReadyAmong(t, {}, env) == {}
  {
  }

  lemma ReadyOneMore(t: Value, walks: set<Walk>, w: Walk, env: Env)
    requires w !in walks && Get(t, w).Some? && Get(t, w).value.Str?
    ensures |ReadyAmong(t, walks + {w}, env)| ==
      |ReadyAmong(t, walks, env)| + if Ready(Get(t, w).value.s, env) then 1 else 0
  {
    var before := ReadyAmong(t, walks, env);
    assert ReadyAmong(t, walks + {w}, env) == if Ready(Get(t, w).value.s, env) then before + {w} else before;
  }

  ghost predicate Describes(t: Value, fs: seq<FieldDescriptor>, ws: seq<Walk>) {
    && |fs| == |ws| && NoDup(ws) && Elements(ws) <= Leaves(t)
    && forall i | 0 <= i < |ws| :: Entry(t, [], ws[i], fs[i])
  }

  lemma {:induction false} ResolveSome(t: Value, done: set<Walk>, fs: seq<FieldDescriptor>, ws: seq<Walk>, env: Env)
    requires t.Obj? && Describes(t, fs, ws) && Tame(t, Elements(ws), env)
    ensures Usable(fs)
    ensures ResolveAll(SubstitutedAt(t, done, env), fs, env) ==
      Summary(SubstitutedAt(t, done + Elements(ws), env), |ReadyAmong(t, Elements(ws), env)|)
    decreases |fs|
  {
    hide SubstitutedAt, ResolveField, Leaves, Entry, Ready, ReadyAmong, TameWalk, TameString;
    if fs == [] {
      NoElements(ws);
      assert done + Elements(ws) == done;
      NoneReady(t, env);
    } else {
      var n := |fs| - 1;
      var fs', ws', w := fs[..n], ws[..n], ws[n];
      assert ws == ws' + [w] && fs == fs' + [fs[n]];
      assert Elements(ws) == Elements(ws') + {w};
      ResolveSome(t, done, fs', ws', env);
      assert w in Leaves(t);
      FieldFillsLeaf(t, done + Elements(ws'), w, fs[n], env);
      assert done + Elements(ws') + {w} == done + Elements(ws);
      ReadyOneMore(t, Elements(ws'), w, env);
    }
  }

  /** Whatever the order in which a traversal lists the fields of a template, resolving them
      one by one through their paths is structural substitution in the listed strings; the
      number of resolved fields is the number of strings whose expressions all have values;
      and resolving a second time changes nothing. */
  lemma ResolvingIsSubstitution(t: Value, kept: set<Walk>, fs: seq<FieldDescriptor>, ws: seq<Walk>, env: Env)
    requires t.Obj? && Tame(t, kept, env) && Lists(t, [], kept, fs, ws)
    ensures Usable(fs)
    ensures ResolveAll(t, fs, env) == Summary(SubstitutedAt(t, kept, env), |ReadyAmong(t, kept, env)|)
    ensures ResolveAll(SubstitutedAt(t, kept, env), fs, env) == ResolveAll(t, fs, env)
    ensures kept == Leaves(t) ==> ResolveAll(t, fs, env).tree == Substituted(t, env)
  {
    hide Leaves, TameString, TameWalk, Entry;
    NowhereIsNothing(t, env);
    EverywhereIsAll(t, env);
    assert Elements(ws) == kept;
    ResolveSome(t, {}, fs, ws, env);
    ResolveSome(t, kept, fs, ws, env);
    assert {} + Elements(ws) == kept && kept + Elements(ws) == kept;
  }

  /** Every listed field resolves exactly when every listed string is ready. */
  lemma AllResolvedIff(t: Value, kept: set<Walk>, fs: seq<FieldDescriptor>, ws: seq<Walk>, env: Env)
    requires t.Obj? && Tame(t, kept, env) && Lists(t, [], kept, fs, ws)
    ensures Usable(fs)
    ensures ResolveAll(t, fs, env).resolved == |fs| <==> forall w | w in kept :: LeafReady(t, w, env)
  {
    hide Tame, Leaves, Entry, LeafReady;
    ResolvingIsSubstitution(t, kept, fs, ws, env);
    var ready := ReadyAmong(t, kept, env);
    assert Elements(ws) == kept;
    NoDupLength(ws);
    if |ready| == |fs| {
      SubsetOfSameSize(ready, kept);
    }
    assert (forall w | w in kept :: w in ready) ==> ready == kept;
    assert forall w | w in kept :: w in ready <==> LeafReady(t, w, env);
  }

  lemma {:induction false} NoDupLength<T>(s: seq<T>)
    requires NoDup(s)
    ensures |Elements(s)| == |s|
  {
    if s == [] {
      NoElements(s);
    } else {
      var n := |s| - 1;
      assert s == s[..n] + [s[n]];
      NoDupLength(s[..n]);
      assert Elements(s) == Elements(s[..n]) + {s[n]};
    }
  }

  lemma SubsetOfSameSize<T>(a: set<T>, b: set<T>)
    requires a <= b && |a| == |b|
    ensures a == b
  {
    assert |b - a| == |b| - |a|;
    assert b == a + (b - a);
  }
}
