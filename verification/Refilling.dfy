/** Resolving the same resource again and again while more and more values become known. */
module Refilling {
  import opened Ordering
  import opened Fieldpath
  import opened PathText
  import opened Values
  import opened Flatten
  import opened Interpolation
  import opened Resolution
  import Cel

  /** More values are known, and the old ones are the same. */
  predicate Knows(v: map<string, Value>, v': map<string, Value>) {
    forall e | e in v :: e in v' && v'[e] == v[e]
  }

  lemma ReadyStays(s: string, v: map<string, Value>, v': map<string, Value>, format: Value -> string)
    requires Knows(v, v') && Ready(s, Env(v, format))
    ensures Ready(s, Env(v', format)) && FillString(s, Env(v', format)) == FillString(s, Env(v, format))
  {
    hide Cel.Decompose, Fill;
    var t := Cel.Decompose(s).value;
    forall i | 0 <= i < |t.chunks|
      ensures Print(Env(v, format))(t.chunks[i].expr) == Print(Env(v', format))(t.chunks[i].expr)
    {
    }
    SameFill(t, Elements(Cel.ExprsOf(t.chunks)), Print(Env(v, format)), Print(Env(v', format)));
  }

  lemma {:induction false} SameFill(t: Cel.Template, done: set<string>, p: Printed, q: Printed)
    requires forall i | 0 <= i < |t.chunks| :: p(t.chunks[i].expr) == q(t.chunks[i].expr)
    ensures Fill(t, done, p) == Fill(t, done, q)
    decreases |t.chunks|
  {
    if t.chunks != [] {
      var rest := Cel.Template(t.chunks[1..], t.tail);
      forall i | 0 <= i < |rest.chunks| ensures p(rest.chunks[i].expr) == q(rest.chunks[i].expr) {
        assert rest.chunks[i] == t.chunks[i + 1];
      }
      SameFill(rest, done, p, q);
    }
  }

  lemma TameStringEarlier(s: string, v: map<string, Value>, v': map<string, Value>, format: Value -> string)
    requires Knows(v, v') && TameString(s, Env(v', format))
    ensures TameString(s, Env(v, format))
  {
    hide Cel.Decompose;
    if Ready(s, Env(v, format)) {
      ReadyStays(s, v, v', format);
      var t := Cel.Decompose(s).value;
      if !SingleSpan(t) {
        forall i | 0 <= i < |t.chunks|
          ensures Print(Env(v, format))(t.chunks[i].expr) == Print(Env(v', format))(t.chunks[i].expr)
        {
        }
        SameSafe(t, Print(Env(v, format)), Print(Env(v', format)));
      }
    }
  }

  lemma SameSafe(t: Cel.Template, p: Printed, q: Printed)
    requires (forall i | 0 <= i < |t.chunks| :: p(t.chunks[i].expr) == q(t.chunks[i].expr)) && Safe(t, q)
    ensures Safe(t, p)
  {
    SameFill(t, Elements(Cel.ExprsOf(t.chunks)), p, q);
    assert forall i | 0 <= i < |t.chunks| :: Spares(t, q, t.chunks[i].expr);
  }

  /** Whatever is tame with more values was tame with fewer. */
  lemma TameEarlier(t: Value, walks: set<Walk>, v: map<string, Value>, v': map<string, Value>, format: Value -> string)
    requires Knows(v, v') && Tame(t, walks, Env(v', format))
    ensures Tame(t, walks, Env(v, format))
  {
    hide TameString, TameWalk;
    forall w | w in walks ensures TameString(Get(t, w).value.s, Env(v, format)) {
      TameStringEarlier(Get(t, w).value.s, v, v', format);
    }
  }

  /** What was filled in with fewer values is what is filled in with more. */
  lemma {:induction false} FilledStays(t: Value, done: set<Walk>, v: map<string, Value>, v': map<string, Value>,
                                       format: Value -> string)
    requires Knows(v, v') && forall w | w in done && w in Leaves(t) :: LeafReady(t, w, Env(v, format))
    ensures SubstitutedAt(t, done, Env(v, format)) == SubstitutedAt(t, done, Env(v', format))
    decreases t
  {
    hide Ready, FillString, HasExpressions;
    var env, env' := Env(v, format), Env(v', format);
    match t
    case Str(s) =>
      if [] in done {
        if HasExpressions(s) {
          assert LeafReady(t, [], env);
          ReadyStays(s, v, v', format);
        } else {
          NoExpressionsNoChange(s, env);
          NoExpressionsNoChange(s, env');
        }
      }
    case Arr(items) =>
      forall i | 0 <= i < |items|
        ensures SubstitutedAt(items[i], Tails(done, At(i)), env) == SubstitutedAt(items[i], Tails(done, At(i)), env')
      {
        TailsReady(t, done, At(i), env);
        FilledStays(items[i], Tails(done, At(i)), v, v', format);
      }
    case Obj(fields) =>
      forall k | k in fields
        ensures SubstitutedAt(fields[k], Tails(done, Key(k)), env) ==
          SubstitutedAt(fields[k], Tails(done, Key(k)), env')
      {
        TailsReady(t, done, Key(k), env);
        FilledStays(fields[k], Tails(done, Key(k)), v, v', format);
      }
    case _ =>
  }

  lemma TailsReady(t: Value, done: set<Walk>, st: Step, env: Env)
    requires Child(t, st).Some?
    requires forall w | w in done && w in Leaves(t) :: LeafReady(t, w, env)
    ensures forall u | u in Tails(done, st) && u in Leaves(Child(t, st).value) :: LeafReady(Child(t, st).value, u, env)
  {
    hide Leaves, Ready;
    ChildLeaves(t, st);
    var c := Child(t, st).value;
    forall u | u in Tails(done, st) && u in Leaves(c) ensures LeafReady(c, u, env) {
      var w :| w in done && w != [] && w[0] == st && w[1..] == u;
      assert u in Tails(Leaves(t), st);
      var x :| x in Leaves(t) && x != [] && x[0] == st && x[1..] == u;
      assert w == [st] + u == x;
      assert LeafReady(t, w, env);
      assert Get(t, w) == Get(c, u);
    }
  }

  /** Strings whose values are not all known make no difference. */
  lemma {:induction false} UnreadyDoesNotMatter(t: Value, a: set<Walk>, b: set<Walk>, env: Env)
    requires forall w | w in Leaves(t) && (w in a) != (w in b) :: !LeafReady(t, w, env)
    ensures SubstitutedAt(t, a, env) == SubstitutedAt(t, b, env)
    decreases t
  {
    hide Ready, FillString, HasExpressions;
    match t
    case Str(s) =>
      if ([] in a) != ([] in b) {
        if HasExpressions(s) {
          assert !LeafReady(t, [], env);
          UnreadyUnchanged(s, env);
        } else {
          NoExpressionsNoChange(s, env);
        }
      }
    case Arr(items) =>
      forall i | 0 <= i < |items|
        ensures SubstitutedAt(items[i], Tails(a, At(i)), env) == SubstitutedAt(items[i], Tails(b, At(i)), env)
      {
        TailsDiffer(t, a, b, At(i), env);
        UnreadyDoesNotMatter(items[i], Tails(a, At(i)), Tails(b, At(i)), env);
      }
    case Obj(fields) =>
      forall k | k in fields
        ensures SubstitutedAt(fields[k], Tails(a, Key(k)), env) == SubstitutedAt(fields[k], Tails(b, Key(k)), env)
      {
        TailsDiffer(t, a, b, Key(k), env);
        UnreadyDoesNotMatter(fields[k], Tails(a, Key(k)), Tails(b, Key(k)), env);
      }
    case _ =>
  }

  lemma TailsIn(walks: set<Walk>, st: Step, u: Walk)
    ensures u in Tails(walks, st) <==> [st] + u in walks
  {
    if u in Tails(walks, st) {
      var w :| w in walks && w != [] && w[0] == st && w[1..] == u;
      assert w == [st] + u;
    }
    if [st] + u in walks {
      assert ([st] + u)[1..] == u;
    }
  }

  lemma TailsDiffer(t: Value, a: set<Walk>, b: set<Walk>, st: Step, env: Env)
    requires Child(t, st).Some?
    requires forall w | w in Leaves(t) && (w in a) != (w in b) :: !LeafReady(t, w, env)
    ensures forall u | u in Leaves(Child(t, st).value) && (u in Tails(a, st)) != (u in Tails(b, st)) ::
      !LeafReady(Child(t, st).value, u, env)
  {
    hide Leaves, Ready, Tails;
    var c := Child(t, st).value;
    ChildLeaves(t, st);
    forall u | u in Leaves(c) && (u in Tails(a, st)) != (u in Tails(b, st)) ensures !LeafReady(c, u, env) {
      TailsIn(a, st, u);
      TailsIn(b, st, u);
      TailsIn(Leaves(t), st, u);
      assert !LeafReady(t, [st] + u, env);
      assert ([st] + u)[1..] == u;
    }
  }

  // ----------------------------------------------------------------- stages

  /** The object is the template with the strings at `done`, listed ones all of whose values are
      known, filled in. */
  ghost predicate Stage(t: Value, kept: set<Walk>, obj: Value, done: set<Walk>, env: Env) {
    Tame(t, kept, env) ==> done <= ReadyAmong(t, kept, env) && obj == SubstitutedAt(t, done, env)
  }

  /** Every listed string is filled in. */
  ghost predicate Complete(t: Value, kept: set<Walk>, obj: Value, env: Env) {
    Tame(t, kept, env) ==> obj == SubstitutedAt(t, kept, env) && forall w | w in kept :: LeafReady(t, w, env)
  }

  /** Some listed string lacks a value. */
  ghost predicate Lacking(t: Value, kept: set<Walk>, env: Env) {
    Tame(t, kept, env) ==> exists w :: w in kept && !LeafReady(t, w, env)
  }

  lemma StageStarts(t: Value, kept: set<Walk>, env: Env)
    ensures Stage(t, kept, t, {}, env)
  {
    NowhereIsNothing(t, env);
  }

  lemma StageStays(t: Value, kept: set<Walk>, obj: Value, done: set<Walk>, v: map<string, Value>,
                   v': map<string, Value>,
                   format: Value -> string)
    requires Knows(v, v') && Stage(t, kept, obj, done, Env(v, format))
    ensures Stage(t, kept, obj, done, Env(v', format))
  {
    hide Tame, Leaves, Ready;
    var env, env' := Env(v, format), Env(v', format);
    if Tame(t, kept, env') {
      TameEarlier(t, kept, v, v', format);
      forall w | w in done ensures w in kept && LeafReady(t, w, env) && LeafReady(t, w, env') {
        assert w in ReadyAmong(t, kept, env);
        ReadyStays(Get(t, w).value.s, v, v', format);
      }
      FilledStays(t, done, v, v', format);
    }
  }

  /** One more round of resolving fills in every listed string whose values are known by now; it
      reports no error exactly if those are all. */
  lemma StageResolves(t: Value, kept: set<Walk>, obj: Value, done: set<Walk>, fs: seq<FieldDescriptor>, ws: seq<Walk>,
                      env: Env)
    requires Stage(t, kept, obj, done, env) && t.Obj? && Lists(t, [], kept, fs, ws) && Usable(fs)
    ensures Stage(t, kept, ResolveAll(obj, fs, env).tree, ReadyAmong(t, kept, env), env)
    ensures ResolveAll(obj, fs, env).resolved == |fs| ==> Complete(t, kept, ResolveAll(obj, fs, env).tree, env)
    ensures ResolveAll(obj, fs, env).resolved != |fs| ==> Lacking(t, kept, env)
  {
    hide Tame, Leaves, Ready, ResolveAll, Entry, LeafReady;
    if Tame(t, kept, env) {
      var ready := ReadyAmong(t, kept, env);
      assert Elements(ws) == kept;
      ResolveSome(t, done, fs, ws, env);
      UnreadyDoesNotMatter(t, done + kept, ready, env);
      NoDupLength(ws);
      if ResolveAll(obj, fs, env).resolved == |fs| {
        SubsetOfSameSize(ready, kept);
      } else {
        AllOrSome(kept, ready);
      }
      assert forall w | w in kept :: w in ready <==> LeafReady(t, w, env);
    }
  }

  /** A complete object was filled in with a value for every expression of its fields. */
  lemma CompleteKnows(t: Value, kept: set<Walk>, obj: Value, fs: seq<FieldDescriptor>, ws: seq<Walk>, env: Env)
    requires Complete(t, kept, obj, env) && Tame(t, kept, env) && Lists(t, [], kept, fs, ws)
    ensures forall i, e | 0 <= i < |fs| && e in fs[i].expressions :: e in env.data
  {
    hide SubstitutedAt, LeafReady, TameString, TameWalk, Entry;
    forall i, e | 0 <= i < |fs| && e in fs[i].expressions ensures e in env.data {
      assert ws[i] in Elements(ws);
      FieldKnows(t, ws[i], fs[i], e, env);
    }
  }

  lemma FieldKnows(t: Value, w: Walk, f: FieldDescriptor, e: string, env: Env)
    requires LeafReady(t, w, env) && TameString(Get(t, w).value.s, env) && Entry(t, [], w, f) && e in f.expressions
    ensures e in env.data
  {
    hide Cel.Decompose, Cel.Extract, Trim, PathOf, Safe;
    var s := Get(t, w).value.s;
    var cut := Cel.Decompose(s).value;
    Cel.StandaloneIff(s);
    Cel.ExtractIsExprsOfCut(s);
    if Cel.Standalone(s) {
      var e' := cut.chunks[0].expr;
      Cel.RenderDecompose(s);
      assert Cel.ExprsOf(cut.chunks)[0] == e';
      assert s == Cel.Span(e');
      TrimSpan(e');
      TrimKeepsIff(e');
    } else {
      var k :| 0 <= k < |f.expressions| && f.expressions[k] == e;
      assert Cel.ExprsOf(cut.chunks)[k] == cut.chunks[k].expr;
    }
  }

  lemma AllOrSome<T>(a: set<T>, b: set<T>)
    requires b <= a && |b| != |a|
    ensures exists x :: x in a && x !in b
  {
    assert (forall x | x in a :: x in b) ==> a == b;
  }
}
