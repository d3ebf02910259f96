/** Interpolating expression values into a string: the resolver's sequence of
    replace-all calls against simultaneous substitution of the spans. */
module Interpolation {
  import opened Ordering
  import opened Fieldpath
  import opened Cel

  predicate OccursAt(s: string, old_: string, i: nat) {
    i + |old_| <= |s| && s[i..i + |old_|] == old_
  }

  /** `strings.Replace(s, old, new, -1)` for a non-empty `old`. */
  function ReplaceAll(s: string, old_: string, new_: string): string
    requires old_ != ""
    decreases |s|
  {
    if s == "" then ""
    else if OccursAt(s, old_, 0) then new_ + ReplaceAll(s[|old_|..], old_, new_)
    else [s[0]] + ReplaceAll(s[1..], old_, new_)
  }

  /** The values as printed with `%v`, by expression. */
  type Printed = string -> string

  /** The loop body of the resolver, for the expressions in the given order. */
  function ReplaceInOrder(s: string, order: seq<string>, printed: Printed): string
    decreases |order|
  {
    if order == [] then s
    else ReplaceInOrder(ReplaceAll(s, Span(order[0]), printed(order[0])), order[1..], printed)
  }

  /** The template's string with the spans of the expressions in `done` replaced by their values. */
  function Fill(t: Template, done: set<string>, printed: Printed): string
    decreases |t.chunks|
  {
    if t.chunks == [] then t.tail
    else
      var c := t.chunks[0];
      var middle := if c.expr in done then printed(c.expr) else Span(c.expr);
      c.lit + (middle + Fill(Template(t.chunks[1..], t.tail), done, printed))
  }

  /** Simultaneous substitution of all spans. */
  function Substitute(t: Template, printed: Printed): string {
    Fill(t, Elements(ExprsOf(t.chunks)), printed)
  }

  predicate EndsInDollar(s: string) { s != "" && s[|s| - 1] == '$' }

  /** A text that opens no span, whatever follows it. */
  predicate OpensNothing(v: string) { NoStartIn(v) && !EndsInDollar(v) }

  predicate Occurs(s: string, old_: string) {
    exists i :: 0 <= i < |s| && OccursAt(s, old_, i)
  }

  /** The finished text shows none of the string's own spans, other than as its own value. */
  predicate Safe(t: Template, printed: Printed) {
    forall i | 0 <= i < |t.chunks| :: Spares(t, printed, t.chunks[i].expr)
  }

  /** Replacing the expression in the finished text would change nothing. */
  predicate Spares(t: Template, printed: Printed, e: string) {
    printed(e) == Span(e) || !Occurs(Substitute(t, printed), Span(e))
  }

  // -------------------------------------------------------------- replace-all

  lemma {:induction false} ReplaceSkips(a: string, b: string, old_: string, new_: string)
    requires old_ != "" && forall k | 0 <= k < |a| :: !OccursAt(a + b, old_, k)
    ensures ReplaceAll(a + b, old_, new_) == a + ReplaceAll(b, old_, new_)
  {
    if a == "" {
      assert a + b == b;
      assert "" + ReplaceAll(b, old_, new_) == ReplaceAll(b, old_, new_);
    } else {
      var s, s' := a + b, a[1..] + b;
      assert s[1..] == s';
      forall k | 0 <= k < |a[1..]| ensures !OccursAt(s', old_, k) {
        assert !OccursAt(s, old_, k + 1);
        assert k + |old_| <= |s'| ==> s'[k..k + |old_|] == s[k + 1..k + 1 + |old_|];
      }
      ReplaceSkips(a[1..], b, old_, new_);
      assert !OccursAt(s, old_, 0);
      assert [a[0]] + (a[1..] + ReplaceAll(b, old_, new_)) == a + ReplaceAll(b, old_, new_);
    }
  }

  lemma ReplaceHits(old_: string, rest: string, new_: string)
    requires old_ != ""
    ensures ReplaceAll(old_ + rest, old_, new_) == new_ + ReplaceAll(rest, old_, new_)
  {
    var s := old_ + rest;
    assert s[0..|old_|] == old_ && s[|old_|..] == rest;
  }

  lemma OccurrenceOpens(s: string, e: string, k: nat)
    requires OccursAt(s, Span(e), k)
    ensures OpensAt(s, k)
  {
    assert s[k] == Span(e)[0] && s[k + 1] == Span(e)[1];
  }

  /** Text without a dollar in front of `b` holds no occurrence. */
  lemma SkipPlain(a: string, b: string, e: string, v: string)
    requires forall k | 0 <= k < |a| :: !OpensAt(a + b, k)
    ensures ReplaceAll(a + b, Span(e), v) == a + ReplaceAll(b, Span(e), v)
  {
    forall k | 0 <= k < |a| ensures !OccursAt(a + b, Span(e), k) {
      if OccursAt(a + b, Span(e), k) {
        OccurrenceOpens(a + b, e, k);
      }
    }
    ReplaceSkips(a, b, Span(e), v);
  }

  lemma LiteralOpensNothing(lit: string, rest: string)
    requires NoStartIn(lit) && !EndsInDollar(lit)
    ensures forall k | 0 <= k < |lit| :: !OpensAt(lit + rest, k)
  {
    forall k | 0 <= k < |lit| ensures !OpensAt(lit + rest, k) {
      assert !OpensAt(lit, k);
    }
  }

  // -------------------------------------------------------------------- spans

  lemma {:induction false} ClosedScanMeetsNoStart(s: string, i: nat, depth: nat, k: nat)
    requires i <= k <= |s| && depth > 0 && ScanFrom(s, i, depth).Closed? && k <= ScanFrom(s, i, depth).at
    ensures !OpensAt(s, k)
    decreases |s| - i
  {
    if i < k {
      ClosedScanMeetsNoStart(s, i + 1,
        if s[i] == '{' then depth + 1 else if s[i] == '}' then depth - 1 else depth, k);
    }
  }

  /** Balanced expressions are told apart by what follows the opening bracket. */
  lemma SameSpan(e: string, f: string, rest: string)
    requires Balanced(e) && Balanced(f) && OccursAt(Span(f) + rest, Span(e), 0)
    ensures e == f
  {
    hide ScanFrom;
    var s := f + EXPR_END + rest;
    assert (Span(f) + rest)[2..] == s;
    assert (Span(f) + rest)[0..|e| + 3] == Span(e);
    assert s[..|e| + 1] == Span(e)[2..] == e + EXPR_END;
    assert s == e + EXPR_END + s[|e| + 1..];
    ScanPrefix(f + EXPR_END, rest, 0, 1);
    ScanPrefix(e + EXPR_END, s[|e| + 1..], 0, 1);
    assert s[..|e|] == e && s[..|f|] == f;
  }

  /** The span of another expression holds no occurrence. */
  lemma SkipOtherSpan(f: string, rest: string, e: string, v: string)
    requires Balanced(e) && Balanced(f) && e != f
    ensures ReplaceAll(Span(f) + rest, Span(e), v) == Span(f) + ReplaceAll(rest, Span(e), v)
  {
    hide ScanFrom;
    var s := Span(f) + rest;
    forall k | 0 <= k < |Span(f)| ensures !OccursAt(s, Span(e), k) {
      if OccursAt(s, Span(e), k) {
        if k == 0 {
          SameSpan(e, f, rest);
        } else {
          OccurrenceOpens(s, e, k);
          InsideSpanOpensNothing(f, rest, k);
        }
      }
    }
    ReplaceSkips(Span(f), rest, Span(e), v);
  }

  lemma InsideSpanOpensNothing(f: string, rest: string, k: nat)
    requires Balanced(f) && 0 < k < |Span(f)|
    ensures !OpensAt(Span(f) + rest, k)
  {
    var s, b := Span(f) + rest, f + EXPR_END;
    assert s[1] == '{' && s[|f| + 2] == '}';
    if 2 <= k < |f| + 2 {
      ClosedScanMeetsNoStart(b, 0, 1, k - 2);
      assert s[k] == b[k - 2] && s[k + 1] == b[k - 1];
    }
  }

  lemma TailShowsNothing(tail: string, e: string, k: nat)
    requires (NoStartIn(tail) || Unclosed(tail)) && Balanced(e) && k < |tail|
    ensures !OccursAt(tail, Span(e), k)
  {
    if OccursAt(tail, Span(e), k) {
      OccurrenceOpens(tail, e, k);
      TailSpanWouldClose(tail, e, k);
    }
  }

  /** A balanced span in the tail would close a start that never closes. */
  lemma TailSpanWouldClose(tail: string, e: string, k: nat)
    requires Unclosed(tail) && Balanced(e) && k < |tail|
    ensures !OccursAt(tail, Span(e), k)
  {
    var i := IndexStart(tail);
    if OccursAt(tail, Span(e), k) {
      OccurrenceOpens(tail, e, k);
      if k >= i + 2 {
        OpenScanMeetsNoStart(tail, i + 2, 1, k);
      } else {
        SpanCloses(tail, e, i);
      }
    }
  }

  lemma SpanCloses(s: string, e: string, i: nat)
    requires Balanced(e) && i + 2 <= |s| && OccursAt(s, Span(e), i)
    ensures ScanFrom(s, i + 2, 1).Closed?
  {
    var r := s[i + 2..];
    assert s[i..i + |e| + 3] == Span(e);
    assert r[..|e| + 1] == Span(e)[2..];
    assert r == e + EXPR_END + r[|e| + 1..];
    ScanPrefix(e + EXPR_END, r[|e| + 1..], 0, 1);
    ScanShift(s, i + 2, i + 2, 1);
  }

  // ------------------------------------------------------------- main results

  /** Before a span of the template there is no occurrence but in the text on its left. */
  lemma BeforeSpan(a: string, f: string, rest: string, e: string, k: nat)
    requires Balanced(e) && k < |a| && OccursAt(a + (Span(f) + rest), Span(e), k)
    ensures OccursAt(a, Span(e), k)
  {
    hide Balanced, OccursAt;
    var s := a + (Span(f) + rest);
    SuffixOccurs(s, e, k);
    assert a[k..] + (Span(f) + rest) == s[k..];
    NoOverlapWith(a[k..], f, e, rest);
    Within(a, Span(f) + rest, Span(e), k);
  }

  lemma SuffixOccurs(s: string, e: string, k: nat)
    requires k <= |s| && OccursAt(s, Span(e), k)
    ensures OccursAt(s[k..], Span(e), 0)
  {
  }

  lemma Within(a: string, b: string, old_: string, k: nat)
    requires k <= |a| && OccursAt(a + b, old_, k) && k + |old_| <= |a|
    ensures OccursAt(a, old_, k)
  {
  }

  /** An occurrence in the text on the left is one in the whole text. */
  lemma OccursMore(a: string, b: string, old_: string, k: nat)
    requires k < |a| && OccursAt(a, old_, k)
    ensures Occurs(a + b, old_)
  {
    assert (a + b)[k..k + |old_|] == a[k..k + |old_|];
    assert OccursAt(a + b, old_, k);
  }

  lemma OccursLater(a: string, b: string, old_: string)
    requires Occurs(b, old_)
    ensures Occurs(a + b, old_)
  {
    var k :| 0 <= k < |b| && OccursAt(b, old_, k);
    assert (a + b)[|a| + k..|a| + k + |old_|] == b[k..k + |old_|];
    assert OccursAt(a + b, old_, |a| + k);
  }

  /** What the finished text does not show, no text on the way to it shows between its spans. */
  lemma {:induction false} RunShowsNothing(a: string, t: Template, done: set<string>, all: set<string>, e: string,
                                           printed: Printed)
    requires Balanced(e) && (forall i | 0 <= i < |t.chunks| :: t.chunks[i].expr in all)
    requires !Occurs(a + Fill(t, all, printed), Span(e))
    ensures forall k | 0 <= k < |a| :: !OccursAt(a + Fill(t, done, printed), Span(e), k)
    decreases |t.chunks|
  {
    hide Balanced, OccursAt, Occurs, Span;
    if t.chunks == [] {
      forall k | 0 <= k < |a| ensures !OccursAt(a + t.tail, Span(e), k) {
        NotThere(a + t.tail, Span(e), k);
      }
    } else {
      var c, rest := t.chunks[0], Template(t.chunks[1..], t.tail);
      var more := a + c.lit + printed(c.expr);
      assert a + Fill(t, all, printed) == more + Fill(rest, all, printed);
      if c.expr in done {
        RunShowsNothing(more, rest, done, all, e, printed);
        assert a + Fill(t, done, printed) == more + Fill(rest, done, printed);
      } else {
        var left, after := a + c.lit, Fill(rest, done, printed);
        assert a + Fill(t, done, printed) == left + (Span(c.expr) + after);
        assert left + (printed(c.expr) + Fill(rest, all, printed)) == a + Fill(t, all, printed);
        forall k | 0 <= k < |a| ensures !OccursAt(left + (Span(c.expr) + after), Span(e), k) {
          if OccursAt(left + (Span(c.expr) + after), Span(e), k) {
            BeforeSpan(left, c.expr, after, e, k);
            OccursMore(left, printed(c.expr) + Fill(rest, all, printed), Span(e), k);
          }
        }
      }
    }
  }

  lemma NotThere(s: string, old_: string, k: nat)
    requires !Occurs(s, old_) && k < |s|
    ensures !OccursAt(s, old_, k)
  {
  }

  /** One replace-all call replaces exactly the spans of its expression. */
  lemma {:induction false} ReplaceOne(t: Template, done: set<string>, all: set<string>, e: string, printed: Printed)
    requires WellFormed(t) && Balanced(e) && (forall i | 0 <= i < |t.chunks| :: t.chunks[i].expr in all)
    requires !Occurs(Fill(t, all, printed), Span(e))
    ensures ReplaceAll(Fill(t, done, printed), Span(e), printed(e)) == Fill(t, done + {e}, printed)
    decreases |t.chunks|
  {
    hide OpensAt, NoStartIn, Balanced, Span, Unclosed, Occurs, OccursAt, ReplaceAll;
    if t.chunks == [] {
      ReplaceNothing(t.tail, e, printed(e));
    } else {
      var c, rest := t.chunks[0], Template(t.chunks[1..], t.tail);
      var after, v := Fill(rest, done, printed), printed(e);
      var left := c.lit + printed(c.expr);
      assert Fill(t, all, printed) == left + Fill(rest, all, printed);
      if Occurs(Fill(rest, all, printed), Span(e)) {
        OccursLater(left, Fill(rest, all, printed), Span(e));
      }
      ReplaceOne(rest, done, all, e, printed);
      if c.expr in done {
        RunShowsNothing(left, rest, done, all, e, printed);
        ReplaceSkips(left, after, Span(e), v) by { SpanIsSomething(e); }
        assert Fill(t, done, printed) == left + after;
      } else {
        var s := Span(c.expr) + after;
        assert c.lit + (printed(c.expr) + Fill(rest, all, printed)) == Fill(t, all, printed);
        forall k | 0 <= k < |c.lit| ensures !OccursAt(c.lit + s, Span(e), k) {
          if OccursAt(c.lit + s, Span(e), k) {
            BeforeSpan(c.lit, c.expr, after, e, k);
            OccursMore(c.lit, printed(c.expr) + Fill(rest, all, printed), Span(e), k);
          }
        }
        ReplaceSkips(c.lit, s, Span(e), v) by { SpanIsSomething(e); }
        if c.expr == e {
          ReplaceHits(Span(e), after, v) by { SpanIsSomething(e); }
        } else {
          SkipOtherSpan(c.expr, after, e, v);
        }
      }
    }
  }

  lemma SpanIsSomething(e: string)
    ensures Span(e) != ""
  {
  }

  lemma ReplaceNothing(s: string, e: string, v: string)
    requires !Occurs(s, Span(e))
    ensures ReplaceAll(s, Span(e), v) == s
  {
    assert s + "" == s;
    ReplaceSkips(s, "", Span(e), v);
  }

  /** Replacing a text by itself. */
  lemma {:induction false} ReplaceByItself(s: string, e: string)
    ensures ReplaceAll(s, Span(e), Span(e)) == s
    decreases |s|
  {
    if s != "" {
      if OccursAt(s, Span(e), 0) {
        ReplaceByItself(s[|Span(e)|..], e);
      } else {
        ReplaceByItself(s[1..], e);
      }
    }
  }

  lemma {:induction false} FillByItself(t: Template, done: set<string>, e: string, printed: Printed)
    requires printed(e) == Span(e)
    ensures Fill(t, done + {e}, printed) == Fill(t, done, printed)
    decreases |t.chunks|
  {
    if t.chunks != [] {
      FillByItself(Template(t.chunks[1..], t.tail), done, e, printed);
    }
  }

  lemma {:induction false} ReplaceInOrderFills(t: Template, done: set<string>, order: seq<string>, printed: Printed)
    requires WellFormed(t) && Safe(t, printed) && Elements(order) <= Elements(ExprsOf(t.chunks))
    ensures ReplaceInOrder(Fill(t, done, printed), order, printed) == Fill(t, done + Elements(order), printed)
    decreases |order|
  {
    hide Safe, ReplaceAll, Fill;
    if order != [] {
      assert order[0] in Elements(order);
    }
    if order == [] {
      assert done + Elements(order) == done;
    } else {
      ReplaceOwn(t, done, order[0], printed);
      assert order == [order[0]] + order[1..];
      assert Elements(order) == {order[0]} + Elements(order[1..]);
      ReplaceInOrderFills(t, done + {order[0]}, order[1..], printed);
      assert done + {order[0]} + Elements(order[1..]) == done + Elements(order);
    }
  }

  lemma ReplaceOwn(t: Template, done: set<string>, e: string, printed: Printed)
    requires WellFormed(t) && Safe(t, printed) && e in ExprsOf(t.chunks)
    ensures ReplaceAll(Fill(t, done, printed), Span(e), printed(e)) == Fill(t, done + {e}, printed)
  {
    hide Occurs, ReplaceAll, Fill, Balanced, Span;
    var all := Elements(ExprsOf(t.chunks));
    forall i | 0 <= i < |t.chunks| ensures t.chunks[i].expr in all {
      assert ExprsOf(t.chunks)[i] in ExprsOf(t.chunks);
    }
    assert Spares(t, printed, e);
    if printed(e) == Span(e) {
      ReplaceByItself(Fill(t, done, printed), e);
      FillByItself(t, done, e, printed);
    } else {
      ReplaceOne(t, done, all, e, printed);
    }
  }

  lemma {:induction false} FillNothing(t: Template, printed: Printed)
    ensures Fill(t, {}, printed) == Render(t)
    decreases |t.chunks|
  {
    if t.chunks != [] {
      var c, rest := t.chunks[0], Template(t.chunks[1..], t.tail);
      FillNothing(rest, printed);
      assert c.lit + (Span(c.expr) + Render(rest)) == c.lit + Span(c.expr) + Render(rest);
    }
  }

  /** Only the template's own expressions matter. */
  lemma {:induction false} FillRelevant(t: Template, a: set<string>, b: set<string>, printed: Printed)
    requires forall i | 0 <= i < |t.chunks| :: t.chunks[i].expr in a <==> t.chunks[i].expr in b
    ensures Fill(t, a, printed) == Fill(t, b, printed)
    decreases |t.chunks|
  {
    if t.chunks != [] {
      var rest := Template(t.chunks[1..], t.tail);
      forall i | 0 <= i < |rest.chunks| ensures rest.chunks[i].expr in a <==> rest.chunks[i].expr in b {
        assert rest.chunks[i] == t.chunks[i + 1];
      }
      FillRelevant(rest, a, b, printed);
    }
  }

  /** Replacing all occurrences of one span after another, in any order that mentions
      every expression and nothing else, is simultaneous substitution; doing it again
      changes nothing. */
  lemma SequentialIsSimultaneous(t: Template, order: seq<string>, printed: Printed)
    requires WellFormed(t) && Safe(t, printed) && Elements(order) == Elements(ExprsOf(t.chunks))
    ensures ReplaceInOrder(Render(t), order, printed) == Substitute(t, printed)
    ensures ReplaceInOrder(Substitute(t, printed), order, printed) == Substitute(t, printed)
  {
    hide Safe;
    var all := Elements(ExprsOf(t.chunks));
    FillNothing(t, printed);
    ReplaceInOrderFills(t, {}, order, printed);
    ReplaceInOrderFills(t, all, order, printed);
    assert {} + Elements(order) == all && all + Elements(order) == all;
  }

  /** In whatever order the expressions of the string are replaced, and however often, the result is
      simultaneous substitution. */
  ghost predicate AnyOrderFills(t: Template, printed: Printed) {
    forall order | Elements(order) == Elements(ExprsOf(t.chunks)) ::
      ReplaceInOrder(Render(t), order, printed) == Substitute(t, printed)
  }

  /** The exact condition, for every string and all its values. */
  lemma SafeIff(t: Template, printed: Printed)
    requires WellFormed(t)
    ensures AnyOrderFills(t, printed) <==> Safe(t, printed)
  {
    hide WellFormed, ReplaceInOrder, Substitute, Render, Occurs, ReplaceAll;
    if Safe(t, printed) {
      forall order | Elements(order) == Elements(ExprsOf(t.chunks))
        ensures ReplaceInOrder(Render(t), order, printed) == Substitute(t, printed)
      {
        SequentialIsSimultaneous(t, order, printed);
      }
    } else if AnyOrderFills(t, printed) {
      var i :| 0 <= i < |t.chunks| && !Spares(t, printed, t.chunks[i].expr);
      var order, e := ExprsOf(t.chunks), t.chunks[i].expr;
      assert order[i] == e;
      assert Elements(order + [e]) == Elements(order);
      ReplaceLast(Render(t), order, e, printed);
      ReplaceChanges(Substitute(t, printed), Span(e), printed(e)) by { SpanIsSomething(e); }
    }
  }

  lemma {:induction false} ReplaceLast(s: string, order: seq<string>, e: string, printed: Printed)
    ensures ReplaceInOrder(s, order + [e], printed) ==
      ReplaceAll(ReplaceInOrder(s, order, printed), Span(e), printed(e))
    decreases |order|
  {
    hide ReplaceAll, Span;
    if order == [] {
      assert order + [e] == [e] && [e][1..] == [];
    } else {
      assert (order + [e])[1..] == order[1..] + [e];
      ReplaceLast(ReplaceAll(s, Span(order[0]), printed(order[0])), order[1..], e, printed);
    }
  }

  /** Replacing what occurs by something else changes the text. */
  lemma {:induction false} ReplaceChanges(s: string, old_: string, new_: string)
    requires old_ != "" && old_ != new_ && Occurs(s, old_)
    ensures ReplaceAll(s, old_, new_) != s
    decreases |s|
  {
    if OccursAt(s, old_, 0) {
      var rest := ReplaceAll(s[|old_|..], old_, new_);
      SameOrOtherLength(s[|old_|..], old_, new_);
      assert s[..|old_|] == old_ && (new_ + rest)[..|new_|] == new_;
    } else {
      var k :| 0 <= k < |s| && OccursAt(s, old_, k);
      assert OccursAt(s[1..], old_, k - 1);
      ReplaceChanges(s[1..], old_, new_);
      assert s == [s[0]] + s[1..];
      assert ReplaceAll(s, old_, new_)[1..] == ReplaceAll(s[1..], old_, new_);
    }
  }

  /** A longer replacement never makes a text shorter, a shorter one never longer. */
  lemma {:induction false} SameOrOtherLength(s: string, old_: string, new_: string)
    requires old_ != ""
    ensures |new_| >= |old_| ==> |ReplaceAll(s, old_, new_)| >= |s|
    ensures |new_| <= |old_| ==> |ReplaceAll(s, old_, new_)| <= |s|
    decreases |s|
  {
    if s != "" {
      if OccursAt(s, old_, 0) {
        SameOrOtherLength(s[|old_|..], old_, new_);
      } else {
        SameOrOtherLength(s[1..], old_, new_);
      }
    }
  }

  // ------------------------------------------- texts that open nothing are safe

  /** Every literal with the value after it opens nothing. */
  predicate Quiet(t: Template, printed: Printed) {
    forall i | 0 <= i < |t.chunks| :: OpensNothing(t.chunks[i].lit + printed(t.chunks[i].expr))
  }

  lemma {:induction false} QuietShowsNothing(t: Template, all: set<string>, e: string, printed: Printed)
    requires WellFormed(t) && Quiet(t, printed) && Balanced(e) && forall i | 0 <= i < |t.chunks| ::
      t.chunks[i].expr in all
    ensures !Occurs(Fill(t, all, printed), Span(e))
    decreases |t.chunks|
  {
    hide OpensAt, NoStartIn, Balanced, Span, Unclosed;
    var full := Fill(t, all, printed);
    forall k | 0 <= k < |full| ensures !OccursAt(full, Span(e), k) {
      if t.chunks == [] {
        TailShowsNothing(t.tail, e, k);
      } else {
        var c, rest := t.chunks[0], Template(t.chunks[1..], t.tail);
        QuietShowsNothing(rest, all, e, printed);
        var left, after := c.lit + printed(c.expr), Fill(rest, all, printed);
        assert full == left + after;
        LiteralOpensNothing(left, after);
        if OccursAt(full, Span(e), k) {
          OccurrenceOpens(full, e, k);
          OccursInRest(left, after, Span(e), k);
        }
      }
    }
  }

  lemma OccursInRest(a: string, b: string, old_: string, k: nat)
    requires |a| <= k < |a + b| && OccursAt(a + b, old_, k)
    ensures Occurs(b, old_)
  {
    assert (a + b)[k..k + |old_|] == b[k - |a|..k - |a| + |old_|];
    assert OccursAt(b, old_, k - |a|);
  }

  lemma QuietIsSafe(t: Template, printed: Printed)
    requires WellFormed(t) && Quiet(t, printed)
    ensures Safe(t, printed)
  {
    hide Quiet, Occurs, Fill, Balanced;
    var all := Elements(ExprsOf(t.chunks));
    forall i | 0 <= i < |t.chunks| ensures t.chunks[i].expr in all {
      assert ExprsOf(t.chunks)[i] in ExprsOf(t.chunks);
    }
    forall i | 0 <= i < |t.chunks| ensures Spares(t, printed, t.chunks[i].expr) {
      QuietShowsNothing(t, all, t.chunks[i].expr, printed);
    }
  }

  // ------------------------------------- what goes wrong without the conditions

  /** Removing spans never makes a text longer. */
  lemma {:induction false} RemovingShrinks(s: string, e: string)
    ensures |ReplaceAll(s, Span(e), "")| <= |s|
    decreases |s|
  {
    if s != "" {
      if OccursAt(s, Span(e), 0) {
        RemovingShrinks(s[|Span(e)|..], e);
      } else {
        RemovingShrinks(s[1..], e);
      }
    }
  }

  /** A span in the middle of a text is removed, whatever is before it. */
  lemma {:induction false} SpanIsRemoved(p: string, e: string, rest: string)
    requires Balanced(e)
    ensures |ReplaceAll(p + (Span(e) + rest), Span(e), "")| <= |p| + |ReplaceAll(rest, Span(e), "")|
    decreases |p|
  {
    hide Balanced, Span;
    var s := p + (Span(e) + rest);
    if p == "" {
      assert s == Span(e) + rest;
      ReplaceHits(Span(e), rest, "");
    } else if OccursAt(s, Span(e), 0) {
      NoOverlapWith(p, e, e, rest);
      assert s[|Span(e)|..] == p[|Span(e)|..] + (Span(e) + rest);
      SpanIsRemoved(p[|Span(e)|..], e, rest);
      assert ReplaceAll(s, Span(e), "") == "" + ReplaceAll(s[|Span(e)|..], Span(e), "");
    } else {
      assert s[1..] == p[1..] + (Span(e) + rest);
      SpanIsRemoved(p[1..], e, rest);
    }
  }

  /** An occurrence of a balanced span ends before the next span. */
  lemma NoOverlapWith(p: string, f: string, e: string, rest: string)
    requires Balanced(e) && p != "" && OccursAt(p + (Span(f) + rest), Span(e), 0)
    ensures |Span(e)| <= |p|
  {
    hide Balanced;
    var s, n := p + (Span(f) + rest), |Span(e)|;
    assert s[|p|..] == Span(f) + rest;
    assert s[|p|] == Span(f)[0] && s[|p| + 1] == Span(f)[1];
    assert OpensAt(s, |p|);
    if |p| < n {
      assert s == Span(e) + s[n..];
      InsideSpanOpensNothing(e, s[n..], |p|);
    }
  }

  /** Two spans of the same expression, one of them made up by a value: both are removed. */
  lemma BothAreRemoved(p: string, e: string, middle: string)
    requires Balanced(e) && OpensNothing(middle)
    ensures |ReplaceAll(p + (Span(e) + (middle + Span(e))), Span(e), "")| <= |p| + |middle|
  {
    hide ReplaceAll, Balanced, OpensAt;
    SpanIsRemoved(p, e, middle + Span(e));
    LiteralOpensNothing(middle, Span(e));
    SkipPlain(middle, Span(e), e, "");
    ReplaceWhole(e, "");
  }

  /** A name different from the given one, for another expression. */
  function Other(e: string): (r: string)
    ensures r != e
  {
    if e == "a" then "b" else "a"
  }

  lemma OtherIsBalanced(e: string)
    ensures Balanced(Other(e))
  {
    assert "a" + EXPR_END == "a}" && "b" + EXPR_END == "b}";
    assert ScanFrom("a}", 0, 1) == Closed(1) && ScanFrom("b}", 0, 1) == Closed(1);
  }

  /** The two values of the counterexamples below. */
  function TwoValues(a: string, v: string): Printed { (e: string) => if e == a then v else "" }

  /** Two spans with a literal before each. */
  function TwoSpans(first: string, a: string, lit: string, e: string): Template {
    Template([Chunk(first, a), Chunk(lit, e)], "")
  }

  lemma TwoSpansShape(first: string, a: string, lit: string, e: string, printed: Printed)
    ensures Render(TwoSpans(first, a, lit, e)) == first + (Span(a) + (lit + Span(e)))
    ensures ExprsOf(TwoSpans(first, a, lit, e).chunks) == [a, e]
    ensures Substitute(TwoSpans(first, a, lit, e), printed) == first + (printed(a) + (lit + printed(e)))
  {
    var t := TwoSpans(first, a, lit, e);
    var t1 := Template([Chunk(lit, e)], "");
    assert t.chunks[1..] == t1.chunks && t1.chunks[1..] == [];
    assert Render(Template([], "")) == "";
    assert Render(t1) == lit + Span(e);
    assert first + Span(a) + Render(t1) == first + (Span(a) + (lit + Span(e)));
    var all := Elements(ExprsOf(t.chunks));
    assert ExprsOf(t.chunks) == [a, e];
    assert a in all && e in all;
    assert Fill(Template([], ""), all, printed) == "";
    assert Fill(t1, all, printed) == lit + (printed(e) + "");
  }

  /** A literal before a span opens nothing together with it. */
  lemma LiteralBeforeSpan(lit: string, f: string, rest: string, e: string, v: string)
    requires NoStartIn(lit)
    ensures ReplaceAll(lit + (Span(f) + rest), Span(e), v) == lit + ReplaceAll(Span(f) + rest, Span(e), v)
  {
    var s := lit + (Span(f) + rest);
    assert s[|lit|] == '$';
    forall k | 0 <= k < |lit| ensures !OpensAt(s, k) {
      assert !OpensAt(lit, k);
    }
    SkipPlain(lit, Span(f) + rest, e, v);
  }

  /** The first literal with its value and the literal after it end in a span of the second expression. */
  lemma MadeUpSpan(first: string, a: string, v: string, lit: string, e: string, p: string, middle: string)
    requires NoStartIn(first) && Balanced(a) && Balanced(e) && a != e && OpensNothing(lit) && OpensNothing(middle)
    requires first + v + lit == p + (Span(e) + middle)
    ensures Harmed(first, v, TwoSpans(first, a, lit, e), a)
  {
    hide ReplaceAll, Balanced, OpensAt, NoStartIn, TwoSpans, Substitute, Render, Span;
    var t, printed := TwoSpans(first, a, lit, e), TwoValues(a, v);
    TwoSpansShape(first, a, lit, e, printed);
    var once := first + v + (lit + Span(e));
    FirstStep(first, a, v, lit, e);
    assert [a, e][1..] == [e] && [e][1..] == [];
    Regroup(first + v, lit, p, Span(e), middle);
    BothAreRemoved(p, e, middle);
    assert ReplaceInOrder(once, [e], printed) == ReplaceAll(once, Span(e), "");
    assert ReplaceInOrder(Render(t), [a, e], printed) == ReplaceAll(once, Span(e), "");
    assert |Substitute(t, printed)| == |first + v + lit|;
    assert |first + v + lit| == |p| + |Span(e)| + |middle|;
    SpanIsSomething(e);
    TwoSpansWellFormed(first, a, lit, e);
  }

  lemma TwoSpansWellFormed(first: string, a: string, lit: string, e: string)
    requires NoStartIn(first) && Balanced(a) && Balanced(e) && OpensNothing(lit)
    ensures WellFormed(TwoSpans(first, a, lit, e))
    ensures TwoSpans(first, a, lit, e).chunks[0] == Chunk(first, a)
    ensures TwoSpans(first, a, lit, e).chunks[1] == Chunk(lit, e)
    ensures |TwoSpans(first, a, lit, e).chunks| == 2
  {
    hide Balanced;
    EmptyOpensNothing();
  }

  lemma FirstStep(first: string, a: string, v: string, lit: string, e: string)
    requires NoStartIn(first) && Balanced(a) && Balanced(e) && a != e && OpensNothing(lit)
    ensures ReplaceAll(first + (Span(a) + (lit + Span(e))), Span(a), v) == first + v + (lit + Span(e))
  {
    hide ReplaceAll, Balanced, OpensAt, NoStartIn, Span;
    var s := lit + Span(e);
    LiteralBeforeSpan(first, a, s, a, v);
    ReplaceHits(Span(a), s, v) by { SpanIsSomething(a); }
    LiteralOpensNothing(lit, Span(e));
    SkipPlain(lit, Span(e), a, v);
    EmptyIsSkipped(e, a, v);
    assert first + (v + s) == first + v + s;
  }

  lemma Regroup(v: string, lit: string, p: string, span: string, middle: string)
    requires v + lit == p + (span + middle)
    ensures v + (lit + span) == p + (span + (middle + span))
  {
    assert v + (lit + span) == v + lit + span;
    assert p + (span + (middle + span)) == p + (span + middle) + span;
  }

  lemma EmptyOpensNothing()
    ensures OpensNothing("") && NoStartIn("")
  {
  }

  lemma EmptyIsSkipped(f: string, e: string, v: string)
    requires Balanced(e) && Balanced(f) && e != f
    ensures ReplaceAll(Span(f), Span(e), v) == Span(f)
  {
    assert Span(f) + "" == Span(f);
    SkipOtherSpan(f, "", e, v);
    assert ReplaceAll("", Span(e), v) == "";
  }

  // ---------------------------------------------------------- the exact condition

  function Closers(k: nat): string { if k == 0 then "" else "}" + Closers(k - 1) }

  lemma {:induction false} ClosersOpenNothing(k: nat)
    ensures OpensNothing(Closers(k)) && |Closers(k)| == k && forall i | 0 <= i < k :: Closers(k)[i] == '}'
  {
    if k > 0 {
      ClosersOpenNothing(k - 1);
      IndexStartIs(Closers(k), k);
    }
  }

  /** Text without a start that is not closed yet is closed by enough brackets. */
  lemma {:induction false} CloseUp(q: string, i: nat, depth: nat) returns (k: nat)
    requires i <= |q| && depth > 0 && ScanFrom(q, i, depth) == Open && (forall j | i <= j <= |q| :: !OpensAt(q, j))
    ensures k > 0 && ScanFrom(q + Closers(k), i, depth) == Closed(|q| + k - 1)
    decreases |q| - i
  {
    if i == |q| {
      k := depth;
      CloseNow(q, depth);
    } else {
      var next := if q[i] == '{' then depth + 1 else if q[i] == '}' then depth - 1 else depth;
      k := CloseUp(q, i + 1, next);
      ClosersOpenNothing(k);
      var s := q + Closers(k);
      assert s[i] == q[i];
      assert !OpensAt(q, i);
      ClosersOpenNoneBefore(q, k, i);
    }
  }

  lemma ClosersOpenNoneBefore(q: string, k: nat, i: nat)
    requires i < |q| && !OpensAt(q, i) && k > 0
    ensures !OpensAt(q + Closers(k), i)
  {
    assert (q + Closers(k))[i] == q[i] && (q + Closers(k))[|q|] == '}';
    assert i + 1 < |q| ==> (q + Closers(k))[i + 1] == q[i + 1];
  }

  lemma {:induction false} CloseNow(q: string, depth: nat)
    requires depth > 0
    ensures ScanFrom(q + Closers(depth), |q|, depth) == Closed(|q| + depth - 1)
    decreases depth
  {
    var s := q + Closers(depth);
    assert s[|q|] == '}';
    if depth > 1 {
      assert s == (q + "}") + Closers(depth - 1);
      CloseNow(q + "}", depth - 1);
    }
  }

  /** The last start of a text. */
  lemma {:induction false} LastStart(v: string, from: nat) returns (i: nat)
    requires from < |v| && OpensAt(v, from)
    ensures i < |v| && OpensAt(v, i) && forall j | i < j <= |v| :: !OpensAt(v, j)
    decreases |v| - from
  {
    if j :| from < j < |v| && OpensAt(v, j) {
      i := LastStart(v, j);
    } else {
      i := from;
    }
  }

  /** In every template, with everything else opening nothing, the value `v` after the literal `lit`
      is put in place of its spans and nothing else happens. */
  ghost predicate Harmless(lit: string, v: string) {
    forall t: Template, printed: Printed, e: string :: Otherwise(t, printed, e, lit, v) ==> Exact(t, printed)
  }

  /** Everything but the value `v` of `e` after `lit` is as it should be. */
  ghost predicate Otherwise(t: Template, printed: Printed, e: string, lit: string, v: string) {
    && WellFormed(t) && printed(e) == v
    && forall i | 0 <= i < |t.chunks| ::
         t.chunks[i] == Chunk(lit, e) || OpensNothing(t.chunks[i].lit + printed(t.chunks[i].expr))
  }

  /** Replacing one expression after another, as extracted, is simultaneous substitution. */
  ghost predicate Exact(t: Template, printed: Printed) {
    ReplaceInOrder(Render(t), ExprsOf(t.chunks), printed) == Substitute(t, printed)
  }

  /** A template that shows a literal with a value to be harmful. */
  ghost predicate Harmed(lit: string, v: string, t: Template, a: string) {
    && WellFormed(t) && |t.chunks| == 2 && t.chunks[0] == Chunk(lit, a)
    && t.chunks[1].expr != a && OpensNothing(t.chunks[1].lit)
    && !Exact(t, TwoValues(a, v))
  }

  lemma HarmedIsNotHarmless(lit: string, v: string, t: Template, a: string)
    requires Harmed(lit, v, t, a)
    ensures !Harmless(lit, v)
  {
    hide WellFormed, Exact, OpensNothing;
    var printed := TwoValues(a, v);
    assert printed(a) == v && printed(t.chunks[1].expr) == "";
    assert t.chunks[1].lit + "" == t.chunks[1].lit;
    assert Otherwise(t, printed, a, lit, v);
  }

  /** A text that ends in a dollar opens a span together with a bracket after it. */
  lemma DollarAtEndHarms(first: string, v: string)
    requires NoStartIn(first) && EndsInDollar(first + v)
    ensures !Harmless(first, v)
  {
    var w := first + v;
    var p, e, lit := w[..|w| - 1], "b", "{b}";
    assert w == p + "$" && Span(e) == "${b}";
    assert w + lit == p + (Span(e) + "");
    assert Balanced("a") && Balanced("b") by { OtherIsBalanced("b"); OtherIsBalanced("a"); }
    IndexStartIs(lit, 3);
    EmptyOpensNothing();
    MadeUpSpan(first, "a", v, lit, e, p, "");
    HarmedIsNotHarmless(first, v, TwoSpans(first, "a", lit, e), "a");
  }

  /** A text with a start makes up a span, on its own or with the brackets that it lacks. */
  lemma StartHarms(first: string, v: string)
    requires NoStartIn(first) && !NoStartIn(first + v) && !EndsInDollar(first + v)
    ensures !Harmless(first, v)
  {
    hide IndexStart;
    var w := first + v;
    var i := LastStart(w, IndexStart(w));
    var p, q := w[..i], w[i + 2..];
    forall j | 0 <= j <= |q| ensures !OpensAt(q, j) {
      assert !OpensAt(w, i + 2 + j);
    }
    assert w == p + (EXPR_START + q);
    match ScanFrom(q, 0, 1)
    case Closed(j) => ClosedStartHarms(first, v, p, q, j);
    case Open => OpenStartHarms(first, v, p, q);
    case Nested => NotNested(q, 0, 1);
  }

  lemma {:induction false} NotNested(q: string, i: nat, depth: nat)
    requires i <= |q| && depth > 0 && forall j | i <= j <= |q| :: !OpensAt(q, j)
    ensures ScanFrom(q, i, depth) != Nested
    decreases |q| - i
  {
    if i < |q| {
      var next := if q[i] == '{' then depth + 1 else if q[i] == '}' then depth - 1 else depth;
      if next > 0 {
        NotNested(q, i + 1, next);
      }
      assert !OpensAt(q, i);
    }
  }

  lemma ClosedStartHarms(first: string, v: string, p: string, q: string, j: nat)
    requires NoStartIn(first) && first + v == p + (EXPR_START + q) && ScanFrom(q, 0, 1) == Closed(j)
    requires !EndsInDollar(first + v)
    requires forall k | 0 <= k <= |q| :: !OpensAt(q, k)
    ensures !Harmless(first, v)
  {
    hide Balanced, ReplaceAll, Harmless, Harmed, OpensAt, IndexStart, TwoSpans, Other;
    var w, e, rest := first + v, q[..j], q[j + 1..];
    ScanClosesAtBracket(q, 0, 1);
    ClosedSpanIsBalanced(q, 0, j);
    assert q[0..j] == e;
    ClosedParts(w, p, q, j);
    RestOpensNothing(w, q, rest, j + 1);
    EmptyOpensNothing();
    OtherIsBalanced(e);
    MadeUpSpan(first, Other(e), v, "", e, p, rest);
    HarmedIsNotHarmless(first, v, TwoSpans(first, Other(e), "", e), Other(e));
  }

  lemma ClosedParts(v: string, p: string, q: string, j: nat)
    requires v == p + (EXPR_START + q) && j < |q| && q[j] == '}'
    ensures v + "" == p + (Span(q[..j]) + q[j + 1..]) && q == v[|v| - |q|..]
  {
    assert q == q[..j] + EXPR_END + q[j + 1..];
    assert EXPR_START + q == Span(q[..j]) + q[j + 1..];
    assert v + "" == v;
  }

  lemma RestOpensNothing(v: string, q: string, rest: string, j: nat)
    requires j <= |q| && rest == q[j..] && |q| <= |v| && q == v[|v| - |q|..] && !EndsInDollar(v)
    requires forall k | 0 <= k <= |q| :: !OpensAt(q, k)
    ensures OpensNothing(rest)
  {
    forall k | 0 <= k < |rest| ensures !OpensAt(rest, k) {
      assert !OpensAt(q, j + k);
    }
    IndexStartIs(rest, |rest|);
  }

  lemma {:induction false} ScanClosesAtBracket(s: string, i: nat, depth: nat)
    requires i <= |s| && depth > 0 && ScanFrom(s, i, depth).Closed?
    ensures ScanFrom(s, i, depth).at < |s| && s[ScanFrom(s, i, depth).at] == '}'
    decreases |s| - i
  {
    if i < |s| {
      var next := if s[i] == '{' then depth + 1 else if s[i] == '}' then depth - 1 else depth;
      if next > 0 {
        ScanClosesAtBracket(s, i + 1, next);
      }
    }
  }

  lemma OpenStartHarms(first: string, v: string, p: string, q: string)
    requires NoStartIn(first) && first + v == p + (EXPR_START + q) && ScanFrom(q, 0, 1) == Open
    requires forall k | 0 <= k <= |q| :: !OpensAt(q, k)
    ensures !Harmless(first, v)
  {
    hide Balanced, ReplaceAll, Harmless, Harmed, OpensAt, IndexStart, OpensNothing, TwoSpans, Other;
    var k := CloseUp(q, 0, 1);
    var e := q + Closers(k - 1);
    ClosersOpenNothing(k);
    OpenParts(first + v, p, q, k);
    EmptyOpensNothing();
    OtherIsBalanced(e);
    MadeUpSpan(first, Other(e), v, Closers(k), e, p, "");
    HarmedIsNotHarmless(first, v, TwoSpans(first, Other(e), Closers(k), e), Other(e));
  }

  lemma OpenParts(v: string, p: string, q: string, k: nat)
    requires v == p + (EXPR_START + q) && k > 0 && ScanFrom(q + Closers(k), 0, 1) == Closed(|q| + k - 1)
    ensures Balanced(q + Closers(k - 1))
    ensures v + Closers(k) == p + (Span(q + Closers(k - 1)) + "")
  {
    hide ScanFrom;
    var e := q + Closers(k - 1);
    ClosersOpenNothing(k - 1);
    ClosersSnoc(k);
    assert e + EXPR_END == q + Closers(k);
    assert Span(e) + "" == EXPR_START + q + Closers(k);
    assert v + Closers(k) == p + (EXPR_START + q + Closers(k));
  }

  lemma {:induction false} ClosersSnoc(k: nat)
    requires k > 0
    ensures Closers(k) == Closers(k - 1) + EXPR_END
  {
    if k > 1 {
      ClosersSnoc(k - 1);
    }
  }

  /** The exact condition on a literal and the value after it: they are harmless in every template
      exactly if together they hold no start and do not end in a dollar. */
  lemma HarmlessIff(lit: string, v: string)
    requires NoStartIn(lit)
    ensures Harmless(lit, v) <==> OpensNothing(lit + v)
  {
    hide WellFormed, ReplaceInOrder, Substitute, Render, NoStartIn, EndsInDollar, Safe;
    if OpensNothing(lit + v) {
      forall t: Template, printed: Printed, e: string | Otherwise(t, printed, e, lit, v) ensures Exact(t, printed) {
        assert Quiet(t, printed);
        QuietIsSafe(t, printed);
        SequentialIsSimultaneous(t, ExprsOf(t.chunks), printed);
      }
    } else if EndsInDollar(lit + v) {
      DollarAtEndHarms(lit, v);
    } else {
      StartHarms(lit, v);
    }
  }

  /** A value that is itself a span, in a mixed string: the span it brings along is replaced, too. */
  lemma DollarInValueMatters(printed: Printed)
    requires printed("a") == "${b}" && printed("b") == "1"
    ensures Extract("${a}-${b}") == Expressions(["a", "b"]) && !Standalone("${a}-${b}")
    ensures ReplaceInOrder("${a}-${b}", ["a", "b"], printed) == "1-1"
    ensures Decompose("${a}-${b}") == Some(TwoSpans("", "a", "-", "b"))
    ensures Substitute(TwoSpans("", "a", "-", "b"), printed) == "${b}-1"
  {
    hide Extract, Decompose, ReplaceAll, OpensAt;
    var t := TwoSpans("", "a", "-", "b");
    assert Span("a") == "${a}" && Span("b") == "${b}";
    TwoSpansShape("", "a", "-", "b", printed);
    assert Render(t) == "${a}-${b}";
    assert WellFormed(t) by { PlainNamesAreBalanced(); }
    DecomposeRender(t);
    ExtractRender(t);
    ReplaceHits(Span("a"), "-" + Span("b"), "${b}");
    DashOpensNothing();
    SkipPlain("-", Span("b"), "a", "${b}");
    SkipOtherSpanAlone("b", "a", "${b}");
    assert "${a}-${b}" == Span("a") + ("-" + Span("b"));
    assert ReplaceAll("${a}-${b}", Span("a"), "${b}") == "${b}" + ("-" + "${b}");
    ReplaceHits(Span("b"), "-" + Span("b"), "1");
    SkipPlain("-", Span("b"), "b", "1");
    ReplaceWhole("b", "1");
    assert ["a", "b"][1..] == ["b"] && ["b"][1..] == [];
    assert ReplaceInOrder("${b}" + ("-" + "${b}"), ["b"], printed) == "1" + ("-" + "1");
  }

  lemma PlainNamesAreBalanced()
    ensures Balanced("a") && Balanced("b") && NoStartIn("") && NoStartIn("-")
  {
    OtherIsBalanced("a");
    OtherIsBalanced("b");
  }

  lemma DashOpensNothing()
    ensures forall k | 0 <= k < |"-"| :: !OpensAt("-" + Span("b"), k)
  {
  }

  /** A literal ending in a dollar, in a mixed string: together with a value that opens a bracket and
      the text after it, it forms a span, which is replaced, too. */
  lemma DollarBeforeSpanMatters(printed: Printed)
    requires printed("a") == "{" && printed("b") == "1"
    ensures Extract("$${a}b}${b}") == Expressions(["a", "b"]) && !Standalone("$${a}b}${b}")
    ensures ReplaceInOrder("$${a}b}${b}", ["a", "b"], printed) == "11"
    ensures Decompose("$${a}b}${b}") == Some(TwoSpans("$", "a", "b}", "b"))
    ensures Substitute(TwoSpans("$", "a", "b}", "b"), printed) == "${b}1"
  {
    hide Extract, Decompose, ReplaceAll, OpensAt, Substitute;
    var t := TwoSpans("$", "a", "b}", "b");
    TwoSpansShape("$", "a", "b}", "b", printed);
    assert "$" + (Span("a") + ("b}" + Span("b"))) == "$${a}b}${b}";
    assert WellFormed(t) by { PlainNamesAreBalanced(); DollarLiterals(); }
    DecomposeRender(t);
    ExtractRender(t);
    assert ["a", "b"][1..] == ["b"] && ["b"][1..] == [];
    FirstStep("$", "a", "{", "b}", "b") by { PlainNamesAreBalanced(); DollarLiterals(); }
    var twice := Span("b") + Span("b");
    assert "$" + "{" + ("b}" + Span("b")) == twice;
    ReplaceHits(Span("b"), Span("b"), "1");
    ReplaceWhole("b", "1");
    assert ReplaceInOrder(twice, ["b"], printed) == "11";
    assert "$" + ("{" + ("b}" + "1")) == "${b}1";
  }

  lemma DollarLiterals()
    ensures NoStartIn("$") && OpensNothing("b}")
  {
    IndexStartIs("$", 1);
    IndexStartIs("b}", 2);
  }

  lemma ReplaceWhole(e: string, v: string)
    ensures ReplaceAll(Span(e), Span(e), v) == v
  {
    assert Span(e) + "" == Span(e) && v + "" == v;
    ReplaceHits(Span(e), "", v);
  }

  lemma SkipOtherSpanAlone(f: string, e: string, v: string)
    requires |f| == 1 && |e| == 1 && e != f
    ensures ReplaceAll(Span(f), Span(e), v) == Span(f)
  {
    var s, p := Span(f), Span(e);
    assert s + "" == s && s[2] == f[0] && p[2] == e[0];
    assert f == [f[0]] && e == [e[0]] && s[0..4][2] == s[2];
    ReplaceSkips(s, "", p, v);
  }
}
