/** Finding `${...}` expressions in strings, and replacing them. */
module Cel {
  import opened Fieldpath

  datatype Extraction = Expressions(expressions: seq<string>) | NestedExpression

  const EXPR_START := "${"
  const EXPR_END := "}"

  predicate OpensAt(s: string, i: nat) {
    i + 1 < |s| && s[i] == '$' && s[i + 1] == '{'
  }

  /** `strings.Index(s, "${")`; the length when there is none. */
  function IndexStart(s: string): (i: nat)
    ensures i <= |s|
    ensures i < |s| ==> OpensAt(s, i)
    ensures forall k | 0 <= k < i :: !OpensAt(s, k)
  {
    if s == "" then 0
    else if OpensAt(s, 0) then 0
    else
      var r := IndexStart(s[1..]);
      assert forall k | 1 <= k < |s| :: OpensAt(s, k) <==> OpensAt(s[1..], k - 1);
      1 + r
  }

  /** Where the bracket scan ends: at the closing bracket, at a nested `${`, or at the end of the text. */
  datatype Scan = Closed(at: nat) | Nested | Open

  /** The scan from position `i` with `depth` brackets open. */
  function ScanFrom(s: string, i: nat, depth: nat): (r: Scan)
    requires i <= |s| && depth > 0
    ensures r.Closed? ==> i <= r.at < |s| && s[r.at] == '}'
    decreases |s| - i
  {
    if i == |s| then Open
    else if s[i] == '{' then ScanFrom(s, i + 1, depth + 1)
    else if s[i] == '}' then
      if depth == 1 then Closed(i) else ScanFrom(s, i + 1, depth - 1)
    else if OpensAt(s, i) then Nested
    else ScanFrom(s, i + 1, depth)
  }

  function Prefixed(e: string, r: Extraction): Extraction {
    if r.Expressions? then Expressions([e] + r.expressions) else r
  }

  /** What the extraction finds in `s`. */
  function Extract(s: string): Extraction
    decreases |s|
  {
    var i := IndexStart(s);
    if i == |s| then Expressions([])
    else match ScanFrom(s, i + 2, 1)
      case Closed(j) => Prefixed(s[i + 2..j], Extract(s[j + 1..]))
      case Nested => NestedExpression
      case Open => Expressions([])
  }

  /** A scan that runs off the end has met no further `${`. */
  lemma {:induction false} OpenScanMeetsNoStart(s: string, i: nat, depth: nat, k: nat)
    requires i <= k <= |s| && depth > 0 && ScanFrom(s, i, depth) == Open
    ensures !OpensAt(s, k)
    decreases |s| - i
  {
    if i < k {
      OpenScanMeetsNoStart(s, i + 1,
        if s[i] == '{' then depth + 1 else if s[i] == '}' then depth - 1 else depth, k);
    }
  }

  /** The first start is determined by what is and is not a start. */
  lemma IndexStartIs(s: string, i: nat)
    requires i <= |s| && (i < |s| ==> OpensAt(s, i))
    requires forall k | 0 <= k < i :: !OpensAt(s, k)
    ensures IndexStart(s) == i
  {
    hide IndexStart, OpensAt;
    var j := IndexStart(s);
    assert i < |s| ==> OpensAt(s, i);
  }

  lemma OpensAtShift(s: string, a: nat, k: nat)
    requires a <= k <= |s|
    ensures OpensAt(s[a..], k - a) <==> OpensAt(s, k)
  {
  }

  lemma IndexStartShift(s: string, a: nat)
    requires a <= IndexStart(s)
    ensures IndexStart(s[a..]) == IndexStart(s) - a
  {
    hide IndexStart, OpensAt;
    var i := IndexStart(s);
    OpensAtShift(s, a, i);
    forall k | 0 <= k < i - a ensures !OpensAt(s[a..], k) {
      OpensAtShift(s, a, k + a);
    }
    IndexStartIs(s[a..], i - a);
  }

  lemma {:induction false} ScanShift(s: string, a: nat, i: nat, depth: nat)
    requires a <= i <= |s| && depth > 0
    ensures ScanFrom(s[a..], i - a, depth) ==
      match ScanFrom(s, i, depth) case Closed(j) => Closed(j - a) case Nested => Nested case Open => Open
    decreases |s| - i
  {
    if i < |s| {
      assert s[a..][i - a] == s[i];
      assert OpensAt(s[a..], i - a) <==> OpensAt(s, i);
      if s[i] == '{' {
        ScanShift(s, a, i + 1, depth + 1);
      } else if s[i] == '}' {
        if depth > 1 { ScanShift(s, a, i + 1, depth - 1); }
      } else if !OpensAt(s, i) {
        ScanShift(s, a, i + 1, depth);
      }
    }
  }

  /** Position of the first start at or after `from`. */
  function StartFrom(s: string, from: nat): (i: nat)
    requires from <= |s|
    ensures from <= i <= |s|
    ensures i < |s| ==> i + 1 < |s| && OpensAt(s, i)
  {
    var k := IndexStart(s[from..]);
    assert k < |s[from..]| ==> OpensAt(s[from..], k);
    from + k
  }

  /** `Extract` on the text from `from` on, by position. */
  function ExtractFrom(s: string, from: nat): Extraction
    requires from <= |s|
    decreases |s| - from
  {
    var i := StartFrom(s, from);
    if i == |s| then Expressions([])
    else match ScanFrom(s, i + 2, 1)
      case Closed(j) => Prefixed(s[i + 2..j], ExtractFrom(s, j + 1))
      case Nested => NestedExpression
      case Open => Expressions([])
  }

  lemma {:induction false} ExtractFromIsExtract(s: string, from: nat)
    requires from <= |s|
    ensures ExtractFrom(s, from) == Extract(s[from..])
    decreases |s| - from
  {
    hide IndexStart, ScanFrom, OpensAt, Prefixed;
    var r, i := s[from..], StartFrom(s, from);
    if i < |s| {
      ScanShift(s, from, i + 2, 1);
      var scan := ScanFrom(s, i + 2, 1);
      if scan.Closed? {
        var j := scan.at;
        ExtractFromIsExtract(s, j + 1);
        assert r[i - from + 2..j - from] == s[i + 2..j];
        assert r[j - from + 1..] == s[j + 1..];
        assert Extract(r) == Prefixed(s[i + 2..j], Extract(s[j + 1..]));
      }
    }
  }

  lemma StartFromSkips(s: string, from: nat, later: nat)
    requires from <= |s| && from <= later <= StartFrom(s, from)
    ensures StartFrom(s, later) == StartFrom(s, from)
  {
    IndexStartShift(s[from..], later - from);
    assert s[from..][later - from..] == s[later..];
  }

  /** After an unclosed `${` no further start is found. */
  lemma NothingAfterOpen(s: string, from: nat, later: nat)
    requires from <= |s| && StartFrom(s, from) < later <= |s|
    requires ScanFrom(s, StartFrom(s, from) + 2, 1) == Open
    ensures StartFrom(s, later) == |s|
  {
    var i, k := StartFrom(s, from), StartFrom(s, later);
    if k < |s| {
      OpensAtShift(s, from, i);
      OpensAtShift(s, later, k);
      if k >= i + 2 {
        OpenScanMeetsNoStart(s, i + 2, 1, k);
      }
    }
  }

  /** While the source retries from the next character after an unclosed `${`, nothing is missed. */
  predicate Retrying(s: string, base: nat, start: nat)
    requires base <= start <= |s|
  {
    base < start ==> StartFrom(s, base) < |s| && ScanFrom(s, StartFrom(s, base) + 2, 1) == Open
  }

  lemma RetryFindsTheSame(s: string, base: nat, start: nat)
    requires base <= start <= |s| && Retrying(s, base, start)
    ensures StartFrom(s, start) < |s| ==> StartFrom(s, start) == StartFrom(s, base)
    ensures StartFrom(s, start) == |s| ==> ExtractFrom(s, base) == Expressions([])
  {
    if start <= StartFrom(s, base) {
      StartFromSkips(s, base, start);
    } else {
      NothingAfterOpen(s, base, start);
    }
  }

  /** `extractExpressions`: the nested loops over `start`, `endIdx` and `bracketCount`. */
  method ExtractExpressions(str: string) returns (r: Extraction)
    ensures r == Extract(str)
  {
    hide IndexStart, ScanFrom, StartFrom, OpensAt, Extract, Prefixed;
    var expressions: seq<string> := [];
    var start := 0;
    ghost var base := 0;  // what remains to be extracted starts here; `start` runs ahead after an unclosed start
    ExtractFromIsExtract(str, 0);
    assert str[0..] == str;
    while start < |str|
      invariant 0 <= base <= start <= |str|
      invariant Combined(expressions, ExtractFrom(str, base)) == Extract(str)
      invariant Retrying(str, base, start)
    {
      RetryFindsTheSame(str, base, start);
      var startIdx := StartFrom(str, start);
      if startIdx == |str| {
        break;
      }
      var endIdx, bracketCount := ScanBrackets(str, startIdx + 2);
      if endIdx < |str| && bracketCount != 0 {
        return NestedExpression;
      }
      if bracketCount != 0 {
        start := start + 1;
        continue;
      }
      var expr := str[startIdx + 2..endIdx];
      CombinedStep(expressions, expr, ExtractFrom(str, endIdx + 1));
      expressions := expressions + [expr];
      start := endIdx + 1;
      base := start;
    }
    RetryFindsTheSame(str, base, start);
    assert expressions + [] == expressions;
    return Expressions(expressions);
  }

  /** The inner loop: it stops early at the closing bracket or at a nested start. */
  method ScanBrackets(str: string, from: nat) returns (endIdx: nat, bracketCount: nat)
    requires from <= |str|
    ensures endIdx <= |str|
    ensures ScanFrom(str, from, 1) ==
      if bracketCount == 0 then Closed(endIdx) else if endIdx < |str| then Nested else Open
  {
    endIdx, bracketCount := from, 1;
    while endIdx < |str|
      invariant from <= endIdx <= |str| && bracketCount > 0
      invariant ScanFrom(str, endIdx, bracketCount) == ScanFrom(str, from, 1)
    {
      if str[endIdx] == '{' {
        bracketCount := bracketCount + 1;
      } else if str[endIdx] == '}' {
        bracketCount := bracketCount - 1;
        if bracketCount == 0 {
          break;
        }
      } else if OpensAt(str, endIdx) {
        return;
      }
      endIdx := endIdx + 1;
    }
  }

  function Combined(found: seq<string>, r: Extraction): Extraction {
    if r.Expressions? then Expressions(found + r.expressions) else r
  }

  lemma CombinedStep(found: seq<string>, e: string, r: Extraction)
    ensures Combined(found + [e], r) == Combined(found, Prefixed(e, r))
  {
    if r.Expressions? {
      assert found + [e] + r.expressions == found + ([e] + r.expressions);
    }
  }

  /** `isStandaloneExpression`. */
  method IsStandaloneExpression(str: string) returns (ok: bool, nested: bool)
    ensures nested <==> Extract(str) == NestedExpression
    ensures ok <==> Standalone(str)
  {
    var r := ExtractExpressions(str);
    if r.NestedExpression? {
      return false, true;
    }
    return |r.expressions| == 1 && str == EXPR_START + r.expressions[0] + EXPR_END, false;
  }

  predicate Standalone(str: string) {
    && Extract(str).Expressions?
    && |Extract(str).expressions| == 1
    && str == EXPR_START + Extract(str).expressions[0] + EXPR_END
  }

  // ----------------------------------------------------- strings as templates

  /** The first `${` of `s` is never closed. */
  predicate Unclosed(s: string) {
    var i := IndexStart(s);
    i < |s| && ScanFrom(s, i + 2, 1) == Open
  }

  /** An unclosed start is the last one in the string. */
  lemma UnclosedIsLast(s: string, k: nat)
    requires Unclosed(s) && k > IndexStart(s)
    ensures !OpensAt(s, k)
  {
    var i := IndexStart(s);
    if k >= i + 2 && k <= |s| {
      OpenScanMeetsNoStart(s, i + 2, 1, k);
    }
  }

  /** A literal followed by the expression of a `${...}` span. */
  datatype Chunk = Chunk(lit: string, expr: string)

  /** A string cut at its spans. */
  datatype Template = Template(chunks: seq<Chunk>, tail: string)

  function Span(e: string): (r: string)
    ensures |r| == |e| + 3
  {
    EXPR_START + e + EXPR_END
  }

  function Render(t: Template): string
    decreases |t.chunks|
  {
    if t.chunks == [] then t.tail
    else t.chunks[0].lit + Span(t.chunks[0].expr) + Render(Template(t.chunks[1..], t.tail))
  }

  function ExprsOf(chunks: seq<Chunk>): (r: seq<string>)
    ensures |r| == |chunks|
  {
    seq(|chunks|, i requires 0 <= i < |chunks| => chunks[i].expr)
  }

  predicate NoStartIn(s: string) { IndexStart(s) == |s| }

  /** Brackets match inside `e` and it holds no `${`: the scan that starts before it
      closes at the bracket after it. */
  predicate Balanced(e: string) {
    ScanFrom(e + EXPR_END, 0, 1) == Closed(|e|)
  }

  /** Literals without a start, balanced spans, and a tail whose only start, if any, is unclosed. */
  predicate WellFormed(t: Template) {
    && (forall i | 0 <= i < |t.chunks| :: NoStartIn(t.chunks[i].lit) && Balanced(t.chunks[i].expr))
    && (NoStartIn(t.tail) || Unclosed(t.tail))
  }

  /** Cutting a string; `None` when it holds a nested expression. */
  function Decompose(s: string): Option<Template>
    decreases |s|
  {
    var i := IndexStart(s);
    if i == |s| then Some(Template([], s))
    else match ScanFrom(s, i + 2, 1)
      case Open => Some(Template([], s))
      case Nested => None
      case Closed(j) =>
        match Decompose(s[j + 1..])
        case None => None
        case Some(t) => Some(Template([Chunk(s[..i], s[i + 2..j])] + t.chunks, t.tail))
  }

  lemma {:induction false} ScanPrefix(s: string, t: string, i: nat, depth: nat)
    requires i <= |s| && depth > 0 && ScanFrom(s, i, depth).Closed?
    ensures ScanFrom(s + t, i, depth) == ScanFrom(s, i, depth)
    decreases |s| - i
  {
    if s[i] == '{' {
      ScanPrefix(s, t, i + 1, depth + 1);
    } else if s[i] == '}' {
      if depth > 1 { ScanPrefix(s, t, i + 1, depth - 1); }
    } else {
      assert s[i] == '$' ==> i + 1 < |s|;
      assert OpensAt(s + t, i) <==> OpensAt(s, i);
      ScanPrefix(s, t, i + 1, depth);
    }
  }

  /** A scan only looks at the text up to where it closes. */
  lemma {:induction false} ScanCut(s: string, i: nat, depth: nat, j: nat)
    requires i <= |s| && depth > 0 && ScanFrom(s, i, depth) == Closed(j)
    ensures ScanFrom(s[..j + 1], i, depth) == Closed(j)
    decreases |s| - i
  {
    if i < j {
      assert s[..j + 1][i] == s[i];
      assert OpensAt(s[..j + 1], i) <==> OpensAt(s, i);
      if s[i] == '{' {
        ScanCut(s, i + 1, depth + 1, j);
      } else if s[i] == '}' {
        ScanCut(s, i + 1, depth - 1, j);
      } else {
        ScanCut(s, i + 1, depth, j);
      }
    }
  }

  /** The span after a start is balanced. */
  lemma ClosedSpanIsBalanced(s: string, i: nat, j: nat)
    requires i <= |s| && ScanFrom(s, i, 1) == Closed(j)
    ensures Balanced(s[i..j])
  {
    ScanCut(s, i, 1, j);
    ScanShift(s[..j + 1], i, i, 1);
    assert s[..j + 1][i..] == s[i..j] + EXPR_END;
  }

  lemma IndexStartOfLiteral(lit: string, rest: string)
    requires NoStartIn(lit) && OpensAt(rest, 0)
    ensures IndexStart(lit + rest) == |lit|
  {
    var s := lit + rest;
    forall k | 0 <= k < |lit| ensures !OpensAt(s, k) {
      assert !OpensAt(lit, k);
    }
    assert OpensAt(s, |lit|);
  }

  lemma TemplateTail(t: Template)
    requires WellFormed(t) && t.chunks != []
    ensures WellFormed(Template(t.chunks[1..], t.tail))
  {
  }

  /** Cutting undoes rendering. */
  lemma {:induction false} DecomposeRender(t: Template)
    requires WellFormed(t)
    ensures Decompose(Render(t)) == Some(t)
    decreases |t.chunks|
  {
    hide IndexStart, ScanFrom, Span, NoStartIn, Balanced;
    if t.chunks == [] {
      DecomposeTail(t.tail);
    } else {
      var c, rest := t.chunks[0], Template(t.chunks[1..], t.tail);
      TemplateTail(t);
      DecomposeRender(rest);
      DecomposeSpan(c.lit, c.expr, Render(rest));
      assert t.chunks == [c] + rest.chunks;
    }
  }

  lemma DecomposeTail(tail: string)
    requires NoStartIn(tail) || Unclosed(tail)
    ensures Decompose(tail) == Some(Template([], tail))
  {
  }

  lemma DecomposeSpan(lit: string, e: string, rest: string)
    requires NoStartIn(lit) && Balanced(e)
    ensures Decompose(lit + Span(e) + rest) ==
      match Decompose(rest)
      case None => None
      case Some(t) => Some(Template([Chunk(lit, e)] + t.chunks, t.tail))
  {
    hide IndexStart, ScanFrom, OpensAt;
    var s, i, j := lit + Span(e) + rest, |lit|, |lit| + 2 + |e|;
    SpanShape(lit, e, rest);
    IndexStartOfLiteral(lit, Span(e) + rest);
    ScanPrefix(e + EXPR_END, rest, 0, 1);
    ScanShift(s, i + 2, i + 2, 1);
    assert ScanFrom(s, i + 2, 1) == Closed(j);
  }

  lemma SpanShape(lit: string, e: string, rest: string)
    ensures var s, i, j := lit + Span(e) + rest, |lit|, |lit| + 2 + |e|;
      && s == lit + (Span(e) + rest)
      && s[..i] == lit && s[i + 2..j] == e && s[j + 1..] == rest
      && s[i + 2..] == e + EXPR_END + rest
      && OpensAt(Span(e) + rest, 0)
  {
  }

  /** Rendering undoes cutting, and what a cut gives is well formed. */
  lemma {:induction false} RenderDecompose(s: string)
    requires Decompose(s).Some?
    ensures Render(Decompose(s).value) == s && WellFormed(Decompose(s).value)
    decreases |s|
  {
    hide IndexStart, ScanFrom, Span, NoStartIn, Balanced, Render, WellFormed;
    var i := IndexStart(s);
    if i == |s| || ScanFrom(s, i + 2, 1).Open? {
      CutOfTail(s);
    } else if ScanFrom(s, i + 2, 1).Closed? {
      var j := ScanFrom(s, i + 2, 1).at;
      RenderDecompose(s[j + 1..]);
      ClosedSpanIsBalanced(s, i + 2, j);
      PrefixHasNoStart(s, i);
      PrependChunk(s[..i], s[i + 2..j], Decompose(s[j + 1..]).value);
      SpanParts(s, i, j);
    }
  }

  lemma CutOfTail(s: string)
    requires IndexStart(s) == |s| || ScanFrom(s, IndexStart(s) + 2, 1).Open?
    ensures Decompose(s) == Some(Template([], s))
    ensures Render(Template([], s)) == s && WellFormed(Template([], s))
  {
    hide IndexStart, ScanFrom, Balanced;
  }

  lemma PrependChunk(lit: string, e: string, t: Template)
    requires NoStartIn(lit) && Balanced(e) && WellFormed(t)
    ensures var t' := Template([Chunk(lit, e)] + t.chunks, t.tail);
      Render(t') == lit + Span(e) + Render(t) && WellFormed(t')
  {
    assert ([Chunk(lit, e)] + t.chunks)[1..] == t.chunks;
  }

  lemma SpanParts(s: string, i: nat, j: nat)
    requires i + 2 <= j < |s| && OpensAt(s, i) && s[j] == '}'
    ensures s == s[..i] + Span(s[i + 2..j]) + s[j + 1..]
  {
  }

  lemma PrefixHasNoStart(s: string, i: nat)
    requires i == IndexStart(s)
    ensures NoStartIn(s[..i])
  {
    forall k | 0 <= k < i ensures !OpensAt(s[..i], k) {
      assert !OpensAt(s, k);
    }
    IndexStartIs(s[..i], i);
  }

  lemma ExprsCons(chunks: seq<Chunk>)
    ensures ExprsOf(chunks) == if chunks == [] then [] else [chunks[0].expr] + ExprsOf(chunks[1..])
  {
  }

  /** Extraction finds exactly the expressions of the cut, in order. */
  lemma {:induction false} ExtractIsExprsOfCut(s: string)
    ensures Extract(s) == match Decompose(s)
      case None => NestedExpression
      case Some(t) => Expressions(ExprsOf(t.chunks))
    decreases |s|
  {
    hide IndexStart, ScanFrom, ExprsOf;
    var i := IndexStart(s);
    ExprsCons([]);
    if i < |s| && ScanFrom(s, i + 2, 1).Closed? {
      var j := ScanFrom(s, i + 2, 1).at;
      ExtractIsExprsOfCut(s[j + 1..]);
      if Decompose(s[j + 1..]).Some? {
        var rest, c := Decompose(s[j + 1..]).value.chunks, Chunk(s[..i], s[i + 2..j]);
        ExprsCons([c] + rest);
        assert ([c] + rest)[1..] == rest;
      }
    }
  }

  /** A rendered template gives back exactly its expressions. */
  lemma ExtractRender(t: Template)
    requires WellFormed(t)
    ensures Extract(Render(t)) == Expressions(ExprsOf(t.chunks))
  {
    DecomposeRender(t);
    ExtractIsExprsOfCut(Render(t));
  }

  /** A string is standalone exactly when its cut is a single span with nothing around it. */
  lemma StandaloneIff(s: string)
    ensures Standalone(s) <==>
      Decompose(s).Some? && |Decompose(s).value.chunks| == 1
      && Decompose(s).value.chunks[0].lit == "" && Decompose(s).value.tail == ""
  {
    hide Extract, Decompose;
    ExtractIsExprsOfCut(s);
    if Decompose(s).Some? && |Decompose(s).value.chunks| == 1 {
      var t := Decompose(s).value;
      var c := t.chunks[0];
      RenderDecompose(s);
      assert Render(Template(t.chunks[1..], t.tail)) == t.tail;
      assert s == c.lit + Span(c.expr) + t.tail;
      if Standalone(s) {
        assert ExprsOf(t.chunks)[0] == c.expr;
        assert |c.lit| + |t.tail| == 0;
      } else {
        assert ExprsOf(t.chunks)[0] == c.expr;
      }
    }
  }
}
