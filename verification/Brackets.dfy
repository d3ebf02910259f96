/** Where an expression ends, told by counting brackets. */
module Brackets {
  import opened Fieldpath
  import opened Cel

  /** How many more brackets open than close. */
  function Depth(s: string): int { (multiset(s)['{'] as int) - (multiset(s)['}'] as int) }

  /** Nothing in `s[i..j]` closes more than is open, with `depth` open before. */
  predicate StaysOpen(s: string, i: nat, depth: nat, j: nat)
    requires i <= j <= |s|
  {
    forall k | i <= k < j && s[k] == '}' :: depth + Depth(s[i..k]) > 1
  }

  predicate OpensNowhere(s: string, i: nat, j: nat) { forall k | i <= k < j :: !OpensAt(s, k) }

  /** The first bracket that closes what is open, with no start before it. */
  predicate FirstClose(s: string, i: nat, depth: nat, j: nat) {
    && i <= j < |s| && s[j] == '}' && depth + Depth(s[i..j]) == 1
    && StaysOpen(s, i, depth, j) && OpensNowhere(s, i, j)
  }

  /** The first start, with nothing closed before it. */
  predicate FirstNested(s: string, i: nat, depth: nat, j: nat) {
    i <= j < |s| && OpensAt(s, j) && StaysOpen(s, i, depth, j) && OpensNowhere(s, i, j)
  }

  lemma DepthOne(s: string, i: nat, k: nat)
    requires i < k <= |s|
    ensures Depth(s[i..k]) == Depth(s[i + 1..k]) + if s[i] == '{' then 1 else if s[i] == '}' then -1 else 0
  {
    assert s[i..k] == [s[i]] + s[i + 1..k];
  }

  lemma DepthNone(s: string, i: nat)
    requires i <= |s|
    ensures Depth(s[i..i]) == 0
  {
    assert s[i..i] == "";
  }

  /** The scan ends at the first closing bracket, or at a start before it, or nowhere. */
  lemma {:induction false} ScanIff(s: string, i: nat, depth: nat)
    requires i <= |s| && depth > 0
    ensures forall j :: ScanFrom(s, i, depth) == Closed(j) <==> FirstClose(s, i, depth, j)
    ensures ScanFrom(s, i, depth) == Nested <==> exists j :: FirstNested(s, i, depth, j)
    decreases |s| - i
  {
    hide Depth;
    if i < |s| {
      DepthNone(s, i);
      var next := if s[i] == '{' then depth + 1 else if s[i] == '}' then depth - 1 else depth;
      if next > 0 && !OpensAt(s, i) {
        ScanIff(s, i + 1, next);
        forall j: nat ensures FirstClose(s, i, depth, j) <==> FirstClose(s, i + 1, next, j) {
          CloseLater(s, i, depth, next, j);
        }
        forall j: nat ensures FirstNested(s, i, depth, j) <==> FirstNested(s, i + 1, next, j) {
          NestedLater(s, i, depth, next, j);
        }
        var later := i + 1;
        if j: nat :| FirstNested(s, later, next, j) {
          assert FirstNested(s, i, depth, j);
        }
      } else if OpensAt(s, i) {
        assert FirstNested(s, i, depth, i);
        forall j ensures !FirstClose(s, i, depth, j) { NotPastStart(s, i, depth, j); }
      } else {
        assert FirstClose(s, i, depth, i);
        forall j | FirstClose(s, i, depth, j) || FirstNested(s, i, depth, j) ensures j == i {
          NotPastClose(s, i, depth, j);
        }
      }
    }
  }

  lemma NotPastStart(s: string, i: nat, depth: nat, j: nat)
    requires i < |s| && OpensAt(s, i)
    ensures !FirstClose(s, i, depth, j)
  {
    hide Depth;
  }

  lemma NotPastClose(s: string, i: nat, depth: nat, j: nat)
    requires i < |s| && s[i] == '}' && depth == 1 && (FirstClose(s, i, depth, j) || FirstNested(s, i, depth, j))
    ensures j == i && !FirstNested(s, i, depth, j)
  {
    hide Depth;
    DepthNone(s, i);
  }

  lemma OpenLater(s: string, i: nat, depth: nat, next: nat, j: nat)
    requires i < j <= |s| && !OpensAt(s, i) && next > 0
    requires next == if s[i] == '{' then depth + 1 else if s[i] == '}' then depth - 1 else depth
    ensures StaysOpen(s, i, depth, j) && OpensNowhere(s, i, j) <==>
      StaysOpen(s, i + 1, next, j) && OpensNowhere(s, i + 1, j)
  {
    hide Depth;
    DepthNone(s, i);
    forall k | i < k < j ensures depth + Depth(s[i..k]) == next + Depth(s[i + 1..k]) { DepthOne(s, i, k); }
  }

  lemma CloseLater(s: string, i: nat, depth: nat, next: nat, j: nat)
    requires i < |s| && !OpensAt(s, i) && next > 0
    requires next == if s[i] == '{' then depth + 1 else if s[i] == '}' then depth - 1 else depth
    ensures FirstClose(s, i, depth, j) <==> FirstClose(s, i + 1, next, j)
  {
    hide Depth;
    DepthNone(s, i);
    if i < j < |s| {
      OpenLater(s, i, depth, next, j);
      DepthOne(s, i, j);
    }
  }

  lemma NestedLater(s: string, i: nat, depth: nat, next: nat, j: nat)
    requires i < |s| && !OpensAt(s, i) && next > 0
    requires next == if s[i] == '{' then depth + 1 else if s[i] == '}' then depth - 1 else depth
    ensures FirstNested(s, i, depth, j) <==> FirstNested(s, i + 1, next, j)
  {
    hide Depth;
    if i < j < |s| {
      OpenLater(s, i, depth, next, j);
    }
  }

  /** What can stand in a span: the brackets match, none closes before it opens, and no start is inside. */
  lemma BalancedIff(e: string)
    ensures Balanced(e) <==>
      Depth(e) == 0 && (forall k | 0 <= k < |e| && e[k] == '}' :: Depth(e[..k]) > 0) && forall k :: !OpensAt(e, k)
  {
    hide Depth, ScanFrom;
    var s := e + EXPR_END;
    ScanIff(s, 0, 1);
    assert s[0..|e|] == e;
    forall k | 0 <= k < |e| ensures s[k] == e[k] && s[0..k] == e[..k] && (OpensAt(s, k) <==> OpensAt(e, k)) {
      assert s[|e|] == '}';
    }
    assert s[|e|] == '}';
  }
}
