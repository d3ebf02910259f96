/** Byte-wise string order and sorted sequences, the part of Go's `sort.Strings`
    that the graph code relies on. */
module Ordering {

  /** Go's `<` on strings: lexicographic by byte. */
  predicate Less(a: string, b: string) {
    b != [] && (a == [] || a[0] < b[0] || (a[0] == b[0] && Less(a[1..], b[1..])))
  }

  predicate Sorted(s: seq<string>) {
    forall i, j | 0 <= i < j < |s| :: Less(s[i], s[j])
  }

  function Elements<T>(s: seq<T>): set<T> {
    set x | x in s
  }

  predicate NoDup<T(==)>(s: seq<T>) {
    forall i, j | 0 <= i < j < |s| :: s[i] != s[j]
  }

  lemma {:induction false} LessTransitive(a: string, b: string, c: string)
    requires Less(a, b) && Less(b, c)
    ensures Less(a, c)
  {
    if a != [] && a[0] == b[0] && b[0] == c[0] {
      LessTransitive(a[1..], b[1..], c[1..]);
    }
  }

  lemma {:induction false} LessTotal(a: string, b: string)
    ensures Less(a, b) || a == b || Less(b, a)
  {
    if a != [] && b != [] && a[0] == b[0] {
      LessTotal(a[1..], b[1..]);
      assert a[1..] == b[1..] ==> a == [a[0]] + a[1..] == b;
    }
  }

  lemma {:induction false} LessIrreflexive(a: string)
    ensures !Less(a, a)
  {
    if a != [] {
      LessIrreflexive(a[1..]);
    }
  }

  /** The texts agree before `k`, where the first ends or has the smaller byte. */
  predicate SmallerAt(a: string, b: string, k: nat) {
    k <= |a| && k < |b| && a[..k] == b[..k] && (k == |a| || a[k] < b[k])
  }

  /** A text is less than another exactly if it is a proper prefix of it, or has the smaller byte
      where they first differ. */
  lemma LessIff(a: string, b: string)
    ensures Less(a, b) <==> exists k :: SmallerAt(a, b, k)
  {
    if Less(a, b) {
      var k := WhereSmaller(a, b);
    }
    if k :| SmallerAt(a, b, k) {
      SmallerIsLess(a, b, k);
    }
  }

  lemma {:induction false} WhereSmaller(a: string, b: string) returns (k: nat)
    requires Less(a, b)
    ensures SmallerAt(a, b, k)
  {
    k := 0;
    if a != [] && a[0] == b[0] {
      k := WhereSmaller(a[1..], b[1..]);
      k := k + 1;
      assert a[..k] == [a[0]] + a[1..][..k - 1] && b[..k] == [b[0]] + b[1..][..k - 1];
    }
  }

  lemma {:induction false} SmallerIsLess(a: string, b: string, k: nat)
    requires SmallerAt(a, b, k)
    ensures Less(a, b)
    decreases k
  {
    if k > 0 {
      assert a[..k][0] == b[..k][0];
      assert a[1..][..k - 1] == a[..k][1..] && b[1..][..k - 1] == b[..k][1..];
      SmallerIsLess(a[1..], b[1..], k - 1);
    }
  }

  lemma SortedHasNoDup(s: seq<string>)
    requires Sorted(s)
    ensures NoDup(s)
  {
    forall i, j | 0 <= i < j < |s| ensures s[i] != s[j] {
      LessIrreflexive(s[i]);
    }
  }

  /** Inserting into a sorted sequence; the building block of the model of `sort.Strings`. */
  function Insert(x: string, s: seq<string>): (r: seq<string>)
    ensures Elements(r) == Elements(s) + {x}
  {
    if s == [] then [x]
    else if Less(x, s[0]) then
      assert Elements([x] + s) == Elements(s) + {x};
      [x] + s
    else
      var r := [s[0]] + Insert(x, s[1..]);
      assert forall y :: y in s <==> y == s[0] || y in Elements(s[1..]);
      assert forall y :: y in r <==> y == s[0] || y in Elements(Insert(x, s[1..]));
      r
  }

  lemma {:induction false} InsertSorted(x: string, s: seq<string>)
    requires Sorted(s) && x !in s
    ensures Sorted(Insert(x, s))
  {
    if s != [] {
      LessTotal(x, s[0]);
      if Less(x, s[0]) {
        forall j | 0 < j < |s| ensures Less(x, s[j]) {
          LessTransitive(x, s[0], s[j]);
        }
      } else {
        InsertSorted(x, s[1..]);
        var rest := Insert(x, s[1..]);
        forall j | 0 <= j < |rest| ensures Less(s[0], rest[j]) {
          assert rest[j] in Elements(rest);
          assert rest[j] == x || rest[j] in s[1..];
        }
      }
    }
  }

  lemma NoElements<T>(s: seq<T>)
    ensures Elements(s) == {} <==> s == []
  {
    assert s != [] ==> s[0] in Elements(s);
  }

  /** Ranging over a set: one element moves from what is left to what is done. */
  lemma MoveOne<T>(todo: set<T>, done: set<T>, all: set<T>, x: T)
    requires todo + done == all && todo !! done && x in todo
    ensures (todo - {x}) + (done + {x}) == all && todo - {x} !! done + {x}
  {
  }

  /** `sort.Strings`, here always applied to the distinct keys of a map. */
  method SortStrings(s: seq<string>) returns (r: seq<string>)
    requires NoDup(s)
    ensures Sorted(r) && Elements(r) == Elements(s)
  {
    r := [];
    for i := 0 to |s|
      invariant Sorted(r) && Elements(r) == Elements(s[..i])
    {
      assert s[i] !in Elements(s[..i]);
      assert s[i] in r <==> s[i] in Elements(r);
      InsertSorted(s[i], r);
      r := Insert(s[i], r);
      assert Elements(s[..i + 1]) == Elements(s[..i]) + {s[i]} by {
        assert s[..i + 1] == s[..i] + [s[i]];
      }
    }
    assert s[..|s|] == s;
  }

  /** Two sorted sequences with the same elements are the same sequence, so the
      order in which a map yields its keys is invisible after sorting. */
  lemma {:induction false} SortedIsUnique(a: seq<string>, b: seq<string>)
    requires Sorted(a) && Sorted(b) && Elements(a) == Elements(b)
    ensures a == b
  {
    if a == [] {
      assert forall i | 0 <= i < |b| :: b[i] in Elements(b);
    } else {
      assert a[0] in Elements(a) && a[0] in b;
      assert b != [];
      assert b[0] in Elements(b) && b[0] in a;
      if a[0] != b[0] {
        LessIrreflexive(a[0]);
        assert Less(a[0], b[0]) && Less(b[0], a[0]);
        LessTransitive(a[0], b[0], a[0]);
      }
      TailElements(a);
      TailElements(b);
      SortedIsUnique(a[1..], b[1..]);
      assert a == [a[0]] + a[1..] && b == [b[0]] + b[1..];
    }
  }

  lemma TailElements(a: seq<string>)
    requires Sorted(a) && a != []
    ensures Elements(a[1..]) == Elements(a) - {a[0]}
  {
    SortedHasNoDup(a);
    assert forall y :: y in a <==> y == a[0] || y in a[1..];
  }

  lemma SortedExists(s: set<string>)
    ensures exists r :: Sorted(r) && Elements(r) == s
  {
    if s == {} {
      assert Sorted([]) && Elements<string>([]) == s;
    } else {
      var x :| x in s;
      SortedExists(s - {x});
      var t :| Sorted(t) && Elements(t) == s - {x};
      assert x in t <==> x in Elements(t);
      InsertSorted(x, t);
      assert Sorted(Insert(x, t)) && Elements(Insert(x, t)) == s;
    }
  }

  /** The sorted listing of a set. */
  ghost function SortedSeq(s: set<string>): (r: seq<string>)
    ensures Sorted(r) && Elements(r) == s
  {
    SortedExists(s);
    var r :| Sorted(r) && Elements(r) == s;
    r
  }
}
