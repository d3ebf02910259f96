/** Unstructured resources as trees, with reading and writing along a walk. */
module Values {
  import opened Fieldpath
  import opened PathText

  datatype Value =
    | Null
    | Bool(b: bool)
    | Int(n: int)
    | Float(r: real)
    | Str(s: string)
    | Arr(items: seq<Value>)
    | Obj(fields: map<string, Value>)

  /** The child one step down. */
  function Child(v: Value, st: Step): Option<Value> {
    match (v, st)
    case (Arr(items), At(i)) => if i < |items| then Some(items[i]) else None
    case (Obj(fields), Key(k)) => if k in fields then Some(fields[k]) else None
    case _ => None
  }

  /** The value at the end of a walk. */
  function Get(v: Value, w: Walk): Option<Value>
    decreases |w|
  {
    if w == [] then Some(v)
    else match Child(v, w[0])
      case None => None
      case Some(c) => Get(c, w[1..])
  }

  /** The array padded with nulls so that position `i` exists. */
  function Grow(items: seq<Value>, i: nat): (r: seq<Value>)
    ensures i < |r| && items <= r
    ensures forall k | |items| <= k < |r| :: r[k] == Null
  {
    if i < |items| then items else items + seq(i + 1 - |items|, _ => Null)
  }

  /** A missing or null value can become a container of the kind the next step needs. */
  predicate Fits(v: Value, st: Step) {
    v == Null || (if st.At? then v.Arr? else v.Obj?)
  }

  /** The child one step down in the container the value is or becomes. */
  function ChildOrNull(v: Value, st: Step): Value
    requires Fits(v, st)
  {
    match Child(v, st) case Some(c) => c case None => Null
  }

  /** Putting a child one step down, creating or growing the container. */
  function Put(v: Value, st: Step, c: Value): (r: Value)
    requires Fits(v, st)
    ensures Child(r, st) == Some(c) && r != Null
    ensures forall other: Step | other != st && Child(v, other).Some? :: Child(r, other) == Child(v, other)
  {
    match st
    case At(i) => var g := Grow(if v == Null then [] else v.items, i); Arr(g[i := c])
    case Key(k) => Obj((if v == Null then map[] else v.fields)[k := c])
  }

  /** Writing at the end of a walk, creating what is missing; `None` when a value on the
      way is of the wrong kind. */
  function Set(v: Value, w: Walk, x: Value): Option<Value>
    decreases |w|
  {
    if w == [] then Some(x)
    else if !Fits(v, w[0]) then None
    else match Set(ChildOrNull(v, w[0]), w[1..], x)
      case None => None
      case Some(c) => Some(Put(v, w[0], c))
  }

  /** The walks part ways at some step. */
  predicate Diverge(u: Walk, w: Walk)
    decreases |u|
  {
    u != [] && w != [] && (u[0] != w[0] || Diverge(u[1..], w[1..]))
  }

  /** What was written is what is read back. */
  lemma {:induction false} GetAfterSet(v: Value, w: Walk, x: Value)
    requires Set(v, w, x).Some?
    ensures Get(Set(v, w, x).value, w) == Some(x)
    decreases |w|
  {
    if w != [] {
      GetAfterSet(ChildOrNull(v, w[0]), w[1..], x);
    }
  }

  /** Everything readable on a diverging walk stays readable and unchanged, also when an
      array on the way had to grow. */
  lemma {:induction false} SetPreservesOthers(v: Value, w: Walk, x: Value, u: Walk)
    requires Set(v, w, x).Some? && Diverge(u, w) && Get(v, u).Some?
    ensures Get(Set(v, w, x).value, u) == Get(v, u)
    decreases |w|
  {
    if u[0] == w[0] {
      SetPreservesOthers(ChildOrNull(v, w[0]), w[1..], x, u[1..]);
    }
  }

  /** One of the walks leads on where the other ends. */
  predicate OnTheWay(u: Walk, w: Walk) { u <= w || w <= u }

  /** `u` ends in an array on the way, before the position the walk takes there. */
  predicate FillsUpTo(u: Walk, w: Walk)
    decreases |u|
  {
    u != [] && w != [] &&
    if u[0] == w[0] then FillsUpTo(u[1..], w[1..])
    else |u| == 1 && u[0].At? && w[0].At? && u[0].index < w[0].index
  }

  /** Nothing else appears: what could not be read before is on the way of the walk, or fills an
      array with nulls up to the position the walk takes there. */
  lemma {:induction false} SetAddsNothingElse(v: Value, w: Walk, x: Value, u: Walk)
    requires Set(v, w, x).Some? && Get(Set(v, w, x).value, u).Some? && Get(v, u).None?
    ensures OnTheWay(u, w) || (FillsUpTo(u, w) && Get(Set(v, w, x).value, u) == Some(Null))
    decreases |w|
  {
    if u != [] && w != [] {
      if u[0] == w[0] {
        var c := ChildOrNull(v, w[0]);
        if Get(c, u[1..]).None? {
          SetAddsNothingElse(c, w[1..], x, u[1..]);
          assert u[1..] <= w[1..] ==> u == [u[0]] + u[1..] <= [w[0]] + w[1..] == w;
          assert w[1..] <= u[1..] ==> w == [w[0]] + w[1..] <= [u[0]] + u[1..] == u;
        } else {
          NullHasNoInside(u[1..]);
          assert u == [u[0]];
        }
      } else {
        NullInside(v, w, x, u);
      }
    }
  }

  lemma GrowLength(items: seq<Value>, i: nat)
    ensures |Grow(items, i)| == if i < |items| then |items| else i + 1
  {
  }

  /** A new child beside the walk is a null in a grown array. */
  lemma NullInside(v: Value, w: Walk, x: Value, u: Walk)
    requires u != [] && w != [] && u[0] != w[0] && Set(v, w, x).Some?
    requires Get(Set(v, w, x).value, u).Some? && Get(v, u).None?
    ensures FillsUpTo(u, w) && Get(Set(v, w, x).value, u) == Some(Null)
  {
    var r, st := Set(v, w, x).value, u[0];
    if w[0].At? {
      GrowLength(if v == Null then [] else v.items, w[0].index);
    }
    assert Child(v, st).Some? ==> Child(r, st) == Child(v, st);
    assert Child(r, st) == Some(Null);
    NullHasNoInside(u[1..]);
  }

  /** Once the walk has run off what exists, nothing can go wrong any more. */
  lemma {:induction false} SetFromNull(w: Walk, x: Value)
    ensures Set(Null, w, x).Some?
    decreases |w|
  {
    if w != [] {
      SetFromNull(w[1..], x);
    }
  }

  /** Writing fails exactly when some existing, non-null value strictly inside the walk is
      not a container of the kind the next step needs. */
  lemma {:induction false} SetFailsIff(v: Value, w: Walk, x: Value)
    ensures Set(v, w, x).None? <==>
      exists i :: 0 <= i < |w| && Get(v, w[..i]).Some? && !Fits(Get(v, w[..i]).value, w[i])
    decreases |w|
  {
    if w != [] {
      if !Fits(v, w[0]) {
        assert Get(v, w[..0]) == Some(v);
      } else {
        var c := ChildOrNull(v, w[0]);
        SetFailsIff(c, w[1..], x);
        if i :| 0 <= i < |w| && Get(v, w[..i]).Some? && !Fits(Get(v, w[..i]).value, w[i]) {
          assert i > 0 && w[..i][1..] == w[1..][..i - 1];
          assert Child(v, w[0]).Some?;
          assert Get(c, w[1..][..i - 1]) == Get(v, w[..i]);
        }
        if i :| 0 <= i < |w[1..]| && Get(c, w[1..][..i]).Some? && !Fits(Get(c, w[1..][..i]).value, w[1..][i]) {
          if Child(v, w[0]).None? {
            NullHasNoInside(w[1..][..i]);
          }
          assert w[..i + 1][1..] == w[1..][..i];
          assert Get(v, w[..i + 1]) == Get(c, w[1..][..i]);
        }
      }
    }
  }

  lemma NullHasNoInside(w: Walk)
    ensures Get(Null, w).Some? ==> w == [] && Get(Null, w) == Some(Null)
  {
  }

  /** The value at the end of a walk, null where nothing is yet. */
  function SubAt(v: Value, w: Walk): Value
    decreases |w|
  {
    if w == [] then v
    else if Fits(v, w[0]) then SubAt(ChildOrNull(v, w[0]), w[1..])
    else Null
  }

  /** Replacing a value on the way by one that takes the rest of the write in the same way
      does not change the outcome of the write. */
  lemma {:induction false} SetAfterSet(v: Value, p: Walk, c: Value, rest: Walk, x: Value)
    requires Set(v, p, c).Some? && Set(c, rest, x) == Set(SubAt(v, p), rest, x)
    ensures Set(Set(v, p, c).value, p + rest, x) == Set(v, p + rest, x)
    decreases |p|
  {
    hide Put, Child, Fits, ChildOrNull;
    if p == [] {
      assert p + rest == rest;
    } else {
      assert (p + rest)[1..] == p[1..] + rest;
      var child := ChildOrNull(v, p[0]);
      SetAfterSet(child, p[1..], c, rest, x);
      PutAgain(v, p[0], Set(child, p[1..], c).value, p[1..] + rest, x);
    }
  }

  /** Writing below a child that was put there first. */
  lemma PutAgain(v: Value, st: Step, c: Value, w: Walk, x: Value)
    requires Fits(v, st) && Set(c, w, x) == Set(ChildOrNull(v, st), w, x)
    ensures Set(Put(v, st, c), [st] + w, x) == Set(v, [st] + w, x)
    ensures forall u | u != [] && u[0] == st && u[1..] == w :: Set(Put(v, st, c), u, x) == Set(v, u, x)
  {
    hide Put;
    PutFits(v, st, c);
    assert ([st] + w)[1..] == w;
    if Set(c, w, x).Some? {
      PutPut(v, st, c, Set(c, w, x).value);
    }
  }

  lemma PutFits(v: Value, st: Step, c: Value)
    requires Fits(v, st)
    ensures Fits(Put(v, st, c), st)
  {
  }

  lemma PutPut(v: Value, st: Step, a: Value, b: Value)
    requires Fits(v, st)
    ensures Fits(Put(v, st, a), st) && Put(Put(v, st, a), st, b) == Put(v, st, b)
  {
    if st.At? {
      var g := Grow(if v == Null then [] else v.items, st.index);
      assert Grow(g[st.index := a], st.index) == g[st.index := a];
    }
  }

  /** An array already grown, or an empty container in place of null, takes a write in the same way. */
  lemma GrownTakesSame(v: Value, grown: Value, rest: Walk, x: Value)
    requires rest != [] && Fits(v, rest[0])
    requires match rest[0]
      case At(i) => grown == Arr(if v == Null then [] else Grow(v.items, i))
      case Key(k) => v == Null && grown == Obj(map[])
    ensures Set(grown, rest, x) == Set(v, rest, x)
  {
    if rest[0].At? && v != Null {
      assert Grow(Grow(v.items, rest[0].index), rest[0].index) == Grow(v.items, rest[0].index);
    }
  }

  /** Growing an array first, also from nothing, does not change what a write gives. */
  lemma GrownTakesGrow(v: Value, rest: Walk, x: Value)
    requires rest != [] && rest[0].At? && Fits(v, rest[0])
    ensures Set(Arr(Grow(if v == Null then [] else v.items, rest[0].index)), rest, x) == Set(v, rest, x)
  {
    var i := rest[0].index;
    var g := Grow(if v == Null then [] else v.items, i);
    assert Grow(g, i) == g;
    assert ChildOrNull(Arr(g), At(i)) == ChildOrNull(v, At(i));
  }

  lemma {:induction false} SubAtIsGet(v: Value, w: Walk)
    requires Get(v, w).Some?
    ensures SubAt(v, w) == Get(v, w).value
    decreases |w|
  {
    if w != [] {
      SubAtIsGet(Child(v, w[0]).value, w[1..]);
    }
  }
}
