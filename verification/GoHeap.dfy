/** Nested maps and slices as objects in memory, and the trees they stand for. */
module GoHeap {
  import opened Fieldpath
  import opened PathText
  import opened Values

  /** An `interface{}`: nothing, a scalar, or a reference to a map or a slice. */
  datatype GoVal = GNil | GScalar(v: Value) | GMap(m: MapObj) | GSlice(a: array<GoVal>)

  /** A `map[string]interface{}`. */
  class MapObj {
    var entries: map<string, GoVal>

    constructor (entries: map<string, GoVal>)
      ensures this.entries == entries
    {
      this.entries := entries;
    }
  }

  /** A tree together with the object that holds each of its containers. */
  datatype Located =
    | LNil
    | LScalar(v: Value)
    | LSlice(a: array<GoVal>, items: seq<Located>)
    | LMap(m: MapObj, fields: map<string, Located>)

  predicate IsScalar(v: Value) { v.Bool? || v.Int? || v.Float? || v.Str? }

  ghost function Addr(l: Located): GoVal {
    match l
    case LNil => GNil
    case LScalar(v) => GScalar(v)
    case LSlice(a, _) => GSlice(a)
    case LMap(m, _) => GMap(m)
  }

  ghost function Tree(l: Located): Value {
    match l
    case LNil => Null
    case LScalar(v) => v
    case LSlice(_, items) => Arr(seq(|items|, i requires 0 <= i < |items| => Tree(items[i])))
    case LMap(_, fields) => Obj(map k | k in fields :: Tree(fields[k]))
  }

  ghost function Objs(l: Located): set<object>
    decreases l, 1
  {
    match l
    case LSlice(a, _) => {a} + ItemObjs(l)
    case LMap(m, _) => {m} + FieldObjs(l)
    case _ => {}
  }

  ghost function ItemObjs(l: Located): set<object>
    requires l.LSlice?
    decreases l, 0
  {
    set i, o | 0 <= i < |l.items| && o in Objs(l.items[i]) :: o
  }

  ghost function FieldObjs(l: Located): set<object>
    requires l.LMap?
    decreases l, 0
  {
    set k, o | k in l.fields && o in Objs(l.fields[k]) :: o
  }

  /** The contents of the containers, as a value. */
  datatype Mem = Mem(slices: map<array<GoVal>, seq<GoVal>>, maps: map<MapObj, map<string, GoVal>>)

  /** Memory holds these contents. */
  ghost predicate Reflects(mem: Mem)
    reads mem.slices.Keys, mem.maps.Keys
  {
    && (forall a | a in mem.slices :: a[..] == mem.slices[a])
    && (forall m | m in mem.maps :: m.entries == mem.maps[m])
  }

  /** These contents are exactly this tree. */
  ghost predicate Consistent(mem: Mem, l: Located)
    decreases l
  {
    match l
    case LNil => true
    case LScalar(v) => IsScalar(v)
    case LSlice(a, items) =>
      && a in mem.slices && |mem.slices[a]| == |items|
      && forall i | 0 <= i < |items| :: mem.slices[a][i] == Addr(items[i]) && Consistent(mem, items[i])
    case LMap(m, fields) =>
      && m in mem.maps && mem.maps[m].Keys == fields.Keys
      && forall k | k in fields :: mem.maps[m][k] == Addr(fields[k]) && Consistent(mem, fields[k])
  }

  /** No object is reachable in two ways. */
  ghost predicate Unshared(l: Located) {
    match l
    case LSlice(a, items) =>
      && (forall i | 0 <= i < |items| :: Unshared(items[i]) && a !in Objs(items[i]))
      && (forall i, j | 0 <= i < j < |items| :: Objs(items[i]) !! Objs(items[j]))
    case LMap(m, fields) =>
      && (forall k | k in fields :: Unshared(fields[k]) && m !in Objs(fields[k]))
      && (forall j, k | j in fields && k in fields && j != k :: Objs(fields[j]) !! Objs(fields[k]))
    case _ => true
  }

  ghost function LChild(l: Located, st: Step): Option<Located> {
    match (l, st)
    case (LSlice(_, items), At(i)) => if i < |items| then Some(items[i]) else None
    case (LMap(_, fields), Key(k)) => if k in fields then Some(fields[k]) else None
    case _ => None
  }

  /** The container can take a child at this step as it is. */
  ghost predicate Takes(l: Located, st: Step) {
    match st
    case At(i) => l.LSlice? && i < |l.items|
    case Key(k) => l.LMap?
  }

  ghost function LPut(l: Located, st: Step, c: Located): Located
    requires Takes(l, st)
  {
    match st
    case At(i) => LSlice(l.a, l.items[i := c])
    case Key(k) => LMap(l.m, l.fields[k := c])
  }

  ghost function Holder(l: Located): object
    requires l.LSlice? || l.LMap?
  {
    if l.LSlice? then l.a else l.m
  }

  ghost function LAt(l: Located, w: Walk): Option<Located>
    decreases |w|
  {
    if w == [] then Some(l)
    else match LChild(l, w[0])
      case None => None
      case Some(c) => LAt(c, w[1..])
  }

  /** The place `w` exists: its container is there and takes a child at the last step. */
  ghost predicate Place(l: Located, w: Walk)
    decreases |w|
  {
    w != [] && if |w| == 1 then Takes(l, w[0]) else LChild(l, w[0]).Some? && Place(LChild(l, w[0]).value, w[1..])
  }

  ghost function Container(l: Located, w: Walk): Located
    requires Place(l, w)
    ensures Container(l, w).LSlice? || Container(l, w).LMap?
    decreases |w|
  {
    if |w| == 1 then l else Container(LChild(l, w[0]).value, w[1..])
  }

  ghost function LPutAt(l: Located, w: Walk, c: Located): Located
    requires Place(l, w)
    decreases |w|
  {
    if |w| == 1 then LPut(l, w[0], c) else LPut(l, w[0], LPutAt(LChild(l, w[0]).value, w[1..], c))
  }

  lemma ChildObjs(l: Located, st: Step)
    requires LChild(l, st).Some?
    ensures Objs(LChild(l, st).value) <= Objs(l)
    ensures Unshared(l) ==> Unshared(LChild(l, st).value) && Holder(l) !in Objs(LChild(l, st).value)
  {
  }

  /** The objects of the child now at the place `w`. */
  ghost function OldObjs(l: Located, w: Walk): set<object>
    requires Place(l, w)
    decreases |w|
  {
    if |w| == 1 then (if LChild(l, w[0]).Some? then Objs(LChild(l, w[0]).value) else {})
    else OldObjs(LChild(l, w[0]).value, w[1..])
  }

  lemma {:induction false} OldObjsInside(l: Located, w: Walk)
    requires Place(l, w)
    ensures OldObjs(l, w) <= Objs(l)
    ensures Holder(Container(l, w)) in Objs(l)
    decreases |w|
  {
    if LChild(l, w[0]).Some? {
      ChildObjs(l, w[0]);
    }
    if |w| > 1 {
      OldObjsInside(LChild(l, w[0]).value, w[1..]);
    }
  }

  lemma PutObjs(l: Located, st: Step, c: Located)
    requires Takes(l, st)
    ensures Objs(LPut(l, st, c)) <= Objs(l) + Objs(c)
    ensures Addr(LPut(l, st, c)) == Addr(l)
  {
  }

  /** Replacing a child by one built from its own objects and outside ones keeps the tree unshared. */
  lemma PutUnshared(l: Located, st: Step, c: Located)
    requires Takes(l, st) && Unshared(l) && Unshared(c)
    requires Objs(c) * Objs(l) <= if LChild(l, st).Some? then Objs(LChild(l, st).value) else {}
    ensures Unshared(LPut(l, st, c))
  {
    match st
    case At(i) =>
      var items := l.items[i := c];
      forall j | 0 <= j < |items| ensures Unshared(items[j]) && l.a !in Objs(items[j]) {
        ChildObjs(l, At(j));
      }
      forall j, k | 0 <= j < k < |items| ensures Objs(items[j]) !! Objs(items[k]) {
        ChildObjs(l, At(j));
        ChildObjs(l, At(k));
      }
    case Key(k) =>
      var fields := l.fields[k := c];
      forall j | j in fields ensures Unshared(fields[j]) && l.m !in Objs(fields[j]) {
        if j in l.fields { ChildObjs(l, Key(j)); }
        if k in l.fields { ChildObjs(l, Key(k)); }
      }
      forall i, j | i in fields && j in fields && i != j ensures Objs(fields[i]) !! Objs(fields[j]) {
        if i in l.fields { ChildObjs(l, Key(i)); }
        if j in l.fields { ChildObjs(l, Key(j)); }
      }
  }

  /** `c` is built from outside objects and those of the child it replaces at `w`. */
  ghost predicate Owned(l: Located, w: Walk, c: Located)
    requires Place(l, w)
  {
    Objs(c) * Objs(l) <= OldObjs(l, w)
  }

  lemma {:induction false} PutAtUnshared(l: Located, w: Walk, c: Located)
    requires Place(l, w) && Unshared(l) && Unshared(c) && Owned(l, w, c)
    ensures Unshared(LPutAt(l, w, c))
    ensures Objs(LPutAt(l, w, c)) <= Objs(l) + Objs(c)
    ensures Addr(LPutAt(l, w, c)) == Addr(l)
    decreases |w|
  {
    if |w| == 1 {
      PutUnshared(l, w[0], c);
      PutObjs(l, w[0], c);
    } else {
      var ch := LChild(l, w[0]).value;
      ChildObjs(l, w[0]);
      OldObjsInside(ch, w[1..]);
      PutAtUnshared(ch, w[1..], c);
      var ch' := LPutAt(ch, w[1..], c);
      PutUnshared(l, w[0], ch');
      PutObjs(l, w[0], ch');
    }
  }

  /** `mem'` differs from `mem`, on the objects of `mem`, only in the container `l`, which now holds `x` at `st`. */
  ghost predicate Written(mem: Mem, mem': Mem, l: Located, st: Step, x: GoVal)
    requires Takes(l, st)
  {
    && mem.slices.Keys <= mem'.slices.Keys && mem.maps.Keys <= mem'.maps.Keys
    && (forall a | a in mem.slices :: mem'.slices[a] ==
          if st.At? && l.a == a && st.index < |mem.slices[a]| then mem.slices[a][st.index := x] else mem.slices[a])
    && (forall m | m in mem.maps :: mem'.maps[m] ==
          if st.Key? && l.m == m then mem.maps[m][st.name := x] else mem.maps[m])
  }

  /** A tree whose objects are not touched stays as it is. */
  lemma {:induction false} FrameConsistent(mem: Mem, mem': Mem, l: Located, st: Step, x: GoVal, t: Located)
    requires Takes(l, st) && Written(mem, mem', l, st, x) && Consistent(mem, t) && Holder(l) !in Objs(t)
    ensures Consistent(mem', t)
    decreases t
  {
    match t
    case LSlice(a, items) =>
      forall i | 0 <= i < |items| ensures Consistent(mem', items[i]) {
        ChildObjs(t, At(i));
        FrameConsistent(mem, mem', l, st, x, items[i]);
      }
    case LMap(m, fields) =>
      forall k | k in fields ensures Consistent(mem', fields[k]) {
        ChildObjs(t, Key(k));
        FrameConsistent(mem, mem', l, st, x, fields[k]);
      }
    case _ =>
  }

  lemma PutConsistent(mem: Mem, mem': Mem, l: Located, st: Step, c: Located)
    requires Consistent(mem, l) && Unshared(l) && Takes(l, st)
    requires Written(mem, mem', l, st, Addr(c)) && Consistent(mem', c)
    ensures Consistent(mem', LPut(l, st, c))
  {
    match st
    case At(i) =>
      forall j | 0 <= j < |l.items| && j != i ensures Consistent(mem', l.items[j]) {
        ChildObjs(l, At(j));
        FrameConsistent(mem, mem', l, st, Addr(c), l.items[j]);
      }
    case Key(k) =>
      forall j | j in l.fields && j != k ensures Consistent(mem', l.fields[j]) {
        ChildObjs(l, Key(j));
        FrameConsistent(mem, mem', l, st, Addr(c), l.fields[j]);
      }
  }

  /** Writing deeper inside a child leaves this container and its other children alone. */
  lemma PutDeeper(mem: Mem, mem': Mem, l: Located, st: Step, ch': Located, inner: Located, st': Step, x: GoVal)
    requires Consistent(mem, l) && Unshared(l) && LChild(l, st).Some?
    requires Takes(inner, st') && Written(mem, mem', inner, st', x)
    requires Holder(inner) in Objs(LChild(l, st).value)
    requires Consistent(mem', ch') && Addr(ch') == Addr(LChild(l, st).value)
    ensures Consistent(mem', LPut(l, st, ch'))
  {
    hide Objs;
    ChildObjs(l, st);
    match st
    case At(i) =>
      forall j | 0 <= j < |l.items| && j != i ensures Consistent(mem', l.items[j]) {
        FrameConsistent(mem, mem', inner, st', x, l.items[j]);
      }
    case Key(k) =>
      forall j | j in l.fields && j != k ensures Consistent(mem', l.fields[j]) {
        FrameConsistent(mem, mem', inner, st', x, l.fields[j]);
      }
  }

  /** Writing one entry of one container, deep inside the tree, writes exactly that place. */
  lemma {:induction false} WriteChild(mem: Mem, mem': Mem, l: Located, w: Walk, c: Located)
    requires Consistent(mem, l) && Unshared(l) && Place(l, w)
    requires Unshared(c) && Consistent(mem', c) && Owned(l, w, c)
    requires Takes(Container(l, w), w[|w| - 1])
    requires Written(mem, mem', Container(l, w), w[|w| - 1], Addr(c))
    ensures Consistent(mem', LPutAt(l, w, c)) && Unshared(LPutAt(l, w, c))
    ensures Objs(LPutAt(l, w, c)) <= Objs(l) + Objs(c)
    ensures Addr(LPutAt(l, w, c)) == Addr(l)
    decreases |w|
  {
    hide Consistent, Unshared, Objs, Written, Addr, Takes;
    PutAtUnshared(l, w, c);
    if |w| == 1 {
      PutConsistent(mem, mem', l, w[0], c);
    } else {
      var ch := LChild(l, w[0]).value;
      ChildObjs(l, w[0]);
      OldObjsInside(ch, w[1..]);
      ChildConsistent(mem, l, w[0]);
      WriteChild(mem, mem', ch, w[1..], c);
      PutAtUnshared(ch, w[1..], c);
      PutDeeper(mem, mem', l, w[0], LPutAt(ch, w[1..], c), Container(l, w), w[|w| - 1], Addr(c));
    }
  }

  lemma ChildConsistent(mem: Mem, l: Located, st: Step)
    requires Consistent(mem, l) && LChild(l, st).Some?
    ensures Consistent(mem, LChild(l, st).value)
  {
  }

  // --------------------------------------------------- memory against trees

  lemma {:induction false} ConsistentObjs(mem: Mem, l: Located)
    requires Consistent(mem, l)
    ensures forall o | o in Objs(l) :: o in mem.slices.Keys + mem.maps.Keys
    decreases l
  {
    match l
    case LSlice(a, items) =>
      forall i | 0 <= i < |items| ensures forall o | o in Objs(items[i]) :: o in mem.slices.Keys + mem.maps.Keys {
        ConsistentObjs(mem, items[i]);
      }
    case LMap(m, fields) =>
      forall k | k in fields ensures forall o | o in Objs(fields[k]) :: o in mem.slices.Keys + mem.maps.Keys {
        ConsistentObjs(mem, fields[k]);
      }
    case _ =>
  }

  ghost predicate Extends(mem: Mem, mem': Mem) {
    && (forall a | a in mem.slices :: a in mem'.slices && mem'.slices[a] == mem.slices[a])
    && (forall m | m in mem.maps :: m in mem'.maps && mem'.maps[m] == mem.maps[m])
  }

  /** New objects do not disturb a tree. */
  lemma {:induction false} ExtendConsistent(mem: Mem, mem': Mem, l: Located)
    requires Consistent(mem, l) && Extends(mem, mem')
    ensures Consistent(mem', l)
    decreases l
  {
    match l
    case LSlice(a, items) =>
      forall i | 0 <= i < |items| ensures Consistent(mem', items[i]) {
        ExtendConsistent(mem, mem', items[i]);
      }
    case LMap(m, fields) =>
      forall k | k in fields ensures Consistent(mem', fields[k]) {
        ExtendConsistent(mem, mem', fields[k]);
      }
    case _ =>
  }

  lemma TreeChild(mem: Mem, l: Located, st: Step)
    requires Consistent(mem, l)
    ensures Child(Tree(l), st) == if LChild(l, st).Some? then Some(Tree(LChild(l, st).value)) else None
    ensures Takes(l, st) ==> Fits(Tree(l), st) && Tree(l) != Null
  {
  }

  lemma TreePut(l: Located, st: Step, c: Located)
    requires Takes(l, st) && Fits(Tree(l), st)
    ensures Tree(LPut(l, st, c)) == Put(Tree(l), st, Tree(c))
  {
    match st
    case At(i) =>
      assert Grow(Tree(l).items, i) == Tree(l).items;
      assert Tree(LPut(l, st, c)).items == Tree(l).items[i := Tree(c)];
    case Key(k) =>
      assert Tree(LPut(l, st, c)).fields == Tree(l).fields[k := Tree(c)];
  }

  /** Reading a place in memory reads the tree. */
  lemma {:induction false} TreeGet(mem: Mem, l: Located, w: Walk)
    requires Consistent(mem, l)
    ensures Get(Tree(l), w) == if LAt(l, w).Some? then Some(Tree(LAt(l, w).value)) else None
    ensures LAt(l, w).Some? ==> Consistent(mem, LAt(l, w).value)
    decreases |w|
  {
    if w != [] {
      TreeChild(mem, l, w[0]);
      if LChild(l, w[0]).Some? {
        TreeGet(mem, LChild(l, w[0]).value, w[1..]);
      }
    }
  }

  /** Replacing a place in memory writes the tree. */
  lemma {:induction false} TreePutAt(mem: Mem, l: Located, w: Walk, c: Located)
    requires Consistent(mem, l) && Place(l, w)
    ensures Set(Tree(l), w, Tree(c)) == Some(Tree(LPutAt(l, w, c)))
    decreases |w|
  {
    TreeChild(mem, l, w[0]);
    if |w| == 1 {
      TreePut(l, w[0], c);
      assert Set(ChildOrNull(Tree(l), w[0]), w[1..], Tree(c)) == Some(Tree(c));
    } else {
      var ch := LChild(l, w[0]).value;
      TreePutAt(mem, ch, w[1..], c);
      TreePut(l, w[0], LPutAt(ch, w[1..], c));
    }
  }

  // ----------------------------------------------------- walking and places

  lemma {:induction false} LAtSnoc(l: Located, w: Walk, st: Step)
    ensures LAt(l, w + [st]) == if LAt(l, w).Some? then LChild(LAt(l, w).value, st) else None
    decreases |w|
  {
    if w == [] {
      assert [] + [st] == [st] && [st][1..] == [];
    } else {
      assert (w + [st])[1..] == w[1..] + [st];
      if LChild(l, w[0]).Some? {
        LAtSnoc(LChild(l, w[0]).value, w[1..], st);
      }
    }
  }

  lemma {:induction false} PlaceSnoc(l: Located, w: Walk, st: Step)
    requires LAt(l, w).Some? && Takes(LAt(l, w).value, st)
    ensures Place(l, w + [st]) && Container(l, w + [st]) == LAt(l, w).value
    decreases |w|
  {
    if w == [] {
      assert [] + [st] == [st];
    } else {
      assert (w + [st])[1..] == w[1..] + [st];
      PlaceSnoc(LChild(l, w[0]).value, w[1..], st);
    }
  }

  lemma {:induction false} LAtPutAt(l: Located, w: Walk, c: Located)
    requires Place(l, w)
    ensures LAt(LPutAt(l, w, c), w) == Some(c)
    ensures Takes(Container(l, w), w[|w| - 1])
    decreases |w|
  {
    if |w| > 1 {
      LAtPutAt(LChild(l, w[0]).value, w[1..], c);
    }
  }

  /** After replacing the child at `w`, its place is still there, in a container with the same address. */
  lemma {:induction false} PlaceAfterPut(l: Located, w: Walk, c: Located)
    requires Place(l, w)
    ensures Place(LPutAt(l, w, c), w)
    ensures Addr(Container(LPutAt(l, w, c), w)) == Addr(Container(l, w))
    decreases |w|
  {
    if |w| > 1 {
      PlaceAfterPut(LChild(l, w[0]).value, w[1..], c);
    }
  }
}
