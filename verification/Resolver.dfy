/** The resolver: reading and writing nested maps and slices in place, by path. */
module ResolverModule {
  import opened Fieldpath
  import opened PathText
  import opened Values
  import opened GoHeap
  import opened Flatten
  import opened Interpolation
  import opened Resolution
  import Cel

  class Resolver {
    const resource: MapObj
    ghost var mem: Mem
    ghost var root: Located

    /** The objects of memory the resolver works on. */
    ghost var repr: set<object>

    /** Memory holds what `mem` says. */
    ghost predicate Mirrored()
      reads this, repr
    {
      repr == mem.slices.Keys + mem.maps.Keys && Reflects(mem)
    }

    /** Memory holds the tree `Tree(root)` below `resource`, without sharing. */
    ghost predicate Valid()
      reads this, repr
    {
      && Mirrored()
      && Consistent(mem, root)
      && Unshared(root)
      && Addr(root) == GMap(resource)
    }

    /** `NewResolver`, on a map whose nested contents are the tree `t`. */
    constructor (r: MapObj, ghost contents: Mem, ghost t: Located)
      requires Reflects(contents) && Consistent(contents, t) && Unshared(t) && Addr(t) == GMap(r)
      ensures Valid() && resource == r && root == t && mem == contents
    {
      resource, mem, root, repr := r, contents, t, contents.slices.Keys + contents.maps.Keys;
    }

    /** Writes one entry of one container: `p[key] = value`, `a[index] = value`, `updateParent`. */
    method UpdateParent(parent: GoVal, key: string, index: int, value: GoVal,
                        ghost w: Walk, ghost c: Located, ghost keep: Located)
      requires Valid() && Place(root, w) && Addr(Container(root, w)) == parent
      requires if parent.GMap? then w[|w| - 1] == Key(key) else index >= 0 && w[|w| - 1] == At(index)
      requires Consistent(mem, c) && Unshared(c) && Owned(root, w, c) && Addr(c) == value
      requires Consistent(mem, keep) && Objs(keep) !! Objs(root)
      modifies this`mem, this`root, this`repr, repr
      ensures Valid() && root == LPutAt(old(root), w, c)
      ensures repr == old(repr)
      ensures Consistent(mem, keep)
      ensures LAt(root, w) == Some(c)
    {
      hide Consistent, Unshared, Objs, LPutAt, LAt, Owned, Written, Place;
      ghost var before := mem;
      ContainerConsistent(mem, root, w);
      OldObjsInside(root, w);
      match parent {
        case GMap(m) => WriteMap(m, key, value);
        case GSlice(a) => WriteSlice(a, index, value);
      }
      OneEntryWritten(before, mem, Container(root, w), w[|w| - 1], value);
      EntryWritten(before, mem, root, w, c, keep);
      root := LPutAt(root, w, c);
    }

    method WriteMap(m: MapObj, key: string, value: GoVal)
      requires Mirrored() && m in mem.maps
      modifies this`mem, m
      ensures Mirrored()
      ensures mem == Mem(old(mem).slices, old(mem).maps[m := old(mem).maps[m][key := value]])
    {
      m.entries := m.entries[key := value];
      mem := mem.(maps := mem.maps[m := mem.maps[m][key := value]]);
    }

    method WriteSlice(a: array<GoVal>, index: int, value: GoVal)
      requires Mirrored() && a in mem.slices && 0 <= index < |mem.slices[a]|
      modifies this`mem, a
      ensures Mirrored()
      ensures mem == Mem(old(mem).slices[a := old(mem).slices[a][index := value]], old(mem).maps)
    {
      a[index] := value;
      mem := mem.(slices := mem.slices[a := mem.slices[a][index := value]]);
    }

    /** `make(map)` or `make([]interface{}, n)` followed by a copy. */
    method NewMap(entries: map<string, GoVal>) returns (m: MapObj)
      requires Mirrored()
      modifies this`mem, this`repr
      ensures Mirrored() && Extends(old(mem), mem)
      ensures m !in old(mem).maps && fresh(m) && repr == old(repr) + {m}
      ensures mem == old(mem).(maps := old(mem).maps[m := entries])
    {
      m := new MapObj(entries);
      assert m !in mem.maps;
      mem := mem.(maps := mem.maps[m := entries]);
      repr := repr + {m};
    }

    method NewSlice(contents: seq<GoVal>) returns (a: array<GoVal>)
      requires Mirrored()
      modifies this`mem, this`repr
      ensures Mirrored() && Extends(old(mem), mem)
      ensures a !in old(mem).slices && fresh(a) && repr == old(repr) + {a}
      ensures mem == old(mem).(slices := old(mem).slices[a := contents])
    {
      a := new GoVal[|contents|](i requires 0 <= i < |contents| => contents[i]);
      assert a[..] == contents;
      assert a !in mem.slices;
      mem := mem.(slices := mem.slices[a := contents]);
      repr := repr + {a};
    }

    /** The write still to be done, seen from the tree as it now is, has the outcome `goal`. */
    ghost predicate Pending(p: Walk, rest: Walk, x: Value, goal: Option<Value>)
      reads this
    {
      Set(Tree(root), p + rest, x) == goal
    }

    /** `handleArraySegment`: the slice at `p`, grown so that the index exists. */
    method HandleArraySegment(current: GoVal, parent: GoVal, index: nat, parentKey: string, parentIndex: int,
                              ghost p: Walk, ghost sub: Located, ghost keep: Located,
                              ghost rest: Walk, ghost x: Value, ghost goal: Option<Value>)
      returns (ok: bool, array_: array<GoVal>, ghost items: seq<Located>)
      requires Valid() && LAt(root, p) == Some(sub) && Addr(sub) == current
      requires p == [] || IsParent(p, parent, parentKey, parentIndex)
      requires p == [] ==> sub.LMap?
      requires Consistent(mem, keep) && Objs(keep) !! Objs(root)
      requires rest != [] && rest[0] == At(index) && Pending(p, rest, x, goal)
      modifies this`mem, this`root, this`repr, repr
      ensures ok <==> sub.LSlice? || sub.LNil?
      ensures !ok ==> root == old(root) && mem == old(mem)
      ensures ok && sub.LSlice? && index < |sub.items| ==>
        root == old(root) && mem == old(mem) && items == sub.items && array_ == sub.a
      ensures Valid() && fresh(repr - old(repr))
      ensures Consistent(mem, keep) && Objs(keep) !! Objs(root)
      ensures ok ==> index < |items| && LAt(root, p) == Some(LSlice(array_, items)) && Pending(p, rest, x, goal)
      ensures ok && !(sub.LSlice? && index < |sub.items|) ==> items[index] == LNil
    {
      match current {
        case GNil =>
          array_, items := Grown([], [], index, parent, parentKey, parentIndex, p, sub, keep, rest, x, goal);
          ok := true;
        case GSlice(a) =>
          ConsistentAt(mem, root, p);
          if index >= a.Length {
            array_, items := Grown(a[..], sub.items, index, parent, parentKey, parentIndex, p, sub, keep, rest, x,
                                   goal);
          } else {
            array_, items := a, sub.items;
          }
          ok := true;
        case _ =>
          ok, items := false, [];
          array_ := new GoVal[0];
      }
    }

    /** The last container on the walk `p`, and where in it the walk went on. */
    ghost predicate IsParent(p: Walk, parent: GoVal, parentKey: string, parentIndex: int)
      reads this
    {
      && Place(root, p)
      && Addr(Container(root, p)) == parent
      && if parent.GMap? then p[|p| - 1] == Key(parentKey) else parentIndex >= 0 && p[|p| - 1] == At(parentIndex)
    }

    /** The reallocation: a longer slice with the old elements, put in the old one's place. */
    method Grown(old_: seq<GoVal>, ghost oldItems: seq<Located>, index: nat,
                 parent: GoVal, parentKey: string, parentIndex: int,
                 ghost p: Walk, ghost sub: Located, ghost keep: Located,
                 ghost rest: Walk, ghost x: Value, ghost goal: Option<Value>)
      returns (array_: array<GoVal>, ghost items: seq<Located>)
      requires Valid() && LAt(root, p) == Some(sub) && p != []
      requires IsParent(p, parent, parentKey, parentIndex)
      requires Consistent(mem, keep) && Objs(keep) !! Objs(root)
      requires |old_| <= index && |old_| == |oldItems|
      requires
        || (sub == LNil && oldItems == [])
        || (sub.LSlice? && sub.items == oldItems && sub.a in mem.slices && mem.slices[sub.a] == old_)
      requires rest != [] && rest[0] == At(index) && Pending(p, rest, x, goal)
      modifies this`mem, this`root, this`repr, repr
      ensures Valid() && fresh(repr - old(repr))
      ensures Consistent(mem, keep) && Objs(keep) !! Objs(root)
      ensures index < |items| && items[index] == LNil
      ensures LAt(root, p) == Some(LSlice(array_, items)) && Pending(p, rest, x, goal)
    {
      var contents := old_ + seq(index + 1 - |old_|, _ => GNil);
      array_ := NewSlice(contents);
      items := oldItems + seq(index + 1 - |old_|, _ => LNil);
      ghost var c := LSlice(array_, items);
      GrownSlice(old(mem), mem, root, p, sub, c, old_, contents, keep);
      GrownPending(mem, root, p, sub, c, rest, x);
      UpdateParent(parent, parentKey, parentIndex, GSlice(array_), p, c, keep);
      PutAtUnshared(old(root), p, c);
    }

    /** Where nothing is yet, an empty slice or map of the kind the next step needs. */
    method CreateNext(parent: GoVal, key: string, index: int, nextIsArray: bool,
                      ghost w: Walk, ghost keep: Located,
                      ghost rest: Walk, ghost x: Value, ghost goal: Option<Value>)
      returns (current: GoVal, ghost sub: Located)
      requires Valid() && w != [] && IsParent(w, parent, key, index)
      requires LAt(root, w).None? || LAt(root, w) == Some(LNil)
      requires Consistent(mem, keep) && Objs(keep) !! Objs(root)
      requires rest != [] && nextIsArray == rest[0].At? && Pending(w, rest, x, goal)
      modifies this`mem, this`root, this`repr, repr
      ensures Valid() && fresh(repr - old(repr))
      ensures Consistent(mem, keep) && Objs(keep) !! Objs(root)
      ensures LAt(root, w) == Some(sub) && Addr(sub) == current && Empty(sub, rest[0])
      ensures IsParent(w, parent, key, index) && Pending(w, rest, x, goal)
    {
      ghost var before := mem;
      if nextIsArray {
        var a := NewSlice([]);
        current, sub := GSlice(a), LSlice(a, []);
        assert a !in before.slices;
      } else {
        var m := NewMap(map[]);
        current, sub := GMap(m), LMap(m, map[]);
        assert m !in before.maps;
      }
      FreshContainer(before, mem, root, w, sub, keep);
      CreatedPending(mem, root, w, sub, rest, x);
      UpdateParent(parent, key, index, current, w, sub, keep);
      PutAtUnshared(old(root), w, sub);
      PlaceAfterPut(old(root), w, sub);
    }

    /** Where the loop of `setValueAtPath` stands before a segment: at `sub`, reached by `p`, with
        `rest` to go; either nothing was changed yet or `sub` was just created. */
    ghost predicate Walking(root0: Located, mem0: Mem, p: Walk, rest: Walk, sub: Located, current: GoVal,
                            parent: GoVal, parentKey: string, parentIndex: int,
                            vl: Located, goal: Option<Value>)
      reads this, repr
    {
      && Valid()
      && LAt(root, p) == Some(sub) && Addr(sub) == current && sub != LNil
      && (p == [] ==> sub.LMap?)
      && (p != [] ==> IsParent(p, parent, parentKey, parentIndex))
      && Consistent(mem, vl) && Unshared(vl) && Objs(vl) !! Objs(root)
      && rest != [] && Pending(p, rest, Tree(vl), goal)
      && ((root == root0 && mem == mem0) || Empty(sub, rest[0]))
    }

    lemma StartWalking(steps: Walk, vl: Located)
      requires Valid() && steps != [] && Consistent(mem, vl) && Unshared(vl) && Objs(vl) !! Objs(root)
      ensures Walking(root, mem, [], steps, root, GMap(resource), GMap(resource), "", 0, vl,
                      Set(Tree(root), steps, Tree(vl)))
    {
      assert [] + steps == steps;
    }

    /** The last segment: the value goes into the container. */
    method Finish(container: GoVal, key: string, index: int, value: GoVal,
                  ghost p: Walk, ghost st: Step, ghost sub: Located, ghost vl: Located, ghost goal: Option<Value>)
      requires Valid() && LAt(root, p) == Some(sub) && Addr(sub) == container && Takes(sub, st)
      requires if container.GMap? then st == Key(key) else index >= 0 && st == At(index)
      requires Consistent(mem, vl) && Unshared(vl) && Objs(vl) !! Objs(root) && Addr(vl) == value
      requires Pending(p, [st], Tree(vl), goal)
      modifies this`mem, this`root, this`repr, repr
      ensures Valid() && repr == old(repr) && goal == Some(Tree(root))
    {
      PlaceSnoc(root, p, st);
      TreePutAt(mem, root, p + [st], vl);
      UpdateParent(container, key, index, value, p + [st], vl, LNil);
    }

    /** Not the last segment: on to the child, created first where nothing is yet
        (`getOrCreateNext` and its counterpart for maps). */
    method Descend(container: GoVal, key: string, index: int, child: GoVal, nextIsArray: bool,
                   ghost root0: Located, ghost mem0: Mem, ghost p: Walk, ghost st: Step, ghost rest: Walk,
                   ghost csub: Located, ghost vl: Located, ghost goal: Option<Value>)
      returns (current: GoVal, ghost sub: Located)
      requires Valid() && LAt(root, p) == Some(csub) && Addr(csub) == container && Takes(csub, st)
      requires if container.GMap? then st == Key(key) else index >= 0 && st == At(index)
      requires child == if LChild(csub, st).Some? then Addr(LChild(csub, st).value) else GNil
      requires Consistent(mem, vl) && Unshared(vl) && Objs(vl) !! Objs(root)
      requires rest != [] && nextIsArray == rest[0].At? && Pending(p, [st] + rest, Tree(vl), goal)
      requires (root == root0 && mem == mem0) || child == GNil
      modifies this`mem, this`root, this`repr, repr
      ensures fresh(repr - old(repr))
      ensures Walking(root0, mem0, p + [st], rest, sub, current, container, key, index, vl, goal)
    {
      ghost var w := p + [st];
      PlaceSnoc(root, p, st);
      LAtSnoc(root, p, st);
      assert p + ([st] + rest) == w + rest;
      if child == GNil {
        current, sub := CreateNext(container, key, index, nextIsArray, w, vl, rest, Tree(vl), goal);
      } else {
        current, sub := child, LChild(csub, st).value;
      }
    }

    /** One segment of the walk: `done` when it was the last one or the walk cannot go on. */
    method IndexStep(array_: GoVal, parent: GoVal, index: nat, parentKey: string, parentIndex: int, value: GoVal,
                     last: bool, nextIsArray: bool, ghost root0: Located, ghost mem0: Mem, ghost p: Walk,
                     ghost rest: Walk, ghost sub: Located, ghost vl: Located, ghost goal: Option<Value>)
      returns (ok: bool, current: GoVal, newArray: GoVal, ghost next: Located)
      requires Walking(root0, mem0, p, [At(index)] + rest, sub, array_, parent, parentKey, parentIndex, vl, goal)
      requires Addr(vl) == value && last == (rest == []) && (!last ==> nextIsArray == rest[0].At?)
      modifies this`mem, this`root, this`repr, repr
      ensures Valid() && fresh(repr - old(repr))
      ensures !ok ==> goal == None && root == root0 && mem == mem0
      ensures ok && last ==> goal == Some(Tree(root))
      ensures ok && !last ==> newArray.GSlice?
      ensures ok && !last ==>
        Walking(root0, mem0, p + [At(index)], rest, next, current, newArray, parentKey, index, vl, goal)
    {
      hide Consistent, Unshared, Objs, Set, Fits, Place, Container, LAt;
      ghost var st: Step := At(index);
      WrongKind(mem, root, p, sub, [st] + rest, Tree(vl));
      var a;
      ghost var items;
      current, newArray, next := array_, array_, sub;
      ok, a, items := HandleArraySegment(array_, parent, index, parentKey, parentIndex,
                                         p, sub, vl, [st] + rest, Tree(vl), goal);
      if ok {
        newArray := GSlice(a);
        if last {
          assert [st] + rest == [st];
          Finish(newArray, "", index, value, p, st, LSlice(a, items), vl, goal);
        } else {
          SliceEntry(mem, root, p, LSlice(a, items), index);
          current, next := Descend(newArray, parentKey, index, a[index], nextIsArray,
                                   root0, mem0, p, st, rest, LSlice(a, items), vl, goal);
        }
      }
    }

    method KeyStep(map_: GoVal, name: string, parent: GoVal, parentKey: string, parentIndex: int, value: GoVal,
                   last: bool, nextIsArray: bool, ghost root0: Located, ghost mem0: Mem, ghost p: Walk,
                   ghost rest: Walk, ghost sub: Located, ghost vl: Located, ghost goal: Option<Value>)
      returns (ok: bool, current: GoVal, ghost next: Located)
      requires Walking(root0, mem0, p, [Key(name)] + rest, sub, map_, parent, parentKey, parentIndex, vl, goal)
      requires Addr(vl) == value && last == (rest == []) && (!last ==> nextIsArray == rest[0].At?)
      modifies this`mem, this`root, this`repr, repr
      ensures Valid() && fresh(repr - old(repr))
      ensures !ok ==> goal == None && root == root0 && mem == mem0
      ensures ok && last ==> goal == Some(Tree(root))
      ensures ok && !last ==> map_.GMap?
      ensures ok && !last ==>
        Walking(root0, mem0, p + [Key(name)], rest, next, current, map_, name, parentIndex, vl, goal)
    {
      hide Consistent, Unshared, Objs, Set, Fits, Place, Container, LAt;
      ghost var st: Step := Key(name);
      WrongKind(mem, root, p, sub, [st] + rest, Tree(vl));
      current, next := map_, sub;
      ok := map_.GMap?;
      if ok {
        if last {
          assert [st] + rest == [st];
          Finish(map_, name, 0, value, p, st, sub, vl, goal);
        } else {
          MapEntries(mem, root, p, sub);
          var child := if name in map_.m.entries then map_.m.entries[name] else GNil;
          current, next := Descend(map_, name, parentIndex, child, nextIsArray, root0, mem0, p, st, rest, sub, vl,
                                   goal);
        }
      }
    }

    /** The loop over the segments. */
    method Assign(segments: seq<Segment>, value: GoVal, ghost vl: Located) returns (ok: bool)
      requires Valid() && segments != []
      requires Consistent(mem, vl) && Unshared(vl) && Addr(vl) == value && Objs(vl) !! Objs(root)
      modifies this`mem, this`root, this`repr, repr
      ensures Valid() && fresh(repr - old(repr))
      ensures ok <==> Set(Tree(old(root)), StepsOf(segments), Tree(vl)).Some?
      ensures ok ==> Set(Tree(old(root)), StepsOf(segments), Tree(vl)) == Some(Tree(root))
      ensures !ok ==> root == old(root) && mem == old(mem)
    {
      hide Consistent, Unshared, Objs, Set, Fits, Place, Container, LAt, Walking;
      var parent, current := GMap(resource), GMap(resource);
      var parentKey, parentIndex, i := "", 0, 0;
      ghost var steps := StepsOf(segments);
      ghost var goal := Set(Tree(root), steps, Tree(vl));
      ghost var p: Walk, sub := [], root;
      StartWalking(steps, vl);
      assert steps[0..] == steps;
      while true
        invariant 0 <= i < |segments|
        invariant fresh(repr - old(repr))
        invariant Walking(old(root), old(mem), p, steps[i..], sub, current, parent, parentKey, parentIndex, vl, goal)
        decreases |segments| - i
      {
        var segment, last := segments[i], i == |segments| - 1;
        var nextIsArray := !last && segments[i + 1].index >= 0;
        assert steps[i..] == [steps[i]] + steps[i + 1..];
        assert !last ==> steps[i + 1..][0] == StepOf(segments[i + 1]);
        if segment.index >= 0 {
          ok, current, parent, sub := IndexStep(current, parent, segment.index, parentKey, parentIndex, value, last,
                                                nextIsArray,
                                                old(root), old(mem), p, steps[i + 1..], sub, vl, goal);
          parentIndex := segment.index;
        } else {
          var map_ := current;
          ok, current, sub := KeyStep(map_, segment.name, parent, parentKey, parentIndex, value, last, nextIsArray,
                                      old(root), old(mem), p, steps[i + 1..], sub, vl, goal);
          parent, parentKey := map_, segment.name;
        }
        if !ok || last {
          return ok;
        }
        p := p + [steps[i]];
        i := i + 1;
      }
    }

    /** `setValueAtPath`. */
    method SetValueAtPath(path: string, value: GoVal, ghost vl: Located) returns (ok: bool)
      requires Valid() && Parse(path) != Spins
      requires Consistent(mem, vl) && Unshared(vl) && Addr(vl) == value && Objs(vl) !! Objs(root)
      modifies this`mem, this`root, this`repr, repr
      ensures Valid() && fresh(repr - old(repr))
      ensures ok <==> WritePath(Tree(old(root)), path, Tree(vl)).Some?
      ensures ok ==> WritePath(Tree(old(root)), path, Tree(vl)) == Some(Tree(root))
      ensures !ok ==> root == old(root) && mem == old(mem)
    {
      hide Consistent, Unshared, Objs, Set, Parse, Tree;
      var parser := new Parser(path);
      var parsed := parser.Run();
      if parsed.SyntaxError? {
        return false;
      }
      if parsed.segments == [] {
        return true;
      }
      ok := Assign(parsed.segments, value, vl);
    }

    /** `getValueFromPath`. */
    method GetValueFromPath(path: string) returns (value: GoVal, found: bool, ghost at: Located)
      requires Valid() && Parse(SkipDot(path)) != Spins
      ensures Valid()
      ensures found <==> ReadPath(Tree(root), path).Some?
      ensures found ==> ReadPath(Tree(root), path) == Some(Tree(at)) && Addr(at) == value && Consistent(mem, at)
    {
      hide Parse;
      value, at := GMap(resource), root;
      var parser := new Parser(if path != "" && path[0] == '.' then path[1..] else path);
      var parsed := parser.Run();
      if parsed.SyntaxError? {
        return value, false, at;
      }
      var segments := parsed.segments;
      for i := 0 to |segments|
        invariant Consistent(mem, at) && Addr(at) == value
        invariant Get(Tree(root), StepsOf(segments)) == Get(Tree(at), StepsOf(segments)[i..])
      {
        ghost var rest := StepsOf(segments)[i..];
        assert rest[0] == StepOf(segments[i]) && rest[1..] == StepsOf(segments)[i + 1..];
        found, value, at := ReadStep(value, segments[i], at);
        if !found {
          return;
        }
      }
      found := true;
    }

    /** One segment of the walk. */
    method ReadStep(current: GoVal, segment: Segment, ghost l: Located)
      returns (found: bool, child: GoVal, ghost at: Located)
      requires Valid() && Consistent(mem, l) && Addr(l) == current
      ensures Child(Tree(l), StepOf(segment)) == if found then Some(Tree(at)) else None
      ensures found ==> Consistent(mem, at) && Addr(at) == child
    {
      TreeChild(mem, l, StepOf(segment));
      child, at := current, l;
      if segment.index >= 0 {
        if !current.GSlice? || segment.index >= current.a.Length {
          return false, child, at;
        }
        child := current.a[segment.index];
      } else {
        if !current.GMap? || segment.name !in current.m.entries {
          return false, child, at;
        }
        child := current.m.entries[segment.name];
      }
      found, at := true, LChild(l, StepOf(segment)).value;
    }

    // ------------------------------------------------------ values and fields

    /** A copy of its own of a resolved value. */
    method Materialise(v: Value) returns (g: GoVal, ghost l: Located)
      requires Mirrored()
      modifies this`mem, this`repr
      ensures Mirrored() && Extends(old(mem), mem)
      ensures old(repr) <= repr && fresh(repr - old(repr))
      ensures Copied(mem, old(repr), v, g, l)
      decreases v, 1
    {
      match v
      case Null => g, l := GNil, LNil;
      case Arr(items) => g, l := MaterialiseItems(v, items);
      case Obj(fields) => g, l := MaterialiseFields(v, fields);
      case _ => g, l := GScalar(v), LScalar(v);
    }

    method MaterialiseItems(v: Value, items: seq<Value>) returns (g: GoVal, ghost l: Located)
      requires Mirrored() && v == Arr(items)
      modifies this`mem, this`repr
      ensures Mirrored() && Extends(old(mem), mem)
      ensures old(repr) <= repr && fresh(repr - old(repr))
      ensures Copied(mem, old(repr), v, g, l)
      decreases v, 0
    {
      hide Copied;
      var contents: seq<GoVal> := [];
      ghost var ls: seq<Located> := [];
      for i := 0 to |items|
        invariant Mirrored() && Extends(old(mem), mem)
        invariant old(repr) <= repr && fresh(repr - old(repr))
        invariant CopiedItems(mem, old(repr), items[..i], contents, ls)
      {
        ghost var before, had := mem, repr;
        var c;
        ghost var cl;
        c, cl := Materialise(items[i]);
        CopiedOneMore(before, mem, old(repr), had, items[..i], contents, ls, items[i], c, cl);
        assert items[..i + 1] == items[..i] + [items[i]];
        contents, ls := contents + [c], ls + [cl];
      }
      assert items[..|items|] == items;
      ghost var before := mem;
      var a := NewSlice(contents);
      g, l := GSlice(a), LSlice(a, ls);
      CopiedSlice(before, mem, old(repr), items, contents, ls, a);
    }

    method MaterialiseFields(v: Value, fields: map<string, Value>) returns (g: GoVal, ghost l: Located)
      requires Mirrored() && v == Obj(fields)
      modifies this`mem, this`repr
      ensures Mirrored() && Extends(old(mem), mem)
      ensures old(repr) <= repr && fresh(repr - old(repr))
      ensures Copied(mem, old(repr), v, g, l)
      decreases v, 0
    {
      hide Copied, CopiedFields, Extends;
      var entries;
      ghost var ls;
      entries, ls := MaterialiseEntries(v, fields);
      ghost var before := mem;
      var m := NewMap(entries);
      g, l := GMap(m), LMap(m, ls);
      CopiedMap(before, mem, old(repr), fields, entries, ls, m);
      ExtendsTrans(old(mem), before, mem);
    }

    method MaterialiseEntries(v: Value, fields: map<string, Value>)
      returns (entries: map<string, GoVal>, ghost ls: map<string, Located>)
      requires Mirrored() && v == Obj(fields)
      modifies this`mem, this`repr
      ensures Mirrored() && Extends(old(mem), mem)
      ensures old(repr) <= repr && fresh(repr - old(repr))
      ensures CopiedFields(mem, old(repr), fields, entries, ls) && entries.Keys == fields.Keys
      decreases v, 0, 1
    {
      hide Copied, CopiedFields, Extends, Mirrored;
      entries, ls := map[], map[];
      var todo := fields.Keys;
      NothingCopied(mem, repr, fields);
      while todo != {}
        invariant todo <= fields.Keys && entries.Keys == fields.Keys - todo
        invariant Mirrored() && Extends(old(mem), mem)
        invariant old(repr) <= repr && fresh(repr - old(repr))
        invariant CopiedFields(mem, old(repr), fields, entries, ls)
        decreases |todo|
      {
        var k :| k in todo;
        entries, ls := MaterialiseField(v, fields, k, entries, ls, old(mem), old(repr));
        todo := todo - {k};
      }
    }

    method MaterialiseField(v: Value, fields: map<string, Value>, k: string, entries: map<string, GoVal>,
                            ghost ls: map<string, Located>, ghost mem0: Mem, ghost base: set<object>)
      returns (entries': map<string, GoVal>, ghost ls': map<string, Located>)
      requires Mirrored() && v == Obj(fields) && k in fields
      requires CopiedFields(mem, base, fields, entries, ls) && Extends(mem0, mem) && base <= repr
      modifies this`mem, this`repr
      ensures Mirrored() && Extends(mem0, mem)
      ensures old(repr) <= repr && fresh(repr - old(repr))
      ensures CopiedFields(mem, base, fields, entries', ls') && entries'.Keys == entries.Keys + {k}
      decreases v, 0, 0
    {
      hide Copied, CopiedFields, Extends;
      var c;
      ghost var cl;
      c, cl := Materialise(fields[k]);
      CopiedOneMoreField(old(mem), mem, base, old(repr), fields, entries, ls, k, c, cl);
      ExtendsTrans(mem0, old(mem), mem);
      entries', ls' := entries[k := c], ls[k := cl];
    }

    /** A fresh copy of a value, written at a path. */
    method SetResolved(path: string, x: Value) returns (ok: bool)
      requires Valid() && Parse(path) != Spins
      modifies this`mem, this`root, this`repr, repr
      ensures Valid() && fresh(repr - old(repr))
      ensures ok <==> WritePath(Tree(old(root)), path, x).Some?
      ensures ok ==> WritePath(Tree(old(root)), path, x) == Some(Tree(root))
      ensures !ok ==> root == old(root)
    {
      hide Consistent, Unshared, Objs, WritePath, Parse, Tree;
      ghost var before := mem;
      var g;
      ghost var l;
      g, l := Materialise(x);
      ExtendConsistent(before, mem, root);
      ConsistentObjs(before, root);
      ok := SetValueAtPath(path, g, l);
    }

    /** `resolveField`. */
    method ResolveOne(field: FieldDescriptor, env: Env) returns (resolved: bool)
      requires Valid() && Parse(field.path) != Spins && Parse(SkipDot(field.path)) != Spins
      requires field.standalone ==> field.expressions != []
      modifies this`mem, this`root, this`repr, repr
      ensures Valid() && fresh(repr - old(repr))
      ensures resolved <==> ResolveField(Tree(old(root)), field, env).Some?
      ensures resolved ==> ResolveField(Tree(old(root)), field, env) == Some(Tree(root))
      ensures !resolved ==> root == old(root)
    {
      hide Consistent, Unshared, Objs, WritePath, ReadPath, Parse, Trim;
      var value, found;
      ghost var at;
      value, found, at := GetValueFromPath(field.path);
      if !found {
        return false;
      }
      if field.standalone {
        var key := Trim(field.expressions[0]);
        if key !in env.data {
          return false;
        }
        resolved := SetResolved(field.path, env.data[key]);
      } else {
        StringInMemory(mem, at);
        if !(value.GScalar? && value.v.Str?) {
          return false;
        }
        var known, replaced := Interpolate(value.v.s, field.expressions, env);
        if !known {
          return false;
        }
        resolved := SetResolved(field.path, Str(replaced));
      }
    }

    /** The loop of `resolveField` over the expressions of a mixed string. */
    method Interpolate(strValue: string, expressions: seq<string>, env: Env) returns (known: bool, replaced: string)
      ensures known <==> AllKnown(expressions, env)
      ensures known ==> replaced == ReplaceInOrder(strValue, expressions, TrimmedPrint(env))
    {
      hide Trim, ReplaceAll;
      replaced := strValue;
      for i := 0 to |expressions|
        invariant forall j | 0 <= j < i :: Trim(expressions[j]) in env.data
        invariant ReplaceInOrder(strValue, expressions, TrimmedPrint(env)) ==
          ReplaceInOrder(replaced, expressions[i..], TrimmedPrint(env))
      {
        var key := Trim(expressions[i]);
        if key !in env.data {
          return false, "";
        }
        assert expressions[i..][0] == expressions[i] && expressions[i..][1..] == expressions[i + 1..];
        replaced := ReplaceAll(replaced, Cel.Span(expressions[i]), env.format(env.data[key]));
      }
      known := true;
    }

    /** `Resolve`; the number of errors is the number of fields that were not resolved. */
    method Resolve(expressions: seq<FieldDescriptor>, env: Env) returns (resolved: nat, errors: nat)
      requires Valid() && Usable(expressions)
      requires forall i | 0 <= i < |expressions| ::
        Parse(expressions[i].path) != Spins && Parse(SkipDot(expressions[i].path)) != Spins
      modifies this`mem, this`root, this`repr, repr
      ensures Valid() && fresh(repr - old(repr))
      ensures Summary(Tree(root), resolved) == ResolveAll(Tree(old(root)), expressions, env)
      ensures resolved + errors == |expressions|
    {
      hide Consistent, Unshared, Objs, ResolveField, Parse;
      resolved, errors := 0, 0;
      for i := 0 to |expressions|
        invariant Valid() && fresh(repr - old(repr))
        invariant Summary(Tree(root), resolved) == ResolveAll(Tree(old(root)), expressions[..i], env)
        invariant resolved + errors == i
      {
        var done := ResolveOne(expressions[i], env);
        assert expressions[..i + 1][..i] == expressions[..i];
        if done {
          resolved := resolved + 1;
        } else {
          errors := errors + 1;
        }
      }
      assert expressions[..|expressions|] == expressions;
    }
  }

  /** A value of the wrong kind on the way makes the write fail. */
  lemma WrongKind(mem: Mem, root: Located, p: Walk, sub: Located, rest: Walk, x: Value)
    requires Consistent(mem, root) && LAt(root, p) == Some(sub) && rest != []
    ensures (if rest[0].At? then !sub.LSlice? && !sub.LNil? else !sub.LMap? && !sub.LNil?) ==>
      Set(Tree(root), p + rest, x) == None
  {
    TreeGet(mem, root, p);
    if !Fits(Tree(sub), rest[0]) {
      assert (p + rest)[..|p|] == p && (p + rest)[|p|] == rest[0];
      SetFailsIff(Tree(root), p + rest, x);
    }
  }

  lemma SliceEntry(mem: Mem, root: Located, p: Walk, sub: Located, i: nat)
    requires Consistent(mem, root) && LAt(root, p) == Some(sub) && sub.LSlice? && i < |sub.items|
    ensures sub.a in mem.slices && i < |mem.slices[sub.a]| && mem.slices[sub.a][i] == Addr(sub.items[i])
  {
    ConsistentAt(mem, root, p);
  }

  lemma MapEntries(mem: Mem, root: Located, p: Walk, sub: Located)
    requires Consistent(mem, root) && LAt(root, p) == Some(sub) && sub.LMap?
    ensures sub.m in mem.maps && mem.maps[sub.m].Keys == sub.fields.Keys
    ensures forall k | k in sub.fields :: mem.maps[sub.m][k] == Addr(sub.fields[k])
  {
    ConsistentAt(mem, root, p);
  }

  /** The container has nothing in it and is of the kind the step needs. */
  ghost predicate Empty(l: Located, st: Step) {
    if st.At? then l.LSlice? && l.items == [] else l.LMap? && l.fields == map[]
  }

  lemma FreshContainer(mem: Mem, mem': Mem, root: Located, w: Walk, c: Located, keep: Located)
    requires Consistent(mem, root) && Place(root, w) && Extends(mem, mem') && Consistent(mem, keep)
    requires (c.LSlice? && c.items == [] && c.a !in mem.slices && c.a in mem'.slices && mem'.slices[c.a] == []) ||
             (c.LMap? && c.fields == map[] && c.m !in mem.maps && c.m in mem'.maps && mem'.maps[c.m] == map[])
    ensures Consistent(mem', root) && Consistent(mem', keep)
    ensures Consistent(mem', c) && Unshared(c) && Owned(root, w, c) && Objs(keep) !! Objs(c)
  {
    ExtendConsistent(mem, mem', root);
    ExtendConsistent(mem, mem', keep);
    ConsistentObjs(mem, root);
    ConsistentObjs(mem, keep);
    assert Objs(c) == {Holder(c)};
  }

  lemma CreatedPending(mem: Mem, root: Located, w: Walk, c: Located, rest: Walk, x: Value)
    requires Consistent(mem, root) && Place(root, w) && rest != [] && Empty(c, rest[0])
    requires LAt(root, w).None? || LAt(root, w) == Some(LNil)
    ensures Set(Tree(LPutAt(root, w, c)), w + rest, x) == Set(Tree(root), w + rest, x)
  {
    TreePutAt(mem, root, w, c);
    NothingAt(mem, root, w);
    assert Tree(c) == if rest[0].At? then Arr([]) else Obj(map[]);
    GrownTakesSame(Null, Tree(c), rest, x);
    SetAfterSet(Tree(root), w, Tree(c), rest, x);
  }

  lemma {:induction false} NothingAt(mem: Mem, root: Located, w: Walk)
    requires Consistent(mem, root) && Place(root, w)
    requires LAt(root, w).None? || LAt(root, w) == Some(LNil)
    ensures SubAt(Tree(root), w) == Null
    decreases |w|
  {
    TreeChild(mem, root, w[0]);
    if |w| == 1 {
      assert SubAt(Tree(root), w) == SubAt(ChildOrNull(Tree(root), w[0]), []);
    } else {
      NothingAt(mem, LChild(root, w[0]).value, w[1..]);
    }
  }

  lemma {:induction false} ConsistentAt(mem: Mem, l: Located, w: Walk)
    requires Consistent(mem, l) && LAt(l, w).Some?
    ensures Consistent(mem, LAt(l, w).value)
    decreases |w|
  {
    if w != [] {
      ChildConsistent(mem, l, w[0]);
      ConsistentAt(mem, LChild(l, w[0]).value, w[1..]);
    }
  }

  lemma {:induction false} UnsharedAt(l: Located, w: Walk)
    requires Unshared(l) && LAt(l, w).Some?
    ensures Unshared(LAt(l, w).value) && Objs(LAt(l, w).value) <= Objs(l)
    decreases |w|
  {
    if w != [] {
      ChildObjs(l, w[0]);
      UnsharedAt(LChild(l, w[0]).value, w[1..]);
    }
  }

  lemma {:induction false} OldObjsAt(l: Located, w: Walk)
    requires Place(l, w)
    ensures OldObjs(l, w) == if LAt(l, w).Some? then Objs(LAt(l, w).value) else {}
    decreases |w|
  {
    if |w| > 1 {
      OldObjsAt(LChild(l, w[0]).value, w[1..]);
    }
  }

  /** The longer slice is a tree of its own, made of a new object and the old elements. */
  lemma GrownSlice(mem: Mem, mem': Mem, root: Located, p: Walk, sub: Located, c: Located,
                   old_: seq<GoVal>, contents: seq<GoVal>, keep: Located)
    requires Consistent(mem, root) && Unshared(root) && Place(root, p) && LAt(root, p) == Some(sub)
    requires Extends(mem, mem') && c.LSlice? && c.a !in mem.slices && c.a in mem'.slices && mem'.slices[c.a] == contents
    requires |old_| <= |contents| == |c.items| && contents[..|old_|] == old_
    requires forall i | |old_| <= i < |contents| :: contents[i] == GNil && c.items[i] == LNil
    requires (sub == LNil && old_ == []) ||
             (sub.LSlice? && |sub.items| == |old_| && c.items[..|old_|] == sub.items
              && sub.a in mem.slices && mem.slices[sub.a] == old_)
    requires Consistent(mem, keep) && Objs(keep) !! Objs(root)
    ensures Consistent(mem', root) && Consistent(mem', keep)
    ensures Consistent(mem', c) && Unshared(c) && Owned(root, p, c)
    ensures Objs(keep) !! Objs(c)
  {
    assert c.a as object !in Objs(root) && c.a as object !in Objs(keep) by {
      ConsistentObjs(mem, root);
      ConsistentObjs(mem, keep);
    }
    hide Consistent, Unshared, Objs, Place, LAt, OldObjs;
    ExtendConsistent(mem, mem', root);
    ExtendConsistent(mem, mem', keep);
    ConsistentAt(mem', root, p);
    UnsharedAt(root, p);
    OldObjsAt(root, p);
    GrownItems(mem', sub, c, old_, contents);
  }

  lemma GrownItems(mem: Mem, sub: Located, c: Located, old_: seq<GoVal>, contents: seq<GoVal>)
    requires Consistent(mem, sub) && Unshared(sub) && c.LSlice? && c.a as object !in Objs(sub)
    requires c.a in mem.slices && mem.slices[c.a] == contents
    requires |old_| <= |contents| == |c.items| && contents[..|old_|] == old_
    requires forall i | |old_| <= i < |contents| :: contents[i] == GNil && c.items[i] == LNil
    requires (sub == LNil && old_ == []) ||
             (sub.LSlice? && |sub.items| == |old_| && c.items[..|old_|] == sub.items
              && sub.a in mem.slices && mem.slices[sub.a] == old_)
    ensures Consistent(mem, c) && Unshared(c) && Objs(c) <= {c.a as object} + Objs(sub)
  {
    forall i | 0 <= i < |c.items|
      ensures contents[i] == Addr(c.items[i]) && Consistent(mem, c.items[i]) && Unshared(c.items[i])
      ensures Objs(c.items[i]) <= Objs(sub)
    {
      if i < |old_| {
        assert c.items[i] == c.items[..|old_|][i] == sub.items[i] && contents[i] == contents[..|old_|][i];
        ChildObjs(sub, At(i));
      }
    }
    forall i, j | 0 <= i < j < |c.items| ensures Objs(c.items[i]) !! Objs(c.items[j]) {
      if j < |old_| {
        assert c.items[i] == c.items[..|old_|][i] && c.items[j] == c.items[..|old_|][j];
      }
    }
  }

  lemma GrownPending(mem: Mem, root: Located, p: Walk, sub: Located, c: Located, rest: Walk, x: Value)
    requires Consistent(mem, root) && Place(root, p) && LAt(root, p) == Some(sub)
    requires rest != [] && rest[0].At? && c.LSlice? && |c.items| == rest[0].index + 1
    requires var n := if sub.LSlice? then |sub.items| else 0;
      && (sub == LNil || sub.LSlice?) && n <= rest[0].index
      && (sub.LSlice? ==> c.items[..n] == sub.items)
      && forall i | n <= i < |c.items| :: c.items[i] == LNil
    ensures Set(Tree(LPutAt(root, p, c)), p + rest, x) == Set(Tree(root), p + rest, x)
  {
    TreePutAt(mem, root, p, c);
    TreeGet(mem, root, p);
    SubAtIsGet(Tree(root), p);
    var old_ := Tree(sub);
    var n := if sub.LSlice? then |sub.items| else 0;
    assert forall i | 0 <= i < n :: c.items[i] == c.items[..n][i];
    assert Tree(c).items == Grow(if old_ == Null then [] else old_.items, rest[0].index);
    GrownTakesGrow(old_, rest, x);
    SetAfterSet(Tree(root), p, Tree(c), rest, x);
  }

  lemma OneEntryWritten(mem: Mem, mem': Mem, l: Located, st: Step, x: GoVal)
    requires Takes(l, st)
    requires l.LMap? ==> l.m in mem.maps && mem' == Mem(mem.slices, mem.maps[l.m := mem.maps[l.m][st.name := x]])
    requires l.LSlice? ==> l.a in mem.slices && st.index < |mem.slices[l.a]| &&
                           mem' == Mem(mem.slices[l.a := mem.slices[l.a][st.index := x]], mem.maps)
    ensures Written(mem, mem', l, st, x)
  {
  }

  /** What one written entry means for the tree in memory and for a tree apart from it. */
  lemma EntryWritten(mem: Mem, mem': Mem, root: Located, w: Walk, c: Located, keep: Located)
    requires Consistent(mem, root) && Unshared(root) && Place(root, w)
    requires Takes(Container(root, w), w[|w| - 1])
    requires Written(mem, mem', Container(root, w), w[|w| - 1], Addr(c))
    requires Consistent(mem, c) && Unshared(c) && Owned(root, w, c)
    requires Consistent(mem, keep) && Objs(keep) !! Objs(root)
    ensures Consistent(mem', LPutAt(root, w, c)) && Unshared(LPutAt(root, w, c))
    ensures Addr(LPutAt(root, w, c)) == Addr(root)
    ensures LAt(LPutAt(root, w, c), w) == Some(c)
    ensures Consistent(mem', keep)
  {
    hide Consistent, Unshared, LPutAt, LAt, Owned, Written;
    var container, st := Container(root, w), w[|w| - 1];
    OldObjsInside(root, w);
    HolderNotInChild(root, w, c);
    FrameConsistent(mem, mem', container, st, Addr(c), c);
    FrameConsistent(mem, mem', container, st, Addr(c), keep);
    WriteChild(mem, mem', root, w, c);
    LAtPutAt(root, w, c);
  }

  lemma {:induction false} ContainerConsistent(mem: Mem, l: Located, w: Walk)
    requires Consistent(mem, l) && Place(l, w)
    ensures w != [] && Consistent(mem, Container(l, w)) && Takes(Container(l, w), w[|w| - 1])
    decreases |w|
  {
    if |w| > 1 {
      ChildConsistent(mem, l, w[0]);
      ContainerConsistent(mem, LChild(l, w[0]).value, w[1..]);
    }
  }

  lemma {:induction false} HolderNotInOld(l: Located, w: Walk)
    requires Place(l, w) && Unshared(l)
    ensures Holder(Container(l, w)) !in OldObjs(l, w)
    decreases |w|
  {
    if LChild(l, w[0]).Some? {
      ChildObjs(l, w[0]);
    }
    if |w| > 1 {
      HolderNotInOld(LChild(l, w[0]).value, w[1..]);
    }
  }

  lemma HolderNotInChild(l: Located, w: Walk, c: Located)
    requires Place(l, w) && Unshared(l) && Owned(l, w, c)
    ensures Holder(Container(l, w)) !in Objs(c)
  {
    OldObjsInside(l, w);
    HolderNotInOld(l, w);
  }

  // -------------------------------------------------------- copies of values

  /** `l` is a copy of `v`, away from the objects of `base`. */
  ghost predicate Copied(mem: Mem, base: set<object>, v: Value, g: GoVal, l: Located) {
    Consistent(mem, l) && Unshared(l) && Addr(l) == g && Tree(l) == v && Objs(l) !! base
  }

  ghost predicate CopiedItems(mem: Mem, base: set<object>, vs: seq<Value>, gs: seq<GoVal>, ls: seq<Located>) {
    && |vs| == |gs| == |ls|
    && (forall i | 0 <= i < |vs| :: Copied(mem, base, vs[i], gs[i], ls[i]))
    && (forall i, j | 0 <= i < j < |vs| :: Objs(ls[i]) !! Objs(ls[j]))
  }

  ghost predicate CopiedFields(mem: Mem, base: set<object>, vs: map<string, Value>, gs: map<string, GoVal>,
                               ls: map<string, Located>) {
    && gs.Keys == ls.Keys <= vs.Keys
    && (forall k | k in gs :: Copied(mem, base, vs[k], gs[k], ls[k]))
    && (forall j, k | j in ls && k in ls && j != k :: Objs(ls[j]) !! Objs(ls[k]))
  }

  lemma NothingCopied(mem: Mem, base: set<object>, vs: map<string, Value>)
    ensures CopiedFields(mem, base, vs, map[], map[]) && Extends(mem, mem)
  {
  }

  lemma ExtendsTrans(a: Mem, b: Mem, c: Mem)
    ensures Extends(a, b) && Extends(b, c) ==> Extends(a, c)
  {
  }

  lemma CopyStays(mem: Mem, mem': Mem, base: set<object>, v: Value, g: GoVal, l: Located)
    requires Copied(mem, base, v, g, l) && Extends(mem, mem')
    ensures Copied(mem', base, v, g, l) && Objs(l) <= mem.slices.Keys + mem.maps.Keys
  {
    ExtendConsistent(mem, mem', l);
    ConsistentObjs(mem, l);
  }

  lemma CopiedOneMore(mem: Mem, mem': Mem, base: set<object>, had: set<object>, vs: seq<Value>, gs: seq<GoVal>,
                      ls: seq<Located>, v: Value, g: GoVal, l: Located)
    requires CopiedItems(mem, base, vs, gs, ls) && Extends(mem, mem') && Copied(mem', had, v, g, l)
    requires base <= had == mem.slices.Keys + mem.maps.Keys
    ensures CopiedItems(mem', base, vs + [v], gs + [g], ls + [l])
  {
    forall i | 0 <= i < |vs| ensures Copied(mem', base, vs[i], gs[i], ls[i]) && Objs(ls[i]) <= had {
      CopyStays(mem, mem', base, vs[i], gs[i], ls[i]);
    }
  }

  lemma CopiedOneMoreField(mem: Mem, mem': Mem, base: set<object>, had: set<object>, vs: map<string, Value>,
                           gs: map<string, GoVal>, ls: map<string, Located>, k: string, g: GoVal, l: Located)
    requires CopiedFields(mem, base, vs, gs, ls) && Extends(mem, mem') && k in vs && Copied(mem', had, vs[k], g, l)
    requires base <= had == mem.slices.Keys + mem.maps.Keys
    ensures CopiedFields(mem', base, vs, gs[k := g], ls[k := l])
  {
    forall j | j in gs ensures Copied(mem', base, vs[j], gs[j], ls[j]) && Objs(ls[j]) <= had {
      CopyStays(mem, mem', base, vs[j], gs[j], ls[j]);
    }
  }

  lemma CopiedSlice(mem: Mem, mem': Mem, base: set<object>, vs: seq<Value>, gs: seq<GoVal>, ls: seq<Located>,
                    a: array<GoVal>)
    requires CopiedItems(mem, base, vs, gs, ls) && Extends(mem, mem')
    requires a !in mem.slices && a !in base && a in mem'.slices && mem'.slices[a] == gs
    ensures Copied(mem', base, Arr(vs), GSlice(a), LSlice(a, ls))
  {
    hide Objs, Consistent, Unshared;
    forall i | 0 <= i < |ls| ensures Copied(mem', base, vs[i], gs[i], ls[i]) && a !in Objs(ls[i]) {
      CopyStays(mem, mem', base, vs[i], gs[i], ls[i]);
    }
    SliceOfCopies(mem', base, vs, gs, ls, a);
  }

  lemma SliceOfCopies(mem: Mem, base: set<object>, vs: seq<Value>, gs: seq<GoVal>, ls: seq<Located>, a: array<GoVal>)
    requires CopiedItems(mem, base, vs, gs, ls)
    requires a !in base && a in mem.slices && mem.slices[a] == gs && forall i | 0 <= i < |ls| :: a !in Objs(ls[i])
    ensures Copied(mem, base, Arr(vs), GSlice(a), LSlice(a, ls))
  {
    assert Tree(LSlice(a, ls)).items == vs;
  }

  lemma CopiedMap(mem: Mem, mem': Mem, base: set<object>, vs: map<string, Value>, gs: map<string, GoVal>,
                  ls: map<string, Located>, m: MapObj)
    requires CopiedFields(mem, base, vs, gs, ls) && gs.Keys == vs.Keys && Extends(mem, mem')
    requires m !in mem.maps && m !in base && m in mem'.maps && mem'.maps[m] == gs
    ensures Copied(mem', base, Obj(vs), GMap(m), LMap(m, ls))
  {
    hide Objs, Consistent, Unshared;
    forall k | k in ls ensures Copied(mem', base, vs[k], gs[k], ls[k]) && m !in Objs(ls[k]) {
      CopyStays(mem, mem', base, vs[k], gs[k], ls[k]);
    }
    MapOfCopies(mem', base, vs, gs, ls, m);
  }

  lemma MapOfCopies(mem: Mem, base: set<object>, vs: map<string, Value>, gs: map<string, GoVal>,
                    ls: map<string, Located>, m: MapObj)
    requires CopiedFields(mem, base, vs, gs, ls) && gs.Keys == vs.Keys
    requires m !in base && m in mem.maps && mem.maps[m] == gs && forall k | k in ls :: m !in Objs(ls[k])
    ensures Copied(mem, base, Obj(vs), GMap(m), LMap(m, ls))
  {
    assert Tree(LMap(m, ls)).fields == vs;
  }

  lemma StringInMemory(mem: Mem, l: Located)
    requires Consistent(mem, l)
    ensures Tree(l).Str? <==> Addr(l).GScalar? && Addr(l).v.Str?
    ensures Tree(l).Str? ==> Addr(l).v == Tree(l)
  {
  }
}
