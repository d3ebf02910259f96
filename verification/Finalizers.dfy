/** The instance finalizer on an unstructured object. */
module Finalizers {
  import opened Ordering

  /** What `metadata.finalizers` holds: nothing, a list of strings, or something else. */
  datatype FinalizerList = Absent | Present(names: seq<string>) | Malformed

  datatype Update = Updated(list: FinalizerList) | Refused

  const KRO_FINALIZER := "kro.run/finalizer"

  /** `getInstanceFinalizerName`. */
  function InstanceFinalizerName(uid: string): string { uid + "." + KRO_FINALIZER }

  /** Different instances have different finalizers. */
  lemma NameTellsUid(a: string, b: string)
    requires InstanceFinalizerName(a) == InstanceFinalizerName(b)
    ensures a == b
  {
    assert a == InstanceFinalizerName(a)[..|a|] && b == InstanceFinalizerName(b)[..|b|];
  }

  /** The finalizer is on the list. */
  predicate Holds(list: FinalizerList, name: string) {
    list.Present? && name in list.names
  }

  /** The elements other than `name`, in order. */
  function Without(names: seq<string>, name: string): seq<string> {
    if names == [] then []
    else
      var init, last := names[..|names| - 1], names[|names| - 1];
      Without(init, name) + if last == name then [] else [last]
  }

  method ContainsString(slice: seq<string>, s: string) returns (r: bool)
    ensures r <==> s in slice
  {
    for i := 0 to |slice|
      invariant s !in slice[..i]
    {
      if slice[i] == s {
        return true;
      }
    }
    return false;
  }

  method RemoveString(slice: seq<string>, s: string) returns (result: seq<string>)
    ensures result == Without(slice, s)
  {
    result := [];
    for i := 0 to |slice|
      invariant result == Without(slice[..i], s)
    {
      assert slice[..i + 1][..i] == slice[..i];
      if slice[i] != s {
        result := result + [slice[i]];
      }
    }
    assert slice[..|slice|] == slice;
  }

  method HasInstanceFinalizer(list: FinalizerList, uid: string) returns (has: bool, err: bool)
    ensures err <==> list.Malformed?
    ensures has <==> Holds(list, InstanceFinalizerName(uid))
  {
    match list
    case Malformed => return false, true;
    case Absent => return false, false;
    case Present(names) =>
      has := ContainsString(names, InstanceFinalizerName(uid));
      err := false;
  }

  /** `SetInstanceFinalizerUnstructured`: afterwards the list is the old one, with the name at
      its end if it was not there. */
  method SetInstanceFinalizer(list: FinalizerList, uid: string) returns (r: Update)
    ensures r == Setting(list, InstanceFinalizerName(uid))
  {
    var name := InstanceFinalizerName(uid);
    match list
    case Malformed => return Refused;
    case Absent => return Updated(Present([name]));
    case Present(names) =>
      var has := ContainsString(names, name);
      return if has then Updated(list) else Updated(Present(names + [name]));
  }

  /** `RemoveInstanceFinalizerUnstructured`. */
  method RemoveInstanceFinalizer(list: FinalizerList, uid: string) returns (r: Update)
    ensures r == Removing(list, InstanceFinalizerName(uid))
  {
    match list
    case Malformed => return Refused;
    case Absent => return Updated(list);
    case Present(names) =>
      var rest := RemoveString(names, InstanceFinalizerName(uid));
      return Updated(Present(rest));
  }

  function Setting(list: FinalizerList, name: string): Update {
    match list
    case Malformed => Refused
    case Absent => Updated(Present([name]))
    case Present(names) => if name in names then Updated(list) else Updated(Present(names + [name]))
  }

  function Removing(list: FinalizerList, name: string): Update {
    match list
    case Malformed => Refused
    case Absent => Updated(list)
    case Present(names) => Updated(Present(Without(names, name)))
  }

  lemma {:induction false} WithoutKeepsOthers(names: seq<string>, name: string)
    ensures name !in Without(names, name)
    ensures forall other | other != name :: multiset(Without(names, name))[other] == multiset(names)[other]
    ensures name !in names ==> Without(names, name) == names
  {
    if names != [] {
      var init, last := names[..|names| - 1], names[|names| - 1];
      WithoutKeepsOthers(init, name);
      assert names == init + [last];
    }
  }

  lemma {:induction false} WithoutAppend(names: seq<string>, more: seq<string>, name: string)
    ensures Without(names + more, name) == Without(names, name) + Without(more, name)
  {
    if more == [] {
      assert names + more == names;
      assert Without(names, name) + [] == Without(names, name);
    } else {
      var init, last := more[..|more| - 1], more[|more| - 1];
      assert names + more == (names + init) + [last];
      assert (names + more)[..|names + more| - 1] == names + init;
      WithoutAppend(names, init, name);
    }
  }

  /** Setting twice is setting once; after setting the finalizer is held; nothing else changes. */
  lemma SetIsIdempotent(list: FinalizerList, name: string)
    requires !list.Malformed?
    ensures Setting(list, name).Updated? && Holds(Setting(list, name).list, name)
    ensures Setting(Setting(list, name).list, name) == Setting(list, name)
    ensures forall other | other != name :: Holds(Setting(list, name).list, other) <==> Holds(list, other)
  {
  }

  /** Removing takes every copy of the finalizer away and leaves the other names, copies and
      order as they were; removing twice is removing once. */
  lemma RemoveKeepsOthers(list: FinalizerList, name: string)
    requires !list.Malformed?
    ensures Removing(list, name).Updated? && !Holds(Removing(list, name).list, name)
    ensures Removing(Removing(list, name).list, name) == Removing(list, name)
    ensures forall other | other != name :: Holds(Removing(list, name).list, other) <==> Holds(list, other)
  {
    if list.Present? {
      WithoutKeepsOthers(list.names, name);
      WithoutKeepsOthers(Without(list.names, name), name);
      forall other | other != name ensures other in Without(list.names, name) <==> other in list.names {
        assert other in Without(list.names, name) <==> multiset(Without(list.names, name))[other] > 0;
        assert other in list.names <==> multiset(list.names)[other] > 0;
      }
    }
  }

  /** The names that belong to others, copies and order included. */
  function Others(list: FinalizerList, name: string): seq<string> {
    if list.Present? then Without(list.names, name) else []
  }

  /** Neither setting nor removing the finalizer touches them. */
  lemma OthersStay(list: FinalizerList, name: string)
    requires !list.Malformed?
    ensures Setting(list, name).Updated? && Others(Setting(list, name).list, name) == Others(list, name)
    ensures Removing(list, name).Updated? && Others(Removing(list, name).list, name) == Others(list, name)
  {
    assert Without([name], name) == [] by { assert [name][..0] == []; }
    if list.Present? {
      WithoutAppend(list.names, [name], name);
      WithoutKeepsOthers(list.names, name);
      WithoutKeepsOthers(Without(list.names, name), name);
    }
  }

  /** Removing undoes setting: an absent finalizer leaves the old list, up to an empty list
      where there was none. */
  lemma RemoveUndoesSet(list: FinalizerList, name: string)
    requires !list.Malformed? && !Holds(list, name)
    ensures Removing(Setting(list, name).list, name) == Updated(if list.Absent? then Present([]) else list)
  {
    assert Without([name], name) == [] by { assert [name][..0] == []; }
    if list.Present? {
      WithoutAppend(list.names, [name], name);
      WithoutKeepsOthers(list.names, name);
    }
  }
}
