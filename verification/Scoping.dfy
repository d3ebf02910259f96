/** When do shared expression states keep a resource waiting for something it does not depend on?
    The exact condition under which a pass over the resources, dependencies first, finds
    everything that exists. */
module Scoping {
  import opened Ordering
  import opened Fieldpath
  import opened Graphs
  import opened Inclusion
  import opened ExprStates

  function DependencyRelation(resources: map<string, ResourceSpec>): Graph {
    map id | id in resources :: Elements(resources[id].dependencies)
  }

  /** A listing of the resources, each once: one order in which their map may be ranged over. */
  predicate Ranges(resources: map<string, ResourceSpec>, walk: seq<string>) {
    NoDup(walk) && Elements(walk) == resources.Keys
  }

  /** The field whose state the resource's expression shares when the map is ranged over along `walk`,
      unless a readiness condition ranged over before has taken its text. */
  ghost function FieldOf(resources: map<string, ResourceSpec>, walk: seq<string>, id: string,
                         e: string): Option<Variable>
    requires id in resources
  {
    if e in Texts(resources[id].variables) && e !in ReadyAt(resources, IdsBefore(walk, id)) then
      FirstWith(FieldsIn(resources, walk), e)
    else None
  }

  /** What the states of a resource wait for. */
  ghost function WaitsFor(resources: map<string, ResourceSpec>, walk: seq<string>, id: string): set<string>
    requires id in resources
  {
    set e, d | e in Texts(resources[id].variables) && FieldOf(resources, walk, id, e).Some?
      && d in FieldOf(resources, walk, id, e).value.dependencies :: d
  }

  /** One of its states lost its place in the cache to a readiness condition and is never evaluated. */
  ghost predicate Dead(resources: map<string, ResourceSpec>, walk: seq<string>, id: string)
    requires id in resources
  {
    exists e :: e in Texts(resources[id].variables) && e in ReadyTexts(resources)
      && FieldOf(resources, walk, id, e).Some? && FieldOf(resources, walk, id, e).value.dependencies != []
  }

  ghost predicate Free(resources: map<string, ResourceSpec>, walk: seq<string>, id: string, found: set<string>)
    requires id in resources
  {
    !Dead(resources, walk, id) && WaitsFor(resources, walk, id) <= found
  }

  /** All that the states of the resource and of its dependencies wait for is there. */
  ghost predicate Processable(resources: map<string, ResourceSpec>, walk: seq<string>, id: string, found: set<string>)
    requires id in resources
  {
    && Free(resources, walk, id, found)
    && forall r | r in resources[id].dependencies && r in resources :: Free(resources, walk, r, found)
  }

  /** What a pass over the first `n` resources finds of the existing ones: those that can be
      processed when their turn comes. */
  ghost function FoundAmong(resources: map<string, ResourceSpec>, order: seq<string>, walk: seq<string>,
                            existing: set<string>,
                       n: nat): set<string>
    requires n <= |order| && forall i | 0 <= i < |order| :: order[i] in resources
  {
    if n == 0 then {}
    else
      var before := FoundAmong(resources, order, walk, existing, n - 1);
      if order[n - 1] in existing && Processable(resources, walk, order[n - 1], before) then before + {order[n - 1]}
      else before
  }

  /** The field that is first in its resource brings an expression shared with resource `id`, before a
      readiness condition of its own resource takes the text, no dependency but the direct and
      indirect ones of `id`; and if it brings any, no readiness condition has that text. */
  ghost predicate BringsNothing(resources: map<string, ResourceSpec>, first: string, id: string, e: string)
    requires first in resources && id in resources
  {
    var v := FirstWith(resources[first].variables, e);
    v.Some? && e in Texts(resources[id].variables) && (first == id || e !in resources[first].readyWhen) ==>
      && (forall d | d in v.value.dependencies :: d != id && Reaches(DependencyRelation(resources), id, d))
      && (v.value.dependencies != [] ==> e !in ReadyTexts(resources))
  }

  /** Sharing states through the cache makes no resource wait for anything but its dependencies. */
  ghost predicate Scoped(resources: map<string, ResourceSpec>) {
    forall first, id, e | first in resources && id in resources :: BringsNothing(resources, first, id, e)
  }

  /** What the graph builder establishes, as far as this matters here. */
  ghost predicate Ordered(resources: map<string, ResourceSpec>, order: seq<string>) {
    && NoDup(order) && Elements(order) == resources.Keys && TargetsFirst(DependencyRelation(resources), order)
  }

  predicate ClosedUnder(g: Graph, existing: set<string>) {
    existing <= g.Keys && forall x | x in existing && x in g :: g[x] <= existing
  }

  lemma InOrder(resources: map<string, ResourceSpec>, order: seq<string>, i: nat)
    requires Ordered(resources, order) && i < |order|
    ensures order[i] in resources && order[i] !in Elements(order[..i])
    ensures Elements(resources[order[i]].dependencies) <= Elements(order[..i])
    ensures order[..i + 1] == order[..i] + [order[i]] && Elements(order[..i + 1]) == Elements(order[..i]) + {order[i]}
    ensures forall x | x in Elements(order[..i]) ::
      x in resources && DependencyRelation(resources)[x] <= Elements(order[..i])
  {
    hide TargetsFirst;
    var g := DependencyRelation(resources);
    assert order[i] in Elements(order);
    assert order[..i + 1] == order[..i] + [order[i]];
    TargetsAt(g, order, i);
    forall x | x in Elements(order[..i]) ensures x in resources && g[x] <= Elements(order[..i]) {
      var j :| 0 <= j < i && order[j] == x;
      assert order[j] in Elements(order);
      TargetsAt(g, order, j);
      assert order[..j] <= order[..i];
      assert forall y | y in Elements(order[..j]) :: y in order[..i];
    }
  }

  lemma TargetsAt(g: Graph, order: seq<string>, i: nat)
    requires TargetsFirst(g, order) && i < |order|
    ensures order[i] in g && g[order[i]] <= Elements(order[..i])
  {
  }

  // -------------------------------------------------------------- sufficiency

  /** The field seen first is also the first one of its own resource. */
  lemma {:induction false} FirstOfItsResource(resources: map<string, ResourceSpec>, walk: seq<string>, e: string)
    ensures FirstWith(FieldsIn(resources, walk), e).Some? ==>
      exists first :: first in walk && first in resources
        && FirstWith(resources[first].variables, e) == FirstWith(FieldsIn(resources, walk), e)
  {
    hide FirstWith;
    if walk == [] {
      NoFields(e);
    } else {
      var n := |walk| - 1;
      FirstOfItsResource(resources, walk[..n], e);
      var last := if walk[n] in resources then resources[walk[n]].variables else [];
      FirstOfAppend(FieldsIn(resources, walk[..n]), last, e);
      NoFields(e);
    }
  }

  /** For an expression of `id`, that resource is `id` or comes before it. */
  lemma {:induction false} FirstIsBefore(resources: map<string, ResourceSpec>, walk: seq<string>, id: string, e: string)
    requires id in walk && id in resources && FirstWith(resources[id].variables, e).Some?
    ensures FirstWith(FieldsIn(resources, walk), e).Some?
    ensures exists first ::
      && first in resources && (first == id || first in IdsBefore(walk, id))
      && FirstWith(resources[first].variables, e) == FirstWith(FieldsIn(resources, walk), e)
  {
    hide FirstWith;
    var n := |walk| - 1;
    var init, last := walk[..n], walk[n];
    assert walk == init + [last];
    IdsBeforeSnoc(init, last, id);
    FirstOfAppend(FieldsIn(resources, init), if last in resources then resources[last].variables else [], e);
    if id in init {
      FirstIsBefore(resources, init, id, e);
    } else {
      FirstOfItsResource(resources, init, e);
    }
  }

  lemma SharedIsMentioned(vars: seq<Variable>, e: string)
    requires e in Texts(vars)
    ensures FirstWith(vars, e).Some?
  {
    TextsAreExpressions(vars, e);
    var v :| v in vars && e in v.field.expressions;
    assert Mentions(v, e);
  }

  lemma NoFields(e: string)
    ensures FirstWith([], e) == None
  {
  }

  /** In a scoped group the states of a resource wait only for its direct and indirect dependencies. */
  lemma WaitsForReachable(resources: map<string, ResourceSpec>, walk: seq<string>, id: string)
    requires Scoped(resources) && Ranges(resources, walk) && id in resources
    ensures forall d | d in WaitsFor(resources, walk, id) :: d != id && Reaches(DependencyRelation(resources), id, d)
    ensures !Dead(resources, walk, id)
  {
    hide Reaches, FirstWith, FieldsIn, Texts, ReadyTexts, ReadyAt, IdsBefore, Scoped;
    forall e | e in Texts(resources[id].variables) && FieldOf(resources, walk, id, e).Some?
      ensures forall d | d in FieldOf(resources, walk, id, e).value.dependencies ::
        d != id && Reaches(DependencyRelation(resources), id, d)
      ensures FieldOf(resources, walk, id, e).value.dependencies != [] ==> e !in ReadyTexts(resources)
    {
      FieldBringsNothing(resources, walk, id, e);
    }
  }

  lemma FieldBringsNothing(resources: map<string, ResourceSpec>, walk: seq<string>, id: string, e: string)
    requires Scoped(resources) && Ranges(resources, walk) && id in resources
    requires e in Texts(resources[id].variables) && FieldOf(resources, walk, id, e).Some?
    ensures var v := FieldOf(resources, walk, id, e).value;
      && (forall d | d in v.dependencies :: d != id && Reaches(DependencyRelation(resources), id, d))
      && (v.dependencies != [] ==> e !in ReadyTexts(resources))
  {
    hide Reaches, FirstWith, FieldsIn, Texts, IdsBefore, ReadyTexts;
    assert id in walk by { assert id in Elements(walk); }
    SharedIsMentioned(resources[id].variables, e);
    FirstIsBefore(resources, walk, id, e);
    var first :| first in resources && (first == id || first in IdsBefore(walk, id))
      && FirstWith(resources[first].variables, e) == FirstWith(FieldsIn(resources, walk), e);
    assert BringsNothing(resources, first, id, e);
  }

  /** What a resource and its dependencies wait for is among any set that holds the direct
      dependencies and is closed under dependencies. */
  lemma ProcessableWhenClosed(resources: map<string, ResourceSpec>, walk: seq<string>, id: string, found: set<string>)
    requires Scoped(resources) && Ranges(resources, walk) && id in resources
    requires Elements(resources[id].dependencies) <= found
    requires forall x | x in found :: x in resources && DependencyRelation(resources)[x] <= found
    ensures Processable(resources, walk, id, found)
  {
    hide Reaches, WaitsFor, Scoped, Dead, Ranges;
    var g := DependencyRelation(resources);
    WaitsForReachable(resources, walk, id);
    DependenciesAmong(g, found, id);
    forall r | r in resources[id].dependencies && r in resources ensures Free(resources, walk, r, found) {
      assert r in Elements(resources[id].dependencies);
      WaitsForReachable(resources, walk, r);
      DependenciesAmong(g, found, r);
    }
  }

  lemma FoundExists(resources: map<string, ResourceSpec>, order: seq<string>, walk: seq<string>, existing: set<string>,
                    n: nat)
    requires n <= |order| && Ordered(resources, order) && forall i | 0 <= i < |order| :: order[i] in resources
    ensures FoundAmong(resources, order, walk, existing, n) <= existing * Elements(order[..n])
  {
    hide Processable, Ordered;
    if n > 0 {
      FoundExists(resources, order, walk, existing, n - 1);
      InOrder(resources, order, n - 1);
    }
  }

  lemma {:induction false} ScopedFindsAll(resources: map<string, ResourceSpec>, order: seq<string>, walk: seq<string>,
                                          existing: set<string>, n: nat)
    requires Scoped(resources) && Ordered(resources, order) && Ranges(resources, walk) && n <= |order|
    requires forall i | 0 <= i < |order| :: order[i] in resources
    requires ClosedUnder(DependencyRelation(resources), existing)
    ensures FoundAmong(resources, order, walk, existing, n) == existing * Elements(order[..n])
  {
    hide Processable, Ordered, Scoped, Ranges;
    if n > 0 {
      var before, id := FoundAmong(resources, order, walk, existing, n - 1), order[n - 1];
      ScopedFindsAll(resources, order, walk, existing, n - 1);
      InOrder(resources, order, n - 1);
      if id in existing {
        assert DependencyRelation(resources)[id] <= existing;
        forall x | x in before ensures x in resources && DependencyRelation(resources)[x] <= before {
          assert DependencyRelation(resources)[x] <= existing;
        }
        ProcessableWhenClosed(resources, walk, id, before);
      }
    }
  }

  // ---------------------------------------------------------------- necessity

  /** A field of the resource that is ranged over first is seen first. */
  lemma FirstFieldWins(resources: map<string, ResourceSpec>, walk: seq<string>, e: string)
    requires walk != [] && walk[0] in resources && FirstWith(resources[walk[0]].variables, e).Some?
    ensures FirstWith(FieldsIn(resources, walk), e) == FirstWith(resources[walk[0]].variables, e)
  {
    hide FirstWith;
    FirstResourceFirst(resources, walk);
    var first, all := resources[walk[0]].variables, FieldsIn(resources, walk);
    assert all == first + all[|first|..];
    FirstOfAppend(first, all[|first|..], e);
  }

  /** The listing with one resource moved to the front. */
  function MovedToFront(order: seq<string>, i: nat): seq<string>
    requires i < |order|
  {
    [order[i]] + order[..i] + order[i + 1..]
  }

  lemma MovedRanges(resources: map<string, ResourceSpec>, order: seq<string>, i: nat)
    requires Ranges(resources, order) && i < |order|
    ensures Ranges(resources, MovedToFront(order, i))
  {
    var walk := MovedToFront(order, i);
    forall j, k | 0 <= j < k < |walk| ensures walk[j] != walk[k] {
      var j' := if j == 0 then i else if j <= i then j - 1 else j;
      var k' := if k <= i then k - 1 else k;
      assert walk[j] == order[j'] && walk[k] == order[k'];
      assert if j' < k' then order[j'] != order[k'] else order[k'] != order[j'];
    }
    forall x | x in Elements(order) ensures x in walk {
      var j :| 0 <= j < |order| && order[j] == x;
      assert walk[if j == i then 0 else if j < i then j + 1 else j] == x;
    }
    forall x | x in walk ensures x in Elements(order) {
      var j :| 0 <= j < |walk| && walk[j] == x;
      assert order[if j == 0 then i else if j <= i then j - 1 else j] == x;
    }
  }

  /** Everything a resource depends on, with itself. */
  ghost function Below(g: Graph, id: string): set<string> {
    set x | x in g && Reaches(g, id, x)
  }

  lemma BelowIsClosed(g: Graph, id: string)
    requires Closed(g) && id in g
    ensures ClosedUnder(g, Below(g, id)) && id in Below(g, id)
  {
    hide Reaches;
    ReachesSelf(g, id);
    forall x, y | x in Below(g, id) && y in g[x] ensures y in Below(g, id) {
      ReachesOneMore(g, id, x, y);
    }
  }

  lemma ReachesOneMore(g: Graph, a: string, b: string, c: string)
    requires Reaches(g, a, b) && Edge(g, b, c)
    ensures Reaches(g, a, c)
  {
    var p :| IsWalk(g, p) && p[0] == a && p[|p| - 1] == b;
    assert IsWalk(g, [b, c]);
    WalkConcat(g, p, [b, c]);
    assert (p + [b, c][1..])[0] == a;
  }

  /** A state of the resource is never evaluated, or waits for the resource itself or for something
      that does not exist. */
  ghost predicate Hindered(resources: map<string, ResourceSpec>, walk: seq<string>, id: string, existing: set<string>)
    requires id in resources
  {
    Dead(resources, walk, id) || exists d :: d in WaitsFor(resources, walk, id) && (d == id || d !in existing)
  }

  /** Such a resource is not found. */
  lemma {:induction false} MissedWhenHindered(resources: map<string, ResourceSpec>, order: seq<string>,
                                              walk: seq<string>,
                                              existing: set<string>, k: nat, n: nat)
    requires Ordered(resources, order) && k < |order| && n <= |order|
    requires forall i | 0 <= i < |order| :: order[i] in resources
    requires Hindered(resources, walk, order[k], existing)
    ensures order[k] !in FoundAmong(resources, order, walk, existing, n)
  {
    hide Ordered, WaitsFor, Dead;
    if n > 0 {
      MissedWhenHindered(resources, order, walk, existing, k, n - 1);
      FoundExists(resources, order, walk, existing, n - 1);
      InOrder(resources, order, n - 1);
    }
  }

  lemma ForeignIsMissed(resources: map<string, ResourceSpec>, order: seq<string>, first: string, id: string, e: string)
    returns (walk: seq<string>, existing: set<string>)
    requires Ordered(resources, order) && first in resources && id in resources
    requires forall i | 0 <= i < |order| :: order[i] in resources
    requires !BringsNothing(resources, first, id, e)
    ensures Ranges(resources, walk) && existing == Below(DependencyRelation(resources), id)
    ensures ClosedUnder(DependencyRelation(resources), existing)
    ensures id in existing && id !in FoundAmong(resources, order, walk, existing, |order|)
  {
    hide Reaches, FirstWith, FoundAmong, WaitsFor, Dead, Texts, FieldsIn;
    var g := DependencyRelation(resources);
    OrderedIsClosed(resources, order);
    assert id in Elements(order);
    var k :| 0 <= k < |order| && order[k] == id;
    walk := FirstThen(resources, order, first, id);
    existing := Below(g, id);
    BelowIsClosed(g, id);
    FirstFieldWins(resources, walk, e);
    Hinders(resources, walk, first, id, e, existing);
    MissedWhenHindered(resources, order, walk, existing, k, |order|);
  }

  /** A listing that begins with the one resource and goes on with the other. */
  lemma FirstThen(resources: map<string, ResourceSpec>, order: seq<string>, first: string, id: string)
    returns (walk: seq<string>)
    requires Ordered(resources, order) && first in resources && id in resources
    ensures Ranges(resources, walk) && walk != [] && walk[0] == first
    ensures IdsBefore(walk, id) == if first == id then {} else {first}
  {
    hide Ordered, Ranges, IdsBefore;
    assert Ranges(resources, order) by { OrderedRanges(resources, order); }
    var k := Position(resources, order, id);
    var w := MovedToFront(order, k);
    MovedRanges(resources, order, k);
    if first == id {
      walk := w;
    } else {
      var i := Position(resources, w, first);
      MovedRanges(resources, w, i);
      walk := MovedToFront(w, i);
      assert walk[1] == id;
    }
    FirstIds(walk, id);
  }

  lemma OrderedRanges(resources: map<string, ResourceSpec>, order: seq<string>)
    requires Ordered(resources, order)
    ensures Ranges(resources, order)
  {
  }

  lemma Position(resources: map<string, ResourceSpec>, walk: seq<string>, id: string) returns (i: nat)
    requires Ranges(resources, walk) && id in resources
    ensures i < |walk| && walk[i] == id
  {
    assert id in Elements(walk);
    i :| 0 <= i < |walk| && walk[i] == id;
  }

  lemma FirstIds(walk: seq<string>, id: string)
    requires walk != [] && (walk[0] == id || (|walk| > 1 && walk[1] == id))
    ensures IdsBefore(walk, id) == if walk[0] == id then {} else {walk[0]}
  {
    assert walk[0] != id ==> walk[1..][0] == id;
  }

  lemma Hinders(resources: map<string, ResourceSpec>, walk: seq<string>, first: string, id: string, e: string,
                existing: set<string>)
    requires first in resources && id in resources && !BringsNothing(resources, first, id, e)
    requires FirstWith(FieldsIn(resources, walk), e) == FirstWith(resources[first].variables, e)
    requires IdsBefore(walk, id) == if first == id then {} else {first}
    requires existing == Below(DependencyRelation(resources), id)
    ensures Hindered(resources, walk, id, existing)
  {
    hide Reaches, FirstWith, FieldsIn, Texts, ReadyTexts;
    var v := FirstWith(resources[first].variables, e).value;
    assert FieldOf(resources, walk, id, e) == Some(v);
    if d :| d in v.dependencies && (d == id || !Reaches(DependencyRelation(resources), id, d)) {
      assert d in WaitsFor(resources, walk, id);
    } else {
      assert Dead(resources, walk, id);
    }
  }

  lemma OrderedIsClosed(resources: map<string, ResourceSpec>, order: seq<string>)
    requires Ordered(resources, order)
    ensures Closed(DependencyRelation(resources))
  {
    hide Ordered;
    var g := DependencyRelation(resources);
    forall x | x in g ensures g[x] <= g.Keys {
      OrderedElement(resources, order, x);
    }
  }

  lemma OrderedElement(resources: map<string, ResourceSpec>, order: seq<string>, x: string)
    requires Ordered(resources, order) && x in resources
    ensures DependencyRelation(resources)[x] <= resources.Keys
  {
    assert x in Elements(order);
    var i :| 0 <= i < |order| && order[i] == x;
    TargetsAt(DependencyRelation(resources), order, i);
    assert forall y | y in Elements(order[..i]) :: y in Elements(order);
  }

  // --------------------------------------------------------------- the condition

  /** Every pass finds everything. */
  ghost predicate FindsAll(resources: map<string, ResourceSpec>, order: seq<string>)
    requires forall i | 0 <= i < |order| :: order[i] in resources
  {
    forall walk, existing | Ranges(resources, walk) && ClosedUnder(DependencyRelation(resources), existing) ::
      FoundAmong(resources, order, walk, existing, |order|) == existing
  }

  /** The exact condition: a pass over the resources finds all that exist, whatever exists (with all
      it depends on) and however the map was ranged over, if and only if no shared expression
      brings a foreign dependency or loses its state to a readiness condition. */
  lemma FindsAllIff(resources: map<string, ResourceSpec>, order: seq<string>)
    requires Ordered(resources, order)
    ensures forall i | 0 <= i < |order| :: order[i] in resources
    ensures FindsAll(resources, order) <==> Scoped(resources)
  {
    hide FoundAmong, BringsNothing;
    forall i | 0 <= i < |order| ensures order[i] in resources {
      assert order[i] in Elements(order);
    }
    if Scoped(resources) {
      forall walk, existing | Ranges(resources, walk) && ClosedUnder(DependencyRelation(resources), existing)
        ensures FoundAmong(resources, order, walk, existing, |order|) == existing
      {
        ScopedFindsAll(resources, order, walk, existing, |order|);
        assert order[..|order|] == order;
      }
    } else {
      var first, id, e :| first in resources && id in resources && !BringsNothing(resources, first, id, e);
      var walk, existing := ForeignIsMissed(resources, order, first, id, e);
    }
  }
}
