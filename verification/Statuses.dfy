/** The status fields of the instance: where they are written, and what stays. */
module Statuses {
  import opened Fieldpath
  import opened PathText
  import opened Values
  import opened Flatten
  import opened Resolution
  import opened ExprStates

  const STATUS := "status"
  const STATUS_PREFIX := "status."

  predicate BelowStatus(path: string) { STATUS_PREFIX <= path }

  /** The instance with the first expression of every field written where its value is known. */
  function WriteStatuses(obj: Value, vars: seq<Variable>, values: map<string, Value>): Option<Value> {
    if vars == [] then Some(obj)
    else
      var v := vars[|vars| - 1];
      match WriteStatuses(obj, vars[..|vars| - 1], values)
      case None => None
      case Some(o) =>
        if v.field.expressions != [] && v.field.expressions[0] in values
        then WritePath(o, v.field.path, values[v.field.expressions[0]]) else Some(o)
  }

  /** A failed write is final. */
  lemma {:induction false} WritingStops(obj: Value, vars: seq<Variable>, n: nat, values: map<string, Value>)
    requires n <= |vars|
    ensures WriteStatuses(obj, vars, values).Some? ==> WriteStatuses(obj, vars[..n], values).Some?
    decreases |vars| - n
  {
    hide WritePath;
    if n < |vars| {
      WritingStops(obj, vars, n + 1, values);
      assert vars[..n + 1][..n] == vars[..n];
    } else {
      assert vars[..n] == vars;
    }
  }

  /** The path string leads along the walk. */
  predicate Addresses(path: string, w: Walk) {
    w != [] && Parse(path) == Segments(SegmentsOf(w))
  }

  predicate ValueKnown(v: Variable, values: map<string, Value>) {
    v.field.expressions != [] && v.field.expressions[0] in values
  }

  /** When the walks of the status fields part ways, every known value can be read back at its
      field after all fields were written. */
  lemma {:induction false} StatusesAreReadable(obj: Value, vars: seq<Variable>, ws: seq<Walk>,
                                               values: map<string, Value>)
    requires |ws| == |vars| && forall i | 0 <= i < |vars| :: Addresses(vars[i].field.path, ws[i])
    requires forall i, j | 0 <= i < |ws| && 0 <= j < |ws| && i != j :: Diverge(ws[i], ws[j])
    requires WriteStatuses(obj, vars, values).Some?
    ensures forall i | 0 <= i < |vars| && ValueKnown(vars[i], values) ::
      Get(WriteStatuses(obj, vars, values).value, ws[i]) == Some(values[vars[i].field.expressions[0]])
  {
    hide Parse, Diverge, Get, Set;
    if vars != [] {
      var n := |vars| - 1;
      StatusesAreReadable(obj, vars[..n], ws[..n], values);
      var before := WriteStatuses(obj, vars[..n], values).value;
      if ValueKnown(vars[n], values) {
        var x := values[vars[n].field.expressions[0]];
        StepsOfSegmentsOf(ws[n]);
        assert SegmentsOf(ws[n]) != [] && Set(before, ws[n], x) == WriteStatuses(obj, vars, values);
        GetAfterSet(before, ws[n], x);
        forall i | 0 <= i < n && ValueKnown(vars[i], values)
          ensures Get(WriteStatuses(obj, vars, values).value, ws[i]) == Some(values[vars[i].field.expressions[0]])
        {
          assert vars[..n][i] == vars[i] && ws[..n][i] == ws[i];
          SetPreservesOthers(before, ws[n], x, ws[i]);
        }
      } else {
        forall i | 0 <= i < n && ValueKnown(vars[i], values)
          ensures Get(before, ws[i]) == Some(values[vars[i].field.expressions[0]])
        {
          assert vars[..n][i] == vars[i] && ws[..n][i] == ws[i];
        }
      }
    }
  }

  /** What the walks of the written fields do not lead to stays as it was. */
  lemma {:induction false} StatusesKeepOthers(obj: Value, vars: seq<Variable>, ws: seq<Walk>,
                                              values: map<string, Value>, u: Walk)
    requires |ws| == |vars| && forall i | 0 <= i < |vars| :: Addresses(vars[i].field.path, ws[i])
    requires forall i | 0 <= i < |vars| && ValueKnown(vars[i], values) :: Diverge(u, ws[i])
    requires WriteStatuses(obj, vars, values).Some? && Get(obj, u).Some?
    ensures Get(WriteStatuses(obj, vars, values).value, u) == Get(obj, u)
  {
    hide Parse, Diverge, Get, Set;
    if vars != [] {
      var n := |vars| - 1;
      forall i | 0 <= i < n && ValueKnown(vars[..n][i], values) ensures Diverge(u, ws[..n][i]) {
        assert vars[..n][i] == vars[i] && ws[..n][i] == ws[i];
      }
      StatusesKeepOthers(obj, vars[..n], ws[..n], values, u);
      if ValueKnown(vars[n], values) {
        var before, x := WriteStatuses(obj, vars[..n], values).value, values[vars[n].field.expressions[0]];
        StepsOfSegmentsOf(ws[n]);
        assert SegmentsOf(ws[n]) != [] && Set(before, ws[n], x) == WriteStatuses(obj, vars, values);
        SetPreservesOthers(before, ws[n], x, u);
      }
    }
  }

  // ------------------------------------------------------ below `status` only

  /** Everything outside the status is the same, down to what is missing. */
  ghost predicate SameButStatus(a: Value, b: Value) {
    forall u: Walk | u != [] && u[0] != Key(STATUS) :: Get(b, u) == Get(a, u)
  }

  lemma SameAsItself(a: Value)
    ensures SameButStatus(a, a)
  {
  }

  lemma SameButStatusTrans(a: Value, b: Value, c: Value)
    requires SameButStatus(a, b) && SameButStatus(b, c)
    ensures SameButStatus(a, c)
  {
  }

  /** A path below the status is read as a walk that begins with it. */
  lemma StatusFirst(path: string)
    requires BelowStatus(path) && Parse(path).Segments?
    ensures Parse(path).segments != [] && Parse(path).segments[0] == Named(STATUS)
  {
    hide Parse;
    var t := path[|STATUS|..];
    assert path[..|STATUS_PREFIX|] == STATUS_PREFIX && STATUS_PREFIX == STATUS + ".";
    assert path == STATUS + t && t[0] == path[6] == '.';
    NameStep(STATUS, t);
  }

  lemma WriteBelowStatus(obj: Value, path: string, x: Value)
    requires BelowStatus(path) && WritePath(obj, path, x).Some?
    ensures SameButStatus(obj, WritePath(obj, path, x).value)
  {
    hide Parse;
    StatusFirst(path);
    var w := StepsOf(Parse(path).segments);
    assert w[0] == Key(STATUS);
    var r := WritePath(obj, path, x).value;
    forall u: Walk | u != [] && u[0] != Key(STATUS) ensures Get(r, u) == Get(obj, u) {
      OtherChild(obj, w, x, u[0]);
    }
  }

  lemma OtherChild(obj: Value, w: Walk, x: Value, st: Step)
    requires w != [] && w[0].Key? && st != w[0] && Set(obj, w, x).Some?
    ensures Child(Set(obj, w, x).value, st) == Child(obj, st)
  {
  }

  /** Writing the status fields changes nothing but the status. */
  lemma {:induction false} StatusesBelowStatus(obj: Value, vars: seq<Variable>, values: map<string, Value>)
    requires WriteStatuses(obj, vars, values).Some? && forall v | v in vars :: BelowStatus(v.field.path)
    ensures SameButStatus(obj, WriteStatuses(obj, vars, values).value)
  {
    hide BelowStatus, SameButStatus, WritePath;
    if vars == [] {
      SameAsItself(obj);
    } else {
      var n := |vars| - 1;
      StatusesBelowStatus(obj, vars[..n], values);
      var o := WriteStatuses(obj, vars[..n], values).value;
      if ValueKnown(vars[n], values) {
        WriteBelowStatus(o, vars[n].field.path, values[vars[n].field.expressions[0]]);
        SameButStatusTrans(obj, o, WriteStatuses(obj, vars, values).value);
      }
    }
  }
}
