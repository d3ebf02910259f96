/** From a template and a schema to the resource in memory: flatten, then resolve in place. */
module Instantiation {
  import opened Ordering
  import opened Fieldpath
  import opened PathText
  import opened Values
  import opened Flatten
  import opened SchemaFlatten
  import opened Resolution
  import opened GoHeap
  import opened ResolverModule

  lemma PathsAreRead(t: Value, fs: seq<FieldDescriptor>, ws: seq<Walk>, env: Env)
    requires t.Obj? && Describes(t, fs, ws) && Tame(t, Elements(ws), env)
    ensures Usable(fs)
    ensures forall i | 0 <= i < |fs| :: Parse(fs[i].path) != Spins && Parse(SkipDot(fs[i].path)) != Spins
  {
    hide Leaves, Parse, PathOf, Entry, TameString;
    ResolveSome(t, {}, fs, ws, env);
    forall i | 0 <= i < |fs| ensures Parse(fs[i].path) != Spins && Parse(SkipDot(fs[i].path)) != Spins {
      assert ws[i] in Elements(ws);
      EntryPath(t, ws[i], fs[i]);
      PathHasNoLeadingDot(ws[i]);
      PathSpinsIff(ws[i]);
    }
  }

  lemma EntryPath(t: Value, w: Walk, f: FieldDescriptor)
    requires Entry(t, [], w, f)
    ensures f.path == PathOf(w)
  {
    assert [] + w == w;
  }

  lemma KeptLists(t: Value, fs: seq<FieldDescriptor>, ws: seq<Walk>, leaves: set<Walk>)
    requires Lists(t, [], leaves, fs, ws)
    ensures Describes(t, fs, ws) && Elements(ws) == leaves
  {
  }

  /** The resource in memory becomes its template with every string outside
      unknown-preserving objects substituted; with no such object, the whole template is. */
  method Instantiate(resolver: Resolver, template: Value, schema: Option<Schema>, env: Env)
    returns (accepted: bool, resolved: nat, errors: nat)
    requires resolver.Valid() && Tree(resolver.root) == template && template.Obj?
    requires Conforms(template, schema) ==> Tame(template, Kept(template, schema), env)
    modifies resolver`mem, resolver`root, resolver`repr, resolver.repr
    ensures accepted <==> Conforms(template, schema)
    ensures resolver.Valid()
    ensures accepted ==> Tree(resolver.root) == SubstitutedAt(template, Kept(template, schema), env)
    ensures accepted ==> resolved == |ReadyAmong(template, Kept(template, schema), env)|
    ensures accepted ==> resolved + errors == |Kept(template, schema)|
    ensures accepted && !MeetsPreserved(template, schema) ==> Tree(resolver.root) == Substituted(template, env)
    ensures !accepted ==> Tree(resolver.root) == template
  {
    hide Tree, Conforms, Kept, Lists, Describes, Tame, Resolver.Valid, MeetsPreserved, SubstitutedAt, Substituted;
    resolved, errors := 0, 0;
    var parsed;
    ghost var ws;
    parsed, ws := ParseResource(template, schema, "", []);
    accepted := parsed.Fields?;
    if accepted {
      KeptLists(template, parsed.fields, ws, Kept(template, schema));
      PathsAreRead(template, parsed.fields, ws, env);
      resolved, errors := resolver.Resolve(parsed.fields, env);
      NowhereIsNothing(template, env);
      ResolveSome(template, {}, parsed.fields, ws, env);
      assert {} + Elements(ws) == Elements(ws);
      DescribedCount(template, parsed.fields, ws);
      EverywhereIsAll(template, env);
      if !MeetsPreserved(template, schema) {
        KeptIsLeaves(template, schema);
      }
    }
  }

  lemma DescribedCount(t: Value, fs: seq<FieldDescriptor>, ws: seq<Walk>)
    requires Describes(t, fs, ws)
    ensures |fs| == |Elements(ws)|
  {
    NoDupLength(ws);
  }
}
