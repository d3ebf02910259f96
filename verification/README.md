# kro: the graph, the resolver, the runtime and the reconciler, verified

kro turns a ResourceGroup - templates with `${...}` expressions - into a dependency graph, and
then drives a cluster towards it, one instance at a time. This project models the logic of that
path in Dafny and proves what it is for. I/O is replaced by values: the CEL inspector and the CEL
evaluator are oracles, the API server is a state with a schedule of environment moves and faults
that is quantified over. Everything else is modelled branch by branch.

1. **Dependency graph** (`Ordering`, `Graphs`, `PostOrder`, `Dag`, `DependencyGraph`, `Assembly`).
   Incremental edges with rollback, depth-first cycle search with a witness, the one topological
   order that `PostOrder` also describes without the search, the construction of the graph from
   inspected expressions, and a whole group from its definitions: `Assembly` says exactly which
   groups are built, and what a built group lacks to be all that the runtime and the controller take
   for granted. `Unfit` holds groups that are built and lack something.
2. **Templates** (`Cel`, `Brackets`, `Flatten`, `SchemaFlatten`, `Fieldpath`, `PathText`,
   `PathTexts`, `Interpolation`, `Values`, `GoHeap`, `Resolver`, `Resolution`, `Instantiation`).
   Templates are flattened to descriptors with path strings; later the paths are parsed again and
   nested maps and slices are patched in place, growing slices on the way. The main result is that
   this detour equals structural substitution, for every order in which the traversal ranged over
   the maps. Maps and slices are objects; `GoHeap` relates the objects in memory to the tree they
   stand for.
3. **Runtime** (`ExprStates`, `Scoping`, `Refilling`, `Statuses`, `Runtime`). Expression states
   shared through a cache, synchronization steps, which resources may be processed when, and the
   exact condition under which sharing keeps no existing child out of sight.
4. **Reconciler** (`Inclusion`, `Protocol`, `Cluster`, `Reconciler`, `Controller`, `Histories`,
   `Damage`). A protocol of environment moves and disciplined writes with its whole-run invariants,
   the create and delete passes, which are proved to write only what the protocol allows, and any
   number of reconciliations in a row, with a bound on those that ask to be called again. `Damage`
   shows what every group that shares expressions badly can lead to. `Example` holds a group that
   meets all conditions (`Example.GroupFits`) and one that does not, with the run in which a child
   outlives its instance.
5. **Finalizers** and **Markers** (`Markers`, `MarkerTexts`): the finalizer list of an unstructured
   object and the marker parser of the simple schema.

Text is a sequence of bytes, one `char` each, except in `Markers` and `MarkerTexts`, where a `char`
is a rune.

## What the proofs found

- `Parse` never returns on a path that ends in an undotted field name of one byte, such as
  `spec.x`: the loop stops advancing. On clean names the exact condition is `PathText.PathSpinsIff`;
  for every text it is `Fieldpath.SpinsIff`: some number of turns leaves a single character that is
  neither a dot nor an opening bracket. The graph builder accepts such fields
  (`Unfit.ShortNameIsAccepted`).
- A key with an opening bracket, or a dotted key that needs escaping, is not read back from the
  path the traversal printed (`PathText.PathRoundTripIff`); neither are a name ending in `]`
  before another name and a few more forms printed by `Build` (`PathText.BuildRoundTripIff`).
- `strings.Trim(_, "${}")` changes exactly the expressions that start or end with a dollar or a
  brace (`Flatten.TrimKeepsIff`), and their values are then looked up under another text.
- Replacing one `${expr}` after another, in any order and any number of times, is simultaneous
  substitution if and only if the finished text shows none of the string's own spans, other than as
  its own value (`Interpolation.SafeIff`, for every string and all its values). A literal and the
  value after it are harmless in every template exactly if together they hold no `${` and do not end
  in a dollar (`Interpolation.HarmlessIff`).
- The expression cache gives a field the kind and dependencies of whichever field with the same
  expression was seen first (`Scoping.FirstFieldWins`), and a `readyWhen` condition with the same
  text takes the cache entry over: a field's state is usable exactly if its text is that of no
  readiness condition (`Runtime.ResourceGroupRuntime.UsableIff`). A resource with such a text is
  never filled in and never processed (`Unfit.BlockedIsNeverFilled`).
- A delete pass skips an existing child that has to wait, counts it as gone, and may give up the
  finalizer (`Example.ChildOutlivesInstance`). The passes over all clusters and all map orders find
  everything that exists exactly if no shared expression brings a resource a dependency that is not
  a direct or indirect one of its own, or loses its state to a readiness condition
  (`Scoping.FindsAllIff`). In every other group some delete pass leaves children without their
  instance or deletes a child that an existing one depends on (`Damage.NextPassDoesHarm`).
- The name check does not refuse a resource called `schema`, like the instance in expressions
  (`Unfit.SchemaIsAccepted`); `Assembly.BuiltGroupFits` lists all that a built group may lack.
- A field under additional properties that are allowed without a schema is refused whatever it
  holds: the empty schema it gets has no type (`SchemaFlatten.FieldConformsIff`).
- `parseMarkers` ignores spaces inside a key, so `re quired=` is `required=`
  (`MarkerTexts.SpacesAreRead`); `MarkerTexts.ParsedIff` says exactly which texts are accepted.
- `parseMarkers` slices out of range exactly on inputs that end in a quote right after the `=` of
  a marker (`Markers.PanicsIff`), and drops trailing text exactly if it is closed in itself and has no
  `=` outside quotes and brackets (`Markers.TrailingTextIsDroppedIff`).

## Model

| member | source | states |
|---|---|---|
| Graphs.ListingCertifiesAcyclic | internal/graph/dag/dag.go:172-218 | a listing in which every edge leads to an earlier vertex exists only for acyclic graphs; the finished depth-first search is such a listing |
| Graphs.EdgeClosesCycleIffReaches | internal/graph/dag/dag.go:70-98 | adding an edge to an acyclic graph makes a cycle exactly if its target already reaches its source |
| Graphs.CycleUsesNewEdge | internal/graph/dag/dag.go:86-95 | a cycle found after an insertion goes through the inserted edge |
| Graphs.TopologicalOrderValid | internal/graph/dag/dag.go:100-138 | on closed acyclic graphs the order lists every vertex exactly once, every edge target before its source |
| PostOrder.TopologicalOrderIff | internal/graph/dag/dag.go:100-138 | a listing is the order returned exactly if it has every vertex once, each before the later ones, where `Before` says without any search which of two vertices is first: an earlier start in ascending byte order leads to it, or the same one leads to both and is the other one, or, being neither, has targets that put it first |
| PostOrder.OneIsBefore | internal/graph/dag/dag.go:100-138 | of two different vertices of a closed acyclic graph exactly one is before the other |
| PostOrder.WithoutEdgesAscending | internal/graph/dag/dag.go:118-138 | without edges the order is the ascending one |
| Dag.CycleSearch.Dfs | internal/graph/dag/dag.go:177-203 | the recursion with visited set, stack and path: a hit leaves a walk that comes back to itself, a miss leaves only finished vertices whose targets are finished |
| Dag.TrimToCycle | internal/graph/dag/dag.go:204-212 | cutting the path at the first occurrence of its last vertex leaves a cycle without inner repetition |
| Dag.DirectedAcyclicGraph.AddVertex | internal/graph/dag/dag.go:45-54 | adds an isolated vertex or reports a duplicate; the graph stays closed and acyclic |
| Dag.DirectedAcyclicGraph.AddEdge | internal/graph/dag/dag.go:70-98 | succeeds exactly if both ends exist, differ, and the target does not reach the source; otherwise the edge set is exactly as before; the reported cycle uses the refused edge |
| Dag.DirectedAcyclicGraph.HasCycle | internal/graph/dag/dag.go:172-218 | true exactly if the edge relation has a cycle, for any map order; the path returned is a cycle of edges without inner repetition |
| Dag.DirectedAcyclicGraph.TopologicalSort | internal/graph/dag/dag.go:100-138 | fails exactly on cyclic graphs, and otherwise gives the one order in which of two vertices that one is earlier which is reached from an earlier vertex in ascending byte order, or which the other one, reached first, leads to |
| Dag.DirectedAcyclicGraph.GetVertices | internal/graph/dag/dag.go:142-152 | the vertices, each once, in ascending order; `Ordering.LessIff` says byte by byte which |
| Ordering.SortStrings | internal/graph/dag/dag.go:149-151 | the ascending permutation of a duplicate-free list |
| Ordering.LessIff | internal/graph/dag/dag.go:149-151 | a text is less than another exactly if it is a proper prefix of it or has the smaller byte where they first differ |
| Ordering.SortedIsUnique | internal/graph/dag/dag.go:142-152 | there is only one sorted listing of a set, so the map order leaves no trace |
| DependencyGraph.ResourceField.AddDependencies | internal/graph/variable/variable.go:76-82 | appends the new dependencies, once each, and keeps the old ones in place |
| DependencyGraph.Resource.AddDependencies | internal/graph/resource.go:81-102 | appends the new dependencies, once each, and keeps the old ones in place |
| DependencyGraph.ExtractDependencies | internal/graph/builder.go:643-669 | accepts exactly the expressions whose inspection finds only known ids; gives the ids other than the instance, once each, and calls the expression static iff there are none |
| DependencyGraph.ProcessField | internal/graph/builder.go:374-404 | the field's dependencies become those of its expressions and it is dynamic iff it has any; stops exactly at an unacceptable expression or an edge that closes a cycle |
| DependencyGraph.BuildDependencyGraph | internal/graph/builder.go:346-408 | succeeds exactly if all expressions are acceptable and the extracted relation is acyclic, in any map order; then edges, resource dependencies and the union of the field dependencies coincide |
| Assembly.BuildAndSort | internal/graph/builder.go:225-233 | graph and order succeed under the same condition, and the order is that of the extracted relation |
| Assembly.ParseConditionExpressions | internal/graph/parser/conditions.go:29-44 | accepts exactly lists of standalone expressions and gives them trimmed |
| Assembly.BuildRGResource | internal/graph/builder.go:248-335 | a definition is accepted exactly if its template conforms to its schema, or holds no expression where it is a custom resource definition, and all its conditions are standalone expressions; the resource then has one field for each listed string, with the type declared for it |
| Assembly.NewResourceGroup | internal/graph/builder.go:103-240 | a group is built exactly if every id is in camel case and not reserved, all definitions are accepted, all their expressions refer to known resources, the relation they extract is acyclic, and the status fields are accepted; the returned map then has one resource for each definition and no other, made of its listed fields and conditions and with the dependencies and kinds extracted from them; the order is a function of the definitions; the returned instance fields are one for each string with expressions in the status, below `status` |
| Assembly.BuiltIffPathsEnd | internal/graph/builder.go:297-312 | a parsed and built resource is all that the runtime asks of it exactly if the paths of its listed fields can be parsed |
| Assembly.ParsableIff | internal/graph/fieldpath/parser.go:61-102 | on clean names that is so exactly if the last one is not an undotted name of one byte |
| Assembly.BuildInstance | internal/graph/builder.go:420-503 | the status fields are accepted exactly if they nest nothing, refer to known resources only, and the first expression of each refers to one; then there is one field for each string with expressions, with its path below `status`, its expressions, and what the first of them refers to as dependencies |
| Assembly.InstanceFits | internal/graph/builder.go:481-503 | the built instance is all that the runtime asks of it exactly if its paths, prefixed with `status.`, can be parsed |
| Assembly.BuiltGroupFits | internal/graph/builder.go:103-240 | a built group is all that runtime and controller ask for exactly if its field and status paths can be parsed, no resource is called like the instance spec, and the conditions are boolean; dependencies, kinds, order and listed fields hold of every built group |
| Unfit.SchemaIsAccepted | internal/graph/validation.go:38-76 | a resource called `schema` passes |
| Unfit.ShortNameIsAccepted | internal/graph/builder.go:297-312 | a field with a name of one byte is accepted, though its path is never parsed |
| Unfit.BlockedFits | internal/runtime/runtime.go:62-88 | a group in which a readiness text is that of a field meets the controller's conditions but is not scoped |
| Unfit.BlockedIsNeverFilled | internal/runtime/runtime.go:62-88 | in it the resource with that field is never filled in and, once synchronized, never processed |
| Cel.ExtractExpressions | internal/graph/parser/cel.go:31-82 | the nested loops terminate and compute the extraction defined on the string |
| Cel.UnclosedIsLast | internal/graph/parser/cel.go:69-73 | a start that never closes is the last one in the string |
| Cel.NothingAfterOpen | internal/graph/parser/cel.go:69-73 | after a start that never closes there is no further expression, so retrying behind it finds nothing |
| Cel.IsStandaloneExpression | internal/graph/parser/cel.go:86-93 | decides standalone strings and reports nested expressions |
| Cel.DecomposeRender | internal/graph/parser/cel.go:31-82 | cutting undoes rendering literals and balanced spans |
| Cel.RenderDecompose | internal/graph/parser/cel.go:31-82 | rendering undoes cutting, for every string without nested expressions |
| Cel.ExtractIsExprsOfCut | internal/graph/parser/cel.go:31-82 | extraction fails exactly on nested expressions and else gives the spans of the cut, in order |
| Cel.ExtractRender | internal/graph/parser/cel.go:31-82 | from any rendered template exactly its expressions come back |
| Cel.StandaloneIff | internal/graph/parser/cel.go:86-93 | a string is standalone iff it is one span with nothing around it |
| Brackets.ScanIff | internal/graph/parser/cel.go:45-73 | told by counting: the scan closes exactly at the first bracket up to which, with what was open, one more bracket opens than closes, and meets a nested start exactly if one comes before it |
| Brackets.BalancedIff | internal/graph/parser/cel.go:31-82 | a text can stand in a span exactly if it has as many closing as opening brackets, none closing before it opens, and no start |
| Flatten.TrimKeepsIff | internal/graph/parser/parser.go:149-152 | trimming leaves an expression alone iff neither end is a dollar or brace |
| Flatten.TrimSpan | internal/graph/parser/parser.go:149-152 | trimming the standalone string gives what trimming its expression gives |
| Flatten.TrimIs | internal/graph/parser/parser.go:149-152 | trimming cuts off dollars and braces at both ends, as many as there are |
| Flatten.LeavesIff | internal/graph/parser/schemaless.go:32-83 | listed are exactly the walks that lead to a string with expressions |
| Flatten.ParseSchemaless | internal/graph/parser/schemaless.go:25-83 | fails exactly if some string nests expressions; else lists every string with expressions once, with the path of the walk to it and the type `any`, for any map order |
| SchemaFlatten.ParseResource | internal/graph/parser/parser.go:36-62 | succeeds exactly on templates that conform to the schema and lists the strings with expressions outside unknown-preserving objects, each with the type the schema expects at its place |
| SchemaFlatten.ConformsIff | internal/graph/parser/parser.go:36-228 | a value conforms exactly if the schema admits it: the one type declared is the name of the type of the value (null, boolean, integer, number, string, array, object), or the value is null or one standalone expression, or it is a scalar or string and the type is open, or an object with additional properties allowed; and its fields and items are admitted by their own schemas |
| SchemaFlatten.FieldConformsIff | internal/graph/parser/parser.go:201-216 | the declared schema of a field wins over the additional one; a field with neither is refused whatever it holds, even if additional properties are allowed |
| SchemaFlatten.ExpectedIs | internal/graph/parser/parser.go:36-90 | the type expected is the declared one, or any where that is empty and additional properties are allowed |
| SchemaFlatten.KeptIff | internal/graph/parser/parser.go:92-142 | kept are exactly the strings with expressions on whose way no object preserves unknown fields |
| SchemaFlatten.ParseString | internal/graph/parser/parser.go:144-175 | a string conforms if it is standalone or a string is expected, and is listed if it holds expressions |
| SchemaFlatten.ParseObject | internal/graph/parser/parser.go:92-120 | as above for the fields of an object |
| SchemaFlatten.ParseArray | internal/graph/parser/parser.go:122-142 | as above for the items of an array |
| SchemaFlatten.KeptIsLeaves | internal/graph/parser/parser.go:97-104 | without unknown-preserving objects nothing is skipped |
| SchemaFlatten.TraversalsAgree | internal/graph/parser/schemaless.go:25-83 | on a conforming template without unknown-preserving objects both traversals yield the same multiset of path, expressions and standalone mark |
| Fieldpath.AtoiOfItoa | internal/graph/fieldpath/parser.go:152-173 | indices survive the trip through decimal text |
| Fieldpath.StuckIff | internal/graph/fieldpath/parser.go:61-102 | the loop fails to advance exactly on a single last byte that is neither a dot nor an opening bracket |
| Fieldpath.SpinsIff | internal/graph/fieldpath/parser.go:61-102 | for every text, the parser never returns exactly if some number of turns leaves a single character that is neither a dot nor an opening bracket |
| Fieldpath.Parser.ParseQuotedField | internal/graph/fieldpath/parser.go:108-129 | consumes a quoted name up to the next quote, which a bracket must follow |
| Fieldpath.Parser.ParseUnquotedField | internal/graph/fieldpath/parser.go:135-148 | consumes up to the next dot or opening bracket and refuses an empty name |
| Fieldpath.Parser.ParseArrayIndex | internal/graph/fieldpath/parser.go:152-173 | consumes a bracketed decimal number in range |
| Fieldpath.Parser.Run | internal/graph/fieldpath/parser.go:43-102 | the position-advancing loop computes the function `Parse` of the input, telling apart segments, errors and endless loops |
| PathTexts.ParseIff | internal/graph/fieldpath/parser.go:43-173 | a text is accepted, for given segments, exactly if it is made of bare names, quoted names and bracketed numbers that mean them, with a dot after some, where a bare name has no dot or opening bracket in it, is followed by one or by the end, and is not the last single character |
| PathTexts.AtoiIff | internal/graph/fieldpath/parser.go:152-173 | read as a number is exactly a sign or none, then zeros, then the decimal digits of a number that with the sign is in range |
| PathText.PathOfIsText | internal/graph/parser/parser.go:246-254 | the path grown at its end by the traversal is the text of the walk read from its front |
| PathTexts.QuotedSaysName | internal/graph/parser/parser.go:246-254 | the escapes of a quoted name say byte by byte what the name was |
| PathText.PathRoundTripIff | internal/graph/parser/parser.go:246-254 | a printed path is read back as its walk exactly if quoted names need no escaping, other names hold no opening bracket, and the last name is not an undotted single byte |
| PathText.PathSpinsIff | internal/graph/fieldpath/parser.go:61-102 | on paths with clean names the parser never fails, and never returns exactly if the last step is an undotted one-byte name |
| PathText.OneByteFieldSpins | internal/graph/fieldpath/parser.go:70-77 | `spec.x` is never parsed |
| PathText.Build | internal/graph/fieldpath/builder.go:26-47 | the buffer loop computes the builder's text |
| PathText.BuildRoundTripIff | internal/graph/fieldpath/builder.go:26-47 | `Parse` undoes `Build` exactly on lists with a name where there is no index, of clean segments, that do not end in a one-byte name; for all lists of segments |
| Values.GetAfterSet | internal/runtime/resolver/resolver.go:192-252 | what was written is what is read back |
| Values.SetPreservesOthers | internal/runtime/resolver/resolver.go:192-304 | everything readable on a diverging walk is still there, also when arrays grow |
| Values.SetAddsNothingElse | internal/runtime/resolver/resolver.go:192-304 | what was not readable before and is now lies on the way of the walk, or is a null that fills an array up to it |
| Values.SetFailsIff | internal/runtime/resolver/resolver.go:192-278 | writing fails exactly if an existing value strictly inside the walk is not a container of the kind the next step needs |
| Values.SetFromNull | internal/runtime/resolver/resolver.go:226-248 | once the walk creates nodes it can no longer fail |
| GoHeap.WriteChild | internal/runtime/resolver/resolver.go:297-304 | writing one entry of one map or slice object, deep inside an unshared tree, replaces exactly that place of the tree |
| GoHeap.TreePutAt | internal/runtime/resolver/resolver.go:192-252 | replacing a place in memory is writing along the walk in the tree |
| GoHeap.TreeGet | internal/runtime/resolver/resolver.go:151-189 | reading a place in memory is reading along the walk in the tree |
| ResolverModule.Resolver.UpdateParent | internal/runtime/resolver/resolver.go:294-304 | the entry of the parent object changes and with it exactly that place of the tree |
| ResolverModule.Resolver.HandleArraySegment | internal/runtime/resolver/resolver.go:254-278 | accepts a slice or nothing; afterwards the slice at the place is long enough and the write still to be done has the same outcome |
| ResolverModule.Resolver.CreateNext | internal/runtime/resolver/resolver.go:280-292 | an empty container of the kind the next segment needs is put where nothing is, without changing the outcome of the write |
| ResolverModule.Resolver.Assign | internal/runtime/resolver/resolver.go:205-252 | the walk with parent and current succeeds exactly if the write along the steps does, has its result, and changes nothing when it fails |
| ResolverModule.Resolver.SetValueAtPath | internal/runtime/resolver/resolver.go:192-252 | all or nothing: the tree becomes the written one, or the call fails and memory is as before |
| ResolverModule.Resolver.GetValueFromPath | internal/runtime/resolver/resolver.go:147-189 | finds a value exactly if the tree has one at the parsed path, and that one |
| ResolverModule.Resolver.ResolveOne | internal/runtime/resolver/resolver.go:87-145 | the tree in memory becomes the one with the field resolved; an error leaves it as it was |
| ResolverModule.Resolver.Interpolate | internal/runtime/resolver/resolver.go:124-133 | succeeds exactly if every trimmed expression has a value and then replaces one after another |
| ResolverModule.Resolver.Resolve | internal/runtime/resolver/resolver.go:60-80 | the in-place loop gives the tree and the counts of the specification |
| Interpolation.SequentialIsSimultaneous | internal/runtime/resolver/resolver.go:117-142 | replacing spans one after another, in any order, equals filling them all in at once, and doing it again changes nothing, whenever the finished text shows none of the spans |
| Interpolation.SafeIff | internal/runtime/resolver/resolver.go:123-138 | for every well-formed string and all values: replacement in whatever order and however often is simultaneous substitution exactly if no span of an expression of the string occurs in the finished text, other than as that expression's own value |
| Interpolation.HarmlessIff | internal/runtime/resolver/resolver.go:123-138 | a literal with the value after it is harmless in every well-formed template whose other literals and values open nothing exactly if together they hold no `${` and do not end in a dollar |
| Interpolation.DollarInValueMatters | internal/runtime/resolver/resolver.go:124-133 | on the mixed string `${a}-${b}` a value that holds a span is itself replaced |
| Interpolation.DollarBeforeSpanMatters | internal/runtime/resolver/resolver.go:124-133 | on the mixed string `$${a}b}${b}` a literal, a value and the text after it form a span, which is replaced, too |
| Resolution.FieldFillsLeaf | internal/runtime/resolver/resolver.go:90-145 | resolving one descriptor fills in exactly the string it was made from, whatever was filled in before, also a second time |
| Resolution.ResolvingIsSubstitution | internal/runtime/resolver/resolver.go:60-145 | for descriptors in any order, resolving through paths and texts is structural substitution, counts the strings whose values are known, and is idempotent |
| Resolution.AllResolvedIff | internal/runtime/resolver/resolver.go:60-80 | every field resolves exactly if every expression has a value |
| Resolution.SetWhatIsThere | internal/runtime/resolver/resolver.go:192-252 | writing what is there changes nothing |
| Instantiation.Instantiate | internal/graph/parser/parser.go:36-175 | flattening a template under a schema and then resolving it in memory succeeds exactly on conforming templates and leaves in memory the template with every string outside unknown-preserving objects substituted |
| ExprStates.AddVariables | internal/runtime/runtime.go:60-80 | one state per expression; the cache only grows; existing entries are shared |
| ExprStates.AddReadyWhen | internal/runtime/runtime.go:81-88 | every readiness text ends up with a readiness state in the cache |
| ExprStates.BuildStates | internal/runtime/runtime.go:58-108 | for any order in which the map is ranged over, the state of a field is a readiness one exactly if a resource ranged over before has a condition with its text, and else that of the first field with its expression; every readiness text ends as a readiness entry of the cache |
| Scoping.FirstFieldWins | internal/runtime/runtime.go:62-79 | the first field with an expression, in the resource ranged over first, decides kind and dependencies for all of them |
| Scoping.FindsAllIff | internal/controller/instance/controller_reconcile.go:275-308 | whatever exists, together with what it depends on, and however the map of resources was ranged over: a pass finds all of it, for every such cluster and order, if and only if no shared expression brings a foreign dependency or loses its state to a readiness condition |
| Scoping.ProcessableWhenClosed | internal/runtime/runtime.go:275-298 | where none does, a resource can be processed once its dependencies and theirs are set |
| Refilling.StageStays | internal/runtime/runtime.go:426-449 | what was filled in with fewer values is what is filled in with more |
| Refilling.StageResolves | internal/runtime/runtime.go:426-449 | one more round fills in every listed string whose values are known by now: all of them if it reports no error, and otherwise some string lacks a value |
| Runtime.NewResourceGroupRuntime | internal/runtime/runtime.go:44-122 | a runtime in a consistent state in which exactly the static expressions are resolved and every template that can be processed is complete; it fails only if a static expression cannot be evaluated or such a template lacks a value |
| Runtime.ResourceGroupRuntime.Record | internal/runtime/runtime.go:395-396 | resolving a state adds a value, changes none, and disturbs no template filled in so far |
| Runtime.ResourceGroupRuntime.EvaluateStaticVariables | internal/runtime/runtime.go:304-325 | exactly the static expressions are resolved, each to the evaluator's value |
| Runtime.ResourceGroupRuntime.EvaluateDynamicVariables | internal/runtime/runtime.go:344-401 | without an error a cached dynamic expression is resolved iff all its dependencies are set, with an error one of those cannot be evaluated; new values are the evaluator's on those dependencies; old values stay |
| Runtime.ResourceGroupRuntime.ContainsAllElements | internal/runtime/runtime.go:583-590 | subset test |
| Runtime.ResourceGroupRuntime.ResourceVariablesResolved | internal/runtime/runtime.go:291-298 | every dynamic state of the resource is resolved |
| Runtime.ResourceGroupRuntime.CanProcessResource | internal/runtime/runtime.go:275-287 | the dynamic states of the resource and of its dependencies are resolved |
| Runtime.ResourceGroupRuntime.EvaluateResourceExpressions | internal/runtime/runtime.go:428-449 | without an error the template is complete: every listed string substituted with the values known now; with an error some listed string lacks a value |
| Runtime.ResourceGroupRuntime.PropagateResourceVariables | internal/runtime/runtime.go:260-271 | without an error every resource that can be processed is complete; with an error one of them lacks a value |
| Runtime.ResourceGroupRuntime.EvaluateInstanceStatuses | internal/runtime/runtime.go:407-424 | succeeds exactly if every status field whose value is known can be written, and leaves the instance with exactly those written; everything outside the status is the same, also after an error |
| Statuses.StatusesAreReadable | internal/runtime/runtime.go:407-424 | when the status paths part ways, every known value can be read back at its field after all were written |
| Statuses.StatusesKeepOthers | internal/runtime/runtime.go:407-424 | whatever the walks of the written fields do not lead to is read as before |
| Statuses.StatusesBelowStatus | internal/runtime/runtime.go:407-424 | writing fields with paths below `status.` changes nothing outside the status, neither adding nor removing |
| Statuses.StatusFirst | internal/graph/builder.go:482-485 | a path prefixed with `status.` is parsed to segments that begin with the name `status` |
| Runtime.ResourceGroupRuntime.Synchronize | internal/runtime/runtime.go:230-256 | after an error-free call, also by the early exit, which leaves the instance alone, dynamic expressions are resolved iff their dependencies are set and every unset resource that can be processed is complete; an error has one of three named causes; new values are the evaluator's, resolved ones never change; the instance changes in its status only |
| Runtime.ResourceGroupRuntime.GetResource | internal/runtime/runtime.go:189-203 | an unset resource is handed out, after an error-free synchronization, as its template with every listed string substituted, and then only after all its dependencies were set |
| Runtime.ResourceGroupRuntime.SetResource | internal/runtime/runtime.go:207-209 | records the observed object and keeps the runtime consistent |
| Runtime.ResourceGroupRuntime.DependenciesWereSet | internal/runtime/runtime.go:275-298 | where no readiness text is a field's, a resource that can be processed has all its dependencies set, synchronized or not |
| Runtime.ResourceGroupRuntime.DependenciesWereSetWhenSynced | internal/runtime/runtime.go:189-203 | after a synchronization an unset resource with a tame template can be processed only after all its dependencies were set, whatever the readiness texts are |
| Runtime.ResourceGroupRuntime.ReadinessTextIsNeverFilled | internal/runtime/runtime.go:426-449 | no tame template with the text of a readiness condition is ever filled in |
| Runtime.ResourceGroupRuntime.ReadinessTextBlocks | internal/runtime/runtime.go:275-298 | after a synchronization such a resource, unset, is never processed |
| Runtime.ResourceGroupRuntime.ProcessableIff | internal/runtime/runtime.go:275-298 | after synchronization, in every group, a resource can be processed iff none of its states and those of its dependencies lost its cache entry to a readiness condition and everything they wait for is set |
| Runtime.ResourceGroupRuntime.ProgressWhenScoped | internal/runtime/runtime.go:189-203 | where sharing brings no foreign dependencies, a resource can be processed once its dependencies and theirs are set |
| Runtime.ResourceGroupRuntime.ForeignDependencyBlocks | internal/runtime/runtime.go:62-79 | a state with an unset foreign dependency keeps its resource waiting |
| Runtime.ResourceGroupRuntime.UsableIff | internal/runtime/runtime.go:62-88 | a field's state is the cached one and evaluable iff its text is that of no readiness condition; otherwise it never gets a value |
| Runtime.ResourceGroupRuntime.IsResourceReady | internal/runtime/runtime.go:465-499 | ready iff the resource is set and every condition holds of it as observed |
| Runtime.ResourceGroupRuntime.AreDependenciesIgnored | internal/runtime/runtime.go:513-520 | some direct dependency is ignored |
| Runtime.ResourceGroupRuntime.WantToCreateResource | internal/runtime/runtime.go:524-557 | wanted iff no direct dependency is ignored and every condition holds; a failing condition is an error, an ignored dependency is not |
| Inclusion.OneMoreResource | internal/runtime/runtime.go:503-557 | checking direct dependencies only, in topological order, ignores exactly the resources from which a failing one is reachable |
| Protocol.RunKeepsInv | internal/controller/instance/controller_reconcile.go:97-420 | every step of the environment and of a disciplined controller keeps the invariant |
| Protocol.RunsAreOrdered | internal/controller/instance/controller_reconcile.go:97-420 | in every run, at every moment, the existing children are closed under dependencies, direct or not, and the instance is held while any exists |
| Protocol.StepsAreOrdered | internal/controller/instance/controller_reconcile.go:97-420 | in every run a child appears only after its dependencies, goes only when nothing existing depends on it, and the finalizer goes only from a cluster without children |
| ClusterModule.Cluster.Create | internal/controller/instance/controller_reconcile.go:225-229 | takes effect, fails, or takes effect and fails; a child that is new afterwards has the content sent; within the discipline it keeps the run lawful |
| ClusterModule.Cluster.Delete | internal/controller/instance/controller_reconcile.go:338-347 | starts, leaving the child gone or terminating, fails, or finds nothing; within the discipline it keeps the run lawful |
| ClusterModule.Cluster.Update | internal/controller/instance/controller_reconcile.go:389-394 | refused on a stale version; after success the stored instance has the content and finalizers sent, or is gone if it was being deleted and none were left; the run stays lawful unless the finalizer is dropped while children exist |
| Finalizers.ContainsString | internal/metadata/finalizers.go:120-127 | membership |
| Finalizers.RemoveString | internal/metadata/finalizers.go:129-137 | the list without the string |
| Finalizers.HasInstanceFinalizer | internal/metadata/finalizers.go:100-112 | held iff on a well-formed list |
| Finalizers.SetInstanceFinalizer | internal/metadata/finalizers.go:66-81 | the list as specified, refused when malformed |
| Finalizers.RemoveInstanceFinalizer | internal/metadata/finalizers.go:83-98 | the list as specified, refused when malformed |
| Finalizers.WithoutKeepsOthers | internal/metadata/finalizers.go:129-137 | every copy goes, all other strings keep their number |
| Finalizers.SetIsIdempotent | internal/metadata/finalizers.go:66-81 | setting makes it held, twice is once, other names are untouched |
| Finalizers.RemoveKeepsOthers | internal/metadata/finalizers.go:83-98 | removing makes it not held, twice is once, other names are untouched |
| Finalizers.NameTellsUid | internal/metadata/finalizers.go:114-118 | instances with different uids have different finalizers |
| Finalizers.OthersStay | internal/metadata/finalizers.go:66-98 | neither setting nor removing a finalizer adds, drops or reorders another one |
| Finalizers.RemoveUndoesSet | internal/metadata/finalizers.go:66-98 | removing undoes setting, up to an empty list where there was none |
| Reconciler.InstanceGraphReconciler.SetManaged | internal/controller/instance/controller_reconcile.go:375-397 | sends nothing if the finalizer is held or the list malformed, and else the instance with it appended; on success the instance is held in the cluster and has the other finalizers it had, in order |
| Reconciler.InstanceGraphReconciler.HandleResourceReconciliation | internal/controller/instance/controller_reconcile.go:164-252 | done only with the child shown in this pass and its readiness conditions true of what was shown; at most one create request, sent after everything the child depends on was observed ready in this pass, for the template with every listed string substituted |
| Reconciler.InstanceGraphReconciler.UpdateObserved | internal/controller/instance/controller_reconcile.go:186-198 | the observed object is recorded; done if the readiness conditions hold of it, else asks to be called again |
| Reconciler.InstanceGraphReconciler.ReconcileResource | internal/controller/instance/controller_reconcile.go:139-160 | ignored exactly if a direct dependency is ignored or one of its own conditions fails of the instance now; else observed ready with all it depends on, or the end of the pass for a stated reason |
| Reconciler.InstanceGraphReconciler.Decide | internal/controller/instance/controller_reconcile.go:143-152 | wanted iff no direct dependency is ignored and all inclusion conditions hold of the instance now |
| Reconciler.InstanceGraphReconciler.HandleWanted | internal/controller/instance/controller_reconcile.go:152-160 | a wanted resource is observed ready, or the pass ends: by an error of the cluster, for the child just created, or for one not ready |
| Reconciler.InstanceGraphReconciler.ReconcileInstance | internal/controller/instance/controller_reconcile.go:97-123 | over the whole pass: ignored are exactly the resources from which one is reachable whose conditions fail of the instance at its turn; done iff no call was answered by an error, the finalizers are well formed, all resources ended ready or skipped and all synchronizations succeeded; fails and asks to be called again only for stated causes; at most one create request, for an included resource, with its template substituted and all it depends on observed ready; every update sent is the instance read, changed in its status only and with everybody else's finalizers as they were |
| Reconciler.InstanceGraphReconciler.ExistingIsProcessable | internal/controller/instance/controller_reconcile.go:275-287 | where sharing does no harm, an existing child can always be looked up |
| Reconciler.InstanceGraphReconciler.InitialiseDeletionState | internal/controller/instance/controller_reconcile.go:275-308 | a resource is skipped exactly if it cannot be processed; with nobody else at work exactly the children of the specification of a pass are found; where sharing brings no foreign dependency nothing that exists is skipped |
| Reconciler.InstanceGraphReconciler.InitialiseDeletionOf | internal/controller/instance/controller_reconcile.go:277-305 | one step of it: skipped exactly if the runtime cannot process the resource after synchronizing |
| Reconciler.InstanceGraphReconciler.DeleteResourcesInOrder | internal/controller/instance/controller_reconcile.go:312-328 | in reverse order; at most one request meets an existing child, and exactly one, for a child that was found, when the pass asks to be called again; with nobody else at work it does so whenever a found child exists |
| Reconciler.InstanceGraphReconciler.DeleteResource | internal/controller/instance/controller_reconcile.go:331-351 | deleted iff nothing was there; else requeue or error |
| Reconciler.InstanceGraphReconciler.SetUnmanaged | internal/controller/instance/controller_reconcile.go:400-420 | sends the instance without the finalizer and with all others it had, in order; lawful where no child is left |
| Reconciler.InstanceGraphReconciler.FinaliseDeletion | internal/controller/instance/controller_reconcile.go:355-372 | the waiting branch is never taken; where sharing brings no foreign dependency the finalizer goes only when no child exists; nobody else's finalizer is added or taken away |
| Reconciler.InstanceGraphReconciler.HandleInstanceDeletion | internal/controller/instance/controller_reconcile.go:256-271 | creates nothing; at most one delete request meets an existing child, and one does when the pass asks to be called again; done only with the finalizer given up and, where sharing does no harm, no child left; with nobody else at work it deletes one of the children of the specification of a pass, or, if there are none, gives the finalizer up and leaves all children; every update sent is the instance read, changed in its status only and with everybody else's finalizers as they were |
| Reconciler.InstanceGraphReconciler.Reconcile | internal/controller/instance/controller_reconcile.go:62-94 | reported active iff not deleting, no call was answered by an error, the finalizers are well formed, and all resources ended ready or skipped with all synchronizations successful; then each is ignored or was observed ready in this pass; reported in progress iff it asks to be called again; every update sent is the instance read, changed in its status only and with everybody else's finalizers as they were |
| Controller.ReconcileOnce | internal/controller/instance/controller.go:115-164 | a reconciliation with a fresh runtime, in any map order, sends at most one create and one effective delete; where sharing does no harm it extends the run of the cluster lawfully, leaves no more to do, and less if it asks to be called again without waiting for a child to get ready or to go; done means active, deleted with no child left, or nothing read; every update sent shows the instance of some moment of the run with other finalizers and everything outside the status as they were then |
| Controller.ReconcileRepeatedly | internal/controller/instance/controller.go:115-164 | over any number of reconciliations, any environment and any faults: at every moment children are closed under dependencies and the finalizer is held while any exists; and all but twice as many passes as there are resources are done, fail, or wait for a child that was shown unready or is on its way out; every update sent shows the instance of some moment of the run with other finalizers and everything outside the status as they were then |
| Damage.UnscopedMisses | internal/controller/instance/controller_reconcile.go:275-308 | in every group that is not scoped some lawful run leads, with the instance being deleted, to a cluster with an existing child that the pass does not find |
| Damage.NextPassDoesHarm | internal/controller/instance/controller_reconcile.go:256-372 | there, for every evaluator and instance, the next undisturbed pass succeeds and leaves children without their instance, or deletes a child that an existing one depends on, unless an evaluation fails |
| Example.SharingIsNotScoped | internal/controller/instance/controller_reconcile.go:275-287 | a group in which the passes find two of three children, then one of two, then none of one |
| Example.ChildOutlivesInstance | internal/controller/instance/controller_reconcile.go:256-372 | after a lawful run the next pass of that group reports success and gives the finalizer up while a child exists |
| Markers.UnescapeString | pkg/simpleschema/markers.go:146-169 | the escape flag loop computes the unescaping |
| Markers.UnescapeUndoesEscape | pkg/simpleschema/markers.go:146-169 | unescaping undoes escaping of quotes and backslashes |
| Markers.OtherEscapesStay | pkg/simpleschema/markers.go:146-169 | a backslash before any other character stays, and one at the very end is lost |
| Markers.FeedStep | pkg/simpleschema/markers.go:78-119 | one character of the switch on the flags and the buffer |
| Markers.ParseMarkers | pkg/simpleschema/markers.go:70-134 | the loop computes the machine's run, telling apart markers, errors and a slice out of range |
| Markers.PanicsIff | pkg/simpleschema/markers.go:135-142 | slices out of range exactly on inputs that end in a quote right after the `=` of a marker, so in `="` |
| Markers.LoneQuotePanics | pkg/simpleschema/markers.go:135-142 | a key, an equal sign and a single quote |
| Markers.ParsePrinted | pkg/simpleschema/markers.go:70-169 | parsing undoes printing, for quoted values with any text and bare values without spaces, quotes and brackets |
| MarkerTexts.ParsedIff | pkg/simpleschema/markers.go:70-169 | a text is accepted, for given markers, exactly if it is made of them: keys with spaces anywhere, values that close the quotes and brackets they open and have spaces only inside them, a space after each but the last, and possibly a rest that closes itself and holds no marker |
| MarkerTexts.KeysAreRead | pkg/simpleschema/markers.go:40-69 | the three keys, each with an empty value |
| MarkerTexts.SpacesAreRead | pkg/simpleschema/markers.go:78-134 | a space in a key is ignored, one inside brackets is kept |
| Markers.TrailingTextIsDroppedIff | pkg/simpleschema/markers.go:70-142 | text after the last marker is dropped without an error exactly if it closes what it opens and has no `=` outside quotes and brackets |

## Left out

- CEL compilation, evaluation and inspection: oracles. The evaluator is a fixed partial function of expression, declared ids and context; that the inspector finds every free identifier is not claimed.
- Conditions: they were checked to be boolean in the dry run, so the type assertion on their values is a precondition on the oracle.
- YAML decoding, OpenAPI resolution, CRD synthesis, labels, owner references, status conditions, status patches, metrics, logging, impersonation, informers and queues.
- Names and namespaces of children: a child is identified by its resource id, and each id has one object.
- SchemaFlatten.ParseResource: a schema whose first alternative has no type makes the source index out of range and counts as refused; writing the single type back into the schema is not modelled.
- ResolverModule.Resolver.SetResolved: a resolved map or slice is copied where it is used; that the source shares it between trees is not modelled.
- ResolverModule.Resolver.Resolve: paths on which `Parse` never returns are a precondition, as are descriptors with at least one expression when standalone; the `Results` list of the summary is reduced to its counts.
- Resolution.ResolvingIsSubstitution: the listed walks must survive their path strings, the expressions must not start or end with a dollar or brace, and strings that mix literals and spans must be safe; `PathText.PathRoundTripIff`, `Flatten.TrimKeepsIff` and `Interpolation.SafeIff` say that these are exact.
- Runtime.ResourceGroupRuntime.GetResource: that dependencies were set is stated after an error-free synchronization and for tame templates, or where no readiness condition has the text of a field expression.
- ClusterModule.Cluster.Update: labels and spec changes are part of the opaque content.
- Controller.ReconcileRepeatedly: needs shared expressions to bring no foreign dependency and to lose no state to a readiness condition, which is exact (`Scoping.FindsAllIff`, `Damage.NextPassDoesHarm`). The graph is fixed between reconciliations, one reconciliation of an instance is under way at a time, and nobody else deletes children.
- Assembly.NewResourceGroup: schema lookup gives each definition its schema; definitions are a map, so ids are never duplicate; the check of the kind's name, the Kubernetes object check and the dry run of expressions are not modelled.
- Assembly.BuildRGResource: the Kubernetes object check is not modelled.
- Assembly.BuildInstance: the dry run and the inferred status schema are not modelled.
- Markers.ParsePrinted: prints bare values without brackets only; `MarkerTexts.ParsedIff` covers them.
- `%q` of bytes from 0x80 on is treated as printable.
- `GetEdges`, the structured finalizer functions, and the emulator: they would only add easy members.
