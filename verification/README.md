# RedisGraph: verified models of its algorithms and protocols

RedisGraph is a Redis module that stores property graphs and answers Cypher queries.
This project models, in Dafny, the parts of it whose correctness is least obvious from
reading the C code, and proves what they compute and keep, for all inputs and, where
threads are involved, for all interleavings of their steps.

`dafny verify dfyconfig.toml` checks everything.

## What is modelled

**Path enumeration** (`PropertyGraph`, `AllPathsContext`, `AllPaths`, `ShortestDistance`,
`AllShortestPaths`, `PathEnumeration`). The resumable depth first search over a stack of
pending connections per level is a class with the fields the C structure has. `Explore`
lists what such a search finds, `IsResult` says in terms of the graph alone which paths a
caller is promised, and `NextPath` is proved to return the head of what is still to come.
Draining the enumeration gives the promised paths, each once; only a traversal in both
directions returns a path that ends with a self loop twice. In shortest-paths mode (one
direction) the breadth first search finds the least positive distance, and the backward
search then returns exactly the walks of that length. Both enumerations end on every
finite graph, whatever the length bound, by a measure over the pending levels.

**Shape of a query graph** (`QueryGraph`, `QueryGraphDfs`, `TreeDistance`, `QueryGraphBfs`,
`LongestPath`, `DetectCycle`). Backtracking search for a trail of given length, the greatest
length for which there is one, breadth first layers, the diameter of a tree by two sweeps
(with the four point condition of tree metrics proved from scratch), and cycle detection by
boolean matrix powers. `ExpressionPath` puts them together: the search that follows always
finds a path exactly as long as announced, as the planner asserts.

**Concurrent protocols.** A protocol is a state, a set of atomic steps and the states that
runs of steps reach. Every result is about every run.
`Cron`, `CronSafety`: the scheduler thread, any number of threads adding and aborting tasks,
and the shutdown. `QueryTimeout`: queries whose timeout is such a task.
`Constraints`, `ConstraintEnforcement`: a new constraint checked in batches while writers go
on. `CommandContexts`: reference-counted command contexts, the table of running commands
and the observers that list it.

**Expression folding** (`ExpressionFolding`). Evaluation of expression trees with errors,
nulls, parameters and non-deterministic functions (which read a session state), constant
folding, and substitution of variables.

**Query rewrites** (`SameClauses`, `SameClausesLaws`, `StarProjections`, `StarMeaning`).
Merging consecutive clauses of one kind, and replacing `*` by the variables in scope, each
with an independent account of what a query carries or means.

**Values and wire format** (`ValueOrder`, `BulkInsert`). The cross-type comparison used for
sorting, with C integer conversions written out, against a plain order; the bulk loader's
binary decoder against an encoder of the documented format.

Results that do not hold in full generality are stated with the exact condition and an
input or family of inputs that breaks them: integers 2^63 apart, entity IDs 2^31 apart,
integers that no double represents, clock readings 2^31 seconds apart, self loops going
both ways, resolving variables of a list comprehension, constraints dropped while they are
being enforced, flags of merged clauses, node files without properties, and observers of a
command that is closing.

## Model

| member | source | states |
|---|---|---|
| PropertyGraph.CollectEdgesExact | src/algorithms/all_paths.c:53-55 | the edges fetched for a node are exactly those of the requested relations that leave (enter) it |
| PropertyGraph.SwapFilterKeepsPassing | src/algorithms/all_paths.c:63-77 | the swap-delete filter keeps every passing edge as often as it occurred and drops all others |
| PropertyGraph.PassingEdgesExact | src/algorithms/all_paths.c:43-77 | fetched and filtered, exactly the admissible edges at a node remain, each once when the relations are distinct |
| PropertyGraph.NeighborsExact | src/algorithms/all_paths.c:43-164 | a connection is offered exactly when an admissible edge other than the last one leads to it |
| PropertyGraph.NeighborsCount | src/algorithms/all_paths.c:142-164 | a connection is offered once, and twice exactly for a self loop going both ways |
| AllPathsContext.AllPathsCtx.EnsureLevel | src/algorithms/all_paths.c:14-26 | makes room for a level and changes no pending connection |
| AllPathsContext.AllPathsCtx.AddConnection | src/algorithms/all_paths.c:29-36 | pushes one connection onto one level |
| AllPathsContext.AllPathsCtx.FilterEdges | src/algorithms/all_paths.c:63-77 | the in-place filter loop leaves the swap-filtered list |
| AllPathsContext.AllPathsCtx.AddConnections | src/algorithms/all_paths.c:79-89 | appends to a level a connection for each listed edge but the last one followed |
| AllPathsContext.AllPathsCtx.AddOneWay | src/algorithms/all_paths.c:43-139 | appends the connections one direction offers |
| AllPathsContext.AllPathsCtx.AddNeighbors | src/algorithms/all_paths.c:142-164 | appends exactly the connections the traversal direction offers |
| AllPaths.ExploreExact | src/algorithms/all_paths.c:234-289 | the search finds a path below a prefix exactly when it continues the prefix through a pending connection |
| AllPaths.ExploreCount | src/algorithms/all_paths.c:234-289 | how often it finds it |
| AllPaths.ContinuesIsResult | src/algorithms/all_paths.c:43-289 | such paths from the source are those with admissible edges, distinct inner nodes, requested length and end |
| AllPaths.ResultsExact | src/algorithms/all_paths.c:43-289 | all paths promised and no others; each once, twice exactly when it ends with a self loop going both ways |
| AllPaths.DirectedNeverRepeatsEdge | src/algorithms/all_paths.c:82-86 | skipping the edge just followed excludes nothing going one way |
| AllPaths.AdvancePending | src/algorithms/all_paths.c:242-266 | moving a connection to the path and adding its neighbours leaves the same paths to come |
| AllPaths.AdvanceWork | src/algorithms/all_paths.c:242-266 | and strictly less work |
| AllPaths.Backtrack | src/algorithms/all_paths.c:281-285 | dropping the last node of an exhausted level leaves the same paths to come, and less work |
| AllPaths.AdvancePath | src/algorithms/all_paths.c:242-266 | one forward step on the context |
| AllPaths.Forward | src/algorithms/all_paths.c:240-280 | a forward iteration appends the next path to return, if it may be returned, and gains or loses no other |
| AllPaths.Backward | src/algorithms/all_paths.c:281-285 | a backward iteration drops the last node and changes nothing to come |
| AllPaths.NextPath | src/algorithms/all_paths.c:234-289 | returns the first of the paths to come and leaves the rest, or null when there are none; ends on every graph |
| ShortestDistance.NextSphere | src/algorithms/all_shortest_paths.c:39-87 | nodes at the next distance are successors of nodes at this one |
| ShortestDistance.NextLevel | src/algorithms/all_shortest_paths.c:39-87 | a worked-off level makes the visited nodes exactly those closer than the next distance |
| ShortestDistance.Unreachable | src/algorithms/all_shortest_paths.c:88-100 | once a level is empty no longer walk hits the destination |
| ShortestDistance.DeadEndBothWays | src/algorithms/all_paths.c:79-88 | going both ways, a level made for a node stays empty exactly when the edge just followed is its only one |
| ShortestDistance.EmptyLevelBothWays | src/algorithms/all_shortest_paths.c:61-86 | going both ways, the level filled from all nodes expanded at one depth is empty exactly when each of them has only the edge it was reached by, though a level was made for it |
| ShortestDistance.OneEdgeEmptyLevel | src/algorithms/all_shortest_paths.c:61-86 | in every graph of one edge, searched from its source for a third node, the second level is empty |
| ShortestDistance.Visit | src/algorithms/all_shortest_paths.c:60-86 | takes one connection: skips, finds the target or expands it |
| ShortestDistance.SearchLevels | src/algorithms/all_shortest_paths.c:39-87 | the level loop finds the least distance within the bound or shows there is none |
| ShortestDistance.FindMinimumLength | src/algorithms/all_shortest_paths.c:15-100 | returns the least positive walk length plus one, or 0; then visited is the nodes below that distance and no stale connection is left |
| AllShortestPaths.BackExact | src/algorithms/all_shortest_paths.c:105-167 | the backward search finds exactly the ways to complete a suffix |
| AllShortestPaths.BackUnique | src/algorithms/all_shortest_paths.c:105-167 | and finds none twice |
| AllShortestPaths.MinimumNeverRepeatsEdge | src/algorithms/all_shortest_paths.c:105-167 | a walk of minimum length follows no edge twice in a row, so skipping the last edge loses none |
| AllShortestPaths.ResultsExact | src/algorithms/all_shortest_paths.c:15-167 | the visited pruning loses no minimum-length walk and lets no other through |
| AllShortestPaths.Start | src/algorithms/all_shortest_paths.c:116-125 | sets up the backward search from the destination |
| AllShortestPaths.Take | src/algorithms/all_shortest_paths.c:132-154 | pops a connection; if it was visited, and is the source on the last level, it takes its path slot and its neighbours are added |
| AllShortestPaths.Proceed | src/algorithms/all_shortest_paths.c:129-154 | one iteration drops a connection, goes one level further back or completes a path; no walk is gained or lost |
| AllShortestPaths.Resume | src/algorithms/all_shortest_paths.c:127-166 | the loop returns the first walk to come, or none when all levels are exhausted |
| AllShortestPaths.NextPath | src/algorithms/all_shortest_paths.c:105-167 | the next minimum-length walk, edge i joining node i to node i+1 |
| PathEnumeration.New | src/algorithms/all_paths.c:166-232 | a context with all promised paths still to come |
| PathEnumeration.NewShortest | src/algorithms/all_paths.c:208-227 | a context prepared with the minimum length, or with nothing to come |
| PathEnumeration.NextPath | src/algorithms/all_paths.c:291-298 | dispatches to the mode of the context |
| PathEnumeration.EnumerateAll | src/algorithms/all_paths.c:166-289 | calling until null returns precisely the promised paths with their multiplicity, and ends |
| PathEnumeration.EnumerateShortest | src/algorithms/all_shortest_paths.c:15-167 | calling until null returns precisely the walks of least positive length within the bound, each once; source = destination gives shortest cycles |
| PathEnumeration.PromisedShortest | src/algorithms/all_paths.c:208-227 | with the minimum on hand these are the walks with none shorter |
| QueryGraph.TrailStep | src/algorithms/dfs.c:25-47 | a trail is a step followed by a trail that avoids what was visited and used |
| QueryGraph.TrailPrefix | src/algorithms/longest_path.c:14-40 | a prefix of a trail is a trail |
| QueryGraphDfs.Search.Dfs | src/algorithms/dfs.c:12-51 | succeeds exactly when a trail of the remaining length exists; appends its edges; a failed branch restores visited, used edges and path |
| QueryGraphDfs.Search.TryEdges | src/algorithms/dfs.c:25-47 | tries one edge list in turn with the same guarantee |
| QueryGraphDfs.Search.TryEdge | src/algorithms/dfs.c:28-34 | follows one edge and gives it back when it leads nowhere |
| QueryGraphDfs.DFS | src/algorithms/dfs.c:54-64 | the edges of a trail of the given length, or none exactly when there is no such trail |
| QueryGraphDfs.Depth.Visit | src/algorithms/longest_path.c:14-40 | raises the maximum to the deepest level reachable and restores its sets |
| QueryGraphDfs.Depth.VisitEdges | src/algorithms/longest_path.c:24-37 | the same over one edge list |
| QueryGraphDfs.DFSMaxDepth | src/algorithms/longest_path.c:43-54 | the greatest length for which DFS with closed cycles succeeds |
| TreeDistance.Parity | src/algorithms/longest_path.c:83-98 | neighbours in a tree are at distances that differ by exactly one from any node |
| TreeDistance.FourPointCondition | src/algorithms/longest_path.c:83-98 | of the three pairings of four nodes of a tree, the two largest distance sums agree |
| TreeDistance.DoubleSweep | src/algorithms/longest_path.c:83-98 | a node farthest from a farthest node is an end of a diameter |
| QueryGraphBfs.AppendUnvisited | src/algorithms/bfs.c:35-48 | queues exactly the unvisited ends of one edge list |
| QueryGraphBfs.ExpandLevel | src/algorithms/bfs.c:27-52 | expands one level: visited grows by it, the next level holds its unvisited neighbours |
| QueryGraphBfs.ChainsGrow | src/algorithms/bfs.c:27-52 | without self loops every node of level k ends a trail of k edges without repeated nodes, in any graph |
| QueryGraphBfs.TreeLayer | src/algorithms/bfs.c:27-52 | in a tree the levels are exactly the nodes at each distance |
| QueryGraphBfs.BFS | src/algorithms/bfs.c:15-72 | the nodes at the requested level, or at the lowest one, and its number |
| LongestPath.SweptTwice | src/algorithms/longest_path.c:83-98 | two sweeps give the diameter of a tree |
| LongestPath.LongestPathTree | src/algorithms/longest_path.c:83-98 | on a tree: the diameter and an end of a path of that length; on any graph without self loops: an end of a trail of that length |
| LongestPath.LongestPathGraph | src/algorithms/longest_path.c:57-80 | a node with a trail of the returned length |
| LongestPath.ExpressionPath | src/arithmetic/algebraic_expression/algebraic_expression_construction.c:600-615 | the search that follows finds a path exactly as long as announced, of diameter length on trees |
| DetectCycle.NextPower | src/algorithms/detect_cycle.c:38-58 | a product with the matrix holds exactly the pairs joined by walks one step longer |
| DetectCycle.ShortCycle | src/algorithms/detect_cycle.c:13-66 | if there is a closed walk, there is one of 2 to edge_count + 1 steps, self loops included |
| DetectCycle.IsAcyclicMatrix | src/algorithms/detect_cycle.c:38-58 | true exactly when the matrix has no closed walk |
| DetectCycle.MatrixRepresentation | src/graph/query_graph.c:730-770 | has an entry exactly for each pair joined by an edge, and at most as many as edges |
| DetectCycle.IsAcyclicGraph | src/algorithms/detect_cycle.c:13-66 | true exactly when no walk along edges returns to its beginning |
| ExpressionFolding.FoldPreservesMeaning | src/arithmetic/arithmetic_expression.c:292-360 | folding keeps value or error for every record, session and these parameters |
| ExpressionFolding.FoldEarlyPreservesMeaning | src/arithmetic/arithmetic_expression.c:292-360 | folding without parameters keeps the meaning under every later parameter map |
| ExpressionFolding.FoldIdempotent | src/arithmetic/arithmetic_expression.c:292-360 | folding twice changes nothing more |
| ExpressionFolding.ResolveMeaning | src/arithmetic/arithmetic_expression.c:362-408 | resolving with r, then evaluating under r', is evaluating under r' overridden by r, unless an operand borrows the record |
| ExpressionFolding.TellingExact | src/arithmetic/arithmetic_expression.c:362-408 | for every tree of functions that return what they are given, the law holds exactly when no borrowed record misses a resolved value |
| ExpressionFolding.ShapeExact | src/arithmetic/arithmetic_expression.c:362-408 | the law holds whatever the functions of a tree compute exactly under that condition |
| ExpressionFolding.ComprehensionExact | src/arithmetic/comprehension_funcs/comprehension_funcs.c:203-247 | a missing variable gives nulls and a noted failure; a list comprehension can be resolved exactly when its list is empty or its variable means the same without the resolved values |
| ExpressionFolding.ResolveMissesBorrowedRecord | src/arithmetic/arithmetic_expression_construct.c:685-702 | a comprehension over one element, resolved where its variable is known and evaluated where it is not, fails |
| ExpressionFolding.ValidateInvocation | src/arithmetic/arithmetic_expression.c:410-434 | accepts exactly the argument types the function declares, the last one repeating |
| ExpressionFolding.EvaluateNode | src/arithmetic/arithmetic_expression.c:590-622 | evaluates a tree as the reference semantics does |
| ExpressionFolding.EvaluateFunctionCall | src/arithmetic/arithmetic_expression.c:451-515 | evaluates arguments, then applies; an error of an argument is the result |
| ExpressionFolding.EvaluateChildren | src/arithmetic/arithmetic_expression.c:472-487 | evaluates the arguments from left to right up to the first error |
| ExpressionFolding.Evaluate | src/arithmetic/arithmetic_expression.c:641-663 | the top level evaluation |
| ExpressionFolding.ReduceToScalar | src/arithmetic/arithmetic_expression.c:292-360 | returns the folded tree, and whether it is a constant |
| ExpressionFolding.ReduceChildren | src/arithmetic/arithmetic_expression.c:322-330 | folds every child and tells whether all are constants |
| ExpressionFolding.ReduceOp | src/arithmetic/arithmetic_expression.c:332-358 | replaces a reducible call on constants by its value |
| ExpressionFolding.ReplaceVariables | src/arithmetic/arithmetic_expression.c:362-403 | replaces exactly the variables that have a value |
| ExpressionFolding.ResolveVariables | src/arithmetic/arithmetic_expression.c:405-408 | replaces variables, then folds, keeping the meaning |
| ValueOrder.SIArrayCompare | src/value.c:533-579 | the counting loop over two arrays gives the tallied result |
| ValueOrder.CompareIsOrder | src/value.c:581-648 | the sign of the comparison is the reference order for every pair machine arithmetic decides exactly, arrays up to their first difference |
| ValueOrder.ScalarsExact | src/value.c:581-648 | of values other than arrays, exactly those pairs are compared correctly |
| ValueOrder.ExactValuesPair | src/value.c:581-648 | representable integers below 2^62 in magnitude, and IDs below 2^31, are such values, nested in arrays or not |
| ValueOrder.ArraysTold | src/value.c:533-579 | for all arrays the first elements told apart decide, or else the lengths, whatever the counters of nulls and differences say |
| ValueOrder.CompareArraysIsOrder | src/value.c:533-579 | on elements decided exactly this is lexicographic order with a length tie-break |
| ValueOrder.TiedArraysExact | src/value.c:533-579 | arrays with nothing told apart and nothing different are compared correctly |
| ValueOrder.ArraysExact | src/value.c:533-579 | all others exactly when the first elements told apart or different are told as they differ, or a wrong tie is made up for by what follows |
| ValueOrder.FlatArraysExact | src/value.c:533-579 | elements other than arrays, told apart where they first differ, decide correctly exactly when machine arithmetic decides them exactly |
| ValueOrder.TieMadeUpFor | src/value.c:533-603 | nodes 2^32 apart followed by integers: with one order of these right by luck, with the other wrong |
| ValueOrder.OrderAntisymmetric | src/value.c:581-648 | the reference order is antisymmetric across types and nested arrays |
| ValueOrder.OrderTransitive | src/value.c:581-648 | and transitive |
| ValueOrder.ComparisonIsPreorder | src/value.c:581-648 | so the comparison is a total preorder on values decided exactly pair by pair |
| ValueOrder.IntegersExact | src/value.c:590-592 | integers are ordered correctly exactly when their difference fits 64 bits |
| ValueOrder.SmallestIntegerBelowAndAboveZero | src/value.c:590-592 | beyond that the comparison is not antisymmetric |
| ValueOrder.EntitiesExact | src/value.c:601-603 | entities are ordered by ID exactly when the 32-bit difference keeps its sign |
| ValueOrder.DistantEntitiesConfused | src/value.c:601-603 | at 2^31 each of two nodes precedes the other, at 2^32 they are equal |
| ValueOrder.RepresentableExact | src/value.c:626-635 | an integer is the value of a double exactly when scaling it to 53 bits loses nothing |
| ValueOrder.MixedExact | src/value.c:626-635 | an integer and a double are ordered correctly exactly when the conversion keeps its side |
| ValueOrder.RepresentableIsOrdered | src/value.c:626-635 | an integer is ordered correctly against every double exactly when it is representable |
| ValueOrder.UnrepresentableBreaksEquality | src/value.c:626-635 | every other integer equals a double that equals a different integer |
| ValueOrder.FirstUnrepresentable | src/value.c:626-635 | 2^53 is representable and 2^53 + 1 is not |
| BulkInsert.ReadEncoded | src/bulk_insert/bulk_insert.c:123-195 | decoding an encoded nested value returns it and advances by exactly its length |
| BulkInsert.ReadAllEncoded | src/bulk_insert/bulk_insert.c:178-187 | the same for the elements of an array |
| BulkInsert.ReadProperty | src/bulk_insert/bulk_insert.c:123-195 | the decoder by type byte, with array elements decoded in turn |
| BulkInsert.SplitJoin | src/bulk_insert/bulk_insert.c:32-86 | splitting a label header at colons inverts joining |
| BulkInsert.ReadHeaderLabels | src/bulk_insert/bulk_insert.c:32-86 | the label loop returns the parts of the header string |
| BulkInsert.ReadHeaderEncoded | src/bulk_insert/bulk_insert.c:89-120 | a header is read back as it was written |
| BulkInsert.AttributesExact | src/bulk_insert/bulk_insert.c:228-241 | an attribute is set exactly for each property that is not null |
| BulkInsert.NamedExact | src/bulk_insert/bulk_insert.c:89-241 | a name of the header is given a value exactly when some column of that name holds it; columns of one name share it |
| BulkInsert.ReadRow | src/bulk_insert/bulk_insert.c:282-306 | a row moves on exactly when it is an edge or has properties |
| BulkInsert.ReadRowEncoded | src/bulk_insert/bulk_insert.c:282-306 | a row is read back as it was written |
| BulkInsert.ReadFileEncoded | src/bulk_insert/bulk_insert.c:197-313 | a whole file gives back the encoded entities, except that nodes without properties leave no trace |
| BulkInsert.ProcessRows | src/bulk_insert/bulk_insert.c:228-241 | the entity loop creates the entities of the rest of the file, on every file on which it ends |
| BulkInsert.LoopEndsExactly | src/bulk_insert/bulk_insert.c:228-241 | the loop ends exactly when rows are edges or have properties, or no data is left |
| BulkInsert.BareFileNeverEnds | src/bulk_insert/bulk_insert.c:228-241 | a node file whose header lists no properties, with any data after it, is never done |
| BulkInsert.ProcessRow | src/bulk_insert/bulk_insert.c:282-306 | one entity with its end points and non-null attributes |
| SameClauses.ReplaceMatch | src/ast/ast_rewrite_same_clauses.c:64-120 | joins paths in order and connects predicates by AND from the left |
| SameClauses.ReplaceDelete | src/ast/ast_rewrite_same_clauses.c:123-166 | joins deleted expressions, dropping repeated identifiers only |
| SameClauses.ReplaceList | src/ast/ast_rewrite_same_clauses.c:24-61 | joins the paths or items of CREATE, SET and REMOVE in order |
| SameClauses.RunLength | src/ast/ast_rewrite_same_clauses.c:286-293 | the longest run of mergeable clauses at the beginning |
| SameClauses.CompressClauses | src/ast/ast_rewrite_same_clauses.c:237-327 | the index loop gives the compressed list, and reports a rewrite exactly when something changed |
| SameClausesLaws.CompressCompresses | src/ast/ast_rewrite_same_clauses.c:237-347 | no two neighbours of one compressible type are left, at any depth |
| SameClausesLaws.CompressIdempotent | src/ast/ast_rewrite_same_clauses.c:237-347 | compressing twice changes nothing more |
| SameClausesLaws.PayloadKept | src/ast/ast_rewrite_same_clauses.c:24-327 | every clause keeps its ordered payload, deletions up to repeated identifiers, inside FOREACH and CALL {} too |
| SameClausesLaws.FlagsKept | src/ast/ast_rewrite_same_clauses.c:24-166 | hints, UNIQUE and DETACH survive exactly when no clause that carries one is merged |
| SameClausesLaws.DetachLost | src/ast/ast_rewrite_same_clauses.c:24-166 | DETACH DELETE next to DELETE always loses its flag |
| SameClausesLaws.ValidateClauseOrder | src/ast/ast_validations.c:1924-1978 | the flag loop computes the order verdict |
| SameClausesLaws.OrderVerdictKept | src/ast/ast_validations.c:1924-1978 | compression leaves the order verdict unchanged |
| SameClausesLaws.ValidateQueryTermination | src/ast/ast_validations.c:1808-1878 | the loop computes the termination verdict |
| SameClausesLaws.TerminationVerdictKept | src/ast/ast_validations.c:1808-1878 | compression leaves the termination verdict unchanged |
| SameClausesLaws.KeepCommutes | src/ast/ast_rewrite_same_clauses.c:64-120 | a filter commutes with joining paths that bind variables it does not read |
| SameClausesLaws.MergedMatchKeepsRows | src/ast/ast_rewrite_same_clauses.c:64-120 | a merged MATCH yields the rows of its run in the same order, filters reading only what is bound by then |
| StarProjections.InsertExact | src/ast/ast_shared.c:240-252 | the ordered identifier map gains exactly the inserted name |
| StarProjections.CollectPath | src/ast/ast_shared.c:234-280 | collects the path name and the names of all nodes and edges |
| StarProjections.CollectPattern | src/ast/ast_shared.c:282-292 | collects the names of all paths |
| StarProjections.CollectWith | src/ast/ast_shared.c:294-319 | collects the columns of a WITH but its nameless one |
| StarProjections.CollectOutputs | src/ast/ast_shared.c:321-346 | collects the outputs of a procedure call |
| StarProjections.CollectAliasesInScope | src/ast/ast_shared.c:389-440 | collects exactly what the clauses bring into scope; fails exactly on a CALL without outputs |
| StarProjections.ReplaceProjection | src/ast/ast_rewrite_star_projections.c:51-153 | lists the variables not named explicitly in ascending order, then the explicit columns; fails exactly on RETURN * with nothing to return |
| StarProjections.UnionFollowsReturn | src/ast/ast_validations.c:990-1011 | counting RETURN and UNION, with only UNION after RETURN, makes every UNION follow a RETURN |
| StarProjections.ScopeExact | src/ast/ast_rewrite_star_projections.c:303-337 | collecting since the last projection of the rewritten query gives the scoping environment computed from the query's beginning |
| StarProjections.ReplaceClause | src/ast/ast_rewrite_star_projections.c:21-221 | one clause rewritten to the whole environment, with its exact error condition |
| StarProjections.RewriteStarProjections | src/ast/ast_rewrite_star_projections.c:293-337 | every star clause is rewritten to its environment; reports rewrites and errors exactly |
| StarProjections.NoStarLeft | src/ast/ast_rewrite_star_projections.c:99-128 | a star is left exactly where a RETURN had nothing to return |
| StarMeaning.ExpansionColumns | src/ast/ast_rewrite_star_projections.c:78-148 | the rewritten columns are the row overlaid by the explicit ones, plus the nameless one of an empty WITH |
| StarMeaning.ExpansionKeepsRow | src/ast/ast_rewrite_star_projections.c:21-221 | a rewritten WITH or RETURN maps every row as the star form does |
| StarMeaning.RowsHoldEnv | src/ast/ast_validations.c:1443-1464 | in every validated query the rows hold exactly the variables of the environment |
| StarMeaning.MeaningKept | src/ast/ast_rewrite_star_projections.c:293-337 | the rewritten query goes through the same rows, clause by clause and over UNION branches |
| CronTime.CompareExact | src/cron/cron.c:46-56 | the comparison is right exactly when the second difference keeps its sign as an int |
| CronTime.CompareFarWrong | src/cron/cron.c:46-56 | 2^31 seconds later compares as before |
| CronTime.DueInExact | src/cron/cron.c:75-90 | a valid time exactly that many milliseconds later |
| Cron.OthersKept | src/cron/cron.c:99-152 | a step leaves every task but its own, and what threads have to do with it, as it was |
| Cron.OneRemover | src/cron/cron.c:118-129 | at most one thread has an aborted task to free |
| Cron.InvKept | src/cron/cron.c:99-309 | every step keeps histories consistent with where the threads stand |
| CronSafety.OnePlace | src/cron/cron.c:131-215 | every task is in exactly one of heap, running, finished, aborted or cleared |
| CronSafety.CalledAtMostOnce | src/cron/cron.c:187-215 | a callback is called at most once, by the thread that took its task |
| CronSafety.FreedOnce | src/cron/cron.c:163-215 | a task is freed at most once, never while it waits or runs, and always once nobody has it |
| CronSafety.AbortedNeverRuns | src/cron/cron.c:287-309 | after an abort returned true the callback never runs |
| CronSafety.MissedNotRunning | src/cron/cron.c:287-309 | after an abort returned false the callback is not running and is not called again |
| CronSafety.NeverBeforeDue | src/cron/cron.c:99-110 | a callback is called only after the clock was seen at or past its due time |
| CronSafety.EarlyExactly | src/cron/cron.c:46-110 | whatever the clock shows, a callback is early exactly when the reading is so far before the due time that the int difference wraps |
| CronSafety.CalledEarly | src/cron/cron.c:46-110 | a run in which a callback is called 2^31 + 1 seconds before it is due |
| CronSafety.AddedDueExact | src/cron/cron.c:262-283 | a task stays due exactly its delay after it was added |
| CronSafety.CronNotBlocked | src/cron/cron.c:187-215 | until it exits the cron thread always has a step, the peek included, whatever the clock shows; after that the rest of the heap can be polled and freed |
| CronSafety.AbortBlockedWhileCurrent | src/cron/cron.c:296-302 | an abort can always go on, except that it waits while its task is current |
| QueryTimeout.SettledIsQuiet | src/commands/cmd_query.c:106-125 | once the abort returned, the timeout is not draining and will not |
| QueryTimeout.SystemKept | src/commands/cmd_query.c:339-365 | every step of queries and scheduler keeps their states consistent |
| QueryTimeout.CallbackFindsPlan | src/commands/cmd_query.c:266-276 | whenever a timeout callback may touch a plan, the plan has not been freed |
| QueryTimeout.PlanFreedOnce | src/commands/cmd_query.c:339-365 | a plan is freed at most once, and exactly once by the end, on every path |
| QueryTimeout.VerdictStable | src/commands/cmd_query.c:106-125 | the timed-out verdict read after the abort is what the plan says ever after |
| QueryTimeout.QueryNotBlocked | src/commands/cmd_query.c:106-125 | a query thread can always go on, except inside an abort whose task is current |
| Constraints.EnforceMandatory | src/constraint/mandatory_constraint.c:40-76 | true exactly when all attributes are present |
| Constraints.EnforceUnique | src/constraint/unique_constraint.c:67-200 | true exactly when no other node has the same indexed values on all attributes |
| Constraints.PutKeeps | src/schema/schema.c:743-766 | committing a node that passes keeps every other node satisfied |
| ConstraintEnforcement.CheckKeeps | src/constraint/constraint.c:452-464 | in ascending order the next node extends what is known to satisfy the constraint |
| ConstraintEnforcement.ScanKept | src/constraint/constraint.c:416-480 | every step of scan, writers and drop keeps what is known |
| ConstraintEnforcement.ActiveIsSatisfied | src/constraint/constraint.c:400-490 | an active constraint that was not dropped is satisfied by every node, when set and ever after |
| ConstraintEnforcement.CutExact | src/constraint/constraint.c:420-426 | over every run, the scan is given up exactly when a batch begins after a drop |
| ConstraintEnforcement.VerdictExact | src/constraint/constraint.c:484-490 | the status is set under the lock, and becomes active exactly when all nodes satisfy the constraint at that moment or a batch was begun after a drop |
| ConstraintEnforcement.LocksBalanced | src/constraint/constraint.c:416-490 | every acquisition of the lock has one release |
| ConstraintEnforcement.DropActivates | src/constraint/constraint.c:420-426 | in every run with a batch begun after a drop the constraint becomes active, whatever the nodes are |
| ConstraintEnforcement.DroppedMayBeViolated | src/constraint/constraint.c:420-426 | nodes that violate such a constraint |
| CommandContexts.GetCommandCtxs | src/globals.c:246-277 | the snapshot loop lists the first tracked contexts up to the capacity |
| CommandContexts.FoundIsOwned | src/globals.c:264-270 | whoever is listed has not been released by its owner |
| CommandContexts.InvKept | src/commands/cmd_context.c:66-178 | every step of owners and observers keeps counts and table consistent |
| CommandContexts.ReachableIsAlive | src/globals.c:197-277 | whatever is in the table or held by an observer has not been freed |
| CommandContexts.CountedAndFreedOnce | src/commands/cmd_context.c:150-178 | the count is owner plus observers; freed once, exactly when it is zero, and only after the client was unblocked |
| CommandContexts.GraphDroppedOnce | src/commands/cmd_query.c:424-432 | every command drops its graph reference exactly once, on every path |
| CommandContexts.TrackedHasGraph | src/commands/cmd_query.c:424-432 | a command has dropped its graph exactly when it has been closed; one in the table exactly when it is about to be untracked |
| CommandContexts.HeldWithoutGraph | src/commands/cmd_info.c:93-125 | a run in which an observer holds a running command whose graph reference is gone |
| CommandContexts.SlotsAsExpected | src/globals.c:197-243 | a thread that tracks finds its slot empty, one that untracks finds its command |
| CommandContexts.OwnerNotBlocked | src/commands/cmd_query.c:424-460 | the owner of a context can always take its next step; only a queued command waits for an idle thread |

## Left out

- ShortestDistance.FindMinimumLength: one direction; going both ways the search may pop a level that was made without anything added to it; EmptyLevelBothWays says when a level is empty, and that the search comes to it is not stated.
- ShortestDistance.Visit: one direction, for the same reason.
- ShortestDistance.SearchLevels: one direction, for the same reason.
- AllShortestPaths.BackUnique: one direction, as the search it completes.
- AllShortestPaths.MinimumNeverRepeatsEdge: one direction, as the search it completes.
- AllShortestPaths.ResultsExact: one direction, as the search it completes.
- PathEnumeration.NewShortest: one direction, as the search it prepares.
- PathEnumeration.EnumerateShortest: one direction, as the search it drains.
- PathEnumeration.PromisedShortest: one direction, as the search it is about.
- LongestPath.LongestPathGraph: does not say that the start node is the best one of the whole graph, because the code starts at the first node without incoming or without outgoing edges, or at the first node of all.
- BulkInsert.ProcessRows: files on which the loop does not end, which LoopEndsExactly tells apart, have no result to state.
- ExpressionFolding: trees are values that are returned rebuilt, not rewritten in place; the cached record index of a variable is not modelled.
- SameClauses: source ranges and comments of clauses are not modelled.
- SameClausesLaws.MergedMatchKeepsRows: patterns and filters are functions on rows; how a match is executed is not modelled.
- StarProjections: CALL {} subqueries; there the rewrite depends on in-place replacement across UNION branches.
- StarMeaning: the nameless column of an empty WITH is not shown in rows, since no query can refer to it.
- Cron: peeking at the first task and reading its due time is one step; handles are never used again; the heap is a set and a peek may see any task of it, since the comparison that orders it can be cyclic; sleeping and waking are not timed.
- CronSafety.NeverBeforeDue: for clocks that stay within 2^31 seconds minus the longest delay, because of the int comparison; EarlyExactly says what holds for any clock.
- QueryTimeout: what the query thread does to its plan before the abort is arbitrary; index operations have no plan.
- ConstraintEnforcement: nodes only; the supporting index is taken to agree with the graph, and rows to come in ascending order. The edge scan counts differently at batch boundaries.
- CommandContexts: references held by observers are a multiset; which observer holds which is not recorded.
- ValueOrder: NaN, maps, paths and temporal values, and the null flag that comparing arrays reports.
- BulkInsert.ReadProperty: an unknown type byte or a value that runs past the end of the buffer is reported as malformed, where the code asserts or reads on.
- Relation lists with repeated IDs: the multiplicity of paths is stated for distinct ones.
- GraphBLAS, RediSearch, rax, the Cypher parser and the thread pools: they appear as edge lists, sets of pairs, sorted lists, syntax trees and queues.
- Liveness: that an abort, a scan or a shutdown eventually ends.
- Page rank, neighbourhood search, slow log, replies, replication and persistence: mostly plumbing around library calls.
