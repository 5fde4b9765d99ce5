# Campus walking-route engine

A model of the routing core of the UMBC campus map, with its properties proved.

- **Path-graph builder.** `_buildGraphFromGeoJSON` reads the campus GeoJSON.
  - It keeps the line features that are not power lines, fences or barriers.
  - Each vertex becomes a node, keyed by its coordinates printed with six decimals.
  - Consecutive vertices are joined by an undirected edge whose weight is the haversine distance. A segment seen again keeps the smaller weight.
- **Router.** `_dijkstra` searches that graph with the binary min-heap `_MinHeap`. Stale heap entries are skipped, not deleted (lazy deletion). The route is read back through the predecessor links.
- **Nearest node.** `_findNearestNode` maps a clicked point to the closest vertex.
- **Search-box suggestions.** The input text is split into words (`validateInput`). Catalog buildings are then picked in one of two ways:
  - the fuzzy matcher of `inputValidate.ts`: a building is kept when any typed word matches any word of its name, as a substring in either direction or within a small Levenshtein distance;
  - the older filter of `testWebsite/inputValidate.js`: a name is kept only when it contains every word.
- **Callers of the suggestions.** Two callers are modelled:
  - `_suggestNominatim` of `app.ts`;
  - the catalog branch of `suggestNominatim` in `testWebsite/ai-app.ts`. It looks for the whole query in the names and otherwise falls through to Nominatim.

The same builder, router, heap and nearest-node scan appear in four files:
- `app.ts`;
- `build/app.js`, its compiled form: builder 402-468, `_dijkstra` 470-512, `_MinHeap` 514-552, `_findNearestNode` 554-565, `_suggestNominatim` 215-225;
- `testWebsite/ai-app.ts`: builder 455-517, `dijkstra` 520-561, `MinHeap` 564-595, `findNearestNode` 598-606;
- `testWebsite/app.js`: builder 259-386, `dijkstra` 401-442, `MinHeap` 456-558, `findNearestNode` 573-581.

These copies agree statement by statement. One model stands for all of them; the one difference, the missing `?? Infinity` in `testWebsite/app.js`, is listed under "Left out". The `validateInput` of `testWebsite/inputValidate.js` (lines 10-16) is the same expression as the one in `inputValidate.ts`, and is modelled once by `InputValidation.ValidateInput`.

**How the model is built**
- Code that builds values by expressions is written as functions.
- Code that updates state is written as methods. Each one is proved equal to a specification function, or proved to keep an invariant. This covers:
  - the builder closure (`GraphBuilder`);
  - the heap class (`MinHeap`);
  - the Dijkstra loops;
  - the Levenshtein table, which is an `array2`;
  - the nearest-node scan;
  - the suggestion loops.

**How JavaScript values are represented**
- A `Map` is an `OrdMap`: a key sequence in insertion order, plus a dictionary. The iteration order decides the neighbour scan order and the nearest-node tie-break, so it is kept.
- `Infinity` is `Inf` of `Dist`.
- The text `x.toFixed(6)` is `Fixed6`: a sign and a count of millionths.
- The haversine distance is a parameter `h`.
  - The builder and router rely only on `IsMetric(h)`: `h` is non-negative and symmetric.
  - Shortest-path optimality is proved for every graph without negative weights. Graphs built with a metric `h` have none (`Walks.BuiltWeightsNonNegative`).

## Model

| member | source | states |
|---|---|---|
| Geo.ToFixed6 | app.ts:450 | the key text of a coordinate carries a sign exactly when the coordinate is negative, and a count of millionths within half a unit of its magnitude |
| Geo.ToFixed6Error | app.ts:450 | the printed value is within half a millionth of the coordinate |
| Geo.SameTextClose | app.ts:449-451 | two coordinates that print the same with six decimals are less than a millionth apart |
| Geo.SameKeyClose | app.ts:449-451 | vertices merged into one node are less than a millionth of a degree apart on both axes |
| OrderedMaps.Empty | app.ts:445 | `new Map()` has no keys and is well-formed |
| OrderedMaps.Set | app.ts:456 | `set` updates the dictionary; a new key is appended to the iteration order, and an old key keeps its place |
| OrderedMaps.GetSet | app.ts:464-468 | `get` after `set` reads the value just set for that key and the earlier value for every other key |
| OrderedMaps.SetSame | app.ts:467-468 | re-setting a key to its current value changes nothing, order included |
| OrderedMaps.SetKeepsDistinct | app.ts:456 | `set` never lists a key twice |
| PathGraph.ShouldUseFeature | app.ts:471-480 | a feature is used exactly when it exists, has a LineString or MultiLineString geometry, and none of `power`, `fence_type`, `barrier` is set; the path tags play no part |
| PathGraph.PathTagsIgnored | app.ts:476-478 | changing any property other than the three barrier tags never changes the filter's answer |
| PathGraph.InsertNode | app.ts:453-460 | after addNode the key is a node; an existing key leaves the map untouched; a new key is appended with the given coordinates and no neighbours |
| PathGraph.MinWith | app.ts:467-468 | `Math.min(existing ?? Infinity, w)` is at most both values and equal to one of them |
| PathGraph.InsertEdge | app.ts:462-469 | a self-loop changes nothing; otherwise only the two endpoints' neighbour maps change, both getting the minimum of the previous weight and the distance between the stored nodes; keys and coordinates are kept |
| PathGraph.InsertNodeExtends | app.ts:453-460 | addNode removes no node, moves none, drops no edge, and keeps every map well-formed |
| PathGraph.InsertEdgeExtends | app.ts:462-469 | addEdge removes nothing and keeps every map well-formed |
| PathGraph.InsertEdgeLowers | app.ts:467-468 | addEdge never raises a weight |
| PathGraph.ExtendsTransitive | app.ts:444-506 | "only grows" and "weights only shrink" compose across build steps |
| PathGraph.InsertVertex | app.ts:486-489 | one pass of the processLine loop makes vertex i a node and keeps the previous key a node |
| PathGraph.InsertVertexExtends | app.ts:486-489 | one loop pass only grows the graph and keeps it well-formed |
| PathGraph.InsertVertexLowers | app.ts:486-489 | one loop pass never raises a weight |
| PathGraph.InsertVerticesExtends | app.ts:485-490 | the rest of the processLine loop only grows the graph and keeps it well-formed |
| PathGraph.InsertVerticesLowers | app.ts:485-490 | the rest of the processLine loop never raises a weight |
| PathGraph.InsertLine | app.ts:483 | a line with fewer than two vertices changes nothing |
| PathGraph.InsertLineExtends | app.ts:482-491 | processLine only grows the graph and keeps it well-formed |
| PathGraph.InsertLinesExtends | app.ts:499-500 | processing each part of a MultiLineString only grows the graph |
| PathGraph.InsertFeature | app.ts:493-503 | a rejected feature changes nothing; an accepted one is appended to the display list |
| PathGraph.InsertFeatureExtends | app.ts:493-503 | one feature only grows the graph and keeps it well-formed |
| PathGraph.InsertFeaturesExtends | app.ts:493-503 | the feature loop only grows the graph and keeps it well-formed |
| PathGraph.BuildWF | app.ts:444-506 | every Map the build creates lists exactly its keys |
| PathGraphFacts.InvSymmetric | app.ts:467-468 | in a built graph every edge has its mirror, is no self-loop, and both directions carry the same non-negative weight |
| PathGraphFacts.EmptyInv | app.ts:445 | the empty node map satisfies the builder invariant |
| PathGraphFacts.InsertNodeInv | app.ts:453-460 | addNode keeps the invariant: symmetric edges, no self-loops, each node under its own key, each weight the distance of its endpoints |
| PathGraphFacts.InsertEdgeInv | app.ts:462-469 | with a metric distance, addEdge keeps the invariant |
| PathGraphFacts.InsertEdgeFixed | app.ts:467-468 | an edge already no heavier than the distance in both directions is left exactly as is |
| PathGraphFacts.InsertEdgeIdempotent | app.ts:462-469 | inserting the same segment twice equals inserting it once |
| PathGraphFacts.InsertEdgeExisting | app.ts:462-469 | on a graph keeping the invariant, re-inserting an existing edge (or a self-loop) changes nothing |
| PathGraphFacts.InsertVerticesInv | app.ts:485-490 | the processLine loop keeps the invariant |
| PathGraphFacts.InsertLineInv | app.ts:482-491 | processLine keeps the invariant |
| PathGraphFacts.InsertLinesInv | app.ts:499-500 | processing every part of a MultiLineString keeps the invariant |
| PathGraphFacts.InsertFeaturesInv | app.ts:493-503 | the feature loop keeps the invariant |
| PathGraphFacts.BuildInv | app.ts:444-506 | with a metric distance the built graph is symmetric, loop-free, keyed by six-decimal keys, and weighted by the endpoint distances |
| PathGraphFacts.InsertVerticesKeeps | app.ts:485-490 | a node stays a node while the rest of the line is processed |
| PathGraphFacts.InsertVerticesHas | app.ts:485-490 | vertex j of the line is a node once the loop has passed it |
| PathGraphFacts.InsertVerticesNodes | app.ts:485-490 | every remaining vertex of the line becomes a node |
| PathGraphFacts.SettledKept | app.ts:467-468 | a segment in place stays in place under later build steps |
| PathGraphFacts.InsertVerticesSettles | app.ts:485-490 | after the loop, every consecutive pair with distinct keys is an edge in both directions, no heavier than its distance |
| PathGraphFacts.InsertLineLinks | app.ts:482-491 | processLine on two or more vertices makes every vertex a node, longitude and latitude swapped into the key, and links every consecutive distinct pair both ways; and nothing else: the nodes afterwards are the old ones plus the line's vertices, and every new or changed neighbour entry joins a consecutive pair of the line |
| PathGraphFacts.InsertVertexOnly | app.ts:485-490 | one pass of the loop adds the vertex as a node and touches no neighbour entry except the two between it and the previous vertex |
| PathGraphFacts.InsertVerticesKeys | app.ts:485-490 | the loop from vertex i on adds exactly the vertices from i on as nodes |
| PathGraphFacts.InsertVerticesOnly | app.ts:485-490 | every neighbour entry the loop from vertex i on adds or changes joins the previous vertex with vertex i or a consecutive pair from i on |
| PathGraphFacts.InsertVerticesAgain | app.ts:485-490 | walking a line whose vertices and segments are in place changes nothing |
| PathGraphFacts.InsertLineIdempotent | app.ts:482-491 | processing the same line twice leaves the graph as one pass does, order included: overlapping segments do not add up |
| PathGraphFacts.Accepted | app.ts:494 | the accepted features all pass the filter |
| PathGraphFacts.InsertFeaturesDisplay | app.ts:493-503 | the feature loop appends exactly the accepted features, in order |
| PathGraphFacts.BuildDisplay | app.ts:447 | `displayFeatures` is the accepted features, in input order |
| PathGraphFacts.InsertFeaturesUnused | app.ts:494 | features the filter rejects leave the graph unchanged |
| PathGraphFacts.NoUsableFeatureNoNodes | app.ts:493-505 | a collection without a usable feature gives a graph with no nodes |
| GraphBuilding.GraphBuilder.constructor | app.ts:445-447 | the closure starts with an empty node map and an empty display list |
| GraphBuilding.GraphBuilder.AddNode | app.ts:453-460 | the in-place addNode returns the vertex key, leaves the map that InsertNode describes, and keeps the display list |
| GraphBuilding.GraphBuilder.AddEdge | app.ts:462-469 | the in-place addEdge leaves the map that InsertEdge describes |
| GraphBuilding.GraphBuilder.ProcessLine | app.ts:482-491 | the in-place processLine loop leaves the map that InsertLine describes |
| GraphBuilding.GraphBuilder.AddFeature | app.ts:493-503 | the forEach callback leaves the state that InsertFeature describes |
| GraphBuilding.BuildGraphFromGeoJSON | app.ts:444-506 | the result is the graph Build describes; every Map is well-formed; the display list is the accepted features; with a metric distance the builder invariant holds |
| Walks.WalkPrefix | app.ts:528 | a prefix of a walk is a walk |
| Walks.WalkWeightNonNegative | app.ts:530 | without negative weights no walk has negative weight |
| Walks.PrependWalk | app.ts:545 | an edge followed by a walk is a walk |
| Walks.PrependStep | app.ts:545 | that edge's weight is added to the walk's |
| Walks.BuiltWeightsNonNegative | app.ts:466-468 | graphs built with a metric distance have no negative weight |
| PriorityQueue.RootBelow | app.ts:553-584 | in a heap the root's priority is at most any slot's |
| PriorityQueue.RootIsMin | app.ts:559 | the root of a heap has the least priority |
| PriorityQueue.Swap | app.ts:568 | exchanging two slots keeps the entries |
| PriorityQueue.SwapUp | app.ts:564-571 | one bubbleUp swap moves the only possible violation to the parent slot |
| PriorityQueue.SwapDown | app.ts:575-581 | swapping with the smaller, strictly smaller child moves the only possible violation to that child |
| PriorityQueue.DownSettled | app.ts:579 | bubbleDown stops with the heap whole again |
| PriorityQueue.LastToRoot | app.ts:559-560 | moving the last entry to the root removes exactly the old root and leaves only the root out of order |
| PriorityQueue.MinHeap.constructor | app.ts:554 | a new heap is empty and ordered |
| PriorityQueue.MinHeap.Push | app.ts:556 | push adds exactly the given entry and keeps the heap order |
| PriorityQueue.MinHeap.Pop | app.ts:557-563 | pop returns the old root, an entry of least priority, and removes exactly that entry; a single entry empties the heap |
| PriorityQueue.MinHeap.BubbleUp | app.ts:564-571 | bubbleUp restores the heap order without changing the entries |
| PriorityQueue.MinHeap.BubbleDown | app.ts:572-583 | bubbleDown restores the heap order without changing the entries |
| RouteSearch.InUniverse | app.ts:528-533 | every reached key is the start or a neighbour key, so the search ends |
| RouteSearch.InitInv | app.ts:515-517 | after `dist` is filled with Infinity, the start set to 0 and pushed, the loop invariant holds |
| RouteSearch.VisitedFinite | app.ts:522 | a finalised key has a finite distance |
| RouteSearch.PopStale | app.ts:521 | dropping an entry of an already finalised key keeps the invariant (lazy deletion) |
| RouteSearch.ExitBound | app.ts:519-537 | a walk leaving the finalised set passes a key whose distance is at most the walk's weight |
| RouteSearch.PoppedShortest | app.ts:520-522 | with no negative weight, the key popped with least priority has a shortest distance |
| RouteSearch.Visit | app.ts:522 | finalising the popped key keeps the invariant and finalises each key once |
| RouteSearch.VisitChain | app.ts:522 | finalising keeps the predecessor links consistent |
| RouteSearch.RankExtend | app.ts:522 | the key finalised next is ranked after all earlier ones |
| RouteSearch.VisitHeap | app.ts:520-522 | every unfinalised reached key is still queued at its distance |
| RouteSearch.VisitRelaxed | app.ts:522-523 | every other finalised node still has its neighbours scanned |
| RouteSearch.Relax | app.ts:530-535 | lowering `dist(v)`, setting `prev(v) := u` and pushing v keeps the invariant; a finalised node is never relaxed |
| RouteSearch.RelaxChain | app.ts:532-533 | `prev` is set whenever `dist` is lowered, and v's distance is u's plus the edge |
| RouteSearch.RelaxHeap | app.ts:534 | the new entry stands for the lowered distance |
| RouteSearch.RelaxRelaxed | app.ts:530-535 | relaxing v settles v and keeps the neighbours already scanned |
| RouteSearch.RelaxShortest | app.ts:531-532 | distances only change on unfinalised keys, so finalised ones stay shortest |
| RouteSearch.RelaxedPrefix | app.ts:528 | one more neighbour in iteration order is scanned |
| RouteSearch.KeysRelaxed | app.ts:528 | scanning the neighbours in iteration order reaches all of them |
| RouteSearch.Scanned | app.ts:525-536 | a node without an entry (`!uNode`) or with all neighbours scanned restores the invariant |
| RouteSearch.Exhausted | app.ts:519 | a queue that runs dry before the end is finalised means the end is unreachable |
| RouteSearch.WalkVisited | app.ts:519-537 | when the queue is dry, every walk from the start stays inside the finalised set |
| RouteSearch.ChainStart | app.ts:540-545 | the reconstruction starts at the end key |
| RouteSearch.ChainStep | app.ts:545-547 | each predecessor was finalised earlier and links by an edge to its successor |
| Routing.Dijkstra | app.ts:509-550 | the path is empty, with Infinity, exactly when no walk joins start and end; otherwise it is a walk from start to end weighing the reported distance, and with no negative weight none is lighter; start == end gives `[start]` at 0 |
| Routing.Search | app.ts:515-537 | after the loop the links are consistent and the finalised distances are shortest; an end with no predecessor that is not the start is unreachable |
| Routing.SearchStep | app.ts:520-536 | one turn keeps the heap valid and the invariant, or stops with the end finalised; a stale pop shrinks the queue and, like reaching the end, changes no distance or predecessor; otherwise one more key is finalised; keys finalised before keep their distance and predecessor, distances only go down, every lowered one has the popped key as predecessor, and an unmoved distance keeps its predecessor |
| Routing.ScanNeighbours | app.ts:528-536 | scanning u's neighbours keeps the invariant and leaves each neighbour finalised or no farther than through u; finalised keys keep their distance and predecessor, distances only go down, every lowered one has u as predecessor, and an unmoved distance keeps its predecessor (`LoweredThrough`) |
| Routing.LoweredStep | app.ts:529-535 | relaxing one more neighbour of u, or skipping it, keeps all four facts of `LoweredThrough` from the start of the scan |
| Routing.RelaxEdge | app.ts:529-535 | a neighbour not finalised whose `alt = dist(u) + w` is below its distance gets `alt`, u as predecessor and one more heap entry `(v, alt)`; otherwise distances, predecessors and the heap's contents are unchanged; the invariant is kept |
| Routing.WalkBack | app.ts:539-549 | the predecessor chain read back from the end is a walk from the start to the end weighing the end's distance |
| Nearest.FindNearestNode | app.ts:587-595 | null exactly for a graph without vertices; otherwise a vertex as stored, at distance no larger than any, and the first such in iteration order |
| Text.LowerFixed | inputValidate.ts:45-46 | `toLowerCase` leaves a string unchanged exactly when it holds no ASCII capital letter |
| Text.LowerIdempotent | inputValidate.ts:45-46 | lower-casing twice equals lower-casing once |
| Text.LowerHasNoCapital | inputValidate.ts:45-46 | no capital ASCII letter is left |
| Text.IndexOf | inputValidate.ts:47 | `indexOf` gives the first position where the needle occurs, or -1 when it occurs nowhere |
| Text.IndexOfFound | inputValidate.ts:47-48 | `indexOf(x) !== -1` holds exactly when x occurs |
| Text.ContainsEmpty | inputValidate.ts:47 | the empty string occurs in every string |
| Text.ContainsSelf | inputValidate.ts:47 | a string occurs in itself |
| Text.TrimStart | inputValidate.ts:8 | the leading whitespace, and only it, is removed |
| Text.TrimEnd | inputValidate.ts:8 | the trailing whitespace, and only it, is removed |
| Text.TrimEnds | inputValidate.ts:8 | the trimmed text neither starts nor ends with whitespace |
| Text.TrimKeeps | inputValidate.ts:8 | trim removes only whitespace |
| Text.TrimNoop | inputValidate.ts:8 | text without whitespace at its ends is its own trim |
| Text.TrimSlice | inputValidate.ts:8 | trim keeps exactly the span from the first to the last non-whitespace character |
| Text.KeepEmpty | inputValidate.ts:11 | nothing is left exactly when every character is a separator |
| Text.Split | inputValidate.ts:11 | `split` on a separator run always gives at least one piece |
| Text.NonEmpty | inputValidate.ts:11 | the `filter(w => w.length > 0)` result holds only non-empty pieces of the input |
| Text.SplitNoSep | inputValidate.ts:11 | no piece of the split holds a separator |
| Text.SplitConcat | inputValidate.ts:11 | the pieces together are the input without its separators |
| Text.WordsSpec | inputValidate.ts:11 | the words are non-empty and separator-free, and together they are the input's non-separator characters; where they break is `WordsCut` with `WordsSingle` |
| Text.WordsEmpty | inputValidate.ts:11 | there are no words exactly when every character is a separator |
| Text.SplitPrefix | inputValidate.ts:11 | a separator-free prefix only lengthens the first piece |
| Text.WordsJoin | inputValidate.ts:11 | words joined with one separator split back into the same words |
| Text.WordsCut | inputValidate.ts:11 | a separator between two texts cuts the words there: the words of the first text, then those of the second |
| Text.WordsSingle | inputValidate.ts:11 | a non-empty run without a separator is exactly one word |
| Text.WordsSepsFront | inputValidate.ts:11 | leading separators add no word |
| Text.WordsSepsBack | inputValidate.ts:11 | trailing separators add no word |
| Text.TrimStartWords | inputValidate.ts:7-11 | removing leading whitespace changes no word of a split on whitespace |
| Text.TrimEndWords | inputValidate.ts:7-11 | removing trailing whitespace changes no word of a split on whitespace |
| Text.JoinNoSepEnds | inputValidate.ts:8-11 | such joined text has no separator at either end |
| Sequences.Filter | inputValidate.ts:56 | `filter` never lengthens |
| Sequences.FilterAppend | inputValidate.ts:56-68 | filtering a concatenation filters each part |
| Sequences.FilterMembers | inputValidate.ts:56-68 | an element is kept exactly when it is present and passes the test |
| Sequences.FilterAll | testWebsite/inputValidate.js:24-36 | everything is kept when every element passes |
| Sequences.FilterNone | inputValidate.ts:56-68 | nothing is kept when no element passes |
| Sequences.FilterSubsequence | inputValidate.ts:56-68 | the kept elements keep their order |
| Sequences.FilterAgree | testWebsite/inputValidate.js:28-30 | tests that agree on every element keep the same elements |
| Sequences.FilterFilter | testWebsite/inputValidate.js:28-30 | filtering twice keeps what passes both tests |
| Sequences.FilterWeaker | testWebsite/inputValidate.js:32-35 | a weaker test keeps at least what a stronger one keeps, in order |
| Sequences.PrefixSubsequence | app.ts:279 | a prefix keeps catalog order |
| Sequences.SubsequenceTrans | app.ts:276-279 | order preservation composes |
| Sequences.SliceSlice | app.ts:279 | slicing to two non-negative ends in turn is slicing once to the smaller end |
| Sequences.SliceNegative | app.ts:279 | a negative end drops that many elements from the back, or every element when the sequence is shorter |
| EditDistance.ComputeLevenshtein | inputValidate.ts:24-41 | the table filled row by row ends with the edit distance of a and b |
| EditDistance.FillRow | inputValidate.ts:31-38 | the inner loop fills row i with the distances of its prefixes and leaves the other rows alone |
| EditDistance.FillCell | inputValidate.ts:32-37 | one cell gets the minimum over delete, insert and replace, and no other cell changes |
| EditDistance.CostSymmetric | inputValidate.ts:32 | the replacement cost does not depend on the order |
| EditDistance.DistBounds | inputValidate.ts:28-37 | a prefix distance lies between the length difference and the larger length |
| EditDistance.LevenshteinBounds | inputValidate.ts:24-41 | `abs(|a| - |b|) <= lev(a, b) <= max(|a|, |b|)` |
| EditDistance.LevenshteinEmpty | inputValidate.ts:28-29 | against the empty string the distance is the other length |
| EditDistance.DistZeroEqual | inputValidate.ts:24-41 | distance 0 means equal prefixes |
| EditDistance.EqualDistZero | inputValidate.ts:24-41 | equal prefixes are at distance 0 |
| EditDistance.LevenshteinZero | inputValidate.ts:24-41 | the distance is 0 exactly between equal strings |
| EditDistance.DistSymmetric | inputValidate.ts:28-37 | exchanging the strings does not change a prefix distance |
| EditDistance.LevenshteinSymmetric | inputValidate.ts:24-41 | `lev(a, b) == lev(b, a)` |
| InputValidation.ValidateInputWords | inputValidate.ts:6-14 | every word is non-empty and has no whitespace; together the words are the input without its whitespace |
| InputValidation.ValidateInputUntrimmed | inputValidate.ts:6-14 | the words of the trimmed input are the words of the raw input |
| InputValidation.ValidateInputCut | inputValidate.ts:6-14 | whitespace between two texts separates their words: the words of the first, then those of the second |
| InputValidation.ValidateInputSingle | inputValidate.ts:6-14 | a non-empty text without whitespace is exactly one word |
| InputValidation.ValidateInputBlank | inputValidate.ts:6-14 | an empty or all-whitespace input, and only such an input, gives no words |
| InputValidation.ValidateInputJoin | inputValidate.ts:6-14 | words joined by single spaces come back unchanged |
| InputValidation.ValidateInputExample | tests/main.ts:49 | "Finn Art " gives ["Finn", "Art"] |
| InputValidation.WordMatches | inputValidate.ts:44-52 | after lower-casing, the result is: one word occurs in the other, or their distance is at most `max(1, floor(min/4))` |
| InputValidation.MatchesSymmetric | inputValidate.ts:44-52 | which word is the input does not matter |
| InputValidation.MatchesReflexive | inputValidate.ts:47 | a word matches itself |
| InputValidation.MatchesIgnoresCase | inputValidate.ts:45-46 | case makes no difference |
| InputValidation.DistAtMostMismatches | inputValidate.ts:32-37 | replacing the differing characters bounds the distance |
| InputValidation.MatchesTypos | inputValidate.ts:49-51 | equal-length words differing in at most the allowed number of positions match |
| InputValidation.MatchesTypoExample | inputValidate.ts:50-51 | "Finn" matches "Fine", being one replacement apart |
| InputValidation.MatchesPrefixExample | inputValidate.ts:47 | "Art" matches "Arts" as a substring |
| InputValidation.NameWordsSpec | inputValidate.ts:59 | the name words are non-empty and made of word characters only, and together they are all of the name's word characters; that they are the maximal runs is `NameWordsCut` with `NameWordsSingle` |
| InputValidation.NameWordsCut | inputValidate.ts:59 | a non-word character between two texts separates their name words: those of the first, then those of the second |
| InputValidation.NameWordsSingle | inputValidate.ts:59 | a non-empty run of word characters is exactly one name word |
| InputValidation.NameWordsExample | inputValidate.ts:59 | "Fine Arts Building" splits into its three words |
| InputValidation.SuggestedExample | tests/main.ts:11 | the test entry "Fine Arts Building" is suggested for the words of "Finn Art " |
| InputValidation.AnyWordMatches | inputValidate.ts:60-67 | the nested loops with early return answer whether some input word matches some name word |
| InputValidation.SuggestBuildingsFromInput | inputValidate.ts:56-68 | the result is the catalog filtered by "some input word matches some name word" |
| InputValidation.SuggestionsMembers | inputValidate.ts:54-68 | exactly the catalog entries with a matching word pair are kept, in catalog order |
| InputValidation.SuggestionsNoInput | inputValidate.ts:60-67 | no input words give no suggestions |
| InputValidation.SuggestionsMoreWords | inputValidate.ts:54-55 | more words never remove a suggestion (any-word semantics) |
| LegacySuggestions.ContainsAllStep | testWebsite/inputValidate.js:27-29 | one more word adds one more case-insensitive containment test |
| LegacySuggestions.NarrowStep | testWebsite/inputValidate.js:28-30 | filtering by word k the names that contain the first k words leaves those that contain k + 1 |
| LegacySuggestions.SuggestNames | testWebsite/inputValidate.js:23-37 | the loop returns the display names that contain every input word, in catalog order |
| LegacySuggestions.LegacyMembers | testWebsite/inputValidate.js:32-36 | a name is returned exactly when it is a display name containing every word; order is kept |
| LegacySuggestions.LegacyNoWords | testWebsite/inputValidate.js:24-36 | no words return every display name |
| LegacySuggestions.LegacyMoreWords | testWebsite/inputValidate.js:32-35 | more words can only remove names |
| Suggest.BlankNoWords | app.ts:270 | a blank query has no words |
| Suggest.SuggestNominatim | app.ts:269-280 | the first `limit` fuzzy matches of the query's words, at most `limit`, each a catalog entry that matches; the early returns agree with the general case |
| Suggest.DefaultLimit | app.ts:269 | with the default limit, at most five suggestions, in catalog order |
| Suggest.IncludesIsMentions | testWebsite/ai-app.ts:268 | `includes(qlc)` holds exactly when the lower-cased name contains the query |
| Suggest.LocalMatches | testWebsite/ai-app.ts:268 | the local matches are exactly the catalog entries whose name contains the query, in catalog order |
| Suggest.FirstMatches | testWebsite/ai-app.ts:268-269 | the first `limit` local matches keep catalog order and each contains the query |
| Suggest.LocalSuggest | testWebsite/ai-app.ts:264-270 | a blank query answers []; a local answer is non-empty, at most `limit`, in catalog order, and each name contains the query |
| Suggest.LocalSuggestFallsThrough | testWebsite/ai-app.ts:265-270 | with a positive limit Nominatim is asked exactly when the query is not blank and no catalog name contains it |

## Left out

- The haversine body (app.ts:598-606) uses floating-point trigonometry. It is the parameter `h`. Only non-negativity and symmetry (`IsMetric`) are assumed of it, and only where a property needs them.
- Floating point in general: weights and coordinates are exact reals. Sums of weights do not round.
- `toFixed(6)` is modelled for finite values below 10^21, the range of coordinates. `Fixed6` stands for the printed text: distinct values print as distinct texts.
- `formatMeters`, the Leaflet map and `L.latLngBounds`, the markers, polylines and display of `displayFeatures`, the DOM wiring of the suggestion lists, and the debounce are presentation code. `Graph` drops `bounds`.
- The state record `_state`, the `_routingInProgress` guard, and the caller's rule that start and end must differ are presentation state.
- The Nominatim request of `testWebsite/ai-app.ts` (lines 272-290) and the other geocoding calls are network I/O. `LocalSuggest` returns `FetchNominatim` where the source would make the request.
- The catalog is a parameter. The constant `_campusSuggestions` (app.ts:61) is its value in the source.
- The `Promise` wrapping of the suggestion results is left out: the value is returned directly. So is the `Array.isArray` check: the catalog is always a list.
- `!q` on a null or undefined query is not modelled: queries are strings. An empty string is blank.
- `display_name || ''`: every `Place` has a string name. The empty name gives no words either way.
- `toLowerCase` and the `\s` and `\w` classes are taken on the ASCII letters and the ECMAScript whitespace set. Unicode case mapping of other letters is left out. Strings are sequences of characters, not UTF-16 code units.
- `pop` on an empty heap is excluded by its requires. The router only pops after `isEmpty()` is false.
- Routing.WalkBack: the loop `while (u)` also stops on a key that is the empty string. Keys here are six-decimal coordinate texts, which are never empty, so this case does not arise.
- testWebsite/app.js reads `dist` without `?? Infinity` at three sites: `dist.get(u) + w` and `alt < dist.get(v)` (lines 422-423), and `distance: dist.get(endKey)` (line 441). The first two differ only when a neighbour key is not a node, and the builder never creates such a neighbour (`PathGraphFacts.BuildInv`). The third is reached only when `endKey` has a predecessor or is the start, and both always have a distance there.
- GeoJSON property values are strings in `Feature.properties`, and a tag counts as set when its value is a non-empty string. JavaScript truthiness on other JSON values is not modelled: a number `0`, `false` or `null` is falsy, and `true`, a non-zero number, an object or an array is truthy.
- Routing.Dijkstra, Routing.Search, Nearest.FindNearestNode: the requires `NodesWF` / `WellFormed` say that each `OrdMap` lists exactly its keys. Every JavaScript `Map` has this property (`PathGraph.BuildWF`).
- The doc comment at inputValidate.ts:20 says the result matches all input words. The code keeps a building when any word matches, and the model follows the code (`InputValidation.SuggestionsMoreWords`).
- The `validateInput` of testWebsite/inputValidate.js is the same expression as in inputValidate.ts and is modelled once.
- The rest of the repository is not part of this model: `backend/boilerplate.js` and its print tests, `script.js`, the `front end` components, and the `tests/main.ts` driver, whose input and catalog entry appear only in the example lemmas.
