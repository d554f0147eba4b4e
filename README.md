# Venice routes: a verified model

This project models the core of a small route library over a weighted
directed graph of one-letter towns. The graph is built from an edge list
such as `AB5, BC4, CD8`. Four route queries run on it:

- the length of a route spelled out as `A-B-C`;
- the trips from one town to another with at most a given number of stops,
  or with exactly that number;
- the trips shorter than a given length;
- the shortest route between two towns.

The model is split into modules that follow the program's classes:

- `Nodes` (node.dfy): a node as a value, with its name and its links
  (neighbour name to weight). It covers `distanceTo`, `hasLink`, `addLink`,
  `isValid`, and `equals`/`hashCode` by name. The node's reference to its
  owning graph is replaced by passing the graph's node map.
- `Graphs` (graph.dfy): the graph as a `map<string, map<string, int>>`
  held in a `Graph` class, with its lookups and validity check. It also
  holds `buildGraph`, the tokenizer loop that parses and checks every
  segment. `Build` is the pure specification of what that loop computes.
  Lemmas characterise when `Build` succeeds, what graph it produces, and
  each reason it rejects an input.
- `Paths` (path.dfy): the mutable `Path` class, a sequence of nodes plus a
  stored length. `Add` and `Pop` keep the invariant that the stored length
  is the sum of the distances between consecutive nodes.
- `Routes` (routes.dfy): the specification functions of the three
  enumerating queries, each with lemmas that say exactly which paths they
  contain.
  - `RouteLength` specifies `findPathLength`.
  - `HopTrips` specifies `tripFinderByMaxSteps`. A trip is recorded before
    the destination is appended, so each recorded path ends at a node with
    a link to `to`.
  - `WeightTrips` specifies `tripFinderByMaxLength`.
  - `WithSize` specifies the filter of `getPathsExact`.
- `Shortest` (shortest.dfy): what `shortestPath` needs.
  - The stable insertion sort that stands for `Collections.sort`.
  - One expansion step of the search.
  - The coverage invariant: every loop-free route is found already or
    extends a frontier path.
  - A decreasing measure for termination.
  - The optimality argument: a route with a repeated node can be shortened
    to a loop-free one that is no longer.
- `Finder` (finder.dfy): the `PathFinder` class with its imperative
  methods. The loops become `while`/`for` loops and the two backtracking
  searches become recursive methods that share one `Path` object. Each
  method is proved against the specification functions above.
- `Text` (text.dfy): the string operations the source takes from the Java
  library:
  - `String.split`, `StringTokenizer` and `String.trim`;
  - `Integer.valueOf` on decimal strings;
  - `String.hashCode`, with 32-bit wrap-around;
  - a fixed ascending order of map keys, which stands for `HashMap`
    iteration order.
- `Wrappers` (wrappers.dfy): `Option` for Java's `null`, `Result` for a
  thrown exception.

## Model

| member | source | states |
|---|---|---|
| Text.SortedKeys | src/main/java/com/vinted/app/PathFinder.java:87 | the iteration order used for a node's links lists every key of the map exactly once and nothing else |
| Text.SortedKeysOrdered | src/main/java/com/vinted/app/PathFinder.java:87 | that order is strictly ascending, so it is one fixed order |
| Text.JavaSplit | src/main/java/com/vinted/app/PathFinder.java:22 | `split("-")`: no returned piece contains the separator |
| Text.JoinPieces | src/main/java/com/vinted/app/PathFinder.java:22 | splitting at the separator loses nothing: joining the pieces with it gives back the input |
| Text.DropTrailingEmpty | src/main/java/com/vinted/app/PathFinder.java:22 | `split` drops only trailing empty pieces: the result is a prefix of the pieces, it does not end in "", and everything dropped is "" |
| Text.Tokens | src/main/java/com/vinted/app/Graph.java:26-28 | the tokenizer yields only non-empty tokens free of the delimiter |
| Text.TokensOfJoin | src/main/java/com/vinted/app/Graph.java:26-28 | tokenizing pieces free of the delimiter, joined by it, gives back exactly the non-empty pieces in their order |
| Text.PiecesOfJoin | src/main/java/com/vinted/app/Graph.java:26-28 | cutting at a delimiter undoes joining by it: the pieces come back in order |
| Text.NonEmpty | src/main/java/com/vinted/app/Graph.java:26-28 | the tokenizer skips exactly the empty pieces; a single piece is kept unless it is empty |
| Text.NonEmptyConcat | src/main/java/com/vinted/app/Graph.java:26-28 | skipping empty pieces keeps the order: it distributes over concatenation |
| Text.TrimStart | src/main/java/com/vinted/app/Graph.java:28 | removes exactly the leading characters at or below space |
| Text.TrimEnd | src/main/java/com/vinted/app/Graph.java:28 | removes exactly the trailing characters at or below space |
| Text.Trim | src/main/java/com/vinted/app/Graph.java:28 | the trimmed segment is no longer than the input and starts and ends with a character above space |
| Text.TrimRemovesOnlyBlanks | src/main/java/com/vinted/app/Graph.java:28 | the trimmed segment is a slice of the input with only blanks cut off on each side |
| Text.ParseInt | src/main/java/com/vinted/app/Graph.java:38 | a parsed weight lies in the 32-bit range and is negative only after a leading '-' |
| Text.ParseIntAccepts | src/main/java/com/vinted/app/Graph.java:38 | an optional sign followed by decimal digits parses to its signed decimal value when that fits in 32 bits, and fails otherwise |
| Text.ParseIntOnlyDecimals | src/main/java/com/vinted/app/Graph.java:38 | only such strings parse: a parsed string is a sign and decimal digits, and its value is their signed value |
| Text.DigitsValueOfDecimal | src/main/java/com/vinted/app/Graph.java:38 | reading back the decimal digits of a number gives the number |
| Text.ParseIntRoundTrip | src/main/java/com/vinted/app/Graph.java:38 | every 32-bit integer written in decimal, with '-' when negative, parses back to itself |
| Text.Wrap32 | src/main/java/com/vinted/app/domain/Path.java:100 | a Java `int` result: in the 32-bit range and congruent to the exact value modulo 2^32 |
| Text.StringHash | src/main/java/com/vinted/app/Node.java:94 | `String.hashCode` is a 32-bit value |
| Nodes.AddLink | src/main/java/com/vinted/app/Node.java:25-27 | sets or overwrites the weight of the link to `to`, keeps the name, and leaves every other link's distance unchanged |
| Nodes.DistanceToSentinel | src/main/java/com/vinted/app/Node.java:74-79 | `distanceTo` is -1 exactly for a missing link or a stored -1; otherwise it is the stored weight |
| Nodes.HasLinkIffDistanceKnown | src/main/java/com/vinted/app/Node.java:48-50 | when no weight is -1, `hasLink(n)` holds exactly when `distanceTo(n) != -1` |
| Nodes.CheckValidIn | src/main/java/com/vinted/app/Node.java:58-66 | the loop returns true exactly when every link target is a node of the graph, and false only when some target is missing |
| Nodes.HashCode | src/main/java/com/vinted/app/Node.java:92-95 | the hash of a node is a 32-bit value computed from its name alone |
| Nodes.EqualsByName | src/main/java/com/vinted/app/Node.java:103-111 | `equals` is an equivalence that ignores the links, and equal nodes have equal hash codes |
| Graphs.GetNodeByName | src/main/java/com/vinted/app/Graph.java:78-80 | a node comes back exactly when `hasNode` holds, under the requested name and with that node's links |
| Graphs.HasDirectLinkIff | src/main/java/com/vinted/app/Graph.java:89-91 | `hasDirectLink(from, to)` holds exactly when `from` is a node and its links contain `to` |
| Graphs.IsValidIff | src/main/java/com/vinted/app/Graph.java:99-107 | `isValid` holds exactly when every link target of every node is itself a node |
| Graphs.CheckValid | src/main/java/com/vinted/app/Graph.java:99-107 | the early-return loop over the nodes returns exactly `isValid` |
| Graphs.Link | src/main/java/com/vinted/app/Graph.java:55-60 | adding a link creates its source node when missing and gives the link the new weight |
| Graphs.LinkAfterAddNode | src/main/java/com/vinted/app/Graph.java:55-60 | adding the missing node empty first and then the link gives the same graph as adding the link directly |
| Graphs.LinkKeeps | src/main/java/com/vinted/app/Graph.java:60 | adding a link keeps every other link with its weight |
| Graphs.LinkOrigin | src/main/java/com/vinted/app/Graph.java:60 | after adding a link, every link is the new one or was there before |
| Graphs.Graph.constructor | src/main/java/com/vinted/app/Graph.java:9 | a new graph has no nodes |
| Graphs.Graph.AddNode | src/main/java/com/vinted/app/Graph.java:70-72 | stores the node's links under its name, replacing any earlier entry and leaving every other entry unchanged |
| Graphs.Graph.AddLink | src/main/java/com/vinted/app/Node.java:25-27 | on a stored node, sets the weight of one link and changes no other node or link |
| Graphs.Graph.Connect | src/main/java/com/vinted/app/Graph.java:55-60 | look-up-or-create followed by `addLink` leaves the graph with exactly that link added |
| Graphs.Graph.BuildGraph | src/main/java/com/vinted/app/Graph.java:23-68 | `buildGraph` succeeds with a fresh graph whose nodes are `Build(input)`, or fails with the error `Build(input)` reports |
| Graphs.Graph.AddSegments | src/main/java/com/vinted/app/Graph.java:26-61 | the tokenizer loop builds the same graph as the fold `Process` over the parsed segments, or stops with the same first error |
| Graphs.ParseSegment | src/main/java/com/vinted/app/Graph.java:28-49 | a token is accepted exactly when its trimmed form has 3 or more characters, the rest after two letters is a non-negative 32-bit integer and the two letters differ; the segment is then those two letters and that integer |
| Graphs.Parsed | src/main/java/com/vinted/app/Graph.java:26-49 | token i is parsed to exactly `ParseSegment` of token i |
| Graphs.Segments | src/main/java/com/vinted/app/Graph.java:26-49 | when every token parses, the segments are those parses in order |
| Graphs.ProcessStep | src/main/java/com/vinted/app/Graph.java:27-61 | one more iteration of the loop applies one step to the graph built so far |
| Graphs.ProcessStops | src/main/java/com/vinted/app/Graph.java:29-53 | the first failing segment decides the error of the whole loop |
| Graphs.ProcessAdvances | src/main/java/com/vinted/app/Graph.java:51-60 | a well-formed segment whose pair is new adds exactly its link |
| Graphs.ProcessKeepsFailure | src/main/java/com/vinted/app/Graph.java:27-61 | after a failure, later segments do not change the outcome |
| Graphs.ProcessAllParsed | src/main/java/com/vinted/app/Graph.java:29-49 | when the loop succeeds, every segment parsed |
| Graphs.ProcessAsAddAll | src/main/java/com/vinted/app/Graph.java:51-60 | on well-formed segments, the loop is adding their links one by one |
| Graphs.AddSegmentSound | src/main/java/com/vinted/app/Graph.java:51-60 | adding a new segment keeps the pairs distinct and keeps the graph describing exactly the segments so far |
| Graphs.AddSegmentKeeps | src/main/java/com/vinted/app/Graph.java:55-60 | after adding a segment, every segment so far is a link with its own weight |
| Graphs.AddSegmentOrigin | src/main/java/com/vinted/app/Graph.java:55-60 | after adding a segment, every link comes from some segment |
| Graphs.AddSegmentDistinct | src/main/java/com/vinted/app/Graph.java:51-53 | a pair that passes the repeated-link check differs from every earlier pair |
| Graphs.AddAllSound | src/main/java/com/vinted/app/Graph.java:51-60 | when adding all segments succeeds, the pairs are distinct and the graph has exactly their links and weights |
| Graphs.AddAllComplete | src/main/java/com/vinted/app/Graph.java:51-53 | segments with distinct pairs are never rejected as repeated |
| Graphs.ProcessShape | src/main/java/com/vinted/app/Graph.java:27-61 | the loop succeeds exactly on well-formed segments with distinct pairs, and then the graph has exactly their links |
| Graphs.DescribedNonNegative | src/main/java/com/vinted/app/Graph.java:43-45 | a graph built from non-negative segments has only non-negative weights |
| Graphs.DescribedValid | src/main/java/com/vinted/app/Graph.java:63-65 | the built graph is valid exactly when every link target is also the source of some segment |
| Graphs.DescribedClosed | src/main/java/com/vinted/app/Graph.java:63-65 | if every target is some segment's source, every link target is a node |
| Graphs.FinishIff | src/main/java/com/vinted/app/Graph.java:27-67 | loop plus final check succeed exactly on well-formed, distinct segments whose targets all occur as sources |
| Graphs.FinishSuccess | src/main/java/com/vinted/app/Graph.java:55-67 | on success every segment parsed, the graph has exactly their links and weights, and it is valid |
| Graphs.BuildIff | src/main/java/com/vinted/app/Graph.java:23-68 | `buildGraph` accepts an input exactly when every token is well formed, no pair repeats, and every target occurs as a source |
| Graphs.BuildSuccess | src/main/java/com/vinted/app/Graph.java:55-67 | an accepted input yields a valid graph with non-negative weights whose links are exactly the segments' pairs and weights |
| Graphs.BuildRejectsMalformed | src/main/java/com/vinted/app/Graph.java:28-49 | any token that does not parse makes `buildGraph` fail |
| Graphs.BuildRejectsShortSegment | src/main/java/com/vinted/app/Graph.java:29-31 | a trimmed segment shorter than 3 characters makes `buildGraph` fail |
| Graphs.BuildRejectsBadWeight | src/main/java/com/vinted/app/Graph.java:36-45 | a weight that is not an integer, or is negative, makes `buildGraph` fail |
| Graphs.BuildRejectsSelfLink | src/main/java/com/vinted/app/Graph.java:47-49 | a link from a node to itself makes `buildGraph` fail |
| Graphs.BuildRejectsDuplicate | src/main/java/com/vinted/app/Graph.java:51-53 | two well-formed tokens with the same ordered pair make `buildGraph` fail |
| Graphs.FinishRejectsDangling | src/main/java/com/vinted/app/Graph.java:63-65 | a parsed target that is no segment's source makes the final check fail |
| Graphs.BuildRejectsDangling | src/main/java/com/vinted/app/Graph.java:63-65 | a link target that never occurs as a source makes `buildGraph` fail |
| Paths.WeightAppend | src/main/java/com/vinted/app/domain/Path.java:42-53 | appending a node adds the distance from the former last node to the length |
| Paths.WeightSplit | src/main/java/com/vinted/app/domain/Path.java:6-9 | cutting a node sequence at a shared node splits its length into the two parts' lengths |
| Paths.WeightPrefixMonotone | src/main/java/com/vinted/app/domain/Path.java:6-9 | with non-negative distances, a prefix is never longer than the whole path, and never negative |
| Paths.Path.constructor | src/main/java/com/vinted/app/domain/Path.java:19-21 | a new path is empty, has length 0 and satisfies the length invariant |
| Paths.Path.Copy | src/main/java/com/vinted/app/domain/Path.java:28-31 | the copy has the same nodes and length and keeps the invariant; as a separate object, changing it leaves the original alone |
| Paths.Path.GetPathLength | src/main/java/com/vinted/app/domain/Path.java:33-35 | on a valid path the stored length is the sum of the distances between consecutive nodes |
| Paths.Path.Size | src/main/java/com/vinted/app/domain/Path.java:91-93 | the number of nodes |
| Paths.Path.GetLast | src/main/java/com/vinted/app/domain/Path.java:73-75 | the node added most recently |
| Paths.Path.Add | src/main/java/com/vinted/app/domain/Path.java:42-53 | accepts exactly when the path is empty or the last node has a link to the new node; then appends it and adds that distance (nothing on an empty path); otherwise leaves nodes and length unchanged; keeps the invariant |
| Paths.Path.Pop | src/main/java/com/vinted/app/domain/Path.java:58-67 | is a no-op on an empty path; otherwise removes the last node and subtracts the distance to it; keeps the invariant |
| Paths.Path.Contains | src/main/java/com/vinted/app/domain/Path.java:83-85 | true exactly when some node of the path `equals` the given one, that is, has its name |
| Paths.Path.CompareTo | src/main/java/com/vinted/app/domain/Path.java:99-101 | for lengths in the non-negative `int` range, the sign of the result orders the paths by length |
| Paths.AddThenPop | src/main/java/com/vinted/app/domain/Path.java:42-67 | `add` followed by `pop` restores the nodes and the length exactly |
| Routes.WalkWeightAppend | src/main/java/com/vinted/app/domain/Path.java:42-53 | on graph nodes, extending a path adds the stored weight of the link |
| Routes.WalkNonNegative | src/main/java/com/vinted/app/domain/Path.java:6-9 | on a graph with non-negative weights every step of a walk is non-negative |
| Routes.WalkLinked | src/main/java/com/vinted/app/domain/Path.java:43-47 | every walk is a sequence `add` accepts node by node |
| Routes.RouteLengthFails | src/main/java/com/vinted/app/PathFinder.java:25-37 | the length computation throws exactly when some non-final name is not a node or has no link to the next name |
| Routes.RouteLengthOfWalk | src/main/java/com/vinted/app/PathFinder.java:21-40 | the names of any walk give back its length: the sum of the distances between consecutive names |
| Routes.RouteLengthIsWalk | src/main/java/com/vinted/app/PathFinder.java:21-40 | in a valid graph, when the length is found the names spell a walk and the result is that walk's length |
| Routes.HopTripsUnfold | src/main/java/com/vinted/app/PathFinder.java:73-90 | within the step bound and at a known node, the trips are the current path, if it is a trip, followed by the trips through each link in order |
| Routes.HopTripsFromNext | src/main/java/com/vinted/app/PathFinder.java:87-89 | one more link adds its trips after those of the earlier links |
| Routes.HopTripStep | src/main/java/com/vinted/app/PathFinder.java:86-89 | a trip longer than the current path is a trip through one of the links of `from` |
| Routes.HopTripsIff | src/main/java/com/vinted/app/PathFinder.java:72-91 | the recorded trips are exactly the extensions of the current path that have at most `maxSteps` nodes, continue through `from` along links, and end at a node with a link to `to`, or at `to` itself when `from` is `to` |
| Routes.HopTripsFromIff | src/main/java/com/vinted/app/PathFinder.java:87-89 | the loop over links records exactly the trips through one of those links |
| Routes.ExtendWeight | src/main/java/com/vinted/app/PathFinder.java:127 | with positive weights, each `add` of the length-limited search increases the length by at least 1 |
| Routes.WeightTripsUnfold | src/main/java/com/vinted/app/PathFinder.java:127-136 | under the bound, the trips are the extended path if it ends at `to` with two nodes or more, followed by the trips through each link in order |
| Routes.WeightTripsOverLimit | src/main/java/com/vinted/app/PathFinder.java:129 | once the extended path reaches `maxLength` nothing is recorded |
| Routes.WeightTripsFromNext | src/main/java/com/vinted/app/PathFinder.java:134-136 | one more link adds its trips after those of the earlier links |
| Routes.WeightTripStep | src/main/java/com/vinted/app/PathFinder.java:134-136 | a trip at least two nodes beyond the current path is a trip through one of the links of `from` |
| Routes.WeightTripAtNext | src/main/java/com/vinted/app/PathFinder.java:129-132 | a trip one node beyond the current path is that path plus `from`, ends at `to`, has two nodes or more and is shorter than the bound |
| Routes.WeightTripOverBudget | src/main/java/com/vinted/app/PathFinder.java:129 | with positive weights, no trip passes a path that already reaches the bound |
| Routes.WeightTripsIff | src/main/java/com/vinted/app/PathFinder.java:121-140 | the recorded trips are exactly the extensions of the current path through `from` along links that end at `to`, have at least two nodes and are shorter than `maxLength` |
| Routes.WeightTripsFromIff | src/main/java/com/vinted/app/PathFinder.java:134-136 | the loop over links records exactly the trips through one of those links |
| Routes.WalkWeightNonNegative | src/main/java/com/vinted/app/domain/Path.java:6-9 | a walk in a graph without negative weights has a non-negative length |
| Routes.PrefixLighter | src/main/java/com/vinted/app/PathFinder.java:129 | with positive weights, a prefix of a trip is no longer than the trip, which is why the bound may prune |
| Routes.WithSizeMembers | src/main/java/com/vinted/app/PathFinder.java:209-213 | the filter keeps exactly the trips of the requested size |
| Routes.WithSizeConcat | src/main/java/com/vinted/app/PathFinder.java:209-213 | filtering keeps the order: filtering a concatenation concatenates the filtered parts |
| Routes.NoRepeatsConcat | src/main/java/com/vinted/app/PathFinder.java:87-89 | two duplicate-free lists with nothing in common concatenate to a duplicate-free list |
| Routes.HopTripsNoRepeats | src/main/java/com/vinted/app/PathFinder.java:72-91 | `tripFinderByMaxSteps` records no trip twice |
| Routes.HopTripsFromNoRepeats | src/main/java/com/vinted/app/PathFinder.java:87-89 | the loop over distinct links records no trip twice |
| Routes.WeightTripsNoRepeats | src/main/java/com/vinted/app/PathFinder.java:121-140 | `tripFinderByMaxLength` records no trip twice |
| Routes.WeightTripsFromNoRepeats | src/main/java/com/vinted/app/PathFinder.java:134-136 | the loop over distinct links records no trip twice |
| Routes.WithSizeNoRepeats | src/main/java/com/vinted/app/PathFinder.java:209-213 | filtering a duplicate-free list keeps it duplicate-free |
| Routes.ExactTrips | src/main/java/com/vinted/app/PathFinder.java:206-216 | the `exact`-node trips are duplicate-free and are exactly the walks of `exact` nodes from `from` whose last node links to `to`, each once |
| Routes.TripsFromStart | src/main/java/com/vinted/app/PathFinder.java:51-56 | `getPaths` returns exactly the walks of 1 to `maxSteps` nodes from `from` whose last node has a link to `to`; `to` is never appended |
| Routes.LightTripsFromStart | src/main/java/com/vinted/app/PathFinder.java:102-107 | `getPathsUnder` returns exactly the walks from `from` to `to` of two nodes or more and length below `maxLength` |
| Routes.ExactTripsFromStart | src/main/java/com/vinted/app/PathFinder.java:206-216 | `getPathsExact` returns exactly the walks of `exact` nodes from `from` whose last node has a link to `to` |
| Shortest.Insert | src/main/java/com/vinted/app/PathFinder.java:181-182 | inserting adds the element and keeps all the others |
| Shortest.InsertSorted | src/main/java/com/vinted/app/PathFinder.java:181-182 | inserting into a list sorted by length keeps it sorted |
| Shortest.Sort | src/main/java/com/vinted/app/PathFinder.java:181-182 | sorting is a permutation of the list |
| Shortest.SortSorted | src/main/java/com/vinted/app/PathFinder.java:181-182 | the sorted list is ordered by length |
| Shortest.SumSort | src/main/java/com/vinted/app/PathFinder.java:181 | sorting the frontier does not change its total measure |
| Shortest.NameSetAppend | src/main/java/com/vinted/app/PathFinder.java:167 | the names on a path grow by the appended node's name |
| Shortest.NewFrontierMembers | src/main/java/com/vinted/app/PathFinder.java:164-179 | the paths to explore are exactly the current path plus one linked node that is neither `to` nor already on it |
| Shortest.NewFoundMembers | src/main/java/com/vinted/app/PathFinder.java:167-172 | the routes found are exactly the current path plus `to`, when `to` is linked |
| Shortest.NewFrontierHas | src/main/java/com/vinted/app/PathFinder.java:167-174 | each link to a new node other than `to` gives a path to explore |
| Shortest.NewFoundHas | src/main/java/com/vinted/app/PathFinder.java:167-172 | a link to `to` gives a found route |
| Shortest.ChildrenShape | src/main/java/com/vinted/app/PathFinder.java:164-179 | the new frontier paths repeat no node and avoid `to`, and the found paths are routes from `from` to `to` |
| Shortest.Extend | src/main/java/com/vinted/app/PathFinder.java:164-169 | in a valid graph, following a link of the last node extends a walk |
| Shortest.NextStep | src/main/java/com/vinted/app/PathFinder.java:164 | the next node of any walk through the current path is among the links the loop visits |
| Shortest.ChildCovers | src/main/java/com/vinted/app/PathFinder.java:164-179 | a loop-free route through the current path is found by this step or extends one of the new frontier paths |
| Shortest.ChildAvoidsPath | src/main/java/com/vinted/app/PathFinder.java:167 | the next node of a loop-free route is not yet on its prefix, so the `contains` check lets it through |
| Shortest.CoverageStep | src/main/java/com/vinted/app/PathFinder.java:160-179 | removing the head of the frontier and adding its children keeps every loop-free route covered |
| Shortest.CoveredPermutation | src/main/java/com/vinted/app/PathFinder.java:181-182 | re-sorting the lists keeps every route covered |
| Shortest.CutAtTarget | src/main/java/com/vinted/app/PathFinder.java:167-172 | any route can be cut at its first visit to `to` into a route no longer in nodes |
| Shortest.WeightSkip | src/main/java/com/vinted/app/domain/Path.java:6-9 | cutting out a loop removes exactly the loop's length |
| Shortest.WeightAfterSkip | src/main/java/com/vinted/app/domain/Path.java:6-9 | the length of a path with a loop cut out is the sum of the lengths of its two parts |
| Shortest.WeightOfPrefix | src/main/java/com/vinted/app/domain/Path.java:6-9 | a prefix's length is a shorter prefix's length plus that of the part between them |
| Shortest.DropLoopRoute | src/main/java/com/vinted/app/PathFinder.java:167 | cutting out a loop gives a shorter route that still avoids `to` inside |
| Shortest.DropLoop | src/main/java/com/vinted/app/PathFinder.java:167 | with non-negative weights, cutting out a loop does not make a route longer |
| Shortest.DropLoops | src/main/java/com/vinted/app/PathFinder.java:167 | every route avoiding `to` inside has a loop-free counterpart that is no longer when weights are non-negative |
| Shortest.RouteShortcut | src/main/java/com/vinted/app/PathFinder.java:167 | every route has a loop-free counterpart, the kind the search explores, that is no longer when weights are non-negative |
| Shortest.NoRouteLeft | src/main/java/com/vinted/app/PathFinder.java:184-187 | with both lists empty and every loop-free route covered, there is no route |
| Shortest.CandidateBound | src/main/java/com/vinted/app/PathFinder.java:189-190 | when the lightest found route weighs no more than the lightest frontier path, it weighs no more than any loop-free route |
| Shortest.FoundIsShortest | src/main/java/com/vinted/app/PathFinder.java:189-190 | under the same condition, it weighs no more than any route at all |
| Shortest.ChildShrinks | src/main/java/com/vinted/app/PathFinder.java:167-174 | a new frontier path leaves fewer nodes unvisited than its parent |
| Shortest.NewFrontierExpandable | src/main/java/com/vinted/app/PathFinder.java:164-179 | every new frontier path can itself be expanded |
| Shortest.SumPotentialChildren | src/main/java/com/vinted/app/PathFinder.java:164-179 | the total measure of the new frontier paths is the children's measure that the parent's measure exceeds |
| Shortest.AddThrowsSentinel | src/main/java/com/vinted/app/domain/Path.java:42-47 | following a link of the last node makes `Path.add` throw only when that link is stored with weight -1, so only in a graph with such a link |
| Shortest.LinksOf | src/main/java/com/vinted/app/PathFinder.java:163-164 | the links visited are exactly those of the last node of the path, and each target is a node |
| Shortest.SearchStart | src/main/java/com/vinted/app/PathFinder.java:155-157 | the single-node path at `from` with nothing found satisfies the search invariant |
| Shortest.SearchStep | src/main/java/com/vinted/app/PathFinder.java:159-182 | one iteration keeps the invariant: frontier paths repeat no node, found paths are routes, every loop-free route is covered, and both lists are sorted |
| Shortest.SearchStepDecreases | src/main/java/com/vinted/app/PathFinder.java:159-182 | one iteration strictly decreases the frontier's total measure, so the `while (true)` loop ends |
| Shortest.SearchExhausted | src/main/java/com/vinted/app/PathFinder.java:184-187 | when both lists are empty there is no route, so `null` is right |
| Shortest.RouteEndpoints | src/main/java/com/vinted/app/PathFinder.java:184-187 | a route starts and ends at nodes, so for a destination that is not a node the search can only end with `null` |
| Shortest.SearchFound | src/main/java/com/vinted/app/PathFinder.java:189-190 | when the lightest found route is no heavier than the lightest frontier path, it is a route and, with non-negative weights, a shortest one |
| Finder.PathFinder.constructor | src/main/java/com/vinted/app/PathFinder.java:11-13 | the finder queries the given graph |
| Finder.PathFinder.FindPathLength | src/main/java/com/vinted/app/PathFinder.java:21-40 | the loop's sum is `RouteLength` of the split names: the sum of the distances between consecutive names, 0 for one name, `None` where the source throws |
| Finder.PathFinder.GetPaths | src/main/java/com/vinted/app/PathFinder.java:51-56 | returns, in search order, exactly the walks of 1 to `maxSteps` nodes from `from` whose last node has a link to `to`, each once |
| Finder.PathFinder.TripFinderByMaxSteps | src/main/java/com/vinted/app/PathFinder.java:72-91 | appends `HopTrips` of the current path to `result` and leaves the shared path exactly as it found it |
| Finder.PathFinder.DescendSteps | src/main/java/com/vinted/app/PathFinder.java:86-90 | push, search through every link, pop: appends the trips through the links and restores the path |
| Finder.PathFinder.TripsThroughLinks | src/main/java/com/vinted/app/PathFinder.java:87-89 | the loop over the links appends the trips of each link in order and restores the path |
| Finder.PathFinder.GetPathsUnder | src/main/java/com/vinted/app/PathFinder.java:102-107 | returns, in search order, exactly the walks from `from` to `to` of two nodes or more that are shorter than `maxLength`, each once |
| Finder.PathFinder.TripFinderByMaxLength | src/main/java/com/vinted/app/PathFinder.java:121-140 | appends `WeightTrips` of the current path to `result` and leaves the shared path exactly as it found it |
| Finder.PathFinder.TripsUnderLinks | src/main/java/com/vinted/app/PathFinder.java:134-136 | the loop over the links appends the trips of each link in order and restores the path |
| Finder.PathFinder.ShortestPath | src/main/java/com/vinted/app/PathFinder.java:151-193 | fails with `NotNeighbour` (the `GraphException` of `Path.add`) only in a graph with a -1 weight, never otherwise; when it succeeds it returns `None` exactly when no route from `from` to `to` exists, and otherwise a route, one that is no longer than any other when weights are non-negative |
| Finder.PathFinder.Expand | src/main/java/com/vinted/app/PathFinder.java:163-179 | the loop over the links of the last node throws exactly when a link it follows has distance -1, and otherwise collects exactly the new frontier paths and the found routes |
| Finder.PathFinder.GetPathsExact | src/main/java/com/vinted/app/PathFinder.java:206-216 | returns, in their order, exactly the `getPaths` results with `exact` nodes: the walks of `exact` nodes from `from` whose last node links to `to` |

## Left out

- `Main.java`, file reading and console output are I/O and are not part of this model. All `toString` methods are formatting only.
- `HashMap` iteration order is not specified by Java. The model visits a node's links and the graph's nodes in ascending name order (`Text.SortedKeys`). The membership lemmas (`HopTripsIff`, `WeightTripsIff`, `NewFrontierMembers`) hold for any order. The exact result sequences are stated for this order.
- Java `int` overflow in the weight sums of `findPathLength`, `Path.add`/`pop` and the trip searches: integers are unbounded. Parsed weights are limited to the 32-bit range. `Path.compareTo` wraps to 32 bits (`Text.Wrap32`).
- Finder.PathFinder.ShortestPath: compares `found.get(0)` with `paths.get(0)` by the exact weight difference rather than by the 32-bit `compareTo`. The two agree whenever the lengths fit in a non-negative `int`.
- Finder.PathFinder.ShortestPath: requires a valid graph that contains `from`. The source dereferences `null` when `from` is not a node. In a graph with a link to a missing node, `getNodeByName` returns `null` for that target (PathFinder.java:165) and `path.add(null)` dereferences it (domain/Path.java:44); `buildGraph` never produces such a graph (`Graphs.BuildSuccess`).
- Finder.PathFinder.ShortestPath: the shortest-route guarantee is stated under non-negative weights, which every graph `buildGraph` accepts has (`Graphs.BuildSuccess`). For other graphs only "a route, or `None` exactly when there is none" is proved, or the `NotNeighbour` failure when a -1 weight is followed.
- Finder.PathFinder.ShortestPath: frontier and found lists are sequences of node sequences, not `Path` objects. `new Path(startPath)` followed by `add` becomes appending a node. `contains` becomes membership of the name in the path's names, which is what `Node.equals` compares.
- Finder.PathFinder.GetPaths, Finder.PathFinder.GetPathsExact, Finder.PathFinder.TripFinderByMaxSteps: require that no stored weight is -1. `distanceTo` uses -1 as "no link", so a -1 weight would make `Path.add` throw in the middle of the search. `buildGraph` never stores a negative weight.
- Finder.PathFinder.GetPathsUnder, Finder.PathFinder.TripFinderByMaxLength: require strictly positive weights. `buildGraph` accepts weight 0, and a cycle of zero weights makes the source recurse forever, so the model does not cover that case.
- Recorded trips are value snapshots (`seq<Node>`) of the shared `Path`, which is what `new Path(path)` produces.
- The loop bodies of the two trip finders and of `shortestPath`, and the end of the `buildGraph` loop body, are separate methods (`DescendSteps`, `TripsThroughLinks`, `TripsUnderLinks`, `Expand`, `AddSegments`, `Connect`). Each keeps the source's order of operations.
- Graphs.Graph.BuildGraph: exceptions are a `Failure` carrying the reason. The message text is left out.
- Graphs.Graph.BuildGraph: the specification `Build` parses every token first and then adds the links in order. Parsing does not depend on the graph, so this gives the same first error; the method itself keeps the single loop.
- Text.ParseInt: accepts only the ASCII digits 0-9. Java's `Integer.valueOf` also accepts the other Unicode decimal digits (`Character.digit`), for instance full-width digits.
- Strings are sequences of Unicode characters, not of UTF-16 code units. For a character outside the Basic Multilingual Plane, Java's `length`, `charAt` and `substring` count two units, so a segment such as one starting with an emoji is cut differently by the source.
- `Integer.valueOf` accepts an optional sign followed by decimal digits within the 32-bit range (`Text.ParseInt`). `String.trim` removes characters at or below U+0020. `StringTokenizer` skips empty tokens (`Text.Tokens`).
- `Node`'s reference to its owning graph is not modelled. `isValid` takes the graph's node map as a parameter.
- Shortest.Sort: the stated contract is a permutation that is sorted by length. Stability, which `Collections.sort` guarantees and insertion sort provides, is not stated.
- The concrete figures for the sample graph in the source's tests are not evaluated. The verifier would have to compute the key order of concrete maps, so only the general membership lemmas stand for them. The case of a destination that is not a node is covered in general by `Shortest.RouteEndpoints`.
