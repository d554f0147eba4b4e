/**
 * The graph: a map from node name to the node's links, its lookups, its
 * validity check, and the parser that builds it from an edge list such as
 * "AB5, BC4, CD8".
 */
module Graphs {
  import opened Wrappers
  import opened Text
  import opened Nodes

  /** `hasNode`. */
  predicate HasNode(g: NodeMap, name: string)
  {
    name in g
  }

  /** `getNodeByName`: the node stored under `name`, or `None` for Java's `null`. */
  function GetNodeByName(g: NodeMap, name: string): (r: Option<Node>)
    ensures r.Some? <==> HasNode(g, name)
    ensures r.Some? ==> r.value.name == name && r.value.links == g[name]
  {
    if name in g then Some(Node(name, g[name])) else None
  }

  /** `hasDirectLink`: `from` is a node and one of its links goes to `to`. */
  predicate HasDirectLink(g: NodeMap, from: string, to: string)
  {
    HasNode(g, from) && HasLink(Node(from, g[from]), to)
  }

  lemma HasDirectLinkIff(g: NodeMap, from: string, to: string)
    ensures HasDirectLink(g, from, to) <==> from in g && to in g[from]
  {
  }

  /** `isValid`: every node is valid in this graph. */
  predicate IsValid(g: NodeMap)
  {
    forall name :: name in g ==> IsValidIn(Node(name, g[name]), g)
  }

  /** Validity is referential closure: every link target is itself a node. */
  lemma IsValidIff(g: NodeMap)
    ensures IsValid(g) <==> forall a, b :: a in g && b in g[a] ==> b in g
  {
    if IsValid(g) {
      forall a, b | a in g && b in g[a] ensures b in g {
        assert IsValidIn(Node(a, g[a]), g);
      }
    }
  }

  /** The loop of `isValid` over the nodes, returning at the first invalid one. */
  method CheckValid(g: NodeMap) returns (valid: bool)
    ensures valid <==> IsValid(g)
  {
    var names := SortedKeys(g.Keys);
    for i := 0 to |names|
      invariant forall j :: 0 <= j < i ==> IsValidIn(Node(names[j], g[names[j]]), g)
    {
      var ok := CheckValidIn(Node(names[i], g[names[i]]), g);
      if !ok {
        return false;
      }
    }
    return true;
  }

  /** Every node and every weight is non-negative, as the parser guarantees. */
  predicate NonNegativeWeights(g: NodeMap)
  {
    forall a, b :: a in g && b in g[a] ==> g[a][b] >= 0
  }

  /** Every weight is strictly positive. */
  predicate PositiveWeights(g: NodeMap)
  {
    forall a, b :: a in g && b in g[a] ==> g[a][b] > 0
  }

  /** No weight equals the -1 that `distanceTo` uses for "no link". */
  predicate Unambiguous(g: NodeMap)
  {
    forall a, b :: a in g && b in g[a] ==> g[a][b] != -1
  }

  /** The graph that results from `addLink(to, w)` on the node `from`, creating it when absent. */
  function Link(g: NodeMap, from: string, to: string, w: int): (r: NodeMap)
    ensures r.Keys == g.Keys + {from}
    ensures r[from].Keys == (if from in g then g[from].Keys else {}) + {to} && r[from][to] == w
  {
    var links := if from in g then g[from] else map[];
    g[from := links[to := w]]
  }

  /** Adding the empty node first does not change what `addLink` then produces. */
  lemma LinkAfterAddNode(g: NodeMap, from: string, to: string, w: int)
    ensures from !in g ==> Link(g[from := map[]], from, to, w) == Link(g, from, to, w)
  {
  }

  /** `addLink` leaves every other link and its weight as it was. */
  lemma LinkKeeps(g: NodeMap, from: string, to: string, w: int, a: string, b: string)
    requires a in g && b in g[a] && (a != from || b != to)
    ensures a in Link(g, from, to, w) && b in Link(g, from, to, w)[a]
    ensures Link(g, from, to, w)[a][b] == g[a][b]
  {
  }

  /** After `addLink` every link is the new one or was there before. */
  lemma LinkOrigin(g: NodeMap, from: string, to: string, w: int, a: string, b: string)
    requires a in Link(g, from, to, w) && b in Link(g, from, to, w)[a]
    ensures (a == from && b == to) || (a in g && b in g[a])
  {
  }

  class Graph {
    var nodes: NodeMap

    constructor ()
      ensures nodes == map[]
    {
      nodes := map[];
    }

    /** `addNode`: stores the node under its name, replacing any earlier entry. */
    method AddNode(node: Node)
      modifies this
      ensures nodes.Keys == old(nodes).Keys + {node.name}
      ensures nodes[node.name] == node.links
      ensures forall k :: k in old(nodes) && k != node.name ==> nodes[k] == old(nodes)[k]
      ensures nodes == old(nodes)[node.name := node.links]
    {
      nodes := nodes[node.name := node.links];
    }

    /**
     * `addLink` on the node stored under `from`: sets or overwrites the weight
     * of the link to `to` and changes nothing else.
     */
    method AddLink(from: string, to: string, w: int)
      requires from in nodes
      modifies this
      ensures nodes.Keys == old(nodes).Keys
      ensures nodes[from] == old(nodes)[from][to := w]
      ensures forall k :: k in old(nodes) && k != from ==> nodes[k] == old(nodes)[k]
      ensures nodes == Link(old(nodes), from, to, w)
    {
      nodes := nodes[from := nodes[from][to := w]];
    }

    /**
     * The end of the loop body of `buildGraph`: looks up the node named
     * `from`, adds it empty when it is missing, and adds the link to it.
     */
    method Connect(from: string, to: string, w: int)
      modifies this
      ensures nodes == Link(old(nodes), from, to, w)
    {
      ghost var before := nodes;
      var node := GetNodeByName(nodes, from);
      if node.None? {
        AddNode(Node(from, map[]));
        assert nodes == before[from := map[]];
      }
      LinkAfterAddNode(before, from, to, w);
      AddLink(from, to, w);
    }

    /**
     * `buildGraph`: tokenises the input on ',', and for each trimmed segment
     * `<from><to><weight>` adds the link, rejecting malformed segments,
     * self-links and repeated links; finally rejects a graph whose links
     * point at names that never occur as a source.
     */
    static method BuildGraph(input: string) returns (r: Result<Graph, GraphError>)
      ensures r.Failure? ==> Build(input) == Failure(r.error)
      ensures r.Success? ==> fresh(r.value) && Build(input) == Success(r.value.nodes)
    {
      var graph := new Graph();
      var tokens := Tokens(input, ',');
      var error := graph.AddSegments(tokens);
      if error.Some? {
        return Failure(error.value);
      }
      var valid := CheckValid(graph.nodes);
      if !valid {
        return Failure(DanglingLink);
      }
      return Success(graph);
    }

    /**
     * The loop of `buildGraph` over the tokens: parses each one and adds its
     * link, stopping at the first malformed or repeated segment.
     */
    method AddSegments(tokens: seq<string>) returns (error: Option<GraphError>)
      requires nodes == map[]
      modifies this
      ensures error.None? ==> Process(Parsed(tokens)) == Success(nodes)
      ensures error.Some? ==> Process(Parsed(tokens)) == Failure(error.value)
    {
      ghost var ps := Parsed(tokens);
      for i := 0 to |tokens|
        invariant Process(ps[..i]) == Success(nodes)
      {
        ghost var before := nodes;
        var parsed := ParseSegment(tokens[i]);
        assert ps[i] == parsed;
        if parsed.Failure? {
          ProcessStops(ps, i, before);
          return Some(parsed.error);
        }
        var fromNode, toNode, length := parsed.value.from, parsed.value.to, parsed.value.weight;
        if HasDirectLink(nodes, fromNode, toNode) {
          ProcessStops(ps, i, before);
          return Some(DuplicateLink);
        }
        ProcessAdvances(ps, i, before);
        Connect(fromNode, toNode, length);
      }
      assert ps[..|ps|] == ps;
      return None;
    }
  }

  // -----------------------------------------------------------------------
  // What buildGraph computes
  // -----------------------------------------------------------------------

  /**
   * The reasons a `GraphException` is thrown: the first six by `buildGraph`,
   * the last by `Path.add` during `shortestPath`.
   */
  datatype GraphError =
    | SegmentTooShort   // trimmed segment shorter than 3 characters
    | InvalidLength     // the weight is not a 32-bit decimal integer
    | NegativeLength    // the weight is negative
    | SameNodes         // a link from a node to itself
    | DuplicateLink     // the same ordered pair given twice
    | DanglingLink      // a link target that is never a source
    | NotNeighbour      // a node the last node of the path reports distance -1 to

  /** A parsed segment `<from><to><weight>`. */
  datatype Segment = Segment(from: string, to: string, weight: int)

  /**
   * The checks of one segment that do not depend on the graph built so far,
   * in the source's order: length, weight syntax, sign, self-link.
   */
  function ParseSegment(token: string): (r: Result<Segment, GraphError>)
    ensures r.Success? ==> r.value.weight >= 0 && r.value.from != r.value.to
    ensures r.Success? ==> |r.value.from| == 1 && |r.value.to| == 1
    ensures r.Success? ==>
              var s := Trim(token);
              && |s| >= 3 && ParseInt(s[2..]).Some?
              && r.value == Segment([s[0]], [s[1]], ParseInt(s[2..]).value)
    ensures r.Success? <==>
              var s := Trim(token);
              && |s| >= 3 && ParseInt(s[2..]).Some? && ParseInt(s[2..]).value >= 0 && s[0] != s[1]
  {
    var s := Trim(token);
    if |s| < 3 then Failure(SegmentTooShort)
    else
      match ParseInt(s[2..])
      case None => Failure(InvalidLength)
      case Some(w) =>
        if w < 0 then Failure(NegativeLength)
        else if s[0] == s[1] then Failure(SameNodes)
        else Success(Segment([s[0]], [s[1]], w))
  }

  predicate WellFormed(token: string)
  {
    ParseSegment(token).Success?
  }

  function From(token: string): string
    requires WellFormed(token)
  {
    ParseSegment(token).value.from
  }

  function To(token: string): string
    requires WellFormed(token)
  {
    ParseSegment(token).value.to
  }

  function LinkWeight(token: string): int
    requires WellFormed(token)
  {
    ParseSegment(token).value.weight
  }

  /** Adding one parsed segment to the graph built so far; a pair given before is rejected. */
  function AddSegment(g: NodeMap, seg: Segment): Result<NodeMap, GraphError>
  {
    if HasDirectLink(g, seg.from, seg.to) then Failure(DuplicateLink)
    else Success(Link(g, seg.from, seg.to, seg.weight))
  }

  /**
   * The parse of every token. Parsing a segment does not depend on the graph,
   * so parsing them all first and then adding them in order reports the same
   * first error as the source's single loop.
   */
  function Parsed(tokens: seq<string>): (ps: seq<Result<Segment, GraphError>>)
    ensures |ps| == |tokens|
    ensures forall i :: 0 <= i < |tokens| ==> ps[i] == ParseSegment(tokens[i])
  {
    if tokens == [] then []
    else
      var n := |tokens| - 1;
      Parsed(tokens[..n]) + [ParseSegment(tokens[n])]
  }

  /** One iteration of the tokenizer loop of `buildGraph`, given the parse of its segment. */
  function Step(g: NodeMap, parsed: Result<Segment, GraphError>): Result<NodeMap, GraphError>
  {
    match parsed
    case Failure(e) => Failure(e)
    case Success(seg) => AddSegment(g, seg)
  }

  /** The tokenizer loop over the parsed segments, stopping at the first failure. */
  function Process(ps: seq<Result<Segment, GraphError>>): Result<NodeMap, GraphError>
  {
    if ps == [] then Success(map[])
    else
      match Process(ps[..|ps| - 1])
      case Failure(e) => Failure(e)
      case Success(g) => Step(g, ps[|ps| - 1])
  }

  /** The tokenizer loop followed by the final validity check. */
  function Finish(ps: seq<Result<Segment, GraphError>>): Result<NodeMap, GraphError>
  {
    match Process(ps)
    case Failure(e) => Failure(e)
    case Success(g) => if IsValid(g) then Success(g) else Failure(DanglingLink)
  }

  /** `buildGraph` as a function of its input. */
  function Build(input: string): Result<NodeMap, GraphError>
  {
    Finish(Parsed(Tokens(input, ',')))
  }

  lemma ProcessStep(ps: seq<Result<Segment, GraphError>>, i: nat)
    requires i < |ps| && Process(ps[..i]).Success?
    ensures Process(ps[..i + 1]) == Step(Process(ps[..i]).value, ps[i])
  {
    assert ps[..i + 1][..i] == ps[..i];
  }

  /** A segment that fails to parse or repeats a pair ends the loop with its error. */
  lemma ProcessStops(ps: seq<Result<Segment, GraphError>>, i: nat, g: NodeMap)
    requires i < |ps| && Process(ps[..i]) == Success(g) && Step(g, ps[i]).Failure?
    ensures Process(ps) == Step(g, ps[i])
  {
    ProcessStep(ps, i);
    ProcessKeepsFailure(ps, i + 1);
  }

  /** A new well-formed segment adds its link to the graph built so far. */
  lemma ProcessAdvances(ps: seq<Result<Segment, GraphError>>, i: nat, g: NodeMap)
    requires i < |ps| && Process(ps[..i]) == Success(g) && ps[i].Success?
    requires !HasDirectLink(g, ps[i].value.from, ps[i].value.to)
    ensures Process(ps[..i + 1]) == Success(Link(g, ps[i].value.from, ps[i].value.to, ps[i].value.weight))
  {
    ProcessStep(ps, i);
  }

  lemma {:induction false} ProcessKeepsFailure(ps: seq<Result<Segment, GraphError>>, i: nat)
    requires i <= |ps| && Process(ps[..i]).Failure?
    ensures Process(ps) == Process(ps[..i])
    decreases |ps| - i
  {
    if i < |ps| {
      assert ps[..i + 1][..i] == ps[..i];
      ProcessKeepsFailure(ps, i + 1);
    } else {
      assert ps[..i] == ps;
    }
  }

  // -----------------------------------------------------------------------
  // The graph a list of segments describes
  // -----------------------------------------------------------------------

  predicate AllParsed(ps: seq<Result<Segment, GraphError>>)
  {
    forall i :: 0 <= i < |ps| ==> ps[i].Success?
  }

  /** The segments of a list of successful parses, in order. */
  function Segments(ps: seq<Result<Segment, GraphError>>): (segs: seq<Segment>)
    requires AllParsed(ps)
    ensures |segs| == |ps|
    ensures forall i :: 0 <= i < |ps| ==> ps[i] == Success(segs[i])
  {
    if ps == [] then []
    else
      var n := |ps| - 1;
      assert forall i :: 0 <= i < n ==> ps[..n][i] == ps[i];
      Segments(ps[..n]) + [ps[n].value]
  }

  /** Adding parsed segments one after the other to the empty graph. */
  ghost function AddAll(segs: seq<Segment>): Result<NodeMap, GraphError>
  {
    if segs == [] then Success(map[])
    else
      match AddAll(segs[..|segs| - 1])
      case Failure(e) => Failure(e)
      case Success(g) => AddSegment(g, segs[|segs| - 1])
  }

  /** The tokenizer loop gets through only when every segment parses. */
  lemma {:induction false} ProcessAllParsed(ps: seq<Result<Segment, GraphError>>)
    requires Process(ps).Success?
    ensures AllParsed(ps)
  {
    if ps != [] {
      var n := |ps| - 1;
      assert forall i :: 0 <= i < n ==> ps[..n][i] == ps[i];
      ProcessAllParsed(ps[..n]);
    }
  }

  /** When every segment parses, the tokenizer loop is adding the segments one after the other. */
  lemma {:induction false} ProcessAsAddAll(ps: seq<Result<Segment, GraphError>>)
    requires AllParsed(ps)
    ensures Process(ps) == AddAll(Segments(ps))
  {
    if ps != [] {
      var n := |ps| - 1;
      assert forall i :: 0 <= i < n ==> ps[..n][i] == ps[i];
      ProcessAsAddAll(ps[..n]);
      assert Segments(ps)[..n] == Segments(ps[..n]);
    }
  }

  /** No ordered pair of nodes is given twice. */
  predicate DistinctPairs(segs: seq<Segment>)
  {
    forall i, j :: 0 <= i < j < |segs| ==> segs[i].from != segs[j].from || segs[i].to != segs[j].to
  }

  /** The names occurring as sources of the segments. */
  ghost function SourcesOf(segs: seq<Segment>): set<string>
  {
    set s | s in segs :: s.from
  }

  /** A segment giving a name as its source, by its index. */
  lemma SourceIndex(segs: seq<Segment>, name: string) returns (j: nat)
    requires name in SourcesOf(segs)
    ensures j < |segs| && segs[j].from == name
  {
    var s :| s in segs && s.from == name;
    j :| j < |segs| && segs[j] == s;
  }


  /** The graph holds exactly the links the segments give, with their weights. */
  ghost predicate Describes(g: NodeMap, segs: seq<Segment>)
  {
    && g.Keys == SourcesOf(segs)
    && (forall s :: s in segs ==> s.from in g && s.to in g[s.from] && g[s.from][s.to] == s.weight)
    && (forall a, b :: a in g && b in g[a] ==> exists s :: s in segs && s.from == a && s.to == b)
  }

  /** Adding one more segment keeps the pairs distinct and the description exact. */
  lemma AddSegmentSound(g: NodeMap, init: seq<Segment>, last: Segment)
    requires DistinctPairs(init) && Describes(g, init)
    requires AddSegment(g, last).Success?
    ensures DistinctPairs(init + [last]) && Describes(AddSegment(g, last).value, init + [last])
  {
    assert !HasDirectLink(g, last.from, last.to);
    AddSegmentDistinct(g, init, last);
    SourcesOfAppend(init, last);
    AddSegmentKeeps(g, init, last);
    AddSegmentOrigin(g, init, last);
  }

  /** After adding a segment, every segment's link is there with its weight. */
  lemma AddSegmentKeeps(g: NodeMap, init: seq<Segment>, last: Segment)
    requires DistinctPairs(init) && Describes(g, init) && !HasDirectLink(g, last.from, last.to)
    ensures var g' := Link(g, last.from, last.to, last.weight);
            forall s :: s in init + [last] ==> s.from in g' && s.to in g'[s.from] && g'[s.from][s.to] == s.weight
  {
    var g' := Link(g, last.from, last.to, last.weight);
    forall s | s in init + [last] ensures s.from in g' && s.to in g'[s.from] && g'[s.from][s.to] == s.weight {
      if s != last {
        assert s in init;
        LinkKeeps(g, last.from, last.to, last.weight, s.from, s.to);
      }
    }
  }

  /** After adding a segment, every link comes from a segment. */
  lemma AddSegmentOrigin(g: NodeMap, init: seq<Segment>, last: Segment)
    requires Describes(g, init)
    ensures var g' := Link(g, last.from, last.to, last.weight);
            forall a, b :: a in g' && b in g'[a] ==> exists s :: s in init + [last] && s.from == a && s.to == b
  {
    var segs := init + [last];
    var g' := Link(g, last.from, last.to, last.weight);
    forall a, b | a in g' && b in g'[a] ensures exists s :: s in segs && s.from == a && s.to == b {
      LinkOrigin(g, last.from, last.to, last.weight, a, b);
      if a == last.from && b == last.to {
        assert last in segs;
      } else {
        var s :| s in init && s.from == a && s.to == b;
        assert s in segs;
      }
    }
  }

  lemma SourcesOfAppend(init: seq<Segment>, last: Segment)
    ensures SourcesOf(init + [last]) == SourcesOf(init) + {last.from}
  {
    assert forall s :: s in init + [last] <==> s in init || s == last;
  }

  lemma AddSegmentDistinct(g: NodeMap, init: seq<Segment>, last: Segment)
    requires DistinctPairs(init) && Describes(g, init)
    requires !HasDirectLink(g, last.from, last.to)
    ensures DistinctPairs(init + [last])
  {
    var segs := init + [last];
    forall i, j | 0 <= i < j < |segs| ensures segs[i].from != segs[j].from || segs[i].to != segs[j].to {
      assert segs[i] == init[i];
      if j < |init| {
        assert segs[j] == init[j];
      } else {
        assert init[i] in init;
      }
    }
  }

  /** When adding succeeds, no pair was repeated and the graph is the one the segments describe. */
  lemma {:induction false} AddAllSound(segs: seq<Segment>)
    requires AddAll(segs).Success?
    ensures DistinctPairs(segs) && Describes(AddAll(segs).value, segs)
  {
    if segs != [] {
      var n := |segs| - 1;
      assert segs == segs[..n] + [segs[n]];
      AddAllSound(segs[..n]);
      AddSegmentSound(AddAll(segs[..n]).value, segs[..n], segs[n]);
    }
  }

  /** Segments with distinct pairs are always added. */
  lemma {:induction false} AddAllComplete(segs: seq<Segment>)
    requires DistinctPairs(segs)
    ensures AddAll(segs).Success?
  {
    if segs != [] {
      var n := |segs| - 1;
      var init, last := segs[..n], segs[n];
      assert DistinctPairs(init) by {
        forall i, j | 0 <= i < j < n ensures init[i].from != init[j].from || init[i].to != init[j].to {
          assert init[i] == segs[i] && init[j] == segs[j];
        }
      }
      AddAllComplete(init);
      AddAllSound(init);
      var g := AddAll(init).value;
    }
  }

  /** Every segment parses and no ordered pair repeats. */
  predicate Acceptable(ps: seq<Result<Segment, GraphError>>)
  {
    AllParsed(ps) && DistinctPairs(Segments(ps))
  }

  /**
   * The tokenizer loop succeeds exactly on well-formed segments without a
   * repeated pair, and then yields the graph those segments describe.
   */
  lemma ProcessShape(ps: seq<Result<Segment, GraphError>>)
    ensures Process(ps).Success? <==> Acceptable(ps)
    ensures Process(ps).Success? ==> Describes(Process(ps).value, Segments(ps))
  {
    if Process(ps).Success? {
      ProcessAllParsed(ps);
    }
    if AllParsed(ps) {
      ProcessAsAddAll(ps);
      if Process(ps).Success? {
        AddAllSound(Segments(ps));
      }
      if DistinctPairs(Segments(ps)) {
        AddAllComplete(Segments(ps));
      }
    }
  }

  /** A graph that segments with non-negative weights describe has no negative weight. */
  lemma DescribedNonNegative(g: NodeMap, segs: seq<Segment>)
    requires Describes(g, segs) && forall s :: s in segs ==> s.weight >= 0
    ensures NonNegativeWeights(g)
  {
    forall a, b | a in g && b in g[a] ensures g[a][b] >= 0 {
      var s :| s in segs && s.from == a && s.to == b;
    }
  }

  /** A graph that segments describe is valid exactly when every target occurs as a source. */
  lemma DescribedValid(g: NodeMap, segs: seq<Segment>)
    requires Describes(g, segs)
    ensures IsValid(g) <==> forall s :: s in segs ==> s.to in SourcesOf(segs)
  {
    IsValidIff(g);
    if IsValid(g) {
      forall s | s in segs ensures s.to in SourcesOf(segs) {
        assert s.to in g[s.from];
      }
    }
    if forall s :: s in segs ==> s.to in SourcesOf(segs) {
      DescribedClosed(g, segs);
    }
  }

  lemma DescribedClosed(g: NodeMap, segs: seq<Segment>)
    requires Describes(g, segs) && forall s :: s in segs ==> s.to in SourcesOf(segs)
    ensures forall a, b :: a in g && b in g[a] ==> b in g
  {
    forall a, b | a in g && b in g[a] ensures b in g {
      var s :| s in segs && s.from == a && s.to == b;
      assert s.to in SourcesOf(segs);
    }
  }

  /** The build succeeds exactly on acceptable segments whose targets all occur as sources. */
  lemma FinishIff(ps: seq<Result<Segment, GraphError>>)
    ensures Finish(ps).Success? <==>
              && Acceptable(ps)
              && forall s :: s in Segments(ps) ==> s.to in SourcesOf(Segments(ps))
  {
    ProcessShape(ps);
    if Process(ps).Success? {
      DescribedValid(Process(ps).value, Segments(ps));
    }
  }

  /** On success every segment parses, the graph is the one they describe, and it is valid. */
  lemma FinishSuccess(ps: seq<Result<Segment, GraphError>>)
    requires Finish(ps).Success?
    ensures AllParsed(ps) && Describes(Finish(ps).value, Segments(ps)) && IsValid(Finish(ps).value)
  {
    ProcessShape(ps);
  }

  /** `buildGraph` succeeds exactly on acceptable segments whose targets all occur as sources. */
  lemma BuildIff(input: string)
    ensures var ps := Parsed(Tokens(input, ','));
            Build(input).Success? <==>
              && Acceptable(ps)
              && forall s :: s in Segments(ps) ==> s.to in SourcesOf(Segments(ps))
  {
    FinishIff(Parsed(Tokens(input, ',')));
  }

  /**
   * On success every token parses, the graph holds exactly the links of the
   * segments with their weights, it is valid, and no weight is negative.
   */
  lemma BuildSuccess(input: string)
    requires Build(input).Success?
    ensures var ps := Parsed(Tokens(input, ','));
            && AllParsed(ps)
            && Describes(Build(input).value, Segments(ps))
            && IsValid(Build(input).value)
            && NonNegativeWeights(Build(input).value)
  {
    var ps := Parsed(Tokens(input, ','));
    FinishSuccess(ps);
    DescribedNonNegative(Build(input).value, Segments(ps));
  }

  /** A token that does not parse makes `buildGraph` fail. */
  lemma BuildRejectsMalformed(input: string, i: nat)
    requires i < |Tokens(input, ',')| && ParseSegment(Tokens(input, ',')[i]).Failure?
    ensures Build(input).Failure?
  {
    var ps := Parsed(Tokens(input, ','));
    assert ps[i].Failure?;
    if Process(ps).Success? {
      ProcessAllParsed(ps);
    }
  }

  /** A segment shorter than 3 characters after trimming is rejected. */
  lemma BuildRejectsShortSegment(input: string, i: nat)
    requires i < |Tokens(input, ',')| && |Trim(Tokens(input, ',')[i])| < 3
    ensures Build(input).Failure?
  {
    BuildRejectsMalformed(input, i);
  }

  /** A weight that is not a 32-bit decimal integer, or is negative, is rejected. */
  lemma BuildRejectsBadWeight(input: string, i: nat)
    requires i < |Tokens(input, ',')|
    requires var s := Trim(Tokens(input, ',')[i]);
             |s| >= 3 && (ParseInt(s[2..]).None? || ParseInt(s[2..]).value < 0)
    ensures Build(input).Failure?
  {
    BuildRejectsMalformed(input, i);
  }

  /** A link from a node to itself is rejected. */
  lemma BuildRejectsSelfLink(input: string, i: nat)
    requires i < |Tokens(input, ',')|
    requires var s := Trim(Tokens(input, ',')[i]);
             |s| >= 3 && s[0] == s[1]
    ensures Build(input).Failure?
  {
    BuildRejectsMalformed(input, i);
  }

  /** The same ordered pair given by two segments is rejected. */
  lemma BuildRejectsDuplicate(input: string, i: nat, j: nat)
    requires i < j < |Tokens(input, ',')|
    requires WellFormed(Tokens(input, ',')[i]) && WellFormed(Tokens(input, ',')[j])
    requires From(Tokens(input, ',')[i]) == From(Tokens(input, ',')[j])
    requires To(Tokens(input, ',')[i]) == To(Tokens(input, ',')[j])
    ensures Build(input).Failure?
  {
    var ps := Parsed(Tokens(input, ','));
    ProcessShape(ps);
    if AllParsed(ps) {
      var segs := Segments(ps);
      assert ps[i] == Success(segs[i]) && ps[j] == Success(segs[j]);
    }
  }

  /** A link target that never occurs as a source is rejected. */
  lemma FinishRejectsDangling(ps: seq<Result<Segment, GraphError>>, i: nat)
    requires i < |ps| && ps[i].Success?
    requires forall j :: 0 <= j < |ps| && ps[j].Success? ==> ps[j].value.from != ps[i].value.to
    ensures Finish(ps).Failure?
  {
    if Finish(ps).Success? {
      FinishIff(ps);
      var segs := Segments(ps);
      assert ps[i] == Success(segs[i]);
      assert segs[i] in segs;
      var j := SourceIndex(segs, segs[i].to);
      assert false;
    }
  }

  /** A link target that never occurs as the source of a segment is rejected. */
  lemma BuildRejectsDangling(input: string, i: nat)
    requires i < |Tokens(input, ',')| && WellFormed(Tokens(input, ',')[i])
    requires forall j :: 0 <= j < |Tokens(input, ',')| && WellFormed(Tokens(input, ',')[j]) ==>
               From(Tokens(input, ',')[j]) != To(Tokens(input, ',')[i])
    ensures Build(input).Failure?
  {
    var tokens := Tokens(input, ',');
    var ps := Parsed(tokens);
    assert ps[i] == ParseSegment(tokens[i]);
    forall j | 0 <= j < |ps| && ps[j].Success? ensures ps[j].value.from != ps[i].value.to {
      assert ps[j] == ParseSegment(tokens[j]);
      assert WellFormed(tokens[j]);
    }
    FinishRejectsDangling(ps, i);
  }
}
