/**
 * What the route queries compute, as functions of the graph: the length of
 * a route given by names, the trips of at most a number of stops, the trips
 * under a length bound, and the filter on the number of stops.
 */
module Routes {
  import opened Wrappers
  import opened Text
  import opened Nodes
  import opened Paths
  import opened Graphs

  // -----------------------------------------------------------------------
  // Walks
  // -----------------------------------------------------------------------

  /** Every node of `p` is the graph's node of that name, with its links. */
  predicate InGraph(g: NodeMap, p: seq<Node>)
  {
    forall i :: 0 <= i < |p| ==> p[i].name in g && p[i].links == g[p[i].name]
  }

  /** Each node of `p` has a link to the next one. */
  predicate Steps(p: seq<Node>)
  {
    forall i :: 0 <= i < |p| - 1 ==> p[i + 1].name in p[i].links
  }

  /** A sequence of graph nodes following links. */
  predicate IsWalk(g: NodeMap, p: seq<Node>)
  {
    InGraph(g, p) && Steps(p)
  }

  /** The graph's node of a name. */
  function NodeOf(g: NodeMap, name: string): Node
    requires name in g
  {
    Node(name, g[name])
  }

  /** The names of the nodes of `p`, in order. */
  function Names(p: seq<Node>): (r: seq<string>)
    ensures |r| == |p| && forall i :: 0 <= i < |p| ==> r[i] == p[i].name
  {
    if p == [] then [] else Names(p[..|p| - 1]) + [p[|p| - 1].name]
  }

  /** The graph's nodes for a sequence of names. */
  function NodesOf(g: NodeMap, names: seq<string>): (r: seq<Node>)
    requires forall i :: 0 <= i < |names| ==> names[i] in g
    ensures |r| == |names| && forall i :: 0 <= i < |names| ==> r[i] == NodeOf(g, names[i])
  {
    if names == [] then []
    else
      var n := |names| - 1;
      NodesOf(g, names[..n]) + [NodeOf(g, names[n])]
  }

  /** On a walk the weight of each step is the stored link weight. */
  lemma WalkWeightAppend(g: NodeMap, p: seq<Node>, name: string)
    requires InGraph(g, p) && |p| > 0 && name in g
    ensures Weight(p + [NodeOf(g, name)]) == Weight(p) + DistanceTo(NodeOf(g, Last(p).name), name)
  {
    WeightAppend(p, NodeOf(g, name));
  }

  /** With non-negative link weights every walk has non-negative steps. */
  lemma WalkNonNegative(g: NodeMap, p: seq<Node>)
    requires IsWalk(g, p) && NonNegativeWeights(g)
    ensures NonNegativeSteps(p)
  {
    forall i | 0 <= i < |p| - 1 ensures DistanceTo(p[i], p[i + 1].name) >= 0 {
      assert p[i].links == g[p[i].name];
    }
  }

  /** A walk in a graph with no -1 weight is a linked node sequence. */
  lemma WalkLinked(g: NodeMap, p: seq<Node>)
    requires IsWalk(g, p) && Graphs.Unambiguous(g)
    ensures Linked(p)
  {
    forall i | 0 <= i < |p| - 1 ensures DistanceTo(p[i], p[i + 1].name) != -1 {
      assert p[i].links == g[p[i].name];
    }
  }

  // -----------------------------------------------------------------------
  // findPathLength
  // -----------------------------------------------------------------------

  /** The distance from the node named `a` to `b`, as the loop looks it up; `None` when it throws. */
  function Hop(g: NodeMap, a: string, b: string): Option<int>
  {
    if a !in g then None
    else
      var d := DistanceTo(NodeOf(g, a), b);
      if d == -1 then None else Some(d)
  }

  /**
   * The summing loop of `findPathLength` over a list of names; `None`
   * stands for the `NoPathException`.
   */
  function RouteLength(g: NodeMap, names: seq<string>): Option<int>
  {
    if |names| <= 1 then Some(0)
    else
      match RouteLength(g, names[..|names| - 1])
      case None => None
      case Some(d) =>
        match Hop(g, names[|names| - 2], names[|names| - 1])
        case None => None
        case Some(h) => Some(d + h)
  }

  /** The loop throws exactly when some non-final name is not a node or has no usable link to the next name. */
  lemma {:induction false} RouteLengthFails(g: NodeMap, names: seq<string>)
    ensures RouteLength(g, names).None? <==>
              exists i :: 0 <= i < |names| - 1 && Hop(g, names[i], names[i + 1]).None?
  {
    if |names| > 1 {
      var n := |names| - 1;
      var init := names[..n];
      RouteLengthFails(g, init);
      assert forall i :: 0 <= i < n ==> init[i] == names[i];
    }
  }

  /**
   * In a graph with no -1 weight, the names of any walk give back the
   * walk's length: the sum of the link weights along it.
   */
  lemma {:induction false} RouteLengthOfWalk(g: NodeMap, p: seq<Node>)
    requires IsWalk(g, p) && Graphs.Unambiguous(g)
    ensures RouteLength(g, Names(p)) == Some(Weight(p))
  {
    if |p| > 1 {
      var n := |p| - 1;
      var init := p[..n];
      assert IsWalk(g, init);
      RouteLengthOfWalk(g, init);
      assert Names(p)[..n] == Names(init);
      assert p[n - 1].links == g[p[n - 1].name];
      assert NodeOf(g, p[n - 1].name) == p[n - 1];
    }
  }

  /**
   * In a valid graph, when the loop succeeds the names are those of a walk
   * and the sum is that walk's length.
   */
  lemma {:induction false} RouteLengthIsWalk(g: NodeMap, names: seq<string>)
    requires IsValid(g) && |names| > 0 && names[0] in g && RouteLength(g, names).Some?
    ensures forall i :: 0 <= i < |names| ==> names[i] in g
    ensures IsWalk(g, NodesOf(g, names)) && Weight(NodesOf(g, names)) == RouteLength(g, names).value
  {
    if |names| > 1 {
      var n := |names| - 1;
      var init := names[..n];
      assert forall i :: 0 <= i < n ==> init[i] == names[i];
      RouteLengthIsWalk(g, init);
      IsValidIff(g);
      assert names[n] in g[names[n - 1]];
      var p := NodesOf(g, names);
      assert p[..n] == NodesOf(g, init);
      WalkWeightAppend(g, p[..n], names[n]);
      assert p == p[..n] + [NodeOf(g, names[n])];
    }
  }

  // -----------------------------------------------------------------------
  // getPaths: trips of at most maxSteps nodes, recorded before `to` is added
  // -----------------------------------------------------------------------

  /**
   * The trips `tripFinderByMaxSteps` records, in order, when called with the
   * current path `path` and the next node name `from`.
   */
  function HopTrips(g: NodeMap, path: seq<Node>, from: string, to: string, maxSteps: int): seq<seq<Node>>
    decreases if |path| <= maxSteps then maxSteps + 1 - |path| else 0, 0
  {
    if |path| > maxSteps then []
    else
      (if from == to && |path| > 0 then [path] else []) +
      (if from !in g then [] else HopTripsFrom(g, path + [NodeOf(g, from)], SortedKeys(g[from].Keys), to, maxSteps))
  }

  /** The trips recorded by the loop over the links `ks` of the last node of `path`. */
  function HopTripsFrom(g: NodeMap, path: seq<Node>, ks: seq<string>, to: string, maxSteps: int): seq<seq<Node>>
    decreases if |path| <= maxSteps + 1 then maxSteps + 1 - |path| else 0, |ks|
  {
    if ks == [] then []
    else HopTripsFrom(g, path, ks[..|ks| - 1], to, maxSteps) + HopTrips(g, path, ks[|ks| - 1], to, maxSteps)
  }

  /** One level of the stop-limited search: the trip at `from` itself, then the trips through its links. */
  lemma HopTripsUnfold(g: NodeMap, path: seq<Node>, from: string, to: string, maxSteps: int)
    requires |path| <= maxSteps && from in g
    ensures HopTrips(g, path, from, to, maxSteps) ==
              (if from == to && |path| > 0 then [path] else []) +
              HopTripsFrom(g, path + [NodeOf(g, from)], SortedKeys(g[from].Keys), to, maxSteps)
  {
  }

  /** The loop over links adds the trips through one more link at the end. */
  lemma HopTripsFromNext(g: NodeMap, path: seq<Node>, ks: seq<string>, i: nat, to: string, maxSteps: int)
    requires i < |ks|
    ensures HopTripsFrom(g, path, ks[..i + 1], to, maxSteps) ==
              HopTripsFrom(g, path, ks[..i], to, maxSteps) + HopTrips(g, path, ks[i], to, maxSteps)
  {
    assert ks[..i + 1][..i] == ks[..i];
  }

  /**
   * `q` continues a trip towards `to` from the node named `from`: either it is
   * empty and `from` is `to` already, or it is a walk starting at `from`
   * whose last node has a link to `to`.
   */
  predicate ReachesBefore(g: NodeMap, q: seq<Node>, from: string, to: string)
  {
    if q == [] then from == to else q[0].name == from && IsWalk(g, q) && to in Last(q).links
  }

  /** A trip extending `path` that the search from `from` records. */
  predicate HopTrip(g: NodeMap, path: seq<Node>, from: string, to: string, maxSteps: int, p: seq<Node>)
  {
    1 <= |p| <= maxSteps && |path| <= |p| && p[..|path|] == path && ReachesBefore(g, p[|path|..], from, to)
  }

  /** A suffix of a walk is a walk. */
  lemma WalkSuffix(g: NodeMap, q: seq<Node>, j: nat)
    requires IsWalk(g, q) && j <= |q|
    ensures IsWalk(g, q[j..])
  {
    assert forall i :: 0 <= i < |q| - j ==> q[j..][i] == q[j + i];
  }

  /** A walk from a node's link, with that node put in front, is a walk. */
  lemma WalkPrepend(g: NodeMap, n: Node, q: seq<Node>)
    requires n.name in g && n.links == g[n.name] && IsWalk(g, q) && (q != [] ==> q[0].name in n.links)
    ensures IsWalk(g, [n] + q)
  {
    assert forall i :: 0 < i <= |q| ==> ([n] + q)[i] == q[i - 1];
  }

  /** Going one node deeper: the trips past `from` are the trips from one of its links. */
  lemma HopTripStep(g: NodeMap, path: seq<Node>, from: string, to: string, maxSteps: int, p: seq<Node>)
    requires from in g
    ensures (|p| > |path| && HopTrip(g, path, from, to, maxSteps, p)) <==>
            exists k :: k in g[from] && HopTrip(g, path + [NodeOf(g, from)], k, to, maxSteps, p)
  {
    var path' := path + [NodeOf(g, from)];
    if |p| > |path| && HopTrip(g, path, from, to, maxSteps, p) {
      var q := p[|path|..];
      assert q[0] == NodeOf(g, from);
      assert p[..|path'|] == path';
      var q' := p[|path'|..];
      assert q' == q[1..];
      if q' == [] {
        assert HopTrip(g, path', to, to, maxSteps, p);
      } else {
        WalkSuffix(g, q, 1);
        assert Last(q') == Last(q);
        assert HopTrip(g, path', q'[0].name, to, maxSteps, p);
      }
    }
    if exists k :: k in g[from] && HopTrip(g, path', k, to, maxSteps, p) {
      var k :| k in g[from] && HopTrip(g, path', k, to, maxSteps, p);
      var q := p[|path|..];
      var q' := p[|path'|..];
      assert p[..|path|] == p[..|path'|][..|path|];
      assert q == [NodeOf(g, from)] + q';
      WalkPrepend(g, NodeOf(g, from), q');
      if q' != [] {
        assert Last(q) == Last(q');
      }
    }
  }

  lemma {:induction false} HopTripsIff(g: NodeMap, path: seq<Node>, from: string, to: string, maxSteps: int, p: seq<Node>)
    ensures p in HopTrips(g, path, from, to, maxSteps) <==> HopTrip(g, path, from, to, maxSteps, p)
    decreases if |path| <= maxSteps then maxSteps + 1 - |path| else 0, 0
  {
    if |path| <= maxSteps {
      if |p| == |path| {
        assert p[..|path|] == p;
      }
      if from in g {
        var path' := path + [NodeOf(g, from)];
        HopTripsFromIff(g, path', SortedKeys(g[from].Keys), to, maxSteps, p);
        HopTripStep(g, path, from, to, maxSteps, p);
      }
    }
  }

  lemma {:induction false} HopTripsFromIff(g: NodeMap, path: seq<Node>, ks: seq<string>, to: string, maxSteps: int, p: seq<Node>)
    ensures p in HopTripsFrom(g, path, ks, to, maxSteps) <==>
              exists k :: k in ks && HopTrip(g, path, k, to, maxSteps, p)
    decreases if |path| <= maxSteps + 1 then maxSteps + 1 - |path| else 0, |ks|
  {
    if ks != [] {
      var init := ks[..|ks| - 1];
      var k := ks[|ks| - 1];
      assert ks == init + [k];
      assert forall k' :: k' in ks <==> k' in init || k' == k;
      assert HopTripsFrom(g, path, ks, to, maxSteps) ==
             HopTripsFrom(g, path, init, to, maxSteps) + HopTrips(g, path, k, to, maxSteps);
      HopTripsFromIff(g, path, init, to, maxSteps, p);
      HopTripsIff(g, path, k, to, maxSteps, p);
    }
  }

  // -----------------------------------------------------------------------
  // getPathsUnder: trips ending at `to` lighter than maxLength
  // -----------------------------------------------------------------------

  /** The measure that bounds the weight-limited search: the length left before the bound. */
  function Budget(path: seq<Node>, maxLength: int): int
  {
    maxLength - Weight(path) + (if path == [] then 1 else 0)
  }

  /** The search may extend `path` with the node named `from`. */
  predicate CanExtend(g: NodeMap, path: seq<Node>, from: string)
  {
    InGraph(g, path) && (|path| > 0 ==> from in Last(path).links)
  }

  lemma ExtendWeight(g: NodeMap, path: seq<Node>, from: string)
    requires PositiveWeights(g) && CanExtend(g, path, from) && from in g
    ensures Weight(path + [NodeOf(g, from)]) >= Weight(path) + (if path == [] then 0 else 1)
    ensures InGraph(g, path + [NodeOf(g, from)])
  {
    if path != [] {
      WeightAppend(path, NodeOf(g, from));
      assert Last(path).links == g[Last(path).name];
    }
  }

  /**
   * The trips `tripFinderByMaxLength` records, in order, when called with the
   * current path `path` and the next node name `from`.
   */
  function WeightTrips(g: NodeMap, path: seq<Node>, from: string, to: string, maxLength: int): seq<seq<Node>>
    requires PositiveWeights(g) && CanExtend(g, path, from)
    decreases Budget(path, maxLength), 0
  {
    if from !in g then []
    else
      var path' := path + [NodeOf(g, from)];
      ExtendWeight(g, path, from);
      if Weight(path') < maxLength then
        (if |path'| > 1 && from == to then [path'] else []) +
        WeightTripsFrom(g, path', SortedKeys(g[from].Keys), to, maxLength)
      else []
  }

  /** The trips recorded by the loop over the links `ks` of the last node of `path`. */
  function WeightTripsFrom(g: NodeMap, path: seq<Node>, ks: seq<string>, to: string, maxLength: int): seq<seq<Node>>
    requires PositiveWeights(g) && InGraph(g, path) && |path| > 0
    requires forall k :: k in ks ==> k in Last(path).links
    requires Weight(path) < maxLength
    decreases maxLength - Weight(path), |ks|
  {
    if ks == [] then []
    else
      WeightTripsFrom(g, path, ks[..|ks| - 1], to, maxLength) +
      WeightTrips(g, path, ks[|ks| - 1], to, maxLength)
  }

  /** One level of the weight-limited search once the extended path is within the limit. */
  lemma WeightTripsUnfold(g: NodeMap, path: seq<Node>, from: string, to: string, maxLength: int)
    requires PositiveWeights(g) && CanExtend(g, path, from) && from in g
    requires Weight(path + [NodeOf(g, from)]) < maxLength
    ensures InGraph(g, path + [NodeOf(g, from)])
    ensures WeightTrips(g, path, from, to, maxLength) ==
              (if |path| > 0 && from == to then [path + [NodeOf(g, from)]] else []) +
              WeightTripsFrom(g, path + [NodeOf(g, from)], SortedKeys(g[from].Keys), to, maxLength)
  {
    ExtendWeight(g, path, from);
  }

  /** Once the extended path reaches the limit, the weight-limited search records nothing. */
  lemma WeightTripsOverLimit(g: NodeMap, path: seq<Node>, from: string, to: string, maxLength: int)
    requires PositiveWeights(g) && CanExtend(g, path, from) && from in g
    requires Weight(path + [NodeOf(g, from)]) >= maxLength
    ensures WeightTrips(g, path, from, to, maxLength) == []
  {
  }

  /** The loop over links adds the trips through one more link at the end. */
  lemma WeightTripsFromNext(g: NodeMap, path: seq<Node>, ks: seq<string>, i: nat, to: string, maxLength: int)
    requires PositiveWeights(g) && InGraph(g, path) && |path| > 0
    requires forall k :: k in ks ==> k in Last(path).links
    requires Weight(path) < maxLength && i < |ks|
    ensures WeightTripsFrom(g, path, ks[..i + 1], to, maxLength) ==
              WeightTripsFrom(g, path, ks[..i], to, maxLength) + WeightTrips(g, path, ks[i], to, maxLength)
  {
    assert ks[..i + 1][..i] == ks[..i];
  }

  /** A trip extending `path` that the weight-limited search from `from` records. */
  predicate WeightTrip(g: NodeMap, path: seq<Node>, from: string, to: string, maxLength: int, p: seq<Node>)
  {
    && |p| >= 2 && |p| > |path| && p[..|path|] == path
    && p[|path|].name == from && IsWalk(g, p[|path|..])
    && Last(p).name == to && Weight(p) < maxLength
  }

  /** Going one node deeper: the trips past `from` are the trips from one of its links. */
  lemma WeightTripStep(g: NodeMap, path: seq<Node>, from: string, to: string, maxLength: int, p: seq<Node>)
    requires from in g
    ensures (|p| > |path| + 1 && WeightTrip(g, path, from, to, maxLength, p)) <==>
            exists k :: k in g[from] && WeightTrip(g, path + [NodeOf(g, from)], k, to, maxLength, p)
  {
    var path' := path + [NodeOf(g, from)];
    if |p| > |path| + 1 && WeightTrip(g, path, from, to, maxLength, p) {
      var q := p[|path|..];
      assert q[0] == NodeOf(g, from);
      assert p[..|path'|] == path';
      var q' := p[|path'|..];
      assert q' == q[1..];
      WalkSuffix(g, q, 1);
      assert WeightTrip(g, path', q'[0].name, to, maxLength, p);
    }
    if exists k :: k in g[from] && WeightTrip(g, path', k, to, maxLength, p) {
      var k :| k in g[from] && WeightTrip(g, path', k, to, maxLength, p);
      var q := p[|path|..];
      var q' := p[|path'|..];
      assert p[..|path|] == p[..|path'|][..|path|];
      assert q == [NodeOf(g, from)] + q';
      WalkPrepend(g, NodeOf(g, from), q');
    }
  }

  /** The only trip one node longer than `path` is `path` extended with `from`, when that is `to`. */
  lemma WeightTripAtNext(g: NodeMap, path: seq<Node>, from: string, to: string, maxLength: int, p: seq<Node>)
    requires from in g
    ensures (|p| == |path| + 1 && WeightTrip(g, path, from, to, maxLength, p)) <==>
            (p == path + [NodeOf(g, from)] && |p| >= 2 && from == to && Weight(p) < maxLength)
  {
    if |p| == |path| + 1 && p[..|path|] == path && IsWalk(g, p[|path|..]) {
      assert p[|path|..][0] == p[|path|];
      assert p == p[..|path|] + [p[|path|]];
    }
    if p == path + [NodeOf(g, from)] {
      assert p[..|path|] == path && p[|path|..] == [NodeOf(g, from)];
    }
  }

  /** Once `path` extended with `from` reaches the bound, no trip goes through it. */
  lemma WeightTripOverBudget(g: NodeMap, path: seq<Node>, from: string, to: string, maxLength: int, p: seq<Node>)
    requires PositiveWeights(g) && from in g && Weight(path + [NodeOf(g, from)]) >= maxLength
    ensures !WeightTrip(g, path, from, to, maxLength, p)
  {
    if WeightTrip(g, path, from, to, maxLength, p) {
      var path' := path + [NodeOf(g, from)];
      assert p[|path|..][0] == p[|path|];
      assert p[..|path'|] == path';
      PrefixLighter(g, path, p, |path'|);
    }
  }

  lemma {:induction false} WeightTripsIff(g: NodeMap, path: seq<Node>, from: string, to: string, maxLength: int, p: seq<Node>)
    requires PositiveWeights(g) && CanExtend(g, path, from)
    ensures p in WeightTrips(g, path, from, to, maxLength) <==> WeightTrip(g, path, from, to, maxLength, p)
    decreases Budget(path, maxLength), 0
  {
    if from in g {
      var path' := path + [NodeOf(g, from)];
      ExtendWeight(g, path, from);
      WeightTripAtNext(g, path, from, to, maxLength, p);
      if Weight(path') < maxLength {
        WeightTripsFromIff(g, path', SortedKeys(g[from].Keys), to, maxLength, p);
        WeightTripStep(g, path, from, to, maxLength, p);
      } else {
        WeightTripOverBudget(g, path, from, to, maxLength, p);
      }
    }
  }

  lemma {:induction false} WeightTripsFromIff(g: NodeMap, path: seq<Node>, ks: seq<string>, to: string, maxLength: int, p: seq<Node>)
    requires PositiveWeights(g) && InGraph(g, path) && |path| > 0
    requires forall k :: k in ks ==> k in Last(path).links
    requires Weight(path) < maxLength
    ensures p in WeightTripsFrom(g, path, ks, to, maxLength) <==>
              exists k :: k in ks && WeightTrip(g, path, k, to, maxLength, p)
    decreases maxLength - Weight(path), |ks|
  {
    if ks != [] {
      var init := ks[..|ks| - 1];
      var k := ks[|ks| - 1];
      assert ks == init + [k];
      assert forall k' :: k' in ks <==> k' in init || k' == k;
      assert WeightTripsFrom(g, path, ks, to, maxLength) ==
             WeightTripsFrom(g, path, init, to, maxLength) + WeightTrips(g, path, k, to, maxLength);
      WeightTripsFromIff(g, path, init, to, maxLength, p);
      WeightTripsIff(g, path, k, to, maxLength, p);
    }
  }

  /** A walk in a graph without negative weights has a non-negative length. */
  lemma WalkWeightNonNegative(g: NodeMap, s: seq<Node>)
    requires IsWalk(g, s) && NonNegativeWeights(g)
    ensures Weight(s) >= 0
  {
    WalkNonNegative(g, s);
    if |s| > 0 {
      WeightPrefixMonotone(s, |s|);
      assert s[..|s|] == s;
    }
  }

  /** With positive weights, a prefix of a trip reaching past `path` weighs no more than the trip. */
  lemma PrefixLighter(g: NodeMap, path: seq<Node>, p: seq<Node>, k: nat)
    requires PositiveWeights(g) && |path| < k <= |p| && IsWalk(g, p[|path|..])
    ensures Weight(p[..k]) <= Weight(p)
  {
    var j := k - 1;
    WeightSplit(p, j);
    assert p[..j + 1] == p[..k];
    var s := p[j..];
    assert s == p[|path|..][j - |path|..];
    WalkSuffix(g, p[|path|..], j - |path|);
    assert NonNegativeWeights(g);
    WalkWeightNonNegative(g, s);
  }

  // -----------------------------------------------------------------------
  // getPathsExact
  // -----------------------------------------------------------------------

  /** The trips of exactly `size` nodes, in their order. */
  function WithSize(ps: seq<seq<Node>>, size: int): seq<seq<Node>>
  {
    if ps == [] then []
    else WithSize(ps[..|ps| - 1], size) + (if |ps[|ps| - 1]| == size then [ps[|ps| - 1]] else [])
  }

  /** The filter keeps exactly the trips of the requested size. */
  lemma {:induction false} WithSizeMembers(ps: seq<seq<Node>>, size: int)
    ensures forall p :: p in WithSize(ps, size) <==> p in ps && |p| == size
  {
    if ps != [] {
      WithSizeMembers(ps[..|ps| - 1], size);
      assert ps == ps[..|ps| - 1] + [ps[|ps| - 1]];
    }
  }

  /** The filter keeps the order: filtering a concatenation concatenates the filtered parts. */
  lemma {:induction false} WithSizeConcat(a: seq<seq<Node>>, b: seq<seq<Node>>, size: int)
    ensures WithSize(a + b, size) == WithSize(a, size) + WithSize(b, size)
    decreases |b|
  {
    if b != [] {
      var b' := b[..|b| - 1];
      WithSizeConcat(a, b', size);
      assert (a + b)[..|a + b| - 1] == a + b';
    } else {
      assert a + b == a;
    }
  }

  // -----------------------------------------------------------------------
  // No trip is recorded twice
  // -----------------------------------------------------------------------

  /** Every element of `s` occurs once. */
  predicate NoRepeats<T(==)>(s: seq<T>)
  {
    forall i, j :: 0 <= i < j < |s| ==> s[i] != s[j]
  }

  lemma NoRepeatsConcat<T>(a: seq<T>, b: seq<T>)
    requires NoRepeats(a) && NoRepeats(b) && forall x :: x in a ==> x !in b
    ensures NoRepeats(a + b)
  {
    forall i, j | 0 <= i < j < |a + b| ensures (a + b)[i] != (a + b)[j] {
      if i < |a| && j >= |a| {
        assert (a + b)[i] in a && (a + b)[j] == b[j - |a|];
      }
    }
  }

  /** A stop-limited trip determines the name that follows `path` in it. */
  lemma HopTripKey(g: NodeMap, path: seq<Node>, k1: string, k2: string, to: string, maxSteps: int, p: seq<Node>)
    requires HopTrip(g, path, k1, to, maxSteps, p) && HopTrip(g, path, k2, to, maxSteps, p)
    ensures k1 == k2
  {
  }

  /** A length-limited trip determines the name that follows `path` in it. */
  lemma WeightTripKey(g: NodeMap, path: seq<Node>, k1: string, k2: string, to: string, maxLength: int, p: seq<Node>)
    requires WeightTrip(g, path, k1, to, maxLength, p) && WeightTrip(g, path, k2, to, maxLength, p)
    ensures k1 == k2
  {
  }

  /** `tripFinderByMaxSteps` records no trip twice. */
  lemma {:induction false} HopTripsNoRepeats(g: NodeMap, path: seq<Node>, from: string, to: string, maxSteps: int)
    ensures NoRepeats(HopTrips(g, path, from, to, maxSteps))
    decreases if |path| <= maxSteps then maxSteps + 1 - |path| else 0, 0
  {
    if |path| <= maxSteps && from in g {
      var here: seq<seq<Node>> := if from == to && |path| > 0 then [path] else [];
      var path' := path + [NodeOf(g, from)];
      var ks := SortedKeys(g[from].Keys);
      SortedKeysOrdered(g[from].Keys);
      HopTripsFromNoRepeats(g, path', ks, to, maxSteps);
      var deeper := HopTripsFrom(g, path', ks, to, maxSteps);
      forall x | x in here ensures x !in deeper {
        HopTripsFromIff(g, path', ks, to, maxSteps, x);
      }
      NoRepeatsConcat(here, deeper);
    }
  }

  /** The loop over distinct links records no trip twice. */
  lemma {:induction false} HopTripsFromNoRepeats(g: NodeMap, path: seq<Node>, ks: seq<string>, to: string, maxSteps: int)
    requires NoRepeats(ks)
    ensures NoRepeats(HopTripsFrom(g, path, ks, to, maxSteps))
    decreases if |path| <= maxSteps + 1 then maxSteps + 1 - |path| else 0, |ks|
  {
    if ks != [] {
      var init := ks[..|ks| - 1];
      var k := ks[|ks| - 1];
      HopTripsFromNoRepeats(g, path, init, to, maxSteps);
      HopTripsNoRepeats(g, path, k, to, maxSteps);
      var earlier := HopTripsFrom(g, path, init, to, maxSteps);
      var later := HopTrips(g, path, k, to, maxSteps);
      forall x | x in earlier ensures x !in later {
        HopTripsFromIff(g, path, init, to, maxSteps, x);
        var k' :| k' in init && HopTrip(g, path, k', to, maxSteps, x);
        HopTripsIff(g, path, k, to, maxSteps, x);
        if x in later {
          HopTripKey(g, path, k', k, to, maxSteps, x);
          assert false;
        }
      }
      NoRepeatsConcat(earlier, later);
    }
  }

  /** `tripFinderByMaxLength` records no trip twice. */
  lemma {:induction false} WeightTripsNoRepeats(g: NodeMap, path: seq<Node>, from: string, to: string, maxLength: int)
    requires PositiveWeights(g) && CanExtend(g, path, from)
    ensures NoRepeats(WeightTrips(g, path, from, to, maxLength))
    decreases Budget(path, maxLength), 0
  {
    if from in g {
      var path' := path + [NodeOf(g, from)];
      ExtendWeight(g, path, from);
      if Weight(path') < maxLength {
        var here: seq<seq<Node>> := if |path'| > 1 && from == to then [path'] else [];
        var ks := SortedKeys(g[from].Keys);
        SortedKeysOrdered(g[from].Keys);
        WeightTripsFromNoRepeats(g, path', ks, to, maxLength);
        var deeper := WeightTripsFrom(g, path', ks, to, maxLength);
        forall x | x in here ensures x !in deeper {
          WeightTripsFromIff(g, path', ks, to, maxLength, x);
        }
        NoRepeatsConcat(here, deeper);
      }
    }
  }

  /** The loop over distinct links records no trip twice. */
  lemma {:induction false} WeightTripsFromNoRepeats(g: NodeMap, path: seq<Node>, ks: seq<string>, to: string, maxLength: int)
    requires PositiveWeights(g) && InGraph(g, path) && |path| > 0
    requires forall k :: k in ks ==> k in Last(path).links
    requires Weight(path) < maxLength && NoRepeats(ks)
    ensures NoRepeats(WeightTripsFrom(g, path, ks, to, maxLength))
    decreases maxLength - Weight(path), |ks|
  {
    if ks != [] {
      var init := ks[..|ks| - 1];
      var k := ks[|ks| - 1];
      WeightTripsFromNoRepeats(g, path, init, to, maxLength);
      WeightTripsNoRepeats(g, path, k, to, maxLength);
      var earlier := WeightTripsFrom(g, path, init, to, maxLength);
      var later := WeightTrips(g, path, k, to, maxLength);
      forall x | x in earlier ensures x !in later {
        WeightTripsFromIff(g, path, init, to, maxLength, x);
        var k' :| k' in init && WeightTrip(g, path, k', to, maxLength, x);
        WeightTripsIff(g, path, k, to, maxLength, x);
        if x in later {
          WeightTripKey(g, path, k', k, to, maxLength, x);
          assert false;
        }
      }
      NoRepeatsConcat(earlier, later);
    }
  }

  /** The filter of `getPathsExact` keeps a list free of repeats. */
  lemma {:induction false} WithSizeNoRepeats(ps: seq<seq<Node>>, size: int)
    requires NoRepeats(ps)
    ensures NoRepeats(WithSize(ps, size))
  {
    if ps != [] {
      var n := |ps| - 1;
      WithSizeNoRepeats(ps[..n], size);
      WithSizeMembers(ps[..n], size);
      var last: seq<seq<Node>> := if |ps[n]| == size then [ps[n]] else [];
      forall x | x in WithSize(ps[..n], size) ensures x !in last {
        var i :| 0 <= i < n && ps[..n][i] == x;
      }
      NoRepeatsConcat(WithSize(ps[..n], size), last);
    }
  }

  // -----------------------------------------------------------------------
  // The three trip queries, started from an empty path
  // -----------------------------------------------------------------------

  /**
   * `getPaths` returns the walks of at most `maxSteps` nodes that start at
   * `from` and whose last node links to `to`; the final hop into `to` is
   * not part of the recorded path.
   */
  lemma TripsFromStart(g: NodeMap, from: string, to: string, maxSteps: int, p: seq<Node>)
    ensures p in HopTrips(g, [], from, to, maxSteps) <==>
              1 <= |p| <= maxSteps && p[0].name == from && IsWalk(g, p) && to in Last(p).links
  {
    HopTripsIff(g, [], from, to, maxSteps, p);
    assert p[..0] == [] && p[0..] == p;
  }

  /** `getPathsUnder` returns the walks from `from` to `to` of at least two nodes and length below `maxLength`. */
  lemma LightTripsFromStart(g: NodeMap, from: string, to: string, maxLength: int, p: seq<Node>)
    requires PositiveWeights(g)
    ensures p in WeightTrips(g, [], from, to, maxLength) <==>
              |p| >= 2 && p[0].name == from && IsWalk(g, p) && Last(p).name == to && Weight(p) < maxLength
  {
    WeightTripsIff(g, [], from, to, maxLength, p);
    assert p[..0] == [] && p[0..] == p;
  }

  /** `getPathsExact` returns the walks of exactly `exact` nodes that start at `from` and whose last node links to `to`. */
  lemma ExactTripsFromStart(g: NodeMap, from: string, to: string, exact: int, p: seq<Node>)
    ensures p in WithSize(HopTrips(g, [], from, to, exact), exact) <==>
              1 <= |p| == exact && p[0].name == from && IsWalk(g, p) && to in Last(p).links
  {
    WithSizeMembers(HopTrips(g, [], from, to, exact), exact);
    TripsFromStart(g, from, to, exact, p);
  }

  /** `getPathsExact` returns, each once, exactly the walks of `exact` nodes from `from` whose last node links to `to`. */
  lemma ExactTrips(g: NodeMap, from: string, to: string, exact: int)
    ensures NoRepeats(WithSize(HopTrips(g, [], from, to, exact), exact))
    ensures forall p: seq<Node> :: p in WithSize(HopTrips(g, [], from, to, exact), exact) <==>
              1 <= |p| == exact && p[0].name == from && IsWalk(g, p) && to in Last(p).links
  {
    HopTripsNoRepeats(g, [], from, to, exact);
    WithSizeNoRepeats(HopTrips(g, [], from, to, exact), exact);
    forall p: seq<Node> | true {
      ExactTripsFromStart(g, from, to, exact, p);
    }
  }
}
