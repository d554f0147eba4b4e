/**
 * The queries on a built graph: the length of a route given by names, the
 * trips limited by stops, by length or to an exact number of stops, and the
 * shortest route between two nodes.
 */
module Finder {
  import opened Wrappers
  import opened Text
  import opened Nodes
  import opened Paths
  import opened Graphs
  import opened Routes
  import opened Shortest

  class PathFinder {
    const graph: Graph

    constructor (graph: Graph)
      ensures this.graph == graph
    {
      this.graph := graph;
    }

    /**
     * `findPathLength`: the sum of the distances along the names of
     * `pathName` split at '-', or `None` (the source's `NoPathException`)
     * when a name is not a node or has no link to the next one.
     */
    method FindPathLength(pathName: string) returns (r: Option<int>)
      ensures r == RouteLength(graph.nodes, JavaSplit(pathName, '-'))
    {
      var nodes := JavaSplit(pathName, '-');
      var distance := 0;
      var i := 0;
      while i < |nodes| - 1
        invariant 0 <= i && (|nodes| > 0 ==> i < |nodes|)
        invariant |nodes| > 0 ==> RouteLength(graph.nodes, nodes[..i + 1]) == Some(distance)
        invariant |nodes| == 0 ==> distance == 0
      {
        assert nodes[..i + 2][..i + 1] == nodes[..i + 1];
        var node := GetNodeByName(graph.nodes, nodes[i]);
        if node.None? {
          RouteLengthFails(graph.nodes, nodes);
          assert Hop(graph.nodes, nodes[i], nodes[i + 1]).None?;
          return None;
        }
        var distanceTo := DistanceTo(node.value, nodes[i + 1]);
        if distanceTo == -1 {
          RouteLengthFails(graph.nodes, nodes);
          assert Hop(graph.nodes, nodes[i], nodes[i + 1]).None?;
          return None;
        }
        distance := distance + distanceTo;
        i := i + 1;
      }
      if |nodes| > 0 {
        assert nodes[..i + 1] == nodes;
      }
      return Some(distance);
    }
  
    /**
     * `getPaths`: the trips from `from` towards `to` of at most `maxSteps`
     * nodes, in the order of the depth-first search.
     */
    method GetPaths(from: string, to: string, maxSteps: int) returns (result: seq<seq<Node>>)
      requires Graphs.Unambiguous(graph.nodes)
      ensures result == HopTrips(graph.nodes, [], from, to, maxSteps)
      ensures forall p: seq<Node> :: p in result <==>
                1 <= |p| <= maxSteps && p[0].name == from && IsWalk(graph.nodes, p) && to in Last(p).links
      ensures NoRepeats(result)
    {
      var path := new Path();
      result := TripFinderByMaxSteps([], path, from, to, maxSteps);
      HopTripsNoRepeats(graph.nodes, [], from, to, maxSteps);
      forall p: seq<Node> | true {
        TripsFromStart(graph.nodes, from, to, maxSteps, p);
      }
    }

    /**
     * `tripFinderByMaxSteps`: appends to `result` the trips that extend the
     * current path through `from`, using `path` as a stack that it leaves
     * as it found it.
     */
    method TripFinderByMaxSteps(result: seq<seq<Node>>, path: Path, from: string, to: string, maxSteps: int)
      returns (res: seq<seq<Node>>)
      requires Graphs.Unambiguous(graph.nodes) && path.Valid() && CanExtend(graph.nodes, path.nodes, from)
      modifies path
      ensures path.nodes == old(path.nodes) && path.pathLength == old(path.pathLength)
      ensures res == result + HopTrips(graph.nodes, old(path.nodes), from, to, maxSteps)
      decreases if |path.nodes| <= maxSteps then maxSteps + 1 - |path.nodes| else 0, 1
    {
      ghost var g := graph.nodes;
      ghost var before := path.nodes;
      if path.Size() > maxSteps {
        assert HopTrips(g, before, from, to, maxSteps) == [];
        assert result + [] == result;
        return result;
      }
      res := result;
      if from == to && path.Size() > 0 {
        res := res + [path.nodes];
      }
      ghost var here: seq<seq<Node>> := if from == to && |before| > 0 then [before] else [];
      assert res == result + here;
      var node := GetNodeByName(graph.nodes, from);
      if node.None? {
        assert HopTrips(g, before, from, to, maxSteps) == here + [];
        assert here + [] == here;
        return;
      }
      HopTripsUnfold(g, before, from, to, maxSteps);
      res := DescendSteps(res, path, node.value, to, maxSteps);
      ghost var deeper := HopTripsFrom(g, before + [node.value], SortedKeys(node.value.links.Keys), to, maxSteps);
      AppendAssoc(result, here, deeper);
    }

    /**
     * The part of `tripFinderByMaxSteps` that pushes `node` onto `path`,
     * searches on through each of its links and pops it again.
     */
    method DescendSteps(result: seq<seq<Node>>, path: Path, node: Node, to: string, maxSteps: int)
      returns (res: seq<seq<Node>>)
      requires Graphs.Unambiguous(graph.nodes) && path.Valid() && CanExtend(graph.nodes, path.nodes, node.name)
      requires node.name in graph.nodes && node == NodeOf(graph.nodes, node.name) && |path.nodes| <= maxSteps
      modifies path
      ensures path.nodes == old(path.nodes) && path.pathLength == old(path.pathLength)
      ensures res == result + HopTripsFrom(graph.nodes, old(path.nodes) + [node], SortedKeys(node.links.Keys), to, maxSteps)
      decreases maxSteps + 1 - |path.nodes|, 0
    {
      ghost var g := graph.nodes;
      ghost var before := path.nodes;
      assert InGraph(g, before + [node]) by {
        assert forall i :: 0 <= i < |before| ==> (before + [node])[i] == before[i];
      }
      var ok := path.Add(node);
      assert ok by {
        if before != [] {
          assert Last(before).links == g[Last(before).name];
        }
      }
      var links := SortedKeys(node.links.Keys);
      res := TripsThroughLinks(result, path, links, to, maxSteps);
      ghost var current := path.nodes;
      path.Pop();
      assert current[..|before|] == before;
    }

    /** The loop of `tripFinderByMaxSteps` over the links of the node it has just added to `path`. */
    method TripsThroughLinks(result: seq<seq<Node>>, path: Path, links: seq<string>, to: string, maxSteps: int)
      returns (res: seq<seq<Node>>)
      requires Graphs.Unambiguous(graph.nodes) && path.Valid() && InGraph(graph.nodes, path.nodes) && |path.nodes| > 0
      requires forall k :: k in links ==> k in Last(path.nodes).links
      modifies path
      ensures path.nodes == old(path.nodes) && path.pathLength == old(path.pathLength)
      ensures res == result + HopTripsFrom(graph.nodes, old(path.nodes), links, to, maxSteps)
      decreases if |path.nodes| <= maxSteps + 1 then maxSteps + 1 - |path.nodes| else 0, 2
    {
      ghost var g := graph.nodes;
      ghost var current := path.nodes;
      res := result;
      for i := 0 to |links|
        invariant path.nodes == current && path.Valid()
        invariant res == result + HopTripsFrom(g, current, links[..i], to, maxSteps)
      {
        ghost var sofar := HopTripsFrom(g, current, links[..i], to, maxSteps);
        res := TripFinderByMaxSteps(res, path, links[i], to, maxSteps);
        ghost var more := HopTrips(g, current, links[i], to, maxSteps);
        AppendAssoc(result, sofar, more);
        HopTripsFromNext(g, current, links, i, to, maxSteps);
      }
      assert links[..|links|] == links;
    }

    /**
     * `getPathsUnder`: the trips from `from` to `to` shorter than
     * `maxLength`, in the order of the depth-first search.
     */
    method GetPathsUnder(from: string, to: string, maxLength: int) returns (result: seq<seq<Node>>)
      requires PositiveWeights(graph.nodes)
      ensures result == WeightTrips(graph.nodes, [], from, to, maxLength)
      ensures forall p: seq<Node> :: p in result <==>
                && |p| >= 2 && p[0].name == from && IsWalk(graph.nodes, p)
                && Last(p).name == to && Weight(p) < maxLength
      ensures NoRepeats(result)
    {
      var path := new Path();
      result := TripFinderByMaxLength([], path, from, to, maxLength);
      WeightTripsNoRepeats(graph.nodes, [], from, to, maxLength);
      forall p: seq<Node> | true {
        LightTripsFromStart(graph.nodes, from, to, maxLength, p);
      }
    }

    /**
     * `tripFinderByMaxLength`: appends to `result` the trips that extend the
     * current path through `from` while it stays shorter than `maxLength`,
     * leaving `path` as it found it.
     */
    method TripFinderByMaxLength(result: seq<seq<Node>>, path: Path, from: string, to: string, maxLength: int)
      returns (res: seq<seq<Node>>)
      requires PositiveWeights(graph.nodes) && path.Valid() && CanExtend(graph.nodes, path.nodes, from)
      modifies path
      ensures path.nodes == old(path.nodes) && path.pathLength == old(path.pathLength)
      ensures res == result + WeightTrips(graph.nodes, old(path.nodes), from, to, maxLength)
      decreases Budget(path.nodes, maxLength), 0
    {
      ghost var g := graph.nodes;
      ghost var before := path.nodes;
      var node := GetNodeByName(graph.nodes, from);
      if node.None? {
        assert WeightTrips(g, before, from, to, maxLength) == [];
        assert result + [] == result;
        return result;
      }
      res := result;
      ExtendWeight(g, before, from);
      var ok := path.Add(node.value);
      assert ok by {
        if before != [] {
          assert Last(before).links == g[Last(before).name];
        }
      }
      ghost var current := path.nodes;
      if path.GetPathLength() < maxLength {
        WeightTripsUnfold(g, before, from, to, maxLength);
        if path.Size() > 1 && from == to {
          res := res + [path.nodes];
        }
        ghost var here: seq<seq<Node>> := if |before| > 0 && from == to then [current] else [];
        assert res == result + here;
        var links := SortedKeys(node.value.links.Keys);
        res := TripsUnderLinks(res, path, links, to, maxLength);
        ghost var deeper := WeightTripsFrom(g, current, links, to, maxLength);
        AppendAssoc(result, here, deeper);
      } else {
        WeightTripsOverLimit(g, before, from, to, maxLength);
        assert result + [] == result;
      }
      path.Pop();
      assert current[..|before|] == before;
    }

    /** The loop of `tripFinderByMaxLength` over the links of the last node of `path`. */
    method TripsUnderLinks(result: seq<seq<Node>>, path: Path, links: seq<string>, to: string, maxLength: int)
      returns (res: seq<seq<Node>>)
      requires PositiveWeights(graph.nodes) && path.Valid() && InGraph(graph.nodes, path.nodes) && |path.nodes| > 0
      requires forall k :: k in links ==> k in Last(path.nodes).links
      requires Weight(path.nodes) < maxLength
      modifies path
      ensures path.nodes == old(path.nodes) && path.pathLength == old(path.pathLength)
      ensures res == result + WeightTripsFrom(graph.nodes, old(path.nodes), links, to, maxLength)
      decreases maxLength - Weight(path.nodes), 1
    {
      ghost var g := graph.nodes;
      ghost var current := path.nodes;
      res := result;
      for i := 0 to |links|
        invariant path.nodes == current && path.Valid()
        invariant res == result + WeightTripsFrom(g, current, links[..i], to, maxLength)
      {
        ghost var sofar := WeightTripsFrom(g, current, links[..i], to, maxLength);
        res := TripFinderByMaxLength(res, path, links[i], to, maxLength);
        ghost var more := WeightTrips(g, current, links[i], to, maxLength);
        AppendAssoc(result, sofar, more);
        WeightTripsFromNext(g, current, links, i, to, maxLength);
      }
      assert links[..|links|] == links;
    }

    /**
     * `shortestPath`: a best-first search over paths that repeat no node.
     * It returns a route from `from` to `to`, `None` (the source's `null`)
     * exactly when there is none, and under non-negative distances the
     * route it returns is as short as any. Following a link stored with
     * weight -1 makes `Path.add` throw, which comes back as `NotNeighbour`.
     */
    method ShortestPath(from: string, to: string) returns (r: Result<Option<seq<Node>>, GraphError>)
      requires IsValid(graph.nodes) && from in graph.nodes
      ensures r.Failure? ==> r.error == NotNeighbour && !Graphs.Unambiguous(graph.nodes)
      ensures Graphs.Unambiguous(graph.nodes) ==> r.Success?
      ensures r.Success? ==> (r.value.None? <==> forall p :: !IsRoute(graph.nodes, from, to, p))
      ensures r.Success? && r.value.Some? ==> IsRoute(graph.nodes, from, to, r.value.value)
      ensures r.Success? && r.value.Some? && NonNegativeWeights(graph.nodes) ==>
                forall p :: IsRoute(graph.nodes, from, to, p) ==> Weight(r.value.value) <= Weight(p)
    {
      ghost var g := graph.nodes;
      var found: seq<seq<Node>> := [];
      var first := GetNodeByName(graph.nodes, from);
      var paths: seq<seq<Node>> := [[first.value]];
      SearchStart(g, from, to);
      while true
        invariant paths != [] && SearchInvariant(g, from, to, paths, found)
        invariant forall p :: p in paths ==> Expandable(g, p)
        decreases FrontierPotential(g, to, paths)
      {
        var startPath := paths[0];
        ghost var prev, prevFound := paths, found;
        var children, reached, thrown := Expand(startPath, to);
        if thrown {
          ghost var k :| k in LinksOf(g, startPath) && AddThrows(startPath, to, k);
          AddThrowsSentinel(g, startPath, to, k);
          return Failure(NotNeighbour);
        }
        SearchStep(g, from, to, prev, prevFound);
        SearchStepDecreases(g, to, prev);
        paths := Sort(paths[1..] + children, ByLength);
        found := Sort(found + reached, ByLength);
        assert paths == NextPaths(g, to, prev) && found == NextFound(g, to, prev, prevFound);
        if paths == [] && found == [] {
          SearchExhausted(g, from, to);
          return Success(None);
        }
        if found != [] && (paths == [] || Weight(found[0]) - Weight(paths[0]) < 1) {
          SearchFound(g, from, to, paths, found);
          return Success(Some(found[0]));
        }
      }
    }

    /**
     * The loop of `shortestPath` over the links of the last node of
     * `startPath`: a link to `to` gives a found route, a link to a node not
     * yet on the path (`contains` compares names) gives a path to explore.
     */
    method Expand(startPath: seq<Node>, to: string)
      returns (children: seq<seq<Node>>, reached: seq<seq<Node>>, thrown: bool)
      requires IsValid(graph.nodes) && Expandable(graph.nodes, startPath)
      ensures thrown <==> exists k :: k in LinksOf(graph.nodes, startPath) && AddThrows(startPath, to, k)
      ensures !thrown ==> children == NewFrontier(graph.nodes, to, startPath, LinksOf(graph.nodes, startPath))
      ensures !thrown ==> reached == NewFound(graph.nodes, to, startPath, LinksOf(graph.nodes, startPath))
    {
      var node := GetNodeByName(graph.nodes, Last(startPath).name);
      var links := SortedKeys(node.value.links.Keys);
      assert links == LinksOf(graph.nodes, startPath);
      children, reached, thrown := [], [], false;
      for i := 0 to |links|
        invariant children == NewFrontier(graph.nodes, to, startPath, links[..i])
        invariant reached == NewFound(graph.nodes, to, startPath, links[..i])
        invariant forall j :: 0 <= j < i ==> !AddThrows(startPath, to, links[j])
      {
        var nodeName := links[i];
        var toNode := GetNodeByName(graph.nodes, nodeName);
        assert links[..i + 1][..i] == links[..i];
        if nodeName !in NameSet(startPath) || nodeName == to {
          if DistanceTo(Last(startPath), nodeName) == -1 {
            assert AddThrows(startPath, to, links[i]);
            return children, reached, true;
          }
          var path := startPath + [toNode.value];
          if nodeName == to {
            reached := reached + [path];
          } else {
            children := children + [path];
          }
        }
      }
      assert links[..|links|] == links;
    }

    /**
     * `getPathsExact`: the trips of `getPaths` with at most `exact` nodes
     * that have exactly `exact` nodes, in their order.
     */
    method GetPathsExact(from: string, to: string, exact: int) returns (result: seq<seq<Node>>)
      requires Graphs.Unambiguous(graph.nodes)
      ensures result == WithSize(HopTrips(graph.nodes, [], from, to, exact), exact)
      ensures forall p: seq<Node> :: p in result <==>
                1 <= |p| == exact && p[0].name == from && IsWalk(graph.nodes, p) && to in Last(p).links
      ensures NoRepeats(result)
    {
      var paths := GetPaths(from, to, exact);
      result := [];
      for i := 0 to |paths|
        invariant result == WithSize(paths[..i], exact)
      {
        if |paths[i]| == exact {
          result := result + [paths[i]];
        }
        assert paths[..i + 1][..i] == paths[..i];
      }
      assert paths[..|paths|] == paths;
      ExactTrips(graph.nodes, from, to, exact);
    }
  }

  /** Concatenation is associative. */
  lemma AppendAssoc<T>(a: seq<T>, b: seq<T>, c: seq<T>)
    ensures a + b + c == a + (b + c)
  {
  }
}
