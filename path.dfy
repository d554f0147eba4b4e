/**
 * A path: a sequence of nodes in which each node has a link to the next,
 * together with a cumulative length kept up to date as nodes are added and
 * removed at the end.
 */
module Paths {
  import opened Text
  import opened Nodes

  /** Each node of `s` knows a distance to the node after it. */
  predicate Linked(s: seq<Node>)
  {
    forall i :: 0 <= i < |s| - 1 ==> DistanceTo(s[i], s[i + 1].name) != -1
  }

  /** The length of a node sequence: the sum of the distances between neighbours. */
  function Weight(s: seq<Node>): int
  {
    if |s| <= 1 then 0 else Weight(s[..|s| - 1]) + DistanceTo(s[|s| - 2], s[|s| - 1].name)
  }

  function Last(s: seq<Node>): Node
    requires |s| > 0
  {
    s[|s| - 1]
  }

  /** Every distance along `s` is non-negative. */
  predicate NonNegativeSteps(s: seq<Node>)
  {
    forall i :: 0 <= i < |s| - 1 ==> DistanceTo(s[i], s[i + 1].name) >= 0
  }

  /** Appending a node adds the distance from the former last node. */
  lemma WeightAppend(s: seq<Node>, n: Node)
    requires |s| > 0
    ensures Weight(s + [n]) == Weight(s) + DistanceTo(Last(s), n.name)
  {
    assert (s + [n])[..|s|] == s;
  }

  lemma InitSlices<T>(s: seq<T>, k: nat)
    requires k < |s| - 1
    ensures s[..|s| - 1][..k + 1] == s[..k + 1]
    ensures s[..|s| - 1][k..] + [s[|s| - 1]] == s[k..]
  {
  }

  /** Cutting a sequence at a shared node splits its length. */
  lemma {:induction false} WeightSplit(s: seq<Node>, k: nat)
    requires k < |s|
    ensures Weight(s) == Weight(s[..k + 1]) + Weight(s[k..])
    decreases |s|
  {
    if |s| - 1 > k {
      var init := s[..|s| - 1];
      WeightSplit(init, k);
      InitSlices(s, k);
      WeightAppend(init[k..], s[|s| - 1]);
    } else {
      assert s[..k + 1] == s;
    }
  }

  /** With non-negative distances, length never decreases along a sequence. */
  lemma {:induction false} WeightPrefixMonotone(s: seq<Node>, k: nat)
    requires NonNegativeSteps(s) && 0 < k <= |s|
    ensures 0 <= Weight(s[..k]) <= Weight(s)
    decreases |s|
  {
    if k < |s| {
      var init := s[..|s| - 1];
      assert init[..k] == s[..k];
      WeightPrefixMonotone(init, k);
      if |init| > 1 {
        WeightPrefixMonotone(init, |init|);
        assert init[..|init|] == init;
      }
    } else {
      assert s[..k] == s;
      if |s| > 1 {
        WeightPrefixMonotone(s[..|s| - 1], |s| - 1);
        assert s[..|s| - 1][..|s| - 1] == s[..|s| - 1];
      }
    }
  }

  class Path {
    var nodes: seq<Node>
    var pathLength: int

    /** The stored length is the sum of the distances between consecutive nodes. */
    ghost predicate Valid()
      reads this
    {
      Linked(nodes) && pathLength == Weight(nodes)
    }

    /** An empty path of length 0. */
    constructor ()
      ensures nodes == [] && pathLength == 0 && Valid()
    {
      nodes := [];
      pathLength := 0;
    }

    /** A new path with the nodes and length of `other`. */
    constructor Copy(other: Path)
      ensures nodes == other.nodes && pathLength == other.pathLength
      ensures other.Valid() ==> Valid()
    {
      nodes := other.nodes;
      pathLength := other.pathLength;
    }

    /** `getPathLength`: on a valid path, the sum of the distances between its nodes. */
    function GetPathLength(): (r: int)
      reads this
      ensures Valid() ==> r == Weight(nodes)
    {
      pathLength
    }

    /** `size`: the number of nodes. */
    function Size(): (r: nat)
      reads this
      ensures r == |nodes|
    {
      |nodes|
    }

    /** `getLast`: the node added most recently. */
    function GetLast(): (r: Node)
      reads this
      requires |nodes| > 0
      ensures r in nodes && r == nodes[|nodes| - 1]
    {
      nodes[|nodes| - 1]
    }

    /**
     * `add`: appends `node` when the path is empty or the last node knows a
     * distance to it, adding that distance to the length; otherwise the
     * source throws, which `ok == false` stands for, and nothing changes.
     */
    method Add(node: Node) returns (ok: bool)
      modifies this
      ensures ok <==> old(nodes) == [] || DistanceTo(Last(old(nodes)), node.name) != -1
      ensures ok ==> nodes == old(nodes) + [node]
      ensures ok ==>
                (pathLength == old(pathLength) +
                 (if old(nodes) == [] then 0 else DistanceTo(Last(old(nodes)), node.name)))
      ensures !ok ==> nodes == old(nodes) && pathLength == old(pathLength)
      ensures old(Valid()) ==> Valid()
    {
      if nodes != [] {
        var distance := DistanceTo(GetLast(), node.name);
        if distance == -1 {
          return false;
        }
        WeightAppend(nodes, node);
        pathLength := pathLength + distance;
      }
      nodes := nodes + [node];
      return true;
    }

    /**
     * `pop`: removes the last node and subtracts the distance from the new
     * last node to it; on an empty path it does nothing.
     */
    method Pop()
      modifies this
      ensures old(nodes) == [] ==> nodes == [] && pathLength == old(pathLength)
      ensures old(nodes) != [] ==> nodes == old(nodes)[..|old(nodes)| - 1]
      ensures old(nodes) != [] ==>
                (pathLength == old(pathLength) -
                 (if |old(nodes)| > 1 then DistanceTo(old(nodes)[|old(nodes)| - 2], Last(old(nodes)).name) else 0))
      ensures old(Valid()) ==> Valid()
    {
      if nodes == [] {
        return;
      }
      var node := nodes[|nodes| - 1];
      nodes := nodes[..|nodes| - 1];
      if nodes != [] {
        pathLength := pathLength - DistanceTo(GetLast(), node.name);
      }
    }

    /** `contains`: a node of the path equals `node`, that is, has its name. */
    method Contains(node: Node) returns (found: bool)
      ensures found <==> exists i :: 0 <= i < |nodes| && Equals(nodes[i], node)
    {
      for i := 0 to |nodes|
        invariant forall j :: 0 <= j < i ==> !Equals(nodes[j], node)
      {
        if Equals(nodes[i], node) {
          return true;
        }
      }
      return false;
    }

    /**
     * `compareTo`: the difference of the two lengths in 32-bit arithmetic;
     * for lengths within the non-negative `int` range its sign orders the
     * paths by length.
     */
    function CompareTo(o: Path): (r: int)
      reads this, o
      ensures 0 <= pathLength <= MaxInt32 && 0 <= o.pathLength <= MaxInt32 ==>
                && (r < 0 <==> pathLength < o.pathLength)
                && (r == 0 <==> pathLength == o.pathLength)
                && (r > 0 <==> pathLength > o.pathLength)
    {
      Wrap32(pathLength - o.pathLength)
    }
  }

  /** `add` followed by `pop`, as the trip finders use them, leaves a valid path exactly as it was. */
  method AddThenPop(p: Path, node: Node) returns (ok: bool)
    requires p.Valid()
    modifies p
    ensures p.Valid() && p.nodes == old(p.nodes) && p.pathLength == old(p.pathLength)
  {
    ok := p.Add(node);
    if ok {
      p.Pop();
      assert (old(p.nodes) + [node])[..|old(p.nodes)|] == old(p.nodes);
    }
  }
}
