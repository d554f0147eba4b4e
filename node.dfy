/**
 * A node of the route graph: a one-character name and the weighted links
 * leaving it. The source's node also keeps a reference to its owning graph,
 * used only to check validity; here the graph's node map is passed in
 * instead, so the reference cycle disappears.
 */
module Nodes {
  import opened Text

  /** Neighbour name to link weight. */
  type Links = map<string, int>

  /** A graph's node map: node name to the links leaving that node. */
  type NodeMap = map<string, Links>

  datatype Node = Node(name: string, links: Links)

  /** `distanceTo`: the stored weight of the link to `to`, or -1 when there is none. */
  function DistanceTo(n: Node, to: string): int
  {
    if to !in n.links then -1 else n.links[to]
  }

  /** `hasLink`: whether `to` is a key of the links. */
  predicate HasLink(n: Node, to: string)
  {
    to in n.links
  }

  /** `addLink`: the node with the link to `to` set to weight `w`, added or overwritten. */
  function AddLink(n: Node, to: string, w: int): (r: Node)
    ensures r.name == n.name && r.links.Keys == n.links.Keys + {to}
    ensures DistanceTo(r, to) == w
    ensures forall k :: k != to ==> DistanceTo(r, k) == DistanceTo(n, k)
  {
    Node(n.name, n.links[to := w])
  }

  /** No stored weight collides with the -1 that `distanceTo` returns for a missing link. */
  predicate Unambiguous(n: Node)
  {
    forall k :: k in n.links ==> n.links[k] != -1
  }

  /** -1 comes back exactly for a missing link or a link stored with weight -1; otherwise the weight. */
  lemma DistanceToSentinel(n: Node, to: string)
    ensures DistanceTo(n, to) == -1 <==> (to !in n.links || n.links[to] == -1)
    ensures to in n.links ==> DistanceTo(n, to) == n.links[to]
  {
  }

  /** With no -1 weight stored, `hasLink` and `distanceTo(n) != -1` agree. */
  lemma HasLinkIffDistanceKnown(n: Node, to: string)
    requires Unambiguous(n)
    ensures HasLink(n, to) <==> DistanceTo(n, to) != -1
  {
  }

  /** `isValid`: every link target is a node of the owning graph. */
  predicate IsValidIn(n: Node, g: NodeMap)
  {
    forall t :: t in n.links ==> t in g
  }

  /** The loop of `isValid`, over the link targets, returning at the first dangling one. */
  method CheckValidIn(n: Node, g: NodeMap) returns (valid: bool)
    ensures valid <==> IsValidIn(n, g)
    ensures !valid ==> exists t :: t in n.links && t !in g
  {
    var targets := SortedKeys(n.links.Keys);
    for i := 0 to |targets|
      invariant forall j :: 0 <= j < i ==> targets[j] in g
    {
      if targets[i] !in g {
        return false;
      }
    }
    return true;
  }

  /** `equals`: nodes are equal when their names are. */
  predicate Equals(a: Node, b: Node)
  {
    a.name == b.name
  }

  /** `hashCode`: the hash of the name. */
  function HashCode(n: Node): (h: int)
    ensures MinInt32 <= h <= MaxInt32
  {
    StringHash(n.name)
  }

  /** `equals` is an equivalence that ignores the links, and `hashCode` agrees with it. */
  lemma EqualsByName(a: Node, b: Node, c: Node)
    ensures Equals(a, a)
    ensures Equals(a, b) ==> Equals(b, a)
    ensures Equals(a, b) && Equals(b, c) ==> Equals(a, c)
    ensures Equals(a, b) <==> Equals(Node(a.name, b.links), b)
    ensures Equals(a, b) ==> HashCode(a) == HashCode(b)
  {
  }
}
