/**
 * What `shortestPath` relies on: sorting lists of paths by length, the
 * paths one expansion step adds to the frontier and to the found list, the
 * routes the search must not miss, and why it stops.
 */
module Shortest {
  import opened Text
  import opened Nodes
  import opened Paths
  import opened Graphs
  import opened Routes

  // -----------------------------------------------------------------------
  // Collections.sort on paths, ordered by compareTo (their lengths)
  // -----------------------------------------------------------------------

  /** `ps` is in ascending order of `key`. */
  predicate SortedBy<T>(ps: seq<T>, key: T -> int)
  {
    forall i, j :: 0 <= i < j < |ps| ==> key(ps[i]) <= key(ps[j])
  }

  /** Inserts `x` after every element of `ps` whose key is not larger. */
  function Insert<T>(x: T, ps: seq<T>, key: T -> int): (r: seq<T>)
    ensures multiset(r) == multiset(ps) + multiset{x}
  {
    if ps == [] then [x]
    else if key(x) < key(ps[0]) then [x] + ps
    else
      assert ps == [ps[0]] + ps[1..];
      [ps[0]] + Insert(x, ps[1..], key)
  }

  /** Inserting into a sorted list keeps it sorted. */
  lemma {:induction false} InsertSorted<T>(x: T, ps: seq<T>, key: T -> int)
    requires SortedBy(ps, key)
    ensures SortedBy(Insert(x, ps, key), key)
  {
    if ps != [] && key(x) >= key(ps[0]) {
      var rest := Insert(x, ps[1..], key);
      InsertSorted(x, ps[1..], key);
      forall y | y in rest ensures key(ps[0]) <= key(y) {
        assert y in multiset(rest);
        if y != x {
          var k :| 0 <= k < |ps[1..]| && ps[1..][k] == y;
          assert ps[k + 1] == y;
        }
      }
      assert Insert(x, ps, key) == [ps[0]] + rest;
    }
  }

  /**
   * A stable sort by `key`: each element goes after the earlier ones whose
   * key is not larger, as Java's merge sort leaves equal elements in order.
   */
  function Sort<T>(ps: seq<T>, key: T -> int): (r: seq<T>)
    ensures multiset(r) == multiset(ps)
  {
    if ps == [] then []
    else
      assert ps == ps[..|ps| - 1] + [ps[|ps| - 1]];
      Insert(ps[|ps| - 1], Sort(ps[..|ps| - 1], key), key)
  }

  lemma {:induction false} SortSorted<T>(ps: seq<T>, key: T -> int)
    ensures SortedBy(Sort(ps, key), key)
  {
    if ps != [] {
      SortSorted(ps[..|ps| - 1], key);
      InsertSorted(ps[|ps| - 1], Sort(ps[..|ps| - 1], key), key);
    }
  }

  /** The sum of `f` over `ps`. */
  function Sum<T>(ps: seq<T>, f: T --> nat): nat
    requires forall p :: p in ps ==> f.requires(p)
  {
    if ps == [] then 0 else f(ps[0]) + Sum(ps[1..], f)
  }

  lemma SumSingle<T>(x: T, f: T --> nat)
    requires f.requires(x)
    ensures Sum([x], f) == f(x)
  {
    assert [x][1..] == [];
  }

  lemma {:induction false} SumConcat<T>(a: seq<T>, b: seq<T>, f: T --> nat)
    requires forall p :: p in a ==> f.requires(p)
    requires forall p :: p in b ==> f.requires(p)
    ensures forall p :: p in a + b ==> f.requires(p)
    ensures Sum(a + b, f) == Sum(a, f) + Sum(b, f)
  {
    if a != [] {
      SumConcat(a[1..], b, f);
      assert (a + b)[1..] == a[1..] + b;
    } else {
      assert a + b == b;
    }
  }

  lemma {:induction false} SumInsert<T>(x: T, ps: seq<T>, key: T -> int, f: T --> nat)
    requires f.requires(x) && forall p :: p in ps ==> f.requires(p)
    ensures forall p :: p in Insert(x, ps, key) ==> f.requires(p)
    ensures Sum(Insert(x, ps, key), f) == f(x) + Sum(ps, f)
  {
    var r := Insert(x, ps, key);
    forall y | y in r ensures f.requires(y) {
      assert y in multiset(r);
    }
    if ps != [] && key(x) >= key(ps[0]) {
      SumInsert(x, ps[1..], key, f);
    } else if ps != [] {
      assert r[1..] == ps;
    }
  }

  /** Sorting does not change a sum. */
  lemma {:induction false} SumSort<T>(ps: seq<T>, key: T -> int, f: T --> nat)
    requires forall p :: p in ps ==> f.requires(p)
    ensures forall p :: p in Sort(ps, key) ==> f.requires(p)
    ensures Sum(Sort(ps, key), f) == Sum(ps, f)
  {
    if ps != [] {
      var n := |ps| - 1;
      assert ps[..n] + [ps[n]] == ps;
      SumSort(ps[..n], key, f);
      SumInsert(ps[n], Sort(ps[..n], key), key, f);
      SumConcat(ps[..n], [ps[n]], f);
    }
  }

  /** Paths ordered by `compareTo`, that is, by length. */
  function ByLength(p: seq<Node>): int
  {
    Weight(p)
  }

  // -----------------------------------------------------------------------
  // One expansion step
  // -----------------------------------------------------------------------

  /** The names on a path; `contains` compares nodes by name. */
  function NameSet(p: seq<Node>): set<string>
  {
    set n | n in p :: n.name
  }

  lemma NameSetAppend(p: seq<Node>, x: Node)
    ensures NameSet(p + [x]) == NameSet(p) + {x.name}
  {
    assert forall n :: n in p + [x] <==> n in p || n == x;
  }

  /**
   * The paths the loop over the links `ks` of the last node of `p` appends
   * to the frontier: one per link that is not `to` and not yet on `p`.
   */
  function NewFrontier(g: NodeMap, to: string, p: seq<Node>, ks: seq<string>): seq<seq<Node>>
    requires forall k :: k in ks ==> k in g
  {
    if ks == [] then []
    else
      var k := ks[|ks| - 1];
      NewFrontier(g, to, p, ks[..|ks| - 1]) +
      (if k != to && k !in NameSet(p) then [p + [NodeOf(g, k)]] else [])
  }

  /** The paths the same loop appends to the found list: one per link to `to`. */
  function NewFound(g: NodeMap, to: string, p: seq<Node>, ks: seq<string>): seq<seq<Node>>
    requires forall k :: k in ks ==> k in g
  {
    if ks == [] then []
    else
      var k := ks[|ks| - 1];
      NewFound(g, to, p, ks[..|ks| - 1]) + (if k == to then [p + [NodeOf(g, k)]] else [])
  }

  lemma {:induction false} NewFrontierMembers(g: NodeMap, to: string, p: seq<Node>, ks: seq<string>)
    requires forall k :: k in ks ==> k in g
    ensures forall c :: c in NewFrontier(g, to, p, ks) <==>
              exists k :: k in ks && k != to && k !in NameSet(p) && c == p + [NodeOf(g, k)]
  {
    if ks != [] {
      NewFrontierMembers(g, to, p, ks[..|ks| - 1]);
      assert ks == ks[..|ks| - 1] + [ks[|ks| - 1]];
    }
  }

  lemma {:induction false} NewFoundMembers(g: NodeMap, to: string, p: seq<Node>, ks: seq<string>)
    requires forall k :: k in ks ==> k in g
    ensures forall c :: c in NewFound(g, to, p, ks) <==> to in ks && c == p + [NodeOf(g, to)]
  {
    if ks != [] {
      NewFoundMembers(g, to, p, ks[..|ks| - 1]);
      assert ks == ks[..|ks| - 1] + [ks[|ks| - 1]];
    }
  }

  lemma {:induction false} NewFrontierHas(g: NodeMap, to: string, p: seq<Node>, ks: seq<string>, k: string)
    requires forall k :: k in ks ==> k in g
    requires k in ks && k != to && k !in NameSet(p)
    ensures p + [NodeOf(g, k)] in NewFrontier(g, to, p, ks)
  {
    if ks[|ks| - 1] != k {
      assert ks == ks[..|ks| - 1] + [ks[|ks| - 1]];
      NewFrontierHas(g, to, p, ks[..|ks| - 1], k);
    }
  }

  lemma {:induction false} NewFoundHas(g: NodeMap, to: string, p: seq<Node>, ks: seq<string>)
    requires forall k :: k in ks ==> k in g
    requires to in ks
    ensures p + [NodeOf(g, to)] in NewFound(g, to, p, ks)
  {
    if ks[|ks| - 1] != to {
      assert ks == ks[..|ks| - 1] + [ks[|ks| - 1]];
      NewFoundHas(g, to, p, ks[..|ks| - 1]);
    }
  }

  // -----------------------------------------------------------------------
  // Frontier paths, found routes and the routes the search must cover
  // -----------------------------------------------------------------------

  /** A route: a walk of at least two nodes from `from` to `to`. */
  ghost predicate IsRoute(g: NodeMap, from: string, to: string, p: seq<Node>)
  {
    |p| >= 2 && p[0].name == from && IsWalk(g, p) && Last(p).name == to
  }

  predicate DistinctNames(p: seq<Node>)
  {
    forall i, j :: 0 <= i < j < |p| ==> p[i].name != p[j].name
  }

  /** No node strictly inside `p` is `to`. */
  predicate AvoidsInside(p: seq<Node>, to: string)
  {
    forall i :: 0 < i < |p| - 1 ==> p[i].name != to
  }

  /** A route that repeats no node before its end and meets `to` only there. */
  ghost predicate Candidate(g: NodeMap, from: string, to: string, t: seq<Node>)
  {
    IsRoute(g, from, to, t) && DistinctNames(t[..|t| - 1]) && AvoidsInside(t, to)
  }

  /** A frontier path: a walk from `from` that repeats no node and leaves `to` behind. */
  ghost predicate Frontier(g: NodeMap, from: string, to: string, p: seq<Node>)
  {
    && |p| >= 1 && p[0].name == from && IsWalk(g, p) && DistinctNames(p)
    && forall i :: 0 < i < |p| ==> p[i].name != to
  }

  /** `t` is found already or still reachable from a frontier path that is a proper prefix of it. */
  ghost predicate Covered(t: seq<Node>, paths: seq<seq<Node>>, found: seq<seq<Node>>)
  {
    t in found || exists q :: q in paths && |q| < |t| && t[..|q|] == q
  }

  /** The children of a frontier path are frontier paths, and the paths it adds to the found list are routes. */
  lemma ChildrenShape(g: NodeMap, from: string, to: string, p: seq<Node>, ks: seq<string>)
    requires IsValid(g) && Frontier(g, from, to, p)
    requires forall k :: k in ks ==> k in g[Last(p).name]
    ensures forall k :: k in ks ==> k in g
    ensures forall c :: c in NewFrontier(g, to, p, ks) ==> Frontier(g, from, to, c)
    ensures forall c :: c in NewFound(g, to, p, ks) ==> IsRoute(g, from, to, c)
  {
    IsValidIff(g);
    NewFrontierMembers(g, to, p, ks);
    NewFoundMembers(g, to, p, ks);
    forall c: seq<Node> | c in NewFrontier(g, to, p, ks) ensures Frontier(g, from, to, c) {
      var k :| k in ks && k != to && k !in NameSet(p) && c == p + [NodeOf(g, k)];
      Extend(g, p, k);
      forall i: int, j: int | 0 <= i < j < |c| ensures c[i].name != c[j].name {
        if j == |p| {
          assert c[i] in p;
        } else {
          assert c[i] == p[i] && c[j] == p[j];
        }
      }
    }
    forall c: seq<Node> | c in NewFound(g, to, p, ks) ensures IsRoute(g, from, to, c) {
      Extend(g, p, to);
    }
  }

  /** Appending a link target of the last node keeps a walk a walk. */
  lemma Extend(g: NodeMap, p: seq<Node>, k: string)
    requires IsValid(g) && |p| > 0 && IsWalk(g, p) && k in g[Last(p).name]
    ensures k in g && IsWalk(g, p + [NodeOf(g, k)])
  {
    IsValidIff(g);
    assert Last(p).links == g[Last(p).name];
  }

  /** The node after a frontier prefix of a candidate is a link of its last node. */
  lemma NextStep(g: NodeMap, p: seq<Node>, t: seq<Node>)
    requires IsValid(g) && |p| > 0 && IsWalk(g, t) && |p| < |t| && t[..|p|] == p
    ensures t[|p|].name in SortedKeys(g[Last(p).name].Keys)
    ensures t[|p|].name in g && t[..|p| + 1] == p + [NodeOf(g, t[|p|].name)]
  {
    assert t[|p| - 1] == Last(p);
  }

  /**
   * A candidate that continues a frontier path `p` either ends right after
   * it, and is among the routes the expansion of `p` finds, or continues
   * through one of the children of `p`.
   */
  lemma ChildCovers(g: NodeMap, from: string, to: string, p: seq<Node>, t: seq<Node>)
    requires IsValid(g) && Frontier(g, from, to, p)
    requires Candidate(g, from, to, t) && |p| < |t| && t[..|p|] == p
    ensures forall k :: k in SortedKeys(g[Last(p).name].Keys) ==> k in g
    ensures var ks := SortedKeys(g[Last(p).name].Keys);
            || t in NewFound(g, to, p, ks)
            || exists c :: c in NewFrontier(g, to, p, ks) && |c| < |t| && t[..|c|] == c
  {
    var ks := SortedKeys(g[Last(p).name].Keys);
    IsValidIff(g);
    NextStep(g, p, t);
    var k := t[|p|].name;
    if k == to {
      assert t == t[..|p| + 1];
      NewFoundHas(g, to, p, ks);
    } else {
      ChildAvoidsPath(p, t, k);
      NewFrontierHas(g, to, p, ks, k);
    }
  }

  /** The node after a prefix of a candidate, unless it is the last one, is not on the prefix. */
  lemma ChildAvoidsPath(p: seq<Node>, t: seq<Node>, k: string)
    requires |p| < |t| - 1 && t[..|p|] == p && DistinctNames(t[..|t| - 1]) && k == t[|p|].name
    ensures k !in NameSet(p)
  {
    forall x | x in p ensures x.name != k {
      var i :| 0 <= i < |p| && p[i] == x;
      assert t[..|t| - 1][i] == x && t[..|t| - 1][|p|] == t[|p|];
    }
  }

  /**
   * Expanding the first frontier path keeps every candidate route covered:
   * its children and the routes it reaches replace it.
   */
  lemma CoverageStep(g: NodeMap, from: string, to: string, paths: seq<seq<Node>>, found: seq<seq<Node>>, t: seq<Node>)
    requires IsValid(g) && |paths| > 0 && Frontier(g, from, to, paths[0])
    requires Candidate(g, from, to, t) && Covered(t, paths, found)
    ensures forall k :: k in SortedKeys(g[Last(paths[0]).name].Keys) ==> k in g
    ensures var p, ks := paths[0], SortedKeys(g[Last(paths[0]).name].Keys);
            Covered(t, paths[1..] + NewFrontier(g, to, p, ks), found + NewFound(g, to, p, ks))
  {
    var p := paths[0];
    var ks := SortedKeys(g[Last(p).name].Keys);
    IsValidIff(g);
    if t !in found {
      var q :| q in paths && |q| < |t| && t[..|q|] == q;
      if q != p {
        assert paths == [p] + paths[1..];
        assert q in paths[1..];
      } else {
        ChildCovers(g, from, to, p, t);
      }
    }
  }

  /** Coverage depends only on which paths the two lists hold. */
  lemma CoveredPermutation(t: seq<Node>, a: seq<seq<Node>>, b: seq<seq<Node>>, a': seq<seq<Node>>, b': seq<seq<Node>>)
    requires Covered(t, a, b) && multiset(a') == multiset(a) && multiset(b') == multiset(b)
    ensures Covered(t, a', b')
  {
    if t in b {
      assert t in multiset(b');
    } else {
      var q :| q in a && |q| < |t| && t[..|q|] == q;
      assert q in multiset(a');
    }
  }

  // -----------------------------------------------------------------------
  // Every route can be shortened to a candidate
  // -----------------------------------------------------------------------

  /** Cutting a route at the first inner visit of `to` leaves a route that avoids `to` inside. */
  lemma {:induction false} CutAtTarget(g: NodeMap, from: string, to: string, r: seq<Node>)
    requires IsRoute(g, from, to, r)
    ensures exists t :: IsRoute(g, from, to, t) && AvoidsInside(t, to) && |t| <= |r| && t == r[..|t|]
  {
    if AvoidsInside(r, to) {
      assert r == r[..|r|];
    } else {
      var i :| 0 < i < |r| - 1 && r[i].name == to;
      var r' := r[..i + 1];
      assert IsWalk(g, r') by {
        assert forall j :: 0 <= j < |r'| ==> r'[j] == r[j];
      }
      CutAtTarget(g, from, to, r');
      var t :| IsRoute(g, from, to, t) && AvoidsInside(t, to) && |t| <= |r'| && t == r'[..|t|];
      assert t == r[..|t|];
    }
  }

  /** The slices `WeightSkip` cuts a sequence into. */
  lemma SkipSlices<T>(s: seq<T>, i: nat, j: nat)
    requires i <= j < |s| && s[i] == s[j]
    ensures (s[..i] + s[j..])[..i + 1] == s[..i + 1] && (s[..i] + s[j..])[i..] == s[j..]
  {
  }

  lemma PrefixSlices<T>(s: seq<T>, i: nat, j: nat)
    requires i <= j < |s|
    ensures s[..j + 1][..i + 1] == s[..i + 1] && s[..j + 1][i..] == s[i..j + 1]
  {
  }

  /** Skipping the part between two visits of the same node takes its length off. */
  lemma WeightSkip(s: seq<Node>, i: nat, j: nat)
    requires i <= j < |s| && s[i] == s[j]
    ensures Weight(s) == Weight(s[..i] + s[j..]) + Weight(s[i..j + 1])
  {
    WeightAfterSkip(s, i, j);
    WeightOfPrefix(s, i, j);
    WeightSplit(s, j);
  }

  lemma WeightAfterSkip(s: seq<Node>, i: nat, j: nat)
    requires i <= j < |s| && s[i] == s[j]
    ensures Weight(s[..i] + s[j..]) == Weight(s[..i + 1]) + Weight(s[j..])
  {
    SkipSlices(s, i, j);
    WeightSplit(s[..i] + s[j..], i);
  }

  lemma WeightOfPrefix(s: seq<Node>, i: nat, j: nat)
    requires i <= j < |s|
    ensures Weight(s[..j + 1]) == Weight(s[..i + 1]) + Weight(s[i..j + 1])
  {
    PrefixSlices(s, i, j);
    WeightSplit(s[..j + 1], i);
  }

  /** Any stretch of a walk is a walk. */
  lemma WalkSlice(g: NodeMap, p: seq<Node>, i: nat, j: nat)
    requires IsWalk(g, p) && i <= j <= |p|
    ensures IsWalk(g, p[i..j])
  {
    assert forall k :: 0 <= k < j - i ==> p[i..j][k] == p[i + k];
  }

  /** Dropping a loop between two visits of the same node keeps a route that avoids `to` inside. */
  lemma DropLoopRoute(g: NodeMap, from: string, to: string, r: seq<Node>, i: nat, j: nat)
    requires IsRoute(g, from, to, r) && AvoidsInside(r, to)
    requires i < j < |r| - 1 && r[i].name == r[j].name
    ensures var s := r[..i] + r[j..];
            IsRoute(g, from, to, s) && AvoidsInside(s, to) && |s| < |r|
  {
    var s := r[..i] + r[j..];
    assert r[i] == r[j];
    assert forall k :: 0 <= k < i ==> s[k] == r[k];
    assert forall k :: i <= k < |s| ==> s[k] == r[j + (k - i)];
    assert Steps(s) by {
      forall k | 0 <= k < |s| - 1 ensures s[k + 1].name in s[k].links {
        if k + 1 == i {
          assert s[k] == r[k] && s[k + 1] == r[j] && r[j].name == r[k + 1].name;
        }
      }
    }
    assert s[0].name == from by {
      if i == 0 { assert s[0] == r[j]; }
    }
    assert Last(s) == Last(r);
  }

  /** Dropping a loop from a route that avoids `to` inside keeps such a route, no longer when no weight is negative. */
  lemma DropLoop(g: NodeMap, from: string, to: string, r: seq<Node>, i: nat, j: nat)
    requires IsRoute(g, from, to, r) && AvoidsInside(r, to)
    requires i < j < |r| - 1 && r[i].name == r[j].name
    ensures var s := r[..i] + r[j..];
            && IsRoute(g, from, to, s) && AvoidsInside(s, to) && |s| < |r|
            && (NonNegativeWeights(g) ==> Weight(s) <= Weight(r))
  {
    DropLoopRoute(g, from, to, r, i, j);
    if NonNegativeWeights(g) {
      assert r[i] == r[j];
      WeightSkip(r, i, j);
      WalkSlice(g, r, i, j + 1);
      WalkWeightNonNegative(g, r[i..j + 1]);
    }
  }

  /** Removing repeated nodes from a route that avoids `to` inside leaves a candidate no longer than it. */
  lemma {:induction false} DropLoops(g: NodeMap, from: string, to: string, r: seq<Node>)
    requires IsRoute(g, from, to, r) && AvoidsInside(r, to)
    ensures exists t :: Candidate(g, from, to, t) && (NonNegativeWeights(g) ==> Weight(t) <= Weight(r))
    decreases |r|
  {
    if DistinctNames(r[..|r| - 1]) {
      assert Candidate(g, from, to, r);
    } else {
      var i, j :| 0 <= i < j < |r| - 1 && r[..|r| - 1][i].name == r[..|r| - 1][j].name;
      DropLoop(g, from, to, r, i, j);
      DropLoops(g, from, to, r[..i] + r[j..]);
    }
  }

  /** Every route from `from` to `to` can be shortened to a candidate route that is no longer. */
  lemma RouteShortcut(g: NodeMap, from: string, to: string, r: seq<Node>)
    requires IsRoute(g, from, to, r)
    ensures exists t :: Candidate(g, from, to, t) && (NonNegativeWeights(g) ==> Weight(t) <= Weight(r))
  {
    CutAtTarget(g, from, to, r);
    var c :| IsRoute(g, from, to, c) && AvoidsInside(c, to) && |c| <= |r| && c == r[..|c|];
    DropLoops(g, from, to, c);
    if NonNegativeWeights(g) {
      WalkNonNegative(g, r);
      WeightPrefixMonotone(r, |c|);
    }
  }

  // -----------------------------------------------------------------------
  // What the loop state says about the answer
  // -----------------------------------------------------------------------

  /** With both lists empty and every candidate covered, there is no route at all. */
  lemma NoRouteLeft(g: NodeMap, from: string, to: string, r: seq<Node>)
    requires forall t :: Candidate(g, from, to, t) ==> Covered(t, [], [])
    ensures !IsRoute(g, from, to, r)
  {
    if IsRoute(g, from, to, r) {
      RouteShortcut(g, from, to, r);
    }
  }

  /** A covered candidate weighs at least as much as the lightest found route, once that is no heavier than the frontier. */
  lemma CandidateBound(g: NodeMap, from: string, to: string, paths: seq<seq<Node>>, found: seq<seq<Node>>, t: seq<Node>)
    requires NonNegativeWeights(g) && SortedBy(paths, ByLength) && SortedBy(found, ByLength)
    requires found != [] && (paths == [] || Weight(found[0]) <= Weight(paths[0]))
    requires Candidate(g, from, to, t) && Covered(t, paths, found)
    ensures Weight(found[0]) <= Weight(t)
  {
    if t !in found {
      var q :| q in paths && |q| < |t| && t[..|q|] == q;
      var k :| 0 <= k < |paths| && paths[k] == q;
      assert ByLength(paths[0]) <= ByLength(paths[k]) by {
        if k != 0 {}
      }
      WalkNonNegative(g, t);
      WalkWeightNonNegative(g, t);
      if |q| > 0 {
        WeightPrefixMonotone(t, |q|);
      }
    } else {
      var k :| 0 <= k < |found| && found[k] == t;
      assert ByLength(found[0]) <= ByLength(found[k]) by {
        if k != 0 {}
      }
    }
  }

  /**
   * When the lightest found route is no longer than the lightest frontier
   * path, no route is lighter: with non-negative weights every candidate
   * weighs at least as much as its frontier prefix.
   */
  lemma FoundIsShortest(g: NodeMap, from: string, to: string, paths: seq<seq<Node>>, found: seq<seq<Node>>, r: seq<Node>)
    requires NonNegativeWeights(g) && SortedBy(paths, ByLength) && SortedBy(found, ByLength)
    requires found != [] && (paths == [] || Weight(found[0]) <= Weight(paths[0]))
    requires forall t :: Candidate(g, from, to, t) ==> Covered(t, paths, found)
    requires IsRoute(g, from, to, r)
    ensures Weight(found[0]) <= Weight(r)
  {
    RouteShortcut(g, from, to, r);
    var t :| Candidate(g, from, to, t) && Weight(t) <= Weight(r);
    CandidateBound(g, from, to, paths, found, t);
  }

  // -----------------------------------------------------------------------
  // Termination: the frontier holds only simple paths
  // -----------------------------------------------------------------------

  ghost predicate Expandable(g: NodeMap, p: seq<Node>)
  {
    |p| > 0 && InGraph(g, p)
  }

  /** Adding a node not yet on the path leaves one name fewer to visit. */
  lemma ChildShrinks(g: NodeMap, p: seq<Node>, k: string)
    requires IsValid(g) && Expandable(g, p) && k in g[Last(p).name] && k !in NameSet(p)
    ensures k in g && Expandable(g, p + [NodeOf(g, k)])
    ensures |g.Keys - NameSet(p + [NodeOf(g, k)])| < |g.Keys - NameSet(p)|
  {
    IsValidIff(g);
    NameSetAppend(p, NodeOf(g, k));
    assert g.Keys - NameSet(p + [NodeOf(g, k)]) == (g.Keys - NameSet(p)) - {k};
  }

  /** One for the path itself plus the potential of every frontier child it can still have. */
  ghost function Potential(g: NodeMap, to: string, p: seq<Node>): nat
    requires IsValid(g) && Expandable(g, p)
    decreases |g.Keys - NameSet(p)|, 1, 0
  {
    1 + ChildPotential(g, to, p, SortedKeys(g[Last(p).name].Keys))
  }

  ghost function ChildPotential(g: NodeMap, to: string, p: seq<Node>, ks: seq<string>): nat
    requires IsValid(g) && Expandable(g, p)
    requires forall k :: k in ks ==> k in g[Last(p).name]
    decreases |g.Keys - NameSet(p)|, 0, |ks|
  {
    if ks == [] then 0
    else
      var k := ks[|ks| - 1];
      ChildPotential(g, to, p, ks[..|ks| - 1]) +
      if k != to && k !in NameSet(p) then
        ChildShrinks(g, p, k);
        Potential(g, to, p + [NodeOf(g, k)])
      else 0
  }

  /** The potential of a path, as a function value for `Sum`. */
  ghost function PotentialOf(g: NodeMap, to: string): seq<Node> --> nat
  {
    p requires IsValid(g) && Expandable(g, p) => Potential(g, to, p)
  }

  /** The new frontier paths of an expandable path are expandable. */
  lemma NewFrontierExpandable(g: NodeMap, to: string, p: seq<Node>, ks: seq<string>)
    requires IsValid(g) && Expandable(g, p)
    requires forall k :: k in ks ==> k in g[Last(p).name]
    ensures forall k :: k in ks ==> k in g
    ensures forall c :: c in NewFrontier(g, to, p, ks) ==> Expandable(g, c)
  {
    IsValidIff(g);
    NewFrontierMembers(g, to, p, ks);
    forall c | c in NewFrontier(g, to, p, ks) ensures Expandable(g, c) {
      var k :| k in ks && k != to && k !in NameSet(p) && c == p + [NodeOf(g, k)];
      ChildShrinks(g, p, k);
    }
  }

  /** The new frontier paths of a path carry all of its potential but the one for itself. */
  lemma {:induction false} SumPotentialChildren(g: NodeMap, to: string, p: seq<Node>, ks: seq<string>)
    requires IsValid(g) && Expandable(g, p)
    requires forall k :: k in ks ==> k in g[Last(p).name]
    ensures forall k :: k in ks ==> k in g
    ensures forall c :: c in NewFrontier(g, to, p, ks) ==> PotentialOf(g, to).requires(c)
    ensures Sum(NewFrontier(g, to, p, ks), PotentialOf(g, to)) == ChildPotential(g, to, p, ks)
  {
    IsValidIff(g);
    if ks != [] {
      var init := ks[..|ks| - 1];
      var k := ks[|ks| - 1];
      var f := PotentialOf(g, to);
      SumPotentialChildren(g, to, p, init);
      assert k in ks;
      var before := NewFrontier(g, to, p, init);
      if k != to && k !in NameSet(p) {
        var c := p + [NodeOf(g, k)];
        ChildShrinks(g, p, k);
        SumSingle(c, f);
        SumConcat(before, [c], f);
        assert NewFrontier(g, to, p, ks) == before + [c];
      } else {
        assert NewFrontier(g, to, p, ks) == before + [];
        assert before + [] == before;
      }
    }
  }

  // -----------------------------------------------------------------------
  // The search loop
  // -----------------------------------------------------------------------

  /** What the loop of `shortestPath` keeps: frontier paths, found routes, every candidate covered. */
  ghost predicate SearchInvariant(g: NodeMap, from: string, to: string, paths: seq<seq<Node>>, found: seq<seq<Node>>)
  {
    && (forall p :: p in paths ==> Frontier(g, from, to, p))
    && (forall p :: p in found ==> IsRoute(g, from, to, p))
    && (forall t :: Candidate(g, from, to, t) ==> Covered(t, paths, found))
  }

  /** The links of the last node of a frontier path, in the order the loop visits them. */
  function LinksOf(g: NodeMap, p: seq<Node>): (ks: seq<string>)
    requires IsValid(g) && Expandable(g, p)
    ensures Last(p).name in g && forall k :: k in ks <==> k in g[Last(p).name]
    ensures forall k :: k in ks ==> k in g
  {
    IsValidIff(g);
    SortedKeys(g[Last(p).name].Keys)
  }

  /**
   * Following the link to `k` from the end of `p` calls `Path.add`, and that
   * throws: the last node reports the distance -1 for `k`.
   */
  predicate AddThrows(p: seq<Node>, to: string, k: string)
    requires |p| > 0
  {
    (k !in NameSet(p) || k == to) && DistanceTo(Last(p), k) == -1
  }

  /** A link of a graph node only makes `Path.add` throw when the link is stored with weight -1. */
  lemma AddThrowsSentinel(g: NodeMap, p: seq<Node>, to: string, k: string)
    requires IsValid(g) && Expandable(g, p) && k in LinksOf(g, p) && AddThrows(p, to, k)
    ensures g[Last(p).name][k] == -1 && !Graphs.Unambiguous(g)
  {
    DistanceToSentinel(Last(p), k);
  }

  /** The frontier after one step: the rest of the old one and the new paths, sorted by length. */
  function NextPaths(g: NodeMap, to: string, paths: seq<seq<Node>>): seq<seq<Node>>
    requires IsValid(g) && paths != [] && Expandable(g, paths[0])
  {
    Sort(paths[1..] + NewFrontier(g, to, paths[0], LinksOf(g, paths[0])), ByLength)
  }

  /** The found routes after one step: the old ones and the new ones, sorted by length. */
  function NextFound(g: NodeMap, to: string, paths: seq<seq<Node>>, found: seq<seq<Node>>): seq<seq<Node>>
    requires IsValid(g) && paths != [] && Expandable(g, paths[0])
  {
    Sort(found + NewFound(g, to, paths[0], LinksOf(g, paths[0])), ByLength)
  }

  /** The search starts from the one-node path at `from`, which covers every candidate route. */
  lemma SearchStart(g: NodeMap, from: string, to: string)
    requires from in g
    ensures SearchInvariant(g, from, to, [[NodeOf(g, from)]], [])
  {
    var s := [NodeOf(g, from)];
    forall t | Candidate(g, from, to, t) ensures Covered(t, [s], []) {
      assert t[..1] == s;
    }
  }

  /** One step of the loop keeps the search invariant and leaves both lists sorted by length. */
  lemma SearchStep(g: NodeMap, from: string, to: string, paths: seq<seq<Node>>, found: seq<seq<Node>>)
    requires IsValid(g) && paths != [] && SearchInvariant(g, from, to, paths, found)
    ensures Expandable(g, paths[0])
    ensures SearchInvariant(g, from, to, NextPaths(g, to, paths), NextFound(g, to, paths, found))
    ensures SortedBy(NextPaths(g, to, paths), ByLength) && SortedBy(NextFound(g, to, paths, found), ByLength)
  {
    var p := paths[0];
    assert p in paths;
    var ks := LinksOf(g, p);
    var fr, fd := NewFrontier(g, to, p, ks), NewFound(g, to, p, ks);
    ChildrenShape(g, from, to, p, ks);
    var paths', found' := NextPaths(g, to, paths), NextFound(g, to, paths, found);
    forall c | c in paths' ensures Frontier(g, from, to, c) {
      assert c in multiset(paths[1..] + fr);
      assert c in paths[1..] + fr;
      if c in paths[1..] {
        assert c in paths;
      }
    }
    forall c | c in found' ensures IsRoute(g, from, to, c) {
      assert c in multiset(found + fd);
      assert c in found + fd;
    }
    forall t | Candidate(g, from, to, t) ensures Covered(t, paths', found') {
      CoverageStep(g, from, to, paths, found, t);
      CoveredPermutation(t, paths[1..] + fr, found + fd, paths', found');
    }
    SortSorted(paths[1..] + fr, ByLength);
    SortSorted(found + fd, ByLength);
  }

  /** The potential of a frontier, which each step lowers by one. */
  ghost function FrontierPotential(g: NodeMap, to: string, paths: seq<seq<Node>>): nat
    requires IsValid(g) && forall p :: p in paths ==> Expandable(g, p)
  {
    Sum(paths, PotentialOf(g, to))
  }

  /** One step lowers the potential of the frontier. */
  lemma SearchStepDecreases(g: NodeMap, to: string, paths: seq<seq<Node>>)
    requires IsValid(g) && paths != [] && forall p :: p in paths ==> Expandable(g, p)
    ensures Expandable(g, paths[0])
    ensures forall p :: p in NextPaths(g, to, paths) ==> Expandable(g, p)
    ensures FrontierPotential(g, to, NextPaths(g, to, paths)) < FrontierPotential(g, to, paths)
  {
    var p := paths[0];
    assert p in paths;
    var ks := LinksOf(g, p);
    var f := PotentialOf(g, to);
    var rest := paths[1..];
    assert forall c :: c in rest ==> c in paths;
    SumPotentialChildren(g, to, p, ks);
    NewFrontierExpandable(g, to, p, ks);
    var fr := NewFrontier(g, to, p, ks);
    SumConcat(rest, fr, f);
    SumSort(rest + fr, ByLength, f);
    var paths' := NextPaths(g, to, paths);
    assert paths' == Sort(rest + fr, ByLength);
    forall c | c in paths' ensures Expandable(g, c) {
      assert c in multiset(rest + fr);
      assert c in rest || c in fr;
    }
    assert Sum(paths, f) == f(p) + Sum(rest, f);
    assert f(p) == 1 + ChildPotential(g, to, p, ks);
  }

  /** When the frontier and the found list both run empty, there is no route at all. */
  lemma SearchExhausted(g: NodeMap, from: string, to: string)
    requires SearchInvariant(g, from, to, [], [])
    ensures forall r :: !IsRoute(g, from, to, r)
  {
    forall r | IsRoute(g, from, to, r) ensures false {
      NoRouteLeft(g, from, to, r);
    }
  }

  /** Routes start and end at nodes of the graph: there is none to a name that is not a node. */
  lemma RouteEndpoints(g: NodeMap, from: string, to: string, r: seq<Node>)
    requires IsRoute(g, from, to, r)
    ensures from in g && to in g
  {
    assert r[0].name == from && r[|r| - 1].name == to;
  }

  /**
   * When the shortest found route is no longer than the shortest frontier
   * path, it is a route, and under non-negative distances no route is shorter.
   */
  lemma SearchFound(g: NodeMap, from: string, to: string, paths: seq<seq<Node>>, found: seq<seq<Node>>)
    requires SearchInvariant(g, from, to, paths, found)
    requires SortedBy(paths, ByLength) && SortedBy(found, ByLength)
    requires found != [] && (paths == [] || Weight(found[0]) <= Weight(paths[0]))
    ensures IsRoute(g, from, to, found[0])
    ensures NonNegativeWeights(g) ==> forall r :: IsRoute(g, from, to, r) ==> Weight(found[0]) <= Weight(r)
  {
    assert found[0] in found;
    if NonNegativeWeights(g) {
      forall r | IsRoute(g, from, to, r) ensures Weight(found[0]) <= Weight(r) {
        FoundIsShortest(g, from, to, paths, found, r);
      }
    }
  }
}
