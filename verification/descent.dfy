/**
 * Descendant closure over the `parent2child` map (taxids2gids.py,
 * `get_children_recursive`) and the include-minus-exclude whitelist built
 * from it. The map is passed explicitly instead of being read from a global.
 */
module Descent {
  import opened Results
  import opened Taxonomy

  /** `c` is listed as an immediate child of `p`. */
  ghost predicate Edge(g: Graph, p: TaxId, c: TaxId) {
    p in g && c in g[p]
  }

  /** A walk of at least one child edge. */
  ghost predicate IsPath(g: Graph, path: seq<TaxId>) {
    |path| >= 2 && forall i :: 0 <= i < |path| - 1 ==> Edge(g, path[i], path[i + 1])
  }

  /** `b` is a descendant of `a`: reachable from it by one or more child edges. */
  ghost predicate Reachable(g: Graph, a: TaxId, b: TaxId) {
    exists path :: IsPath(g, path) && path[0] == a && path[|path| - 1] == b
  }

  /** `x` is the child `c` itself or one of its descendants. */
  ghost predicate InBranch(g: Graph, c: TaxId, x: TaxId) {
    x == c || Reachable(g, c, x)
  }

  /** Every id listed as somebody's child. */
  ghost function Targets(g: Graph): set<TaxId> {
    set p, c | p in g && c in g[p] :: c
  }

  /** The descendants of `t`. */
  ghost function ReachSet(g: Graph, t: TaxId): set<TaxId> {
    set x | x in Targets(g) && Reachable(g, t, x)
  }

  /**
   * The part of the graph below `t` has no cycle: no descendant of `t` is its
   * own descendant. The recursion of `get_children_recursive(t)` terminates
   * exactly then, ignoring Python's recursion limit.
   */
  ghost predicate AcyclicFrom(g: Graph, t: TaxId) {
    forall x :: Reachable(g, t, x) ==> !Reachable(g, x, x)
  }

  lemma EdgeReachable(g: Graph, p: TaxId, c: TaxId)
    requires Edge(g, p, c)
    ensures Reachable(g, p, c)
  {
    assert IsPath(g, [p, c]);
  }

  lemma ReachableTrans(g: Graph, a: TaxId, b: TaxId, c: TaxId)
    requires Reachable(g, a, b) && Reachable(g, b, c)
    ensures Reachable(g, a, c)
  {
    var p1 :| IsPath(g, p1) && p1[0] == a && p1[|p1| - 1] == b;
    var p2 :| IsPath(g, p2) && p2[0] == b && p2[|p2| - 1] == c;
    var p := p1 + p2[1..];
    forall i | 0 <= i < |p| - 1
      ensures Edge(g, p[i], p[i + 1])
    {
      if i < |p1| - 1 {
        assert p[i] == p1[i] && p[i + 1] == p1[i + 1];
      } else {
        var j := i - (|p1| - 1);
        assert p[i] == p2[j] && p[i + 1] == p2[j + 1];
      }
    }
    assert IsPath(g, p);
  }

  /** Every descendant of `a` is below one of its immediate children. */
  lemma ReachableFirstStep(g: Graph, a: TaxId, b: TaxId) returns (c: TaxId)
    requires Reachable(g, a, b)
    ensures Edge(g, a, c) && InBranch(g, c, b)
  {
    var path :| IsPath(g, path) && path[0] == a && path[|path| - 1] == b;
    c := path[1];
    assert Edge(g, path[0], path[1]);
    if |path| > 2 {
      var rest := path[1..];
      assert forall i :: 0 <= i < |rest| ==> rest[i] == path[i + 1];
      assert IsPath(g, rest);
    }
  }

  lemma ReachableTarget(g: Graph, a: TaxId, b: TaxId)
    requires Reachable(g, a, b)
    ensures b in Targets(g)
  {
    var path :| IsPath(g, path) && path[0] == a && path[|path| - 1] == b;
    assert Edge(g, path[|path| - 2], path[|path| - 1]);
  }

  /** An id that is not a key of the map has no descendants. */
  lemma LeafReachesNothing(g: Graph, c: TaxId)
    requires c !in g
    ensures forall x :: !Reachable(g, c, x)
  {
    forall x | Reachable(g, c, x)
      ensures false
    {
      var d := ReachableFirstStep(g, c, x);
    }
  }

  /** The descendants of `t` are its children and the descendants of its children. */
  lemma ReachableViaChildren(g: Graph, t: TaxId)
    requires t in g
    ensures forall x :: Reachable(g, t, x) <==> exists j :: 0 <= j < |g[t]| && InBranch(g, g[t][j], x)
  {
    forall x | Reachable(g, t, x)
      ensures exists j :: 0 <= j < |g[t]| && InBranch(g, g[t][j], x)
    {
      var c := ReachableFirstStep(g, t, x);
      var j :| 0 <= j < |g[t]| && g[t][j] == c;
    }
    forall x, j | 0 <= j < |g[t]| && InBranch(g, g[t][j], x)
      ensures Reachable(g, t, x)
    {
      EdgeReachable(g, t, g[t][j]);
      if x != g[t][j] {
        ReachableTrans(g, t, g[t][j], x);
      }
    }
  }

  /** Descending into a child keeps the graph below acyclic and strictly shrinks the descendants. */
  lemma ChildDescent(g: Graph, t: TaxId, c: TaxId)
    requires Edge(g, t, c) && AcyclicFrom(g, t)
    ensures AcyclicFrom(g, c)
    ensures ReachSet(g, c) < ReachSet(g, t)
  {
    EdgeReachable(g, t, c);
    ReachableTarget(g, t, c);
    forall x | Reachable(g, c, x)
      ensures Reachable(g, t, x)
    {
      ReachableTrans(g, t, c, x);
    }
    assert c in ReachSet(g, t);
    assert c !in ReachSet(g, c);
  }

  /**
   * `get_children_recursive(t)`: for each child in list order, the child
   * followed by its own descendants when it is a key of the map.
   */
  function ChildrenRecursive(g: Graph, t: TaxId): (r: seq<TaxId>)
    requires t in g && AcyclicFrom(g, t)
    ensures forall x :: x in r <==> Reachable(g, t, x)
    decreases ReachSet(g, t), 1, 0
  {
    ReachableViaChildren(g, t);
    ChildrenFrom(g, t, 0)
  }

  /** The loop of `get_children_recursive(t)` from the child at index `i` on. */
  function ChildrenFrom(g: Graph, t: TaxId, i: nat): (r: seq<TaxId>)
    requires t in g && i <= |g[t]| && AcyclicFrom(g, t)
    ensures forall x :: x in r <==> exists j :: i <= j < |g[t]| && InBranch(g, g[t][j], x)
    decreases ReachSet(g, t), 0, |g[t]| - i
  {
    if i == |g[t]| then []
    else
      var c := g[t][i];
      ChildDescent(g, t, c);
      var below := if c in g then ChildrenRecursive(g, c) else (LeafReachesNothing(g, c); []);
      [c] + below + ChildrenFrom(g, t, i + 1)
  }

  /** `set(xs)`. */
  function Elements(xs: seq<TaxId>): (r: set<TaxId>)
    ensures forall x :: x in r <==> x in xs
  {
    set x | x in xs
  }

  /** Below an acyclic part of the graph the root is never among its own descendants. */
  lemma RootNotDescendant(g: Graph, t: TaxId)
    requires t in g && AcyclicFrom(g, t)
    ensures t !in ChildrenRecursive(g, t)
  {
  }

  /** Every entry of `r` is an immediate child of `t` or comes after an entry it is a child of. */
  ghost predicate ParentsFirst(g: Graph, t: TaxId, r: seq<TaxId>)
    requires t in g
  {
    forall j :: 0 <= j < |r| ==> r[j] in g[t] || exists k :: 0 <= k < j && Edge(g, r[k], r[j])
  }

  /** The traversal is pre-order: each id is emitted after the child it descends through. */
  lemma {:induction false} ChildrenRecursivePreOrder(g: Graph, t: TaxId)
    requires t in g && AcyclicFrom(g, t)
    ensures ParentsFirst(g, t, ChildrenRecursive(g, t))
    decreases ReachSet(g, t), 1, 0
  {
    ChildrenFromPreOrder(g, t, 0);
  }

  lemma {:induction false} ChildrenFromPreOrder(g: Graph, t: TaxId, i: nat)
    requires t in g && i <= |g[t]| && AcyclicFrom(g, t)
    ensures ParentsFirst(g, t, ChildrenFrom(g, t, i))
    decreases ReachSet(g, t), 0, |g[t]| - i
  {
    if i < |g[t]| {
      var c := g[t][i];
      ChildDescent(g, t, c);
      var below := if c in g then ChildrenRecursive(g, c) else [];
      if c in g {
        ChildrenRecursivePreOrder(g, c);
      } else {
        LeafReachesNothing(g, c);
      }
      ChildrenFromPreOrder(g, t, i + 1);
      ParentsFirstCons(g, t, c, below, ChildrenFrom(g, t, i + 1));
    }
  }

  /** Putting a child and its pre-order descendants in front of a pre-order suffix keeps the order. */
  lemma ParentsFirstCons(g: Graph, t: TaxId, c: TaxId, below: seq<TaxId>, rest: seq<TaxId>)
    requires t in g && c in g[t]
    requires c in g ==> ParentsFirst(g, c, below)
    requires c !in g ==> below == []
    requires ParentsFirst(g, t, rest)
    ensures ParentsFirst(g, t, [c] + below + rest)
  {
    var r := [c] + below + rest;
    forall j | 0 <= j < |r|
      ensures r[j] in g[t] || exists k :: 0 <= k < j && Edge(g, r[k], r[j])
    {
      if 0 < j <= |below| {
        var jj := j - 1;
        assert r[j] == below[jj];
        if below[jj] in g[c] {
          assert Edge(g, r[0], r[j]);
        } else {
          var k :| 0 <= k < jj && Edge(g, below[k], below[jj]);
          assert r[k + 1] == below[k];
        }
      } else if j > |below| {
        var jj := j - 1 - |below|;
        assert r[j] == rest[jj];
        if rest[jj] !in g[t] {
          var k :| 0 <= k < jj && Edge(g, rest[k], rest[jj]);
          assert r[k + 1 + |below|] == rest[k];
        }
      }
    }
  }

  /** When none of the children of `t` is a key of the map, each contributes only itself. */
  lemma LeafChildren(g: Graph, t: TaxId)
    requires t in g && AcyclicFrom(g, t)
    requires forall j :: 0 <= j < |g[t]| ==> g[t][j] !in g
    ensures ChildrenRecursive(g, t) == g[t]
  {
    LeafChildrenFrom(g, t, 0);
  }

  lemma {:induction false} LeafChildrenFrom(g: Graph, t: TaxId, i: nat)
    requires t in g && i <= |g[t]| && AcyclicFrom(g, t)
    requires forall j :: 0 <= j < |g[t]| ==> g[t][j] !in g
    ensures ChildrenFrom(g, t, i) == g[t][i..]
    decreases |g[t]| - i
  {
    if i < |g[t]| {
      LeafChildrenFrom(g, t, i + 1);
      assert g[t][i..] == [g[t][i]] + g[t][i + 1..];
    }
  }

  /** Starting from the children of `root`, a set closed under child edges holds every descendant of `root`. */
  lemma ClosedHoldsDescendants(g: Graph, root: TaxId, s: set<TaxId>)
    requires forall c :: Edge(g, root, c) ==> c in s
    requires forall x, c :: x in s && Edge(g, x, c) ==> c in s
    ensures forall x :: Reachable(g, root, x) ==> x in s
  {
    forall x | Reachable(g, root, x)
      ensures x in s
    {
      var path :| IsPath(g, path) && path[0] == root && path[|path| - 1] == x;
      PathStaysInside(g, path, s, |path| - 1);
    }
  }

  lemma {:induction false} PathStaysInside(g: Graph, path: seq<TaxId>, s: set<TaxId>, n: nat)
    requires IsPath(g, path) && 1 <= n < |path|
    requires forall c :: Edge(g, path[0], c) ==> c in s
    requires forall x, c :: x in s && Edge(g, x, c) ==> c in s
    ensures path[n] in s
    decreases n
  {
    assert Edge(g, path[n - 1], path[n]);
    if n > 1 {
      PathStaysInside(g, path, s, n - 1);
    }
  }

  /**
   * The descendant closure computed with an explicit stack and a visited
   * set: it needs no acyclicity to stop, and where the recursive version
   * stops the two give the same set.
   */
  method Closure(g: Graph, root: TaxId) returns (seen: set<TaxId>)
    ensures forall x :: x in seen <==> Reachable(g, root, x)
    ensures root in g && AcyclicFrom(g, root) ==> seen == Elements(ChildrenRecursive(g, root))
  {
    seen := {};
    var stack := if root in g then g[root] else [];
    forall k | 0 <= k < |stack|
      ensures Reachable(g, root, stack[k])
    {
      EdgeReachable(g, root, stack[k]);
    }
    while |stack| > 0
      invariant forall x :: x in seen ==> Reachable(g, root, x)
      invariant forall k :: 0 <= k < |stack| ==> Reachable(g, root, stack[k])
      invariant forall c :: Edge(g, root, c) ==> c in seen || c in stack
      invariant forall x, c :: x in seen && Edge(g, x, c) ==> c in seen || c in stack
      decreases Targets(g) - seen, |stack|
    {
      var x := stack[|stack| - 1];
      var popped := stack[..|stack| - 1];
      assert stack == popped + [x];
      stack := popped;
      if x !in seen {
        ReachableTarget(g, root, x);
        seen := seen + {x};
        if x in g {
          forall c | c in g[x]
            ensures Reachable(g, root, c)
          {
            EdgeReachable(g, x, c);
            ReachableTrans(g, root, x, c);
          }
          stack := stack + g[x];
        }
      }
    }
    ClosedHoldsDescendants(g, root, seen);
  }

  /** Why the whitelist could not be built: a root that is not a key of the map (a `KeyError`). */
  datatype DescentError = UnknownTaxon(id: TaxId)

  /**
   * `set(get_children_recursive(includeRoot)) - set(get_children_recursive(excludeRoot))`.
   * The include closure is computed first, so a missing include root is the error reported.
   */
  function Whitelist(g: Graph, includeRoot: TaxId, excludeRoot: TaxId): (r: Result<set<TaxId>, DescentError>)
    requires AcyclicFrom(g, includeRoot) && (includeRoot in g ==> AcyclicFrom(g, excludeRoot))
    ensures includeRoot !in g ==> r == Err(UnknownTaxon(includeRoot))
    ensures includeRoot in g && excludeRoot !in g ==> r == Err(UnknownTaxon(excludeRoot))
    ensures includeRoot in g && excludeRoot in g ==> r.Ok?
    ensures r.Ok? ==> forall x :: x in r.value <==> Reachable(g, includeRoot, x) && !Reachable(g, excludeRoot, x)
    ensures r.Ok? ==> r.value <= Elements(ChildrenRecursive(g, includeRoot))
    ensures r.Ok? ==> r.value !! Elements(ChildrenRecursive(g, excludeRoot))
  {
    if includeRoot !in g then Err(UnknownTaxon(includeRoot))
    else if excludeRoot !in g then Err(UnknownTaxon(excludeRoot))
    else Ok(Elements(ChildrenRecursive(g, includeRoot)) - Elements(ChildrenRecursive(g, excludeRoot)))
  }

  /** Excluding a subtree that shares no descendant with the included one removes nothing. */
  lemma UnrelatedExclude(g: Graph, includeRoot: TaxId, excludeRoot: TaxId)
    requires includeRoot in g && excludeRoot in g
    requires AcyclicFrom(g, includeRoot) && AcyclicFrom(g, excludeRoot)
    requires forall x :: Reachable(g, includeRoot, x) ==> !Reachable(g, excludeRoot, x)
    ensures Whitelist(g, includeRoot, excludeRoot) == Ok(Elements(ChildrenRecursive(g, includeRoot)))
  {
    var kept := Elements(ChildrenRecursive(g, includeRoot));
    assert kept - Elements(ChildrenRecursive(g, excludeRoot)) == kept;
  }

  /** Ranks that drop along every child edge. */
  ghost predicate RankedBy(g: Graph, rank: map<TaxId, nat>) {
    forall p, c :: Edge(g, p, c) ==> p in rank && c in rank && rank[c] < rank[p]
  }

  lemma {:induction false} PathRankDrops(g: Graph, rank: map<TaxId, nat>, path: seq<TaxId>, n: nat)
    requires RankedBy(g, rank) && IsPath(g, path) && 1 <= n < |path|
    ensures path[0] in rank && path[n] in rank && rank[path[n]] < rank[path[0]]
    decreases n
  {
    assert Edge(g, path[n - 1], path[n]);
    if n > 1 {
      PathRankDrops(g, rank, path, n - 1);
    }
  }

  /** A graph with ranks dropping along its edges is acyclic below every node. */
  lemma RankedAcyclic(g: Graph, rank: map<TaxId, nat>, t: TaxId)
    requires RankedBy(g, rank)
    ensures AcyclicFrom(g, t)
  {
    forall x | Reachable(g, t, x)
      ensures !Reachable(g, x, x)
    {
      if Reachable(g, x, x) {
        var path :| IsPath(g, path) && path[0] == x && path[|path| - 1] == x;
        PathRankDrops(g, rank, path, |path| - 1);
      }
    }
  }

  /** A root with children 2 and 3, where 2 has the child 4. */
  lemma SmallTaxonomy()
    ensures var g := map[1 := [2, 3], 2 := [4]];
      && AcyclicFrom(g, 1) && AcyclicFrom(g, 2) && AcyclicFrom(g, 3)
      && ChildrenRecursive(g, 1) == [2, 4, 3]
      && ChildrenRecursive(g, 2) == [4]
      && Whitelist(g, 1, 2) == Ok({2, 3})
      && Whitelist(g, 3, 2) == Err(UnknownTaxon(3))
  {
    var g := map[1 := [2, 3], 2 := [4]];
    var rank := map[1 := 2, 2 := 1, 3 := 0, 4 := 0];
    RankedAcyclic(g, rank, 1);
    RankedAcyclic(g, rank, 2);
    RankedAcyclic(g, rank, 3);
    assert ChildrenRecursive(g, 2) == [4];
    assert ChildrenFrom(g, 1, 1) == [3];
    assert ChildrenRecursive(g, 1) == [2, 4, 3];
    assert Elements([2, 4, 3]) - Elements([4]) == {2, 3};
  }

  /**
   * A self-loop below the exclude root does not matter when the include root
   * is missing: the include closure raises `KeyError` before the exclude
   * closure is started.
   */
  lemma CyclicExcludeUnreached()
    ensures var g := map[2 := [2]];
      && !AcyclicFrom(g, 2)
      && AcyclicFrom(g, 1)
      && Whitelist(g, 1, 2) == Err(UnknownTaxon(1))
  {
    var g := map[2 := [2]];
    EdgeReachable(g, 2, 2);
    LeafReachesNothing(g, 1);
  }
}
