/**
  The dependency graph the build-order service accumulates, and what a build
  order for it is. A graph maps each submitted project id to the ids it
  depends on; an edge p -> d means d has to be built before p. Dependency
  ids need not be keys: those name projects outside the submitted set.
*/
module DependencyGraph {

  type Graph = map<string, seq<string>>

  /** The stream filter of the restriction pass: the ids of `deps` that are
      in `keys`, in their original order and with their multiplicity. */
  function Keep(deps: seq<string>, keys: set<string>): (r: seq<string>)
    ensures forall x :: x in r <==> x in deps && x in keys
  {
    if deps == [] then []
    else
      (if deps[0] in keys then [deps[0]] else []) + Keep(deps[1..], keys)
  }

  /** `List.removeAll(removed)`: every occurrence of every id of `removed`
      is taken out; the other ids keep their order and multiplicity. */
  function Drop(deps: seq<string>, removed: seq<string>): (r: seq<string>)
    ensures forall x :: x in r <==> x in deps && x !in removed
  {
    if deps == [] then []
    else
      (if deps[0] in removed then [] else [deps[0]]) + Drop(deps[1..], removed)
  }

  /** The restriction pass: every dependency list cut down to the ids that
      are keys of the graph. */
  function Restrict(g: Graph): (r: Graph)
    ensures r.Keys == g.Keys
    ensures forall k, d :: k in r ==> (d in r[k] <==> d in g[k] && d in g)
  {
    map k | k in g :: Keep(g[k], g.Keys)
  }

  /** Kept ids keep their multiplicity; dropped ids do not occur at all. */
  lemma {:induction false} KeepMultiplicity(deps: seq<string>, keys: set<string>, x: string)
    ensures multiset(Keep(deps, keys))[x] == if x in keys then multiset(deps)[x] else 0
  {
    if deps != [] {
      KeepMultiplicity(deps[1..], keys, x);
      assert deps == [deps[0]] + deps[1..];
    }
  }

  /** Ids outside `removed` keep their multiplicity; ids in it are gone. */
  lemma {:induction false} DropMultiplicity(deps: seq<string>, removed: seq<string>, x: string)
    ensures multiset(Drop(deps, removed))[x] == if x in removed then 0 else multiset(deps)[x]
  {
    if deps != [] {
      DropMultiplicity(deps[1..], removed, x);
      assert deps == [deps[0]] + deps[1..];
    }
  }

  /** Filtering is applied element by element, so it keeps relative order. */
  lemma {:induction false} KeepConcat(a: seq<string>, b: seq<string>, keys: set<string>)
    ensures Keep(a + b, keys) == Keep(a, keys) + Keep(b, keys)
  {
    if a == [] {
      assert a + b == b;
    } else {
      assert (a + b)[1..] == a[1..] + b;
      KeepConcat(a[1..], b, keys);
    }
  }

  /** Removal is applied element by element, so it keeps relative order. */
  lemma {:induction false} DropConcat(a: seq<string>, b: seq<string>, removed: seq<string>)
    ensures Drop(a + b, removed) == Drop(a, removed) + Drop(b, removed)
  {
    if a == [] {
      assert a + b == b;
    } else {
      assert (a + b)[1..] == a[1..] + b;
      DropConcat(a[1..], b, removed);
    }
  }

  /** Removing nothing leaves a list as it is. */
  lemma {:induction false} DropNothing(deps: seq<string>)
    ensures Drop(deps, []) == deps
  {
    if deps != [] {
      DropNothing(deps[1..]);
    }
  }

  /** Removing the ids of `a` and then those of a larger list `b` is the same
      as removing those of `b` at once. */
  lemma {:induction false} DropTwice(deps: seq<string>, a: seq<string>, b: seq<string>)
    requires forall x :: x in a ==> x in b
    ensures Drop(Drop(deps, a), b) == Drop(deps, b)
  {
    if deps != [] {
      DropTwice(deps[1..], a, b);
      var t := Drop(deps, a);
      if deps[0] in a {
        assert t == Drop(deps[1..], a);
      } else {
        assert t == [deps[0]] + Drop(deps[1..], a);
        assert t[0] == deps[0] && t[1..] == Drop(deps[1..], a);
        assert Drop(t, b) == (if deps[0] in b then [] else [deps[0]]) + Drop(t[1..], b);
      }
    }
  }

  ghost predicate NoDuplicates(s: seq<string>)
  {
    forall i, j :: 0 <= i < j < |s| ==> s[i] != s[j]
  }

  /** Every dependency of an ordered project that is itself a key of `g`
      comes earlier in `order`. */
  ghost predicate DependenciesBefore(order: seq<string>, g: Graph)
  {
    forall i :: 0 <= i < |order| && order[i] in g ==>
      forall d :: d in g[order[i]] && d in g ==> d in order[..i]
  }

  /** A build order for `g`: each key exactly once, nothing else, and for
      every edge p -> d between keys, d at a smaller index than p. */
  ghost predicate IsBuildOrder(order: seq<string>, g: Graph)
  {
    && NoDuplicates(order)
    && (forall i :: 0 <= i < |order| ==> order[i] in g)
    && (forall x :: x in g ==> x in order)
    && (forall i, j :: 0 <= i < |order| && 0 <= j < |order| && order[j] in g[order[i]] ==> j < i)
  }

  /** Project `p` depends on some member of `s`. */
  ghost predicate DependsOnSome(g: Graph, p: string, s: set<string>)
    requires p in g
  {
    exists d :: d in s && d in g[p]
  }

  /** A non-empty set of keys in which every member depends on some member:
      no member of it can ever be built first. */
  ghost predicate Closed(g: Graph, s: set<string>)
  {
    && s != {}
    && s <= g.Keys
    && forall p {:trigger DependsOnSome(g, p, s)} :: p in s ==> DependsOnSome(g, p, s)
  }

  lemma ClosedMemberDepends(g: Graph, s: set<string>, p: string)
    requires Closed(g, s) && p in s
    ensures exists d :: d in s && d in g[p]
  {
    assert DependsOnSome(g, p, s);
  }

  /** A closed walk p0 -> p1 -> ... -> p0 through keys, each step going
      from a project to one of its dependencies; [p] with p depending on
      itself is one. */
  ghost predicate IsCycle(g: Graph, c: seq<string>)
  {
    && |c| > 0
    && (forall i :: 0 <= i < |c| ==> c[i] in g)
    && (forall i :: 0 <= i < |c| ==> Linked(g, c, i))
  }

  /** The entry after `c[i]`, wrapping round at the end, is a dependency of `c[i]`. */
  ghost predicate Linked(g: Graph, c: seq<string>, i: int)
    requires 0 <= i < |c| && c[i] in g
  {
    c[(i + 1) % |c|] in g[c[i]]
  }

  /** Entry `i + 1` of the walk `w` is a dependency of entry `i`. */
  ghost predicate Step(g: Graph, w: seq<string>, i: int)
    requires 0 <= i < |w| - 1 && w[i] in g
  {
    w[i + 1] in g[w[i]]
  }

  /** The keys of `g` contain a circular dependency. */
  ghost predicate HasCycle(g: Graph)
  {
    exists c :: IsCycle(g, c)
  }

  /** A project that lists itself as a dependency is a cycle of length one. */
  lemma SelfDependencyIsCycle(g: Graph, p: string)
    requires p in g && p in g[p]
    ensures HasCycle(g)
  {
    assert Linked(g, [p], 0);
    assert IsCycle(g, [p]);
  }

  /** The projects of a cycle form a closed set. */
  lemma CycleIsClosed(g: Graph, c: seq<string>)
    requires IsCycle(g, c)
    ensures Closed(g, set x | x in c)
  {
    var s := set x | x in c;
    assert c[0] in s;
    forall p | p in s
      ensures DependsOnSome(g, p, s)
    {
      var i :| 0 <= i < |c| && c[i] == p;
      assert Linked(g, c, i);
      var d := c[(i + 1) % |c|];
      assert d in s;
    }
  }

  /** Some dependency of `p` inside the closed set `s`. */
  ghost function Next(g: Graph, s: set<string>, p: string): (d: string)
    requires Closed(g, s) && p in s
    ensures d in s && d in g[p]
  {
    ClosedMemberDepends(g, s, p);
    var d :| d in s && d in g[p]; d
  }

  /** The walk of `n` steps from `p` that always moves on to `Next`. */
  ghost function Walk(g: Graph, s: set<string>, p: string, n: nat): (w: seq<string>)
    requires Closed(g, s) && p in s
    ensures |w| == n + 1 && w[0] == p
    ensures forall i :: 0 <= i < |w| ==> w[i] in s
    ensures forall i :: 0 <= i < n ==> Step(g, w, i)
    decreases n
  {
    if n == 0 then [p]
    else
      var rest := Walk(g, s, Next(g, s, p), n - 1);
      var w := [p] + rest;
      assert forall i :: 0 < i < n ==> w[i] == rest[i - 1] && w[i + 1] == rest[i];
      assert forall i :: 0 < i < n ==> Step(g, rest, i - 1) ==> Step(g, w, i);
      w
  }

  /** A duplicate-free sequence has as many distinct elements as entries. */
  lemma {:induction false} DistinctCardinality(w: seq<string>)
    requires NoDuplicates(w)
    ensures |set x | x in w| == |w|
  {
    if w != [] {
      DistinctCardinality(w[1..]);
      assert (set x | x in w) == {w[0]} + (set x | x in w[1..]);
      assert w[0] !in (set x | x in w[1..]);
    }
  }

  lemma {:induction false} SubsetCardinality(a: set<string>, b: set<string>)
    requires a <= b
    ensures |a| <= |b|
    decreases a
  {
    if a != {} {
      var x :| x in a;
      SubsetCardinality(a - {x}, b - {x});
    }
  }

  /** More entries than `s` has members, all drawn from `s`: some repeat. */
  lemma Pigeonhole(w: seq<string>, s: set<string>)
    requires forall i :: 0 <= i < |w| ==> w[i] in s
    requires |w| > |s|
    ensures !NoDuplicates(w)
  {
    if NoDuplicates(w) {
      DistinctCardinality(w);
      SubsetCardinality((set x | x in w), s);
    }
  }

  /** The stretch of a walk between two visits of the same project is a cycle. */
  lemma SegmentIsCycle(g: Graph, w: seq<string>, i: nat, j: nat)
    requires i < j < |w| && w[i] == w[j]
    requires forall k :: 0 <= k < |w| ==> w[k] in g
    requires forall k :: 0 <= k < |w| - 1 ==> Step(g, w, k)
    ensures IsCycle(g, w[i..j])
  {
    var c := w[i..j];
    forall k | 0 <= k < |c|
      ensures Linked(g, c, k)
    {
      assert Step(g, w, i + k);
      if k + 1 < |c| {
        assert (k + 1) % |c| == k + 1;
      } else {
        assert (k + 1) % |c| == 0;
      }
    }
  }

  /** Every closed set holds a cycle: walking from dependency to dependency
      inside it must come back to a project already visited. */
  lemma ClosedContainsCycle(g: Graph, s: set<string>)
    requires Closed(g, s)
    ensures HasCycle(g)
  {
    var p :| p in s;
    var w := Walk(g, s, p, |s|);
    Pigeonhole(w, s);
    var i, j :| 0 <= i < j < |w| && w[i] == w[j];
    SegmentIsCycle(g, w, i, j);
  }

  /** No member of a closed set occurs among the first `n` entries of a
      build order. */
  lemma {:induction false} ClosedSetNotInPrefix(g: Graph, order: seq<string>, s: set<string>, n: nat)
    requires IsBuildOrder(order, g) && Closed(g, s)
    requires n <= |order|
    ensures forall j :: 0 <= j < n ==> order[j] !in s
  {
    if n > 0 {
      ClosedSetNotInPrefix(g, order, s, n - 1);
      if order[n - 1] in s {
        ClosedMemberDepends(g, s, order[n - 1]);
      }
    }
  }

  /** A graph that has a build order has no cycle. */
  lemma BuildOrderIsAcyclic(g: Graph, order: seq<string>)
    requires IsBuildOrder(order, g)
    ensures !HasCycle(g)
  {
    if c :| IsCycle(g, c) {
      CycleIsClosed(g, c);
      ClosedSetNotInPrefix(g, order, (set x | x in c), |order|);
    }
  }
}
