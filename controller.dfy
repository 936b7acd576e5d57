/**
  The build-order controller: the map from project id to dependency ids it
  keeps between requests, the `post` handler that writes a project's entry,
  and `findBuildOrder`, which drains the map while computing a build order
  by repeatedly taking out the projects that have no dependency left.
*/
module BuildOrderController {
  import opened Wrappers
  import opened Identity
  import opened DependencyGraph
  import Text

  /** What `findBuildOrder` produces before rendering it as text. */
  datatype BuildOrder = Order(ids: seq<string>) | CycleError

  /** How a `post` request ends: normally, or with the
      `IndexOutOfBoundsException` thrown by the identity builder. */
  datatype PostOutcome = Accepted | Crashed(index: nat, size: nat)

  const CycleMessage := "Error: Found circular dependency"

  /** The string `findBuildOrder` returns: the error message, or the order
      as Java's `List.toString` writes it. */
  function Render(r: BuildOrder): (s: string)
    ensures r.CycleError? ==> s == CycleMessage
    ensures r.Order? ==> |s| >= 2 && s[0] == '[' && s[|s| - 1] == ']'
  {
    match r
    case CycleError => CycleMessage
    case Order(ids) => "[" + Text.Join(ids, ", ") + "]"
  }

  /** A rendered order can never be mistaken for the cycle error. */
  lemma RenderedOrderIsNotError(ids: seq<string>)
    ensures Render(Order(ids)) != CycleMessage
  {
    assert Render(Order(ids))[0] == '[' != CycleMessage[0];
  }

  /** The order is written between brackets, its ids separated by ", ". */
  lemma RenderShowsIds()
    ensures Render(Order([])) == "[]"
    ensures Render(Order(["B"])) == "[B]"
    ensures Render(Order(["B", "A", "C"])) == "[B, A, C]"
  {
    Text.JoinThree("B", "A", "C", ", ");
  }

  /** The dependency ids `post` appends: the non-empty ones, in order. */
  function NonEmptyIds(ids: seq<string>): (r: seq<string>)
    ensures forall x :: x in r <==> x in ids && x != ""
  {
    if ids == [] then []
    else (if ids[0] != "" then [ids[0]] else []) + NonEmptyIds(ids[1..])
  }

  /** The map after `put(projectId, new ArrayList())` followed by appending
      each non-empty dependency id. */
  function Upserted(g: Graph, projectId: string, depIds: seq<string>): (r: Graph)
    ensures r.Keys == g.Keys + {projectId}
    ensures r[projectId] == NonEmptyIds(depIds)
    ensures forall k :: k in g && k != projectId ==> r[k] == g[k]
  {
    g[projectId := NonEmptyIds(depIds)]
  }

  /** The identifiers built for the dependency nodes, in document order, up
      to the first node whose identity builder throws; and how that ends. */
  function DependencyIds(nodes: seq<seq<Child>>): (r: (seq<string>, PostOutcome))
    ensures |r.0| <= |nodes|
    ensures r.1.Accepted? <==> |r.0| == |nodes|
    ensures r.1.Crashed? ==> 0 < r.1.index <= 2 && r.1.size < r.1.index
  {
    if nodes == [] then ([], Accepted)
    else
      match GavOf(nodes[0])
      case IndexOutOfBounds(index, size) => ([], Crashed(index, size))
      case Gav(id) =>
        var rest := DependencyIds(nodes[1..]);
        ([id] + rest.0, rest.1)
  }

  /** One loop step of `post`: a dependency node whose identifier was built. */
  lemma DependencyIdsStep(nodes: seq<seq<Child>>, i: nat, id: string, done: seq<string>)
    requires i < |nodes| && GavOf(nodes[i]) == Gav(id)
    ensures done + NonEmptyIds(DependencyIds(nodes[i..]).0)
            == (if id != "" then done + [id] else done) + NonEmptyIds(DependencyIds(nodes[i + 1..]).0)
    ensures DependencyIds(nodes[i..]).1 == DependencyIds(nodes[i + 1..]).1
  {
    assert nodes[i..][1..] == nodes[i + 1..];
    var tail := DependencyIds(nodes[i + 1..]);
    assert DependencyIds(nodes[i..]) == ([id] + tail.0, tail.1);
    assert ([id] + tail.0)[1..] == tail.0;
  }

  /** Each collected id is the identifier built from the node at the same
      position, and a crash happens at the node right after the last one
      collected. */
  lemma {:induction false} DependencyIdsMeaning(nodes: seq<seq<Child>>)
    ensures forall i :: 0 <= i < |DependencyIds(nodes).0| ==> GavOf(nodes[i]) == Gav(DependencyIds(nodes).0[i])
    ensures DependencyIds(nodes).1.Crashed? ==>
              GavOf(nodes[|DependencyIds(nodes).0|])
              == IndexOutOfBounds(DependencyIds(nodes).1.index, DependencyIds(nodes).1.size)
  {
    if nodes != [] && GavOf(nodes[0]).Gav? {
      DependencyIdsMeaning(nodes[1..]);
      var rest := DependencyIds(nodes[1..]);
      assert DependencyIds(nodes).0 == [GavOf(nodes[0]).id] + rest.0;
      forall i | 1 <= i < |DependencyIds(nodes).0|
        ensures GavOf(nodes[i]) == Gav(DependencyIds(nodes).0[i])
      {
        assert nodes[i] == nodes[1..][i - 1];
      }
      if rest.1.Crashed? {
        assert nodes[|rest.0| + 1] == nodes[1..][|rest.0|];
      }
    }
  }

  /** A dependency node whose identity builder throws ends the loop there,
      with nothing more appended. */
  lemma DependencyThrowsHere(nodes: seq<seq<Child>>, i: nat)
    requires i < |nodes| && GavOf(nodes[i]).IndexOutOfBounds?
    ensures DependencyIds(nodes[i..]) == ([], Crashed(GavOf(nodes[i]).index, GavOf(nodes[i]).size))
  {
    assert nodes[i..][0] == nodes[i];
  }

  /** The effect of one `post` on the map, and its outcome. `project` is the
      children of the first `project` element, if there is one; `depNodes`
      the child lists of the children of the first `dependencies` element
      (empty when there is none). */
  function PostEffect(g: Graph, project: Option<seq<Child>>, depNodes: seq<seq<Child>>): (r: (Graph, PostOutcome))
    ensures g.Keys <= r.0.Keys
    ensures forall k :: k in r.0 && !(project.Some? && GavOf(project.value) == Gav(k)) ==>
              k in g && r.0[k] == g[k]
    ensures r.1.Crashed? ==> 0 < r.1.index <= 2 && r.1.size < r.1.index
  {
    if project.None? then (g, Accepted)
    else
      match GavOf(project.value)
      case IndexOutOfBounds(index, size) => (g, Crashed(index, size))
      case Gav(projectId) =>
        if projectId == "" then (g, Accepted)
        else
          var built := DependencyIds(depNodes);
          (Upserted(g, projectId, built.0), built.1)
  }

  /** The filter works element by element, so the kept ids stay in
      document order. */
  lemma {:induction false} NonEmptyIdsConcat(a: seq<string>, b: seq<string>)
    ensures NonEmptyIds(a + b) == NonEmptyIds(a) + NonEmptyIds(b)
  {
    if a == [] {
      assert a + b == b;
    } else {
      assert (a + b)[1..] == a[1..] + b;
      NonEmptyIdsConcat(a[1..], b);
    }
  }

  /** Every non-empty id keeps its number of occurrences; "" has none. */
  lemma {:induction false} NonEmptyIdsMultiplicity(ids: seq<string>, x: string)
    ensures multiset(NonEmptyIds(ids))[x] == if x == "" then 0 else multiset(ids)[x]
  {
    if ids != [] {
      NonEmptyIdsMultiplicity(ids[1..], x);
      assert ids == [ids[0]] + ids[1..];
    }
  }

  /** Without empty ids the filter keeps the list as it is. */
  lemma {:induction false} NonEmptyIdsKeepsAll(ids: seq<string>)
    requires forall i :: 0 <= i < |ids| ==> ids[i] != ""
    ensures NonEmptyIds(ids) == ids
  {
    if ids != [] {
      NonEmptyIdsKeepsAll(ids[1..]);
    }
  }

  /** When every dependency node builds, `ids[i]` from node `i`, the loop
      collects exactly those ids in document order and ends normally. */
  lemma {:induction false} AllDependenciesBuild(nodes: seq<seq<Child>>, ids: seq<string>)
    requires |ids| == |nodes|
    requires forall i :: 0 <= i < |nodes| ==> GavOf(nodes[i]) == Gav(ids[i])
    ensures DependencyIds(nodes) == (ids, Accepted)
  {
    if nodes != [] {
      AllDependenciesBuild(nodes[1..], ids[1..]);
      assert ids == [ids[0]] + ids[1..];
    }
  }

  /** When node `n` is the first whose identity builder throws, the loop has
      collected the ids of the nodes before it and the request crashes. */
  lemma {:induction false} DependencyThrows(nodes: seq<seq<Child>>, ids: seq<string>, n: nat, index: nat, size: nat)
    requires n < |nodes| && |ids| == n
    requires forall i :: 0 <= i < n ==> GavOf(nodes[i]) == Gav(ids[i])
    requires GavOf(nodes[n]) == IndexOutOfBounds(index, size)
    ensures DependencyIds(nodes) == (ids, Crashed(index, size))
  {
    if n > 0 {
      DependencyThrows(nodes[1..], ids[1..], n - 1, index, size);
      assert ids == [ids[0]] + ids[1..];
    }
  }

  /** A pom with a non-empty project id whose dependencies all build replaces
      that project's entry by exactly the non-empty dependency ids, in
      document order, and leaves every other entry alone. */
  lemma PostReplacesEntry(g: Graph, children: seq<Child>, projectId: string, depNodes: seq<seq<Child>>, ids: seq<string>)
    requires GavOf(children) == Gav(projectId) && projectId != ""
    requires |ids| == |depNodes|
    requires forall i :: 0 <= i < |depNodes| ==> GavOf(depNodes[i]) == Gav(ids[i])
    ensures PostEffect(g, Some(children), depNodes).1 == Accepted
    ensures PostEffect(g, Some(children), depNodes).0.Keys == g.Keys + {projectId}
    ensures PostEffect(g, Some(children), depNodes).0[projectId] == NonEmptyIds(ids)
    ensures forall k :: k in g && k != projectId ==> PostEffect(g, Some(children), depNodes).0[k] == g[k]
  {
    AllDependenciesBuild(depNodes, ids);
  }

  /** A later upsert of the same project id wins over an earlier one. */
  lemma UpsertOverwrites(g: Graph, projectId: string, first: seq<string>, second: seq<string>)
    ensures Upserted(Upserted(g, projectId, first), projectId, second) == Upserted(g, projectId, second)
  {
  }

  /** Posting the same pom twice leaves the same map, and ends the same way,
      as posting it once. */
  lemma PostTwiceIsPostOnce(g: Graph, project: Option<seq<Child>>, depNodes: seq<seq<Child>>)
    ensures PostEffect(PostEffect(g, project, depNodes).0, project, depNodes) == PostEffect(g, project, depNodes)
  {
    if project.Some? && GavOf(project.value).Gav? && GavOf(project.value).id != "" {
      UpsertOverwrites(g, GavOf(project.value).id, DependencyIds(depNodes).0, DependencyIds(depNodes).0);
    }
  }

  /** A pom without a `project` element, or whose project id is empty,
      leaves the map unchanged and is accepted. */
  lemma PostWithoutProjectIdChangesNothing(g: Graph, project: Option<seq<Child>>, depNodes: seq<seq<Child>>)
    requires project.None? || GavOf(project.value) == Gav("")
    ensures PostEffect(g, project, depNodes) == (g, Accepted)
  {
  }

  /** State of the ordering loop between rounds: `rest` is the restricted
      graph `r` without the ordered keys and with the ordered ids removed
      from every list; `order` holds distinct keys, each after its
      dependencies. */
  ghost predicate RoundState(r: Graph, rest: Graph, order: seq<string>)
  {
    && (forall k :: k in rest <==> k in r && k !in order)
    && (forall k :: k in rest ==> rest[k] == Drop(r[k], order))
    && NoDuplicates(order)
    && (forall i :: 0 <= i < |order| ==> order[i] in r)
    && DependenciesBefore(order, r)
  }

  class GraphStore {
    /** `projectGavs` (`deps` in the second controller). */
    var graph: map<string, seq<string>>

    constructor ()
      ensures graph == map[]
    {
      graph := map[];
    }

    /** `post`, after the document is parsed. */
    method Post(project: Option<seq<Child>>, depNodes: seq<seq<Child>>) returns (outcome: PostOutcome)
      modifies this
      ensures (graph, outcome) == PostEffect(old(graph), project, depNodes)
    {
      if project.None? {
        return Accepted;
      }
      var built := BuildGav(project.value);
      if built.IndexOutOfBounds? {
        return Crashed(built.index, built.size);
      }
      var projectId := built.id;
      if projectId == "" {
        return Accepted;
      }
      ghost var ids := NonEmptyIds(DependencyIds(depNodes).0);
      graph := graph[projectId := []];
      outcome := AppendDependencies(projectId, depNodes);
      assert [] + ids == ids;
      assert graph == old(graph)[projectId := ids];
    }

    /** The dependency loop of `post`: appends each non-empty dependency id
        to the entry of `projectId`, stopping at the first node whose
        identity builder throws. */
    method AppendDependencies(projectId: string, depNodes: seq<seq<Child>>) returns (outcome: PostOutcome)
      requires projectId in graph
      modifies this
      ensures graph == old(graph)[projectId := old(graph)[projectId] + NonEmptyIds(DependencyIds(depNodes).0)]
      ensures outcome == DependencyIds(depNodes).1
    {
      var i := 0;
      while i < |depNodes|
        invariant 0 <= i <= |depNodes|
        invariant projectId in graph && graph == old(graph)[projectId := graph[projectId]]
        invariant graph[projectId] + NonEmptyIds(DependencyIds(depNodes[i..]).0)
                  == old(graph)[projectId] + NonEmptyIds(DependencyIds(depNodes).0)
        invariant DependencyIds(depNodes[i..]).1 == DependencyIds(depNodes).1
      {
        var depId := BuildGav(depNodes[i]);
        if depId.IndexOutOfBounds? {
          DependencyThrowsHere(depNodes, i);
          assert graph[projectId] + [] == graph[projectId];
          return Crashed(depId.index, depId.size);
        }
        DependencyIdsStep(depNodes, i, depId.id, graph[projectId]);
        if depId.id != "" {
          graph := graph[projectId := graph[projectId] + [depId.id]];
        }
        i := i + 1;
      }
      assert depNodes[i..] == [];
      assert graph[projectId] + [] == graph[projectId];
      return Accepted;
    }

    /** The restriction pass of `findBuildOrder`: every dependency list is
        replaced by its ids that are projects of the map. */
    method RestrictToProjects()
      modifies this
      ensures graph == Restrict(old(graph))
    {
      var keys := graph.Keys;
      var toRestrict := graph.Keys;
      while toRestrict != {}
        invariant toRestrict <= keys && graph.Keys == keys
        invariant forall k :: k in graph ==> graph[k] == if k in toRestrict then old(graph)[k] else Keep(old(graph)[k], keys)
        decreases toRestrict
      {
        var k :| k in toRestrict;
        graph := graph[k := Keep(graph[k], keys)];
        toRestrict := toRestrict - {k};
      }
    }

    /** One scan over the keys, in unspecified order, appending every
        project whose dependency list is empty. */
    method AppendReady(order: seq<string>) returns (extended: seq<string>)
      ensures |order| <= |extended| && extended[..|order|] == order
      ensures forall k :: k in extended[|order|..] <==> k in graph && graph[k] == []
      ensures NoDuplicates(extended[|order|..])
    {
      extended := order;
      var toVisit := graph.Keys;
      while toVisit != {}
        invariant toVisit <= graph.Keys
        invariant |order| <= |extended| && extended[..|order|] == order
        invariant forall k :: k in extended[|order|..] <==> k in graph && k !in toVisit && graph[k] == []
        invariant NoDuplicates(extended[|order|..])
        decreases toVisit
      {
        var k :| k in toVisit;
        if graph[k] == [] {
          assert (extended + [k])[|order|..] == extended[|order|..] + [k];
          extended := extended + [k];
        }
        toVisit := toVisit - {k};
      }
    }

    /** `projectGavs.remove(id)` for every id of the order so far. */
    method RemoveOrdered(order: seq<string>)
      modifies this
      ensures forall k :: k in graph <==> k in old(graph) && k !in order
      ensures forall k :: k in graph ==> graph[k] == old(graph)[k]
    {
      var i := 0;
      while i < |order|
        invariant 0 <= i <= |order|
        invariant forall k :: k in graph <==> k in old(graph) && k !in order[..i]
        invariant forall k :: k in graph ==> graph[k] == old(graph)[k]
      {
        assert order[..i + 1] == order[..i] + [order[i]];
        graph := graph - {order[i]};
        i := i + 1;
      }
      assert order[..i] == order;
    }

    /** `removeAll(buildOrder)` on every remaining dependency list. */
    method RemoveFromLists(order: seq<string>)
      modifies this
      ensures graph.Keys == old(graph).Keys
      ensures forall k :: k in graph ==> graph[k] == Drop(old(graph)[k], order)
    {
      var toUpdate := graph.Keys;
      while toUpdate != {}
        invariant toUpdate <= graph.Keys && graph.Keys == old(graph).Keys
        invariant forall k :: k in graph ==> graph[k] == if k in toUpdate then old(graph)[k] else Drop(old(graph)[k], order)
        decreases toUpdate
      {
        var k :| k in toUpdate;
        graph := graph[k := Drop(graph[k], order)];
        toUpdate := toUpdate - {k};
      }
    }

    /** `findBuildOrder`. The map is consumed whatever the outcome. */
    method FindBuildOrder() returns (result: BuildOrder)
      modifies this
      ensures graph == map[]
      ensures result.Order? ==> IsBuildOrder(result.ids, old(graph))
      ensures result.CycleError? <==> HasCycle(old(graph))
    {
      ghost var g0 := graph;
      var order: seq<string> := [];
      var failed := false;
      RestrictToProjects();
      ghost var r := graph;
      InitialRoundState(r);
      ghost var stuck: set<string> := {};

      while |graph| > 0
        invariant failed ==> graph == map[] && Closed(g0, stuck)
        invariant !failed ==> RoundState(r, graph, order)
        decreases graph.Keys
      {
        ghost var start := graph;
        ghost var pre := order;
        var preSize := |order|;
        order := AppendReady(order);
        var afterSize := |order|;
        RemoveOrdered(order);
        if afterSize > preSize {
          RemoveFromLists(order);
          RoundStep(r, start, pre, order, graph);
          assert order[preSize] in start && order[preSize] !in graph;
        } else {
          assert order == pre;
          NothingOrderedNothingRemoved(r, start, pre, graph);
        }
        if |graph| > 0 && afterSize == preSize {
          StalledIsClosed(g0, r, graph, order);
          stuck := graph.Keys;
          failed := true;
          graph := map[];
        }
      }

      if failed {
        ClosedContainsCycle(g0, stuck);
        return CycleError;
      }
      assert graph == map[];
      FinishedIsBuildOrder(g0, r, order);
      BuildOrderIsAcyclic(g0, order);
      return Order(order);
    }
  }

  /** Before the first round nothing is ordered and nothing removed. */
  lemma InitialRoundState(r: Graph)
    ensures RoundState(r, r, [])
  {
    forall k | k in r
      ensures r[k] == Drop(r[k], [])
    {
      DropNothing(r[k]);
    }
  }

  /** A round that ordered nothing removed nothing either. */
  lemma NothingOrderedNothingRemoved(r: Graph, start: Graph, pre: seq<string>, after: Graph)
    requires RoundState(r, start, pre)
    requires forall k :: k in after <==> k in start && k !in pre
    requires forall k :: k in after ==> after[k] == start[k]
    ensures after == start
  {
    assert after.Keys == start.Keys;
  }

  /** A round that made progress keeps the loop's state: its new entries are
      exactly the ready projects, the map lost them, and the lists lost them. */
  lemma RoundStep(r: Graph, start: Graph, pre: seq<string>, order: seq<string>, after: Graph)
    requires RoundState(r, start, pre)
    requires |pre| <= |order| && order[..|pre|] == pre
    requires forall k :: k in order[|pre|..] <==> k in start && start[k] == []
    requires NoDuplicates(order[|pre|..])
    requires forall k :: k in after <==> k in start && k !in order
    requires forall k :: k in after ==> after[k] == Drop(start[k], order)
    ensures RoundState(r, after, order)
  {
    assert order == pre + order[|pre|..];
    forall k | k in after
      ensures after[k] == Drop(r[k], order)
    {
      DropTwice(r[k], pre, order);
    }
    NewEntriesKeepOrder(r, start, pre, order);
  }

  /** The entries a round appends are distinct keys not ordered before, whose
      dependencies are all ordered before. */
  lemma NewEntriesKeepOrder(r: Graph, start: Graph, pre: seq<string>, order: seq<string>)
    requires RoundState(r, start, pre)
    requires |pre| <= |order| && order[..|pre|] == pre
    requires forall k :: k in order[|pre|..] <==> k in start && start[k] == []
    requires NoDuplicates(order[|pre|..])
    ensures NoDuplicates(order)
    ensures forall i :: 0 <= i < |order| ==> order[i] in r
    ensures DependenciesBefore(order, r)
  {
    var n := |pre|;
    forall i, j | 0 <= i < j < |order|
      ensures order[i] != order[j]
    {
      if i < n && n <= j {
        assert order[j] in order[n..];
        assert order[i] in pre;
      } else if n <= i {
        assert order[i] == order[n..][i - n] && order[j] == order[n..][j - n];
      } else {
        assert order[i] == pre[i] && order[j] == pre[j];
      }
    }
    forall i | 0 <= i < |order|
      ensures order[i] in r
    {
      if i >= n {
        assert order[i] in order[n..];
      } else {
        assert order[i] == pre[i];
      }
    }
    forall i | 0 <= i < |order| && order[i] in r
      ensures forall d :: d in r[order[i]] && d in r ==> d in order[..i]
    {
      if i < n {
        assert order[..i] == pre[..i];
        assert pre[i] == order[i];
      } else {
        var k := order[i];
        assert k in order[n..];
        assert start[k] == [] == Drop(r[k], pre);
        forall d | d in r[k] && d in r
          ensures d in order[..i]
        {
          assert d in pre;
          var j :| 0 <= j < n && pre[j] == d;
          assert order[..i][j] == d;
        }
      }
    }
  }

  /** When a round finds nothing to build, the projects left form a closed
      set of the original graph. */
  lemma StalledIsClosed(g0: Graph, r: Graph, rest: Graph, order: seq<string>)
    requires r == Restrict(g0)
    requires RoundState(r, rest, order)
    requires |rest| > 0
    requires forall k :: k in rest ==> rest[k] != []
    ensures Closed(g0, rest.Keys)
  {
    assert rest.Keys <= g0.Keys;
    assert rest.Keys != {} by {
      var p :| p in rest;
    }
    if p :| p in rest.Keys && !DependsOnSome(g0, p, rest.Keys) {
      StalledProjectDependsOnRest(g0, r, rest, order, p);
      assert rest[p][0] in rest.Keys;
    }
  }



  /** In a stalled round, the first remaining dependency of a remaining
      project is itself a remaining project. */
  lemma StalledProjectDependsOnRest(g0: Graph, r: Graph, rest: Graph, order: seq<string>, p: string)
    requires r == Restrict(g0)
    requires RoundState(r, rest, order)
    requires p in rest && rest[p] != []
    ensures rest[p][0] in rest && rest[p][0] in g0[p]
  {
    var d := rest[p][0];
    assert d in Drop(r[p], order);
    assert d in r[p] && d !in order;
  }


  /** Once every project is ordered, the order is a build order of the
      original graph. */
  lemma FinishedIsBuildOrder(g0: Graph, r: Graph, order: seq<string>)
    requires r == Restrict(g0)
    requires RoundState(r, map[], order)
    ensures IsBuildOrder(order, g0)
  {
    forall x | x in g0
      ensures x in order
    {
      var empty: Graph := map[];
      assert x !in empty;
    }
    forall i, j | 0 <= i < |order| && 0 <= j < |order| && order[j] in g0[order[i]]
      ensures j < i
    {
      assert order[j] in r[order[i]];
      assert order[j] in order[..i];
      var j' :| 0 <= j' < i && order[..i][j'] == order[j];
    }
  }

  /** A depends on B; C depends on A and on X, which is not a project. */
  const Chain: Graph := map["A" := ["B"], "B" := [], "C" := ["A", "X"]]

  /** The chain has exactly one build order: B, then A, then C; X never
      appears. */
  lemma ChainHasOneBuildOrder(order: seq<string>)
    requires IsBuildOrder(order, Chain)
    ensures order == ["B", "A", "C"]
  {
    assert "A" in Chain && "B" in Chain && "C" in Chain;
    var a :| 0 <= a < |order| && order[a] == "A";
    var b :| 0 <= b < |order| && order[b] == "B";
    var c :| 0 <= c < |order| && order[c] == "C";
    assert order[b] in Chain[order[a]];
    assert order[a] in Chain[order[c]];
    assert b < a < c;
    assert c >= 2;
    assert order[0] in Chain && order[1] in Chain && order[2] in Chain;
    assert 0 == a || 0 == b || 0 == c;
    assert b == 0;
    assert 1 == a || 1 == b || 1 == c;
    assert a == 1;
    assert 2 == a || 2 == b || 2 == c;
    assert |order| == 3;
  }

  /** ... and that order is a build order of it. */
  lemma ChainBuildOrder()
    ensures IsBuildOrder(["B", "A", "C"], Chain)
  {
  }

  /** Two projects depending on each other form a cycle. */
  lemma MutualDependencyIsCycle()
    ensures HasCycle(map["A" := ["B"], "B" := ["A"]])
  {
    var g: Graph := map["A" := ["B"], "B" := ["A"]];
    assert Linked(g, ["A", "B"], 0);
    assert Linked(g, ["A", "B"], 1);
    assert IsCycle(g, ["A", "B"]);
  }
}
