/** Adjacency maps built from edge lists, and the components found by
  * walking them. */
module Graph {
  import opened Wrappers
  import Pycommon

  /** Nodes are compared and sorted by value, so integers stand for them. */
  type Node = int

  /** A `(source, target)` pair. */
  type Edge = (Node, Node)

  /** A dict from a node to the set of nodes it links to. */
  type AdjacencyMap = map<Node, set<Node>>

  // ---------------------------------------------------------------------
  // iter_bidirectional, graph_map

  /** `iter_bidirectional(edges)`: every edge, then its reverse. */
  function IterBidirectional(edges: seq<Edge>): (r: seq<Edge>)
    ensures |r| == 2 * |edges|
    ensures forall i :: 0 <= i < |edges| ==>
      r[2 * i] == edges[i] && r[2 * i + 1] == (edges[i].1, edges[i].0)
  {
    if edges == [] then []
    else
      var rest := IterBidirectional(edges[1..]);
      var r := [edges[0], (edges[0].1, edges[0].0)] + rest;
      assert forall i :: 1 <= i < |edges| ==> edges[i] == edges[1..][i - 1];
      assert forall k :: 2 <= k < |r| ==> r[k] == rest[k - 2];
      r
  }

  /** `get0`: the source of an edge, the sort and group key of `graph_map`. */
  function Source(e: Edge): Node
  {
    e.0
  }

  /** `set(map(get1, group))`. */
  function TargetSet(group: seq<Edge>): set<Node>
  {
    set e | e in group :: e.1
  }

  /** `dict(pairs)`: later pairs overwrite earlier ones with the same key. */
  function DictOf(pairs: seq<(Node, set<Node>)>): (r: map<Node, set<Node>>)
    ensures r.Keys == set i | 0 <= i < |pairs| :: pairs[i].0
    ensures pairs != [] ==> r[pairs[|pairs| - 1].0] == pairs[|pairs| - 1].1
    ensures forall i :: 0 <= i < |pairs| && LastWithKey(pairs, i) ==> r[pairs[i].0] == pairs[i].1
  {
    if pairs == [] then map[]
    else
      var prev := DictOf(pairs[..|pairs| - 1]);
      DictOfStep(pairs, prev);
      prev[pairs[|pairs| - 1].0 := pairs[|pairs| - 1].1]
  }

  /** No pair after position `i` has the key of pair `i`. */
  ghost predicate LastWithKey(pairs: seq<(Node, set<Node>)>, i: nat)
  {
    forall j :: i < j < |pairs| ==> pairs[j].0 != pairs[i].0
  }

  /** Storing the last pair into the dictionary of the others gives the
    * keys of all pairs, and keeps every pair that no later pair overwrites. */
  lemma DictOfStep(pairs: seq<(Node, set<Node>)>, prev: map<Node, set<Node>>)
    requires pairs != []
    requires var init := pairs[..|pairs| - 1];
      prev.Keys == set i | 0 <= i < |init| :: init[i].0
    requires var init := pairs[..|pairs| - 1];
      forall i :: 0 <= i < |init| && LastWithKey(init, i) ==> prev[init[i].0] == init[i].1
    ensures var m := prev[pairs[|pairs| - 1].0 := pairs[|pairs| - 1].1];
      m.Keys == set i | 0 <= i < |pairs| :: pairs[i].0
    ensures var m := prev[pairs[|pairs| - 1].0 := pairs[|pairs| - 1].1];
      forall i :: 0 <= i < |pairs| && LastWithKey(pairs, i) ==> m[pairs[i].0] == pairs[i].1
  {
    var init, last := pairs[..|pairs| - 1], pairs[|pairs| - 1];
    var m := prev[last.0 := last.1];
    assert forall i :: 0 <= i < |init| ==> pairs[i] == init[i];
    forall i | 0 <= i < |pairs| && LastWithKey(pairs, i) ensures m[pairs[i].0] == pairs[i].1 {
      if i < |init| {
        forall j | i < j < |init| ensures init[j].0 != init[i].0 {
          assert pairs[j] == init[j];
        }
        assert LastWithKey(init, i);
        assert init[i].0 in prev;
      }
    }
  }

  /** The sorted edges cut into runs of one source. */
  function SourceGroups(edges: seq<Edge>): seq<(Node, seq<Edge>)>
  {
    Pycommon.GroupBy(Pycommon.SortBy(edges, Source), Source)
  }

  /** One `(source, set of targets)` pair per run. */
  function GroupPairs(groups: seq<(Node, seq<Edge>)>): (r: seq<(Node, set<Node>)>)
    ensures |r| == |groups|
    ensures forall i :: 0 <= i < |groups| ==> r[i] == (groups[i].0, TargetSet(groups[i].1))
  {
    if groups == [] then [] else [(groups[0].0, TargetSet(groups[0].1))] + GroupPairs(groups[1..])
  }

  /** `graph_map(edges)`: sort by source, group by source, and map every
    * source to the set of its targets. A node that is only ever a target
    * gets no entry. */
  function GraphMap(edges: seq<Edge>): (m: AdjacencyMap)
    ensures m.Keys == set e | e in edges :: e.0
    ensures forall s :: s in m ==> m[s] == set e | e in edges && e.0 == s :: e.1
  {
    GraphMapKeys(edges);
    GraphMapValues(edges);
    DictOf(GroupPairs(SourceGroups(edges)))
  }

  /** With pairwise distinct keys, `dict(pairs)` holds every pair. */
  lemma {:induction false} DictOfDistinct(pairs: seq<(Node, set<Node>)>)
    requires forall i, j :: 0 <= i < j < |pairs| ==> pairs[i].0 != pairs[j].0
    ensures forall i :: 0 <= i < |pairs| ==> pairs[i].0 in DictOf(pairs)
    ensures forall i :: 0 <= i < |pairs| ==> DictOf(pairs)[pairs[i].0] == pairs[i].1
  {
    if pairs != [] {
      var init, last := pairs[..|pairs| - 1], pairs[|pairs| - 1];
      assert pairs == init + [last];
      DictOfDistinct(init);
      DistinctStep(init, last, DictOf(init));
    }
  }

  lemma DistinctStep(init: seq<(Node, set<Node>)>, last: (Node, set<Node>), prev: map<Node, set<Node>>)
    requires forall i :: 0 <= i < |init| ==> init[i].0 in prev && init[i].0 != last.0
    requires forall i :: 0 <= i < |init| ==> prev[init[i].0] == init[i].1
    ensures var pairs, m := init + [last], prev[last.0 := last.1];
      (forall i :: 0 <= i < |pairs| ==> pairs[i].0 in m) &&
      (forall i :: 0 <= i < |pairs| ==> m[pairs[i].0] == pairs[i].1)
  {
    var pairs := init + [last];
    assert forall i :: 0 <= i < |init| ==> pairs[i] == init[i];
  }

  /** An edge is in the input exactly when it is in one of the runs. */
  lemma EdgeInRun(edges: seq<Edge>, e: Edge)
    ensures e in edges <==> exists i :: 0 <= i < |SourceGroups(edges)| && e in SourceGroups(edges)[i].1
  {
    var sorted := Pycommon.SortBy(edges, Source);
    Pycommon.FlattenMember(SourceGroups(edges), e);
    assert e in edges <==> e in multiset(edges);
    assert e in sorted <==> e in multiset(sorted);
  }

  /** Every edge of a run leaves that run's source. */
  lemma RunSource(edges: seq<Edge>, i: nat, e: Edge)
    requires i < |SourceGroups(edges)| && e in SourceGroups(edges)[i].1
    ensures e.0 == SourceGroups(edges)[i].0
  {
    var groups := SourceGroups(edges);
    assert Pycommon.IsRunGrouping(Pycommon.SortBy(edges, Source), Source, groups);
    assert Source(e) == groups[i].0;
  }

  /** The runs of the sorted edges have strictly ascending sources, so no
    * source names two runs. */
  lemma RunSourcesDistinct(edges: seq<Edge>)
    ensures forall i, j :: 0 <= i < j < |SourceGroups(edges)| ==>
      SourceGroups(edges)[i].0 != SourceGroups(edges)[j].0
  {
    Pycommon.SortedRunsAscend(Pycommon.SortBy(edges, Source), Source);
  }

  /** The targets collected for a run are the targets of every input edge
    * leaving that run's source. */
  lemma RunTargets(edges: seq<Edge>, i: nat)
    requires i < |SourceGroups(edges)|
    ensures TargetSet(SourceGroups(edges)[i].1) ==
      set e | e in edges && e.0 == SourceGroups(edges)[i].0 :: e.1
  {
    var groups := SourceGroups(edges);
    var s := groups[i].0;
    RunSourcesDistinct(edges);
    forall e | e in groups[i].1 ensures e in edges && e.0 == s {
      EdgeInRun(edges, e);
      RunSource(edges, i, e);
    }
    forall e | e in edges && e.0 == s ensures e in groups[i].1 {
      EdgeInRun(edges, e);
      var j :| 0 <= j < |groups| && e in groups[j].1;
      RunSource(edges, j, e);
    }
  }

  /** `dict(...)` of the run pairs maps each source to its targets. */
  lemma GraphMapValues(edges: seq<Edge>)
    ensures forall s :: s in DictOf(GroupPairs(SourceGroups(edges))) ==>
      DictOf(GroupPairs(SourceGroups(edges)))[s] == set e | e in edges && e.0 == s :: e.1
  {
    var pairs := GroupPairs(SourceGroups(edges));
    var m := DictOf(pairs);
    RunSourcesDistinct(edges);
    DictOfDistinct(pairs);
    forall s | s in m ensures m[s] == set e | e in edges && e.0 == s :: e.1 {
      var i :| 0 <= i < |pairs| && pairs[i].0 == s;
      RunTargets(edges, i);
    }
  }

  /** Every key of `dict(...)` of the run pairs is the source of an edge. */
  lemma GraphMapKeysAreSources(edges: seq<Edge>, s: Node)
    requires s in DictOf(GroupPairs(SourceGroups(edges)))
    ensures exists e :: e in edges && e.0 == s
  {
    var pairs := GroupPairs(SourceGroups(edges));
    assert s in set i | 0 <= i < |pairs| :: pairs[i].0;
    var i :| 0 <= i < |pairs| && pairs[i].0 == s;
    RunHasEdge(edges, i);
  }

  /** Every run holds an input edge leaving the run's source. */
  lemma RunHasEdge(edges: seq<Edge>, i: nat)
    requires i < |SourceGroups(edges)|
    ensures exists e :: e in edges && e.0 == SourceGroups(edges)[i].0
  {
    var e := SourceGroups(edges)[i].1[0];
    EdgeInRun(edges, e);
    RunSource(edges, i, e);
  }

  /** The source of every edge is a key of `dict(...)` of the run pairs. */
  lemma SourcesAreGraphMapKeys(edges: seq<Edge>, e: Edge)
    requires e in edges
    ensures e.0 in DictOf(GroupPairs(SourceGroups(edges)))
  {
    var groups := SourceGroups(edges);
    var pairs := GroupPairs(groups);
    RunSourcesDistinct(edges);
    DictOfDistinct(pairs);
    EdgeInRun(edges, e);
    var j :| 0 <= j < |groups| && e in groups[j].1;
    RunSource(edges, j, e);
    assert pairs[j].0 == e.0;
  }

  /** `dict(...)` of the run pairs has exactly the sources as keys. */
  lemma GraphMapKeys(edges: seq<Edge>)
    ensures DictOf(GroupPairs(SourceGroups(edges))).Keys == set e | e in edges :: e.0
  {
    var m := DictOf(GroupPairs(SourceGroups(edges)));
    forall s | s in m ensures s in set e | e in edges :: e.0 {
      GraphMapKeysAreSources(edges, s);
    }
    forall e | e in edges ensures e.0 in m {
      SourcesAreGraphMapKeys(edges, e);
    }
  }

  // ---------------------------------------------------------------------
  // Reachability

  /** A walk that steps from each node to one of the neighbours recorded
    * under that node's key. */
  ghost predicate IsPath(graph: AdjacencyMap, path: seq<Node>)
  {
    && |path| > 0
    && forall i :: 0 <= i < |path| - 1 ==> path[i] in graph && path[i + 1] in graph[path[i]]
  }

  /** `to` is reached from `from` in zero or more steps. */
  ghost predicate Reachable(graph: AdjacencyMap, from: Node, to: Node)
  {
    exists path :: IsPath(graph, path) && path[0] == from && path[|path| - 1] == to
  }

  lemma ReachableRefl(graph: AdjacencyMap, n: Node)
    ensures Reachable(graph, n, n)
  {
    assert IsPath(graph, [n]);
  }

  lemma ReachableStep(graph: AdjacencyMap, from: Node, n: Node, m: Node)
    requires Reachable(graph, from, n) && n in graph && m in graph[n]
    ensures Reachable(graph, from, m)
  {
    var path :| IsPath(graph, path) && path[0] == from && path[|path| - 1] == n;
    assert IsPath(graph, path + [m]);
  }

  lemma ReachableTransitive(graph: AdjacencyMap, a: Node, b: Node, c: Node)
    ensures Reachable(graph, a, b) && Reachable(graph, b, c) ==> Reachable(graph, a, c)
  {
    if Reachable(graph, a, b) && Reachable(graph, b, c) {
      var p :| IsPath(graph, p) && p[0] == a && p[|p| - 1] == b;
      var q :| IsPath(graph, q) && q[0] == b && q[|q| - 1] == c;
      var pq := p + q[1..];
      assert IsPath(graph, pq) by {
        forall i | 0 <= i < |pq| - 1 ensures pq[i] in graph && pq[i + 1] in graph[pq[i]] {
          if i < |p| - 1 {
            assert pq[i] == p[i] && pq[i + 1] == p[i + 1];
          } else {
            assert pq[i] == q[i - |p| + 1] && pq[i + 1] == q[i - |p| + 2];
          }
        }
      }
      assert pq[|pq| - 1] == c;
    }
  }

  /** A walk that starts inside a set closed under the map's links stays
    * inside it. */
  lemma PathStaysClosed(graph: AdjacencyMap, closed: set<Node>, path: seq<Node>)
    requires forall n :: n in closed ==> n in graph && graph[n] <= closed
    requires IsPath(graph, path) && path[0] in closed
    ensures path[|path| - 1] in closed
  {
    var i := 0;
    while i < |path| - 1
      invariant 0 <= i < |path|
      invariant path[i] in closed
    {
      var n := path[i];
      assert graph[n] <= closed;
      assert path[i + 1] in graph[n];
      i := i + 1;
    }
  }

  /** A set that holds `from`, whose nodes are keys and which holds the
    * neighbours of its nodes, holds everything reachable from `from`. */
  lemma ClosedContainsReachable(graph: AdjacencyMap, from: Node, closed: set<Node>, to: Node)
    requires from in closed
    requires forall n :: n in closed ==> n in graph && graph[n] <= closed
    requires Reachable(graph, from, to)
    ensures to in closed
  {
    var path :| IsPath(graph, path) && path[0] == from && path[|path| - 1] == to;
    PathStaysClosed(graph, closed, path);
  }

  /** Every node reachable from a missing key is that key itself. */
  lemma ReachableFromMissing(graph: AdjacencyMap, from: Node, to: Node)
    requires from !in graph && Reachable(graph, from, to)
    ensures to == from
  {
    var path :| IsPath(graph, path) && path[0] == from && path[|path| - 1] == to;
  }

  // ---------------------------------------------------------------------
  // get_component

  /** The nodes named anywhere in the map. */
  ghost function Universe(graph: AdjacencyMap, sourceId: Node): set<Node>
  {
    {sourceId} + graph.Keys + (set m, n | m in graph && n in graph[m] :: n)
  }

  lemma NeighboursInUniverse(graph: AdjacencyMap, sourceId: Node, id: Node)
    requires id in graph
    ensures graph[id] <= Universe(graph, sourceId)
  {
    forall m | m in graph[id] ensures m in Universe(graph, sourceId) {
      assert id in graph && m in graph[id];
    }
  }

  /** `component` is everything reachable from `start`. */
  ghost predicate IsComponent(graph: AdjacencyMap, start: Node, component: set<Node>)
  {
    forall n :: n in component <==> Reachable(graph, start, n)
  }

  /** Every node reachable from `start` has an entry of its own. */
  ghost predicate ReachesOnlyKeys(graph: AdjacencyMap, start: Node)
  {
    forall n :: Reachable(graph, start, n) ==> n in graph
  }

  /** The worklist invariant of `get_component`: the two sets are disjoint,
    * every node in them is reachable from `sourceId` and named in the map,
    * and every processed node is a key whose neighbours are already seen. */
  ghost predicate Walk(graph: AdjacencyMap, sourceId: Node, processed: set<Node>, unprocessed: set<Node>)
  {
    && processed !! unprocessed
    && sourceId in processed + unprocessed
    && processed + unprocessed <= Universe(graph, sourceId)
    && processed <= graph.Keys
    && (forall n :: n in processed ==> graph[n] <= processed + unprocessed)
    && (forall n :: n in processed + unprocessed ==> Reachable(graph, sourceId, n))
  }

  lemma WalkStart(graph: AdjacencyMap, sourceId: Node)
    ensures Walk(graph, sourceId, {}, {sourceId})
  {
    ReachableRefl(graph, sourceId);
  }

  /** Popping a key and queueing its unseen neighbours keeps the invariant. */
  lemma WalkStep(graph: AdjacencyMap, sourceId: Node, processed: set<Node>, unprocessed: set<Node>, id: Node)
    requires Walk(graph, sourceId, processed, unprocessed)
    requires id in unprocessed && id in graph
    ensures Walk(graph, sourceId, processed + {id}, (unprocessed - {id}) + (graph[id] - (processed + {id})))
  {
    forall m | m in graph[id] ensures Reachable(graph, sourceId, m) {
      ReachableStep(graph, sourceId, id, m);
    }
    NeighboursInUniverse(graph, sourceId, id);
  }

  /** With nothing left to pop, the processed set is all that is reachable. */
  lemma WalkDone(graph: AdjacencyMap, sourceId: Node, processed: set<Node>)
    requires Walk(graph, sourceId, processed, {})
    ensures IsComponent(graph, sourceId, processed)
    ensures ReachesOnlyKeys(graph, sourceId)
  {
    forall n | Reachable(graph, sourceId, n) ensures n in processed {
      ClosedContainsReachable(graph, sourceId, processed, n);
    }
  }

  /** `get_component(graph, source_id)`: a worklist walk from `source_id`.
    * Popping a node that has no entry raises KeyError (carrying that node);
    * otherwise the result is everything reachable from `source_id`. */
  method GetComponent(graph: AdjacencyMap, sourceId: Node) returns (r: Result<set<Node>, Node>)
    ensures r.Success? ==> sourceId in r.value && r.value <= graph.Keys
    ensures r.Success? ==> IsComponent(graph, sourceId, r.value)
    ensures r.Failure? ==> r.error !in graph && Reachable(graph, sourceId, r.error)
    ensures r.Success? <==> ReachesOnlyKeys(graph, sourceId)
    ensures sourceId !in graph ==> r == Failure(sourceId)
  {
    var processed: set<Node> := {};
    var unprocessed: set<Node> := {sourceId};
    ghost var universe := Universe(graph, sourceId);
    WalkStart(graph, sourceId);
    while unprocessed != {}
      invariant Walk(graph, sourceId, processed, unprocessed)
      invariant sourceId !in graph ==> processed == {} && unprocessed == {sourceId}
      decreases |universe - processed|
    {
      var id := Pop(unprocessed);
      if id !in graph {
        assert Reachable(graph, sourceId, id);
        return Failure(id);
      }
      WalkStep(graph, sourceId, processed, unprocessed, id);
      assert universe - (processed + {id}) < universe - processed;
      unprocessed := (unprocessed - {id}) + (graph[id] - (processed + {id}));
      processed := processed + {id};
    }
    WalkDone(graph, sourceId, processed);
    return Success(processed);
  }

  // ---------------------------------------------------------------------
  // get_all_components

  /** Every node of every component. */
  ghost function Union(components: seq<set<Node>>): set<Node>
  {
    set i, n | 0 <= i < |components| && n in components[i] :: n
  }

  /** `components[i]` is the component of the key `starts[i]`, and that key
    * was still queued, so it lies in no earlier component. */
  ghost predicate ComponentRun(graph: AdjacencyMap, components: seq<set<Node>>, starts: seq<Node>)
  {
    && |starts| == |components|
    && (forall i :: 0 <= i < |components| ==> starts[i] in graph && starts[i] in components[i])
    && (forall i :: 0 <= i < |components| ==> IsComponent(graph, starts[i], components[i]))
    && (forall i, j :: 0 <= j < i < |components| ==> starts[i] !in components[j])
  }

  lemma UnionAppend(components: seq<set<Node>>, c: set<Node>)
    ensures Union(components + [c]) == Union(components) + c
  {
    var cs := components + [c];
    forall n | n in Union(components) ensures n in Union(cs) {
      var i :| 0 <= i < |components| && n in components[i];
      assert cs[i] == components[i];
    }
    forall n | n in c ensures n in Union(cs) {
      assert cs[|components|] == c;
    }
  }

  /** The loop invariant of `get_all_components`: the queue holds keys that
    * are in no component yet, and every key is queued or already covered. */
  ghost predicate Queued(graph: AdjacencyMap, queue: set<Node>, components: seq<set<Node>>, starts: seq<Node>)
  {
    && queue <= graph.Keys
    && ComponentRun(graph, components, starts)
    && (forall i :: 0 <= i < |components| ==> components[i] !! queue)
    && Union(components) <= graph.Keys
    && graph.Keys <= queue + Union(components)
  }

  /** Taking the component of a popped key and dropping it from the queue
    * keeps the invariant. */
  lemma QueuedStep(graph: AdjacencyMap, queue: set<Node>, components: seq<set<Node>>, starts: seq<Node>,
                   nextId: Node, component: set<Node>)
    requires Queued(graph, queue, components, starts)
    requires nextId in queue
    requires nextId in component && component <= graph.Keys
    requires IsComponent(graph, nextId, component)
    ensures Queued(graph, queue - {nextId} - component, components + [component], starts + [nextId])
  {
    var rest := queue - {nextId} - component;
    UnionAppend(components, component);
    AppendRun(graph, components, starts, nextId, component);
    AppendDisjoint(components, component, queue, rest);
  }

  /** Components disjoint from the queue stay disjoint from what is left of
    * it, and so does the new component, which was taken out of it. */
  lemma AppendDisjoint(components: seq<set<Node>>, component: set<Node>, queue: set<Node>, rest: set<Node>)
    requires forall i :: 0 <= i < |components| ==> components[i] !! queue
    requires rest <= queue && rest !! component
    ensures forall i :: 0 <= i < |components + [component]| ==> (components + [component])[i] !! rest
  {
    var cs := components + [component];
    forall i | 0 <= i < |cs| ensures cs[i] !! rest {
      if i < |components| {
        assert cs[i] == components[i];
      }
    }
  }

  /** A new component, from a key in no earlier component, extends a run. */
  lemma AppendRun(graph: AdjacencyMap, components: seq<set<Node>>, starts: seq<Node>,
                  nextId: Node, component: set<Node>)
    requires ComponentRun(graph, components, starts)
    requires nextId in graph && nextId in component && IsComponent(graph, nextId, component)
    requires forall j :: 0 <= j < |components| ==> nextId !in components[j]
    ensures ComponentRun(graph, components + [component], starts + [nextId])
  {
    var cs, ss := components + [component], starts + [nextId];
    forall i | 0 <= i < |cs|
      ensures ss[i] in graph && ss[i] in cs[i] && IsComponent(graph, ss[i], cs[i])
    {
      if i < |components| {
        assert cs[i] == components[i] && ss[i] == starts[i];
      }
    }
    forall i, j | 0 <= j < i < |cs| ensures ss[i] !in cs[j] {
      assert cs[j] == components[j];
      if i < |components| {
        assert ss[i] == starts[i];
      }
    }
  }

  /** The failure `get_all_components` reports: a node that is not a key
    * but is reachable from one. */
  ghost predicate MissingReachedFromKey(graph: AdjacencyMap, missing: Node)
  {
    missing !in graph && exists k :: k in graph && Reachable(graph, k, missing)
  }

  lemma KeyReachesMissing(graph: AdjacencyMap, k: Node, missing: Node)
    requires k in graph && missing !in graph && Reachable(graph, k, missing)
    ensures MissingReachedFromKey(graph, missing)
  {
  }

  /** With the queue empty, the components cover every key. */
  lemma QueuedDone(graph: AdjacencyMap, components: seq<set<Node>>, starts: seq<Node>)
    requires Queued(graph, {}, components, starts)
    ensures Union(components) == graph.Keys
  {
  }

  /** `get_all_components(graph)`: queue every key; repeatedly pop a queued
    * key, take its component and drop that component from the queue. The
    * components yielded before a KeyError are returned with the key that
    * raised it. */
  method GetAllComponents(graph: AdjacencyMap)
    returns (components: seq<set<Node>>, failure: Option<Node>, ghost starts: seq<Node>)
    ensures ComponentRun(graph, components, starts)
    ensures Union(components) <= graph.Keys
    ensures failure.None? ==> Union(components) == graph.Keys
    ensures failure.Some? ==> MissingReachedFromKey(graph, failure.value)
  {
    var queue := graph.Keys;
    components, failure, starts := [], None, [];
    while queue != {}
      invariant Queued(graph, queue, components, starts)
      decreases |queue|
    {
      var nextId := Pop(queue);
      var component := GetComponent(graph, nextId);
      if component.Failure? {
        KeyReachesMissing(graph, nextId, component.error);
        failure := Some(component.error);
        return;
      }
      QueuedStep(graph, queue, components, starts, nextId, component.value);
      queue := queue - {nextId} - component.value;
      components := components + [component.value];
      starts := starts + [nextId];
    }
    QueuedDone(graph, components, starts);
  }

  // ---------------------------------------------------------------------
  // When the components form a partition

  /** Every link is recorded in both directions. */
  ghost predicate Symmetric(graph: AdjacencyMap)
  {
    forall a, b :: a in graph && b in graph[a] ==> b in graph && a in graph[b]
  }

  lemma ReachableSymmetric(graph: AdjacencyMap, a: Node, b: Node)
    requires Symmetric(graph) && a in graph
    ensures Reachable(graph, a, b) ==> Reachable(graph, b, a) && b in graph
  {
    if Reachable(graph, a, b) {
      var p :| IsPath(graph, p) && p[0] == a && p[|p| - 1] == b;
      var q := Pycommon.Reverse(p);
      assert IsPath(graph, q) by {
        forall i | 0 <= i < |q| - 1 ensures q[i] in graph && q[i + 1] in graph[q[i]] {
          var j := |p| - 2 - i;
          assert q[i] == p[j + 1] && q[i + 1] == p[j];
        }
      }
      assert q[0] == b && q[|q| - 1] == a;
      if |p| > 1 {
        assert p[|p| - 1] in graph[p[|p| - 2]];
      }
    }
  }

  /** On a symmetric map no reached node lacks an entry, so
    * `get_all_components` runs to the end. */
  lemma SymmetricNeverRaises(graph: AdjacencyMap, k: Node, n: Node)
    requires Symmetric(graph) && k in graph && Reachable(graph, k, n)
    ensures n in graph
  {
    ReachableSymmetric(graph, k, n);
  }

  /** On a symmetric map the components of a run are pairwise disjoint. */
  lemma SymmetricComponentsDisjoint(graph: AdjacencyMap, components: seq<set<Node>>, starts: seq<Node>)
    requires Symmetric(graph) && ComponentRun(graph, components, starts)
    ensures forall i, j :: 0 <= i < j < |components| ==> components[i] !! components[j]
  {
    forall i, j | 0 <= i < j < |components| ensures components[i] !! components[j] {
      forall x | x in components[j] ensures x !in components[i] {
        ReachableSymmetric(graph, starts[j], x);
        ReachableTransitive(graph, starts[i], x, starts[j]);
      }
    }
  }

  /** `iter_bidirectional` yields an edge exactly when it or its reverse is
    * an input edge. */
  lemma BidirectionalMember(edges: seq<Edge>, e: Edge)
    ensures e in IterBidirectional(edges) <==> e in edges || (e.1, e.0) in edges
  {
    var both := IterBidirectional(edges);
    if e in both {
      var k :| 0 <= k < |both| && both[k] == e;
      assert both[2 * (k / 2)] == edges[k / 2];
    }
    if e in edges {
      var i :| 0 <= i < |edges| && edges[i] == e;
      assert both[2 * i] == e;
    }
    if (e.1, e.0) in edges {
      var i :| 0 <= i < |edges| && edges[i] == (e.1, e.0);
      assert both[2 * i + 1] == e;
    }
  }

  /** `graph_map(iter_bidirectional(edges))` is symmetric. */
  lemma BidirectionalMapSymmetric(edges: seq<Edge>)
    ensures Symmetric(GraphMap(IterBidirectional(edges)))
  {
    var both := IterBidirectional(edges);
    var m := GraphMap(both);
    forall a, b | a in m && b in m[a] ensures b in m && a in m[b] {
      var e :| e in both && e.0 == a && e.1 == b;
      BidirectionalMember(edges, (a, b));
      BidirectionalMember(edges, (b, a));
      assert (b, a) in both;
    }
  }

  /** `graph_map(iter_bidirectional(edges))` has an entry for every node
    * named by an edge. */
  lemma BidirectionalMapKeys(edges: seq<Edge>)
    ensures GraphMap(IterBidirectional(edges)).Keys == Endpoints(edges)
  {
    var both := IterBidirectional(edges);
    forall n | n in GraphMap(both) ensures n in (set e | e in edges :: e.0) + (set e | e in edges :: e.1) {
      var e :| e in both && e.0 == n;
      BidirectionalMember(edges, e);
      if e !in edges {
        assert (e.1, e.0) in edges;
      }
    }
    forall e | e in edges ensures e.0 in GraphMap(both) && e.1 in GraphMap(both) {
      BidirectionalMember(edges, e);
      BidirectionalMember(edges, (e.1, e.0));
    }
  }

  /** No component is empty and no two overlap. */
  ghost predicate Partition(components: seq<set<Node>>)
  {
    && (forall i :: 0 <= i < |components| ==> components[i] != {})
    && (forall i, j :: 0 <= i < j < |components| ==> components[i] !! components[j])
  }

  /** Every node an edge list names, as source or as target. */
  ghost function Endpoints(edges: seq<Edge>): set<Node>
  {
    (set e | e in edges :: e.0) + (set e | e in edges :: e.1)
  }

  /** On a symmetric map the components of a complete run partition the
    * keys: none is empty, no two overlap, together they are the keys. */
  lemma SymmetricPartition(graph: AdjacencyMap, components: seq<set<Node>>, starts: seq<Node>)
    requires Symmetric(graph) && ComponentRun(graph, components, starts)
    requires Union(components) == graph.Keys
    ensures Partition(components)
  {
    SymmetricComponentsDisjoint(graph, components, starts);
  }

  /** `get_all_components` on a symmetric map never meets a node without
    * an entry, and its components partition the keys. */
  method SymmetricComponents(graph: AdjacencyMap) returns (components: seq<set<Node>>, ghost starts: seq<Node>)
    requires Symmetric(graph)
    ensures ComponentRun(graph, components, starts)
    ensures Union(components) == graph.Keys
    ensures Partition(components)
  {
    var failure;
    components, failure, starts := GetAllComponents(graph);
    if failure.Some? {
      NoMissingKey(graph, failure.value);
      assert false;
    }
    SymmetricPartition(graph, components, starts);
  }

  /** A symmetric map has no missing node reached from a key. */
  lemma NoMissingKey(graph: AdjacencyMap, missing: Node)
    requires Symmetric(graph)
    ensures !MissingReachedFromKey(graph, missing)
  {
    if MissingReachedFromKey(graph, missing) {
      var k :| k in graph && Reachable(graph, k, missing);
      SymmetricNeverRaises(graph, k, missing);
    }
  }

  /** The components of an undirected edge list: `graph_map` over
    * `iter_bidirectional`, then `get_all_components`. Every node named by
    * an edge lies in exactly one component. */
  method BidirectionalComponents(edges: seq<Edge>) returns (components: seq<set<Node>>, ghost starts: seq<Node>)
    ensures ComponentRun(GraphMap(IterBidirectional(edges)), components, starts)
    ensures Union(components) == Endpoints(edges)
    ensures Partition(components)
  {
    var graph := GraphMap(IterBidirectional(edges));
    BidirectionalMapSymmetric(edges);
    BidirectionalMapKeys(edges);
    components, starts := SymmetricComponents(graph);
  }

  /** The map of the single link `1 -> 2`. */
  function OneLink(): AdjacencyMap
  {
    map[1 := {2}, 2 := {}]
  }

  lemma OneLinkComponents()
    ensures IsComponent(OneLink(), 2, {2})
    ensures IsComponent(OneLink(), 1, {1, 2})
  {
    var graph := OneLink();
    assert IsPath(graph, [1, 2]);
    ReachableRefl(graph, 1);
    ReachableRefl(graph, 2);
    forall n | Reachable(graph, 2, n) ensures n in {2} {
      ClosedContainsReachable(graph, 2, {2}, n);
    }
    forall n | Reachable(graph, 1, n) ensures n in {1, 2} {
      ClosedContainsReachable(graph, 1, {1, 2}, n);
    }
  }

  /** On a directed map the components may overlap: with `1 -> 2` only, popping
    * 2 first yields `{2}` and then `{1, 2}`, a complete run that
    * `get_all_components` admits. */
  lemma DirectedComponentsMayOverlap()
    ensures ComponentRun(OneLink(), [{2}, {1, 2}], [2, 1])
    ensures Union([{2}, {1, 2}]) == OneLink().Keys
    ensures !({2} !! {1, 2})
  {
    OneLinkComponents();
    TwoComponentRun(OneLink(), {2}, {1, 2}, 2, 1);
    UnionTwo({2}, {1, 2});
    assert 2 in {1, 2};
  }

  /** Two components form a run when the second start lies outside the first. */
  lemma TwoComponentRun(graph: AdjacencyMap, c0: set<Node>, c1: set<Node>, s0: Node, s1: Node)
    requires s0 in graph && s0 in c0 && IsComponent(graph, s0, c0)
    requires s1 in graph && s1 in c1 && IsComponent(graph, s1, c1)
    requires s1 !in c0
    ensures ComponentRun(graph, [c0, c1], [s0, s1])
  {
  }

  lemma UnionTwo(c0: set<Node>, c1: set<Node>)
    ensures Union([c0, c1]) == c0 + c1
  {
    var cs := [c0, c1];
    forall n | n in Union(cs) ensures n in c0 + c1 {
      var i, m :| 0 <= i < |cs| && m in cs[i] && m == n;
    }
    forall n | n in c0 + c1 ensures n in Union(cs) {
      var i := if n in c0 then 0 else 1;
      assert n in cs[i];
    }
  }
}
