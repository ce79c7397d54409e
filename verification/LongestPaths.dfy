/**
 The level algorithm itself: neighbour lists, the queue and the fill of the nodes it never reached.
 */
module LongestPaths {
  import opened TreeLevels
  import opened QueueRuns
  import opened RunLevels

  /** The edges the layout looks at. */
  function KeptEdges(keys: seq<Key>, edges: seq<Edge>): seq<Edge> {
    if edges == [] then []
    else
      var e := edges[|edges| - 1];
      KeptEdges(keys, edges[..|edges| - 1]) + if UsableEdge(keys, e) then [e] else []
  }

  lemma {:induction false} KeptEdgesAreUsable(keys: seq<Key>, edges: seq<Edge>)
    ensures Usable(keys, KeptEdges(keys, edges))
    ensures forall e :: e in KeptEdges(keys, edges) <==> e in edges && UsableEdge(keys, e)
  {
    if edges != [] {
      KeptEdgesAreUsable(keys, edges[..|edges| - 1]);
      assert edges == edges[..|edges| - 1] + [edges[|edges| - 1]];
    }
  }

  lemma NeighboursAppend(edges: seq<Edge>, e: Edge, k: Key)
    ensures Sources(edges + [e], k) == Sources(edges, k) + if e.to == k then [e.from] else []
    ensures Targets(edges + [e], k) == Targets(edges, k) + if e.from == k then [e.to] else []
  {
    assert (edges + [e])[..|edges|] == edges;
  }

  lemma KeptEdgesAppend(keys: seq<Key>, edges: seq<Edge>, i: nat)
    requires i < |edges|
    ensures KeptEdges(keys, edges[..i + 1])
         == KeptEdges(keys, edges[..i]) + if UsableEdge(keys, edges[i]) then [edges[i]] else []
  {
    assert edges[..i + 1][..i] == edges[..i];
  }

  ghost predicate AreNeighbours(keys: seq<Key>, kept: seq<Edge>, incoming: map<Key, seq<Key>>, outgoing: map<Key, seq<Key>>) {
    && (forall k :: k in incoming <==> k in keys)
    && (forall k :: k in outgoing <==> k in keys)
    && (forall k | k in keys :: incoming[k] == Sources(kept, k))
    && (forall k | k in keys :: outgoing[k] == Targets(kept, k))
  }

  lemma NeighboursStep(keys: seq<Key>, kept: seq<Edge>, incoming: map<Key, seq<Key>>, outgoing: map<Key, seq<Key>>, e: Edge)
    requires AreNeighbours(keys, kept, incoming, outgoing) && UsableEdge(keys, e)
    ensures AreNeighbours(keys, kept + [e], incoming[e.to := incoming[e.to] + [e.from]], outgoing[e.from := outgoing[e.from] + [e.to]])
  {
    hide Sources, Targets;
    forall k
      ensures Sources(kept + [e], k) == Sources(kept, k) + if e.to == k then [e.from] else []
      ensures Targets(kept + [e], k) == Targets(kept, k) + if e.from == k then [e.to] else []
    {
      NeighboursAppend(kept, e, k);
    }
  }

  /** The neighbour lists, filled edge by edge. */
  method BuildNeighbours(keys: seq<Key>, edges: seq<Edge>)
    returns (incoming: map<Key, seq<Key>>, outgoing: map<Key, seq<Key>>)
    ensures AreNeighbours(keys, KeptEdges(keys, edges), incoming, outgoing)
  {
    incoming := map k | k in keys :: [];
    outgoing := map k | k in keys :: [];
    assert AreNeighbours(keys, KeptEdges(keys, edges[..0]), incoming, outgoing);
    for i := 0 to |edges|
      invariant AreNeighbours(keys, KeptEdges(keys, edges[..i]), incoming, outgoing)
    {
      hide KeptEdges, Sources, Targets;
      KeptEdgesAppend(keys, edges, i);
      var e := edges[i];
      if UsableEdge(keys, e) {
        NeighboursStep(keys, KeptEdges(keys, edges[..i]), incoming, outgoing, e);
        outgoing := outgoing[e.from := outgoing[e.from] + [e.to]];
        incoming := incoming[e.to := incoming[e.to] + [e.from]];
      } else {
        assert KeptEdges(keys, edges[..i + 1]) == KeptEdges(keys, edges[..i]);
      }
    }
    assert edges[..|edges|] == edges;
  }

  /** The nodes the queue starts from, all at level 0. */
  method InitialSearch(nodes: seq<Node>, incoming: map<Key, seq<Key>>, ghost edges: seq<Edge>)
    returns (s: Search)
    requires forall k :: k in incoming <==> k in KeysOf(nodes)
    requires forall k | k in incoming :: incoming[k] == Sources(edges, k)
    ensures s == Initial(nodes, edges)
  {
    hide Sources, StartKey;
    var keys := KeysOf(nodes);
    var startKey := StartKey(nodes);
    var indegree: map<Key, int> := map k | k in keys :: |incoming[k]|;
    var queue: seq<Key> := [];
    var levels: map<Key, nat> := map[];
    for i := 0 to |keys|
      invariant queue == InitialQueue(keys[..i], edges, startKey)
      invariant levels == map k | k in queue :: 0
    {
      assert keys[..i + 1][..i] == keys[..i];
      if keys[i] == startKey || indegree[keys[i]] == 0 {
        queue := queue + [keys[i]];
        levels := levels[keys[i] := 0];
      }
    }
    assert keys[..|keys|] == keys;
    s := Search(queue, levels, indegree);
  }

  /** The greatest level given so far, or 0. */
  method GreatestLevel(keys: seq<Key>, levels: map<Key, nat>) returns (greatest: nat)
    requires forall v | v in levels :: v in keys
    ensures forall v | v in levels :: levels[v] <= greatest
    ensures greatest == 0 || exists v :: v in levels && levels[v] == greatest
  {
    greatest := 0;
    for i := 0 to |keys|
      invariant forall v | v in keys[..i] && v in levels :: levels[v] <= greatest
      invariant greatest == 0 || exists v :: v in levels && levels[v] == greatest
    {
      assert keys[..i + 1] == keys[..i] + [keys[i]];
      if keys[i] in levels && levels[keys[i]] > greatest {
        greatest := levels[keys[i]];
      }
    }
    assert keys[..|keys|] == keys;
  }

  /** Nodes with a level keep it, the others take the level after the greatest. */
  ghost predicate Filled(keys: seq<Key>, reached: map<Key, nat>, levels: map<Key, nat>, last: nat) {
    && (forall v :: v in levels <==> v in keys)
    && (forall v | v in keys :: levels[v] == if v in reached then reached[v] else last)
    && (forall v | v in reached :: v in keys && reached[v] < last)
    && (last == 1 || exists v :: v in reached && reached[v] + 1 == last)
  }

  /** The nodes the search never reached all take the level after the greatest one. */
  method FillUnreached(keys: seq<Key>, reached: map<Key, nat>) returns (levels: map<Key, nat>, last: nat)
    requires forall v | v in reached :: v in keys
    ensures Filled(keys, reached, levels, last)
  {
    var greatest := GreatestLevel(keys, reached);
    levels, last := reached, greatest + 1;
    for i := 0 to |keys|
      invariant forall v :: v in levels <==> v in reached || v in keys[..i]
      invariant forall v | v in levels :: levels[v] == if v in reached then reached[v] else last
    {
      assert keys[..i + 1] == keys[..i] + [keys[i]];
      if keys[i] !in levels {
        levels := levels[keys[i] := last];
      }
    }
    assert keys[..|keys|] == keys;
  }

  /** The node was popped or a popped node points to it. */
  ghost predicate Reached(edges: seq<Edge>, order: seq<Key>, v: Key) {
    v in order || HasSourceIn(edges, KeySet(order), v)
  }

  /** No node that was reached stands as far right. */
  ghost predicate BehindAllReached(edges: seq<Edge>, levels: map<Key, nat>, order: seq<Key>, v: Key)
    requires v in levels
  {
    forall u | u in levels && Reached(edges, order, u) :: levels[u] < levels[v]
  }

  /**
   What the levels promise once the queue has ended, `order` being the popped nodes in turn: a node with a
   longest path is popped and has its length for level; edges out of popped nodes climb, and nodes with
   popped predecessors stand one above the greatest, unless a cycle blocks the start node; an unpopped node
   stands behind every reached one exactly when no popped node points to it.
   */
  ghost predicate LongestLevels(nodes: seq<Node>, edges: seq<Edge>, levels: map<Key, nat>, order: seq<Key>) {
    && (forall v :: v in levels <==> v in KeysOf(nodes))
    && (forall v | v in order :: v in levels)
    && (forall v | v in levels :: levels[v] < |nodes|)
    && (forall v | v in levels :: HasEndlessPaths(edges, v) || (v in order && IsLongest(edges, v, levels[v])))
    && (forall u | u in order && (u != StartKey(nodes) || !Blocked(edges, StartKey(nodes))) :: Up(edges, levels, u))
    && (forall v | v in levels && HasSourceIn(edges, KeySet(order), v) && !Blocked(edges, StartKey(nodes)) ::
          LevelFits(edges, levels, KeySet(order), v))
    && (forall v | v in levels && v !in order ::
          BehindAllReached(edges, levels, order, v) <==> !HasSourceIn(edges, KeySet(order), v))
    && (StartIsSource(nodes, edges) ==> Distinct(order) && forall v | v in order :: !HasEndlessPaths(edges, v))
    && (Acyclic(edges) ==> forall v | v in levels :: v in order && IsLongest(edges, v, levels[v]))
  }

  /** The outcome of the run of the queue, whatever the graph: its levels filled up, and what it popped */
  ghost predicate IsOutcome(nodes: seq<Node>, edges: seq<Edge>, levels: map<Key, nat>, order: seq<Key>) {
    exists n: nat, last: nat :: OutcomeAfter(nodes, edges, levels, order, n, last)
  }

  ghost predicate OutcomeAfter(nodes: seq<Node>, edges: seq<Edge>, levels: map<Key, nat>, order: seq<Key>, n: nat, last: nat) {
    && EndsBy(edges, Initial(nodes, edges), n)
    && order == Popped(edges, Initial(nodes, edges), n)
    && Filled(KeysOf(nodes), Turns(edges, Initial(nodes, edges), n).levels, levels, last)
  }

  /** `longestPathLevels`, for the graphs on which its queue ends. */
  method LongestPathLevels(nodes: seq<Node>, incoming: map<Key, seq<Key>>, outgoing: map<Key, seq<Key>>, ghost edges: seq<Edge>)
    returns (levels: map<Key, nat>, ghost order: seq<Key>)
    requires Distinct(KeysOf(nodes)) && Usable(KeysOf(nodes), edges) && QueueEnds(nodes, edges)
    requires AreNeighbours(KeysOf(nodes), edges, incoming, outgoing)
    ensures IsOutcome(nodes, edges, levels, order)
    ensures LongestLevels(nodes, edges, levels, order)
  {
    hide Filled, Turn, RelaxOne, RelaxAll, Sources, Targets, LongestLevels, Distinct, Usable, Initial, RunInv;
    var s := InitialSearch(nodes, incoming, edges);
    var queue, reached, indegree := s.queue, s.levels, s.indegree;
    ghost var turns: nat := 0;
    ghost var all: nat :| EndsBy(edges, s, all);
    while queue != []
      invariant turns <= all
      invariant Search(queue, reached, indegree) == Turns(edges, s, turns)
      decreases all - turns
    {
      ghost var before := Search(queue, reached, indegree);
      QueuedIsKnown(nodes, edges, turns);
      var key := queue[0];
      queue := queue[1..];
      var base := LevelOr0(reached, key);
      queue, reached, indegree := RelaxTargets(queue, reached, indegree, base, outgoing[key]);
      TurnIs(edges, before, base, outgoing[key]);
      turns := turns + 1;
    }
    order := Popped(edges, s, turns);
    ReachedAreKeys(nodes, edges, turns);
    var last;
    levels, last := FillUnreached(KeysOf(nodes), reached);
    assert OutcomeAfter(nodes, edges, levels, order, turns, last);
    FinishedFacts(nodes, edges, turns, levels, last);
  }

  /** The inner loop: every edge out of the popped node. */
  method RelaxTargets(queue: seq<Key>, levels: map<Key, nat>, indegree: map<Key, int>, base: nat, outs: seq<Key>)
    returns (queue': seq<Key>, levels': map<Key, nat>, indegree': map<Key, int>)
    ensures Search(queue', levels', indegree') == RelaxAll(Search(queue, levels, indegree), base, outs)
  {
    queue', levels', indegree' := queue, levels, indegree;
    for i := 0 to |outs|
      invariant Search(queue', levels', indegree') == RelaxAll(Search(queue, levels, indegree), base, outs[..i])
    {
      assert outs[..i + 1][..i] == outs[..i];
      queue', levels', indegree' := RelaxStep(queue', levels', indegree', base, outs[i]);
    }
    assert outs[..|outs|] == outs;
  }

  /** The body of the inner loop, on the three variables it updates. */
  method RelaxStep(queue: seq<Key>, levels: map<Key, nat>, indegree: map<Key, int>, base: nat, next: Key)
    returns (queue': seq<Key>, levels': map<Key, nat>, indegree': map<Key, int>)
    ensures Search(queue', levels', indegree') == RelaxOne(Search(queue, levels, indegree), base, next)
  {
    queue', levels', indegree' := queue, levels, indegree;
    levels' := levels'[next := MaxNat(LevelOr0(levels', next), base + 1)];
    indegree' := indegree'[next := (if next in indegree' then indegree'[next] else 1) - 1];
    if indegree'[next] <= 0 && next !in queue' {
      queue' := queue' + [next];
    }
  }

  lemma TurnIs(edges: seq<Edge>, s: Search, base: nat, outs: seq<Key>)
    requires s.queue != [] && base == LevelOr0(s.levels, s.queue[0]) && outs == Targets(edges, s.queue[0])
    ensures Turn(edges, s) == RelaxAll(Search(s.queue[1..], s.levels, s.indegree), base, outs)
  {
  }

  lemma QueuedIsKnown(nodes: seq<Node>, edges: seq<Edge>, n: nat)
    requires Distinct(KeysOf(nodes)) && Usable(KeysOf(nodes), edges) && !EndsBy(edges, Initial(nodes, edges), n)
    ensures Turns(edges, Initial(nodes, edges), n).queue[0] in KeysOf(nodes)
  {
    hide Initial, Turns, Popped, StartKey, InCount, Distinct, Usable;
    RunKeepsInv(nodes, edges, n);
    var queue := Turns(edges, Initial(nodes, edges), n).queue;
    assert queue[0] in queue;
  }

  lemma ReachedAreKeys(nodes: seq<Node>, edges: seq<Edge>, n: nat)
    requires Distinct(KeysOf(nodes)) && Usable(KeysOf(nodes), edges)
    ensures forall v | v in Turns(edges, Initial(nodes, edges), n).levels :: v in KeysOf(nodes)
  {
    hide Initial, Turns, Popped, HasSourceIn, HasPathOfLength, Supported, Settled, Distinct, Usable;
    RunKeepsLevels(nodes, edges, n);
  }

  // ---------------------------------------------------------------------------
  // From the finished run to the filled levels
  // ---------------------------------------------------------------------------

  lemma FilledKeys(keys: seq<Key>, reached: map<Key, nat>, levels: map<Key, nat>, last: nat)
    requires Filled(keys, reached, levels, last)
    ensures forall v :: v in levels <==> v in keys
  {
  }

  lemma FilledUp(keys: seq<Key>, edges: seq<Edge>, reached: map<Key, nat>, levels: map<Key, nat>, last: nat, u: Key)
    requires Filled(keys, reached, levels, last) && Up(edges, reached, u)
    ensures Up(edges, levels, u)
  {
  }

  lemma FilledFits(keys: seq<Key>, edges: seq<Edge>, reached: map<Key, nat>, levels: map<Key, nat>, last: nat, done: set<Key>, v: Key)
    requires Filled(keys, reached, levels, last) && v in reached && LevelFits(edges, reached, done, v)
    ensures v in levels && LevelFits(edges, levels, done, v)
  {
    var e :| e in edges && e.to == v && e.from in done && e.from in reached && reached[e.from] + 1 == reached[v];
    assert e.from in levels && levels[e.from] + 1 == levels[v];
  }

  lemma FilledLow(keys: seq<Key>, reached: map<Key, nat>, levels: map<Key, nat>, last: nat, v: Key)
    requires Filled(keys, reached, levels, last) && LowLevels(keys, reached) && v in keys
    requires v in reached || |keys| > 1
    ensures levels[v] < |keys|
  {
  }

  lemma FilledBehind(keys: seq<Key>, edges: seq<Edge>, s: Search, order: seq<Key>, levels: map<Key, nat>, last: nat, v: Key)
    requires Filled(keys, s.levels, levels, last) && s.queue == [] && v in keys && v !in order
    requires forall u :: u in s.levels <==> u in s.queue || u in KeySet(order) || HasSourceIn(edges, KeySet(order), u)
    ensures BehindAllReached(edges, levels, order, v) <==> !HasSourceIn(edges, KeySet(order), v)
  {
    hide HasSourceIn;
    assert forall u :: u in KeySet(order) <==> u in order;
    if HasSourceIn(edges, KeySet(order), v) {
      assert Reached(edges, order, v);
    }
  }

  lemma NodeFacts(keys: seq<Key>, edges: seq<Edge>, start: Key, s: Search, order: seq<Key>, levels: map<Key, nat>, last: nat, v: Key)
    requires Finished(keys, edges, start, s, KeySet(order)) && LowLevels(keys, s.levels)
    requires Filled(keys, s.levels, levels, last) && v in levels && v in keys
    ensures levels[v] < |keys|
    ensures HasEndlessPaths(edges, v) || (v in order && IsLongest(edges, v, levels[v]))
    ensures Acyclic(edges) ==> !HasEndlessPaths(edges, v)
    ensures HasSourceIn(edges, KeySet(order), v) && !Blocked(edges, start) ==> LevelFits(edges, levels, KeySet(order), v)
    ensures v !in order ==> (BehindAllReached(edges, levels, order, v) <==> !HasSourceIn(edges, KeySet(order), v))
  {
    hide Finished, LowLevels, Blocked, LevelFits, HasEndlessPaths, IsLongest, Acyclic, HasSourceIn, BehindAllReached;
    var done := KeySet(order);
    FinishedLow(keys, edges, start, s, done, levels, last, v);
    if !HasEndlessPaths(edges, v) {
      LevelsAreLongestPaths(keys, edges, start, s, done, v);
    }
    if Acyclic(edges) {
      FinishedUsable(keys, edges, start, s, done);
      AcyclicIsFinite(keys, edges, v);
    }
    if HasSourceIn(edges, done, v) && !Blocked(edges, start) {
      ReachedFits(keys, edges, start, s, done, v);
      FilledFits(keys, edges, s.levels, levels, last, done, v);
    }
    if v !in order {
      FinishedUsable(keys, edges, start, s, done);
      FilledBehind(keys, edges, s, order, levels, last, v);
    }
  }

  lemma FinishedUsable(keys: seq<Key>, edges: seq<Edge>, start: Key, s: Search, done: set<Key>)
    requires Finished(keys, edges, start, s, done)
    ensures Usable(keys, edges) && s.queue == []
    ensures forall u :: u in s.levels <==> u in s.queue || u in done || HasSourceIn(edges, done, u)
  {
    hide RunInv, HasPathOfLength, Supported, Settled, HasSourceIn;
  }

  lemma FinishedLow(keys: seq<Key>, edges: seq<Edge>, start: Key, s: Search, done: set<Key>, levels: map<Key, nat>, last: nat, v: Key)
    requires Finished(keys, edges, start, s, done) && LowLevels(keys, s.levels)
    requires Filled(keys, s.levels, levels, last) && v in keys
    ensures levels[v] < |keys|
  {
    FinishedUsable(keys, edges, start, s, done);
    if v !in s.levels {
      hide Finished, LowLevels;
      var u := TwoUnpopped(keys, edges, start, s, done, v);
    }
    FilledLow(keys, s.levels, levels, last, v);
  }

  lemma FinishedFacts(nodes: seq<Node>, edges: seq<Edge>, n: nat, levels: map<Key, nat>, last: nat)
    requires Distinct(KeysOf(nodes)) && Usable(KeysOf(nodes), edges) && EndsBy(edges, Initial(nodes, edges), n)
    requires Filled(KeysOf(nodes), Turns(edges, Initial(nodes, edges), n).levels, levels, last)
    ensures LongestLevels(nodes, edges, levels, Popped(edges, Initial(nodes, edges), n))
  {
    hide Distinct, Initial, Turns, Popped, StartKey, Filled, LowLevels, Blocked, Up, LevelFits, HasEndlessPaths, IsLongest, Acyclic;
    hide HasSourceIn, BehindAllReached, StartIsSource, RunInv, HasPathOfLength, Supported, Settled, Usable;
    var keys, start, s := KeysOf(nodes), StartKey(nodes), Turns(edges, Initial(nodes, edges), n);
    var order := Popped(edges, Initial(nodes, edges), n);
    RunFinishes(nodes, edges, n);
    FinalLevelsLow(nodes, edges, n);
    FilledKeys(keys, s.levels, levels, last);
    forall v | v in levels
      ensures levels[v] < |nodes|
      ensures HasEndlessPaths(edges, v) || (v in order && IsLongest(edges, v, levels[v]))
      ensures Acyclic(edges) ==> !HasEndlessPaths(edges, v)
      ensures HasSourceIn(edges, KeySet(order), v) && !Blocked(edges, start) ==> LevelFits(edges, levels, KeySet(order), v)
      ensures v !in order ==> (BehindAllReached(edges, levels, order, v) <==> !HasSourceIn(edges, KeySet(order), v))
    {
      NodeFacts(keys, edges, start, s, order, levels, last, v);
    }
    forall u | u in order && (u != start || !Blocked(edges, start))
      ensures Up(edges, levels, u)
    {
      PoppedUp(keys, edges, start, s, KeySet(order), u);
      FilledUp(keys, edges, s.levels, levels, last, u);
    }
    if StartIsSource(nodes, edges) {
      PoppedOnceEnds(nodes, edges);
      forall v | v in order
        ensures !HasEndlessPaths(edges, v)
      {
        SourceStartPopsFinite(nodes, edges, n, v);
      }
    }
  }
}
