/**
 Whole runs of the level queue, from the state it starts in, with no condition on the start node: what
 every turn keeps, and when the queue ends.
 */
module QueueRuns {
  import opened TreeLevels

  // ---------------------------------------------------------------------------
  // Runs
  // ---------------------------------------------------------------------------

  /** The key of the first START node, or the empty key without one. */
  function StartKey(nodes: seq<Node>): Key {
    if nodes == [] then "" else if nodes[0].kind == "START" then nodes[0].key else StartKey(nodes[1..])
  }

  /** The node that counts is the first of its kind. */
  lemma {:induction false} StartKeyExactly(nodes: seq<Node>, i: nat)
    ensures && i < |nodes| && nodes[i].kind == "START" && (forall k | 0 <= k < i :: nodes[k].kind != "START")
            ==> StartKey(nodes) == nodes[i].key
    ensures (forall k | 0 <= k < |nodes| :: nodes[k].kind != "START") ==> StartKey(nodes) == ""
  {
    if nodes != [] && nodes[0].kind != "START" {
      StartKeyExactly(nodes[1..], if i > 0 then i - 1 else 0);
      assert forall k | 0 <= k < |nodes| - 1 :: nodes[1..][k] == nodes[k + 1];
    }
  }

  /** The start node and the nodes no edge enters, in the order of the keys */
  function InitialQueue(keys: seq<Key>, edges: seq<Edge>, start: Key): seq<Key> {
    if keys == [] then []
    else
      var n := |keys| - 1;
      InitialQueue(keys[..n], edges, start) + if keys[n] == start || Sources(edges, keys[n]) == [] then [keys[n]] else []
  }

  function Initial(nodes: seq<Node>, edges: seq<Edge>): Search {
    var keys := KeysOf(nodes);
    var queue := InitialQueue(keys, edges, StartKey(nodes));
    Search(queue, map k | k in queue :: 0, map k | k in keys :: |Sources(edges, k)|)
  }

  /** No usable edge enters the start node. */
  ghost predicate StartIsSource(nodes: seq<Node>, edges: seq<Edge>) {
    forall e | e in edges :: e.to != StartKey(nodes)
  }

  function Turns(edges: seq<Edge>, s: Search, n: nat): Search {
    if n == 0 then s
    else
      var t := Turns(edges, s, n - 1);
      if t.queue == [] then t else Turn(edges, t)
  }

  /** The nodes popped in the first n turns, as often as they were */
  function Popped(edges: seq<Edge>, s: Search, n: nat): seq<Key> {
    if n == 0 then []
    else
      var t := Turns(edges, s, n - 1);
      Popped(edges, s, n - 1) + if t.queue == [] then [] else [t.queue[0]]
  }

  ghost predicate Ends(edges: seq<Edge>, s: Search) {
    exists n :: EndsBy(edges, s, n)
  }

  ghost predicate EndsBy(edges: seq<Edge>, s: Search, n: nat) {
    Turns(edges, s, n).queue == []
  }

  /** The level queue of the graph ends. */
  ghost predicate QueueEnds(nodes: seq<Node>, edges: seq<Edge>) {
    Ends(edges, Initial(nodes, edges))
  }

  lemma {:induction false} TurnsStay(edges: seq<Edge>, s: Search, n: nat, m: nat)
    requires n <= m && EndsBy(edges, s, n)
    ensures Turns(edges, s, m) == Turns(edges, s, n) && Popped(edges, s, m) == Popped(edges, s, n)
  {
    if n < m {
      TurnsStay(edges, s, n, m - 1);
    }
  }

  lemma {:induction false} InitialQueueHolds(keys: seq<Key>, edges: seq<Edge>, start: Key)
    requires Distinct(keys)
    ensures Distinct(InitialQueue(keys, edges, start))
    ensures forall v :: v in InitialQueue(keys, edges, start) <==> v in keys && (v == start || Sources(edges, v) == [])
  {
    if keys != [] {
      var n := |keys| - 1;
      InitialQueueHolds(keys[..n], edges, start);
      assert keys == keys[..n] + [keys[n]];
      assert keys[n] !in keys[..n];
    }
  }

  // ---------------------------------------------------------------------------
  // One turn, whatever the counts
  // ---------------------------------------------------------------------------

  /** The targets whose count is used up are queued, and nothing else joins. */
  ghost predicate Queued(s: Search, t: Search, outs: seq<Key>) {
    && (Distinct(s.queue) ==> Distinct(t.queue))
    && (forall v :: v in t.queue <==> v in s.queue || (v in outs && v in t.indegree && t.indegree[v] <= 0))
  }

  lemma RelaxOneQueued(s: Search, t: Search, base: nat, outs: seq<Key>, next: Key)
    requires next in s.indegree && CountsRelaxed(s, t, outs) && Queued(s, t, outs)
    ensures Queued(s, RelaxOne(t, base, next), outs + [next])
  {
    var u := RelaxOne(t, base, next);
    forall v
      ensures v in outs + [next] <==> v in outs || v == next
    {
    }
    if u.queue != t.queue {
      assert u.queue == t.queue + [next];
    }
  }

  lemma {:induction false} RelaxAllQueued(s: Search, base: nat, outs: seq<Key>)
    requires forall v | v in outs :: v in s.indegree
    ensures LevelsRelaxed(s, RelaxAll(s, base, outs), base, outs)
    ensures CountsRelaxed(s, RelaxAll(s, base, outs), outs)
    ensures Queued(s, RelaxAll(s, base, outs), outs)
  {
    if outs != [] {
      hide LevelsRelaxed, CountsRelaxed, Queued;
      var n := |outs| - 1;
      assert outs == outs[..n] + [outs[n]];
      assert outs[n] in outs;
      RelaxAllQueued(s, base, outs[..n]);
      RelaxOneLevels(s, RelaxAll(s, base, outs[..n]), base, outs[..n], outs[n]);
      RelaxOneQueued(s, RelaxAll(s, base, outs[..n]), base, outs[..n], outs[n]);
      RelaxOneCounts(s, RelaxAll(s, base, outs[..n]), base, outs[..n], outs[n]);
    }
  }

  ghost predicate KeyCounts(keys: seq<Key>, s: Search) {
    && Distinct(s.queue) && (forall v | v in s.queue :: v in keys)
    && (forall v :: v in s.indegree <==> v in keys)
  }

  /** What a turn does, in terms of the popped key and its targets */
  ghost predicate Turned(edges: seq<Edge>, s: Search, t: Search, key: Key) {
    && (forall v :: v in t.indegree <==> v in s.indegree)
    && (forall v | v in t.indegree :: t.indegree[v] == s.indegree[v] - Count(Targets(edges, key), v))
    && (forall v :: v in t.queue <==>
          (v in s.queue && v != key) || (v in Targets(edges, key) && v in t.indegree && t.indegree[v] <= 0))
    && LevelsRelaxed(s, t, LevelOr0(s.levels, key), Targets(edges, key))
  }

  lemma TargetsKnown(keys: seq<Key>, edges: seq<Edge>, key: Key)
    requires Usable(keys, edges)
    ensures key !in Targets(edges, key)
    ensures forall v | v in Targets(edges, key) :: v in keys && Edge(key, v) in edges
  {
    hide Targets;
    forall v | v in Targets(edges, key)
      ensures v in keys && v != key && Edge(key, v) in edges
    {
      TargetsAreEdges(edges, key, v);
      assert UsableEdge(keys, Edge(key, v));
    }
  }

  lemma WithoutHead(queue: seq<Key>)
    requires Distinct(queue) && queue != []
    ensures Distinct(queue[1..]) && forall v :: v in queue[1..] <==> v in queue && v != queue[0]
  {
    assert queue == [queue[0]] + queue[1..];
  }

  lemma TurnTurns(keys: seq<Key>, edges: seq<Edge>, s: Search)
    requires Usable(keys, edges) && KeyCounts(keys, s) && s.queue != []
    ensures KeyCounts(keys, Turn(edges, s)) && Turned(edges, s, Turn(edges, s), s.queue[0])
    ensures s.queue[0] in keys && s.queue[0] !in Targets(edges, s.queue[0])
    ensures forall v | v in Targets(edges, s.queue[0]) :: v in keys && Edge(s.queue[0], v) in edges
  {
    hide Count, Targets, LevelsRelaxed, RelaxAll, Usable;
    var key, rest := s.queue[0], s.(queue := s.queue[1..]);
    TargetsKnown(keys, edges, key);
    assert s.queue[0] in s.queue;
    WithoutHead(s.queue);
    RelaxAllQueued(rest, LevelOr0(s.levels, key), Targets(edges, key));
    LevelsIgnoreQueue(s, rest, Turn(edges, s), LevelOr0(s.levels, key), Targets(edges, key));
  }

  // ---------------------------------------------------------------------------
  // What every run keeps
  // ---------------------------------------------------------------------------

  /**
   Counts never exceed the predecessors still to be popped; apart from the start node, which is queued at once,
   a node is queued or popped exactly when its count is used up.
   */
  ghost predicate RunInv(keys: seq<Key>, edges: seq<Edge>, start: Key, s: Search, done: set<Key>) {
    && KeyCounts(keys, s)
    && (forall v | v in done :: v in keys)
    && (forall v | v in keys :: s.indegree[v] <= InCount(edges, v, done))
    && (forall v | v in keys && s.indegree[v] <= 0 :: v in s.queue || v in done)
    && (forall v | v in s.queue || v in done :: v == start || s.indegree[v] <= 0)
    && (start in keys ==> start in s.queue || start in done)
  }

  lemma InitialRunInv(nodes: seq<Node>, edges: seq<Edge>)
    requires Distinct(KeysOf(nodes))
    ensures RunInv(KeysOf(nodes), edges, StartKey(nodes), Initial(nodes, edges), {})
  {
    hide Sources, StartKey, InitialQueue, InCount;
    var keys := KeysOf(nodes);
    InitialQueueHolds(keys, edges, StartKey(nodes));
    forall v | v in keys
      ensures InCount(edges, v, {}) == |Sources(edges, v)|
    {
      InCountOfNone(edges, v);
    }
  }

  lemma {:induction false} InCountOfDone(edges: seq<Edge>, to: Key, done: set<Key>, popped: Key)
    ensures InCount(edges, to, done) <= InCount(edges, to, done + {popped}) + Count(Targets(edges, popped), to)
  {
    if popped in done {
      assert done + {popped} == done;
    } else {
      InCountAfterPop(edges, to, done, popped);
    }
  }

  lemma {:induction false} TurnKeepsRunInv(keys: seq<Key>, edges: seq<Edge>, start: Key, s: Search, done: set<Key>)
    requires Usable(keys, edges) && RunInv(keys, edges, start, s, done) && s.queue != []
    ensures RunInv(keys, edges, start, Turn(edges, s), done + {s.queue[0]})
  {
    hide Count, InCount, Targets, LevelsRelaxed, Turn;
    var key, t := s.queue[0], Turn(edges, s);
    TurnTurns(keys, edges, s);
    forall v | v in keys
      ensures t.indegree[v] <= InCount(edges, v, done + {key})
      ensures t.indegree[v] <= 0 ==> v in t.queue || v in done + {key}
    {
      InCountOfDone(edges, v, done, key);
      CountPositive(Targets(edges, key), v);
    }
  }

  lemma KeySetAppends(order: seq<Key>, key: Key)
    ensures KeySet(order + [key]) == KeySet(order) + {key}
  {
  }

  lemma {:induction false} RunKeepsInv(nodes: seq<Node>, edges: seq<Edge>, n: nat)
    requires Distinct(KeysOf(nodes)) && Usable(KeysOf(nodes), edges)
    ensures RunInv(KeysOf(nodes), edges, StartKey(nodes), Turns(edges, Initial(nodes, edges), n),
                   KeySet(Popped(edges, Initial(nodes, edges), n)))
  {
    hide RunInv, Initial, Turn, StartKey, Usable, Distinct;
    var s := Initial(nodes, edges);
    if n == 0 {
      InitialRunInv(nodes, edges);
      assert KeySet([]) == {};
    } else {
      RunKeepsInv(nodes, edges, n - 1);
      var t := Turns(edges, s, n - 1);
      if t.queue != [] {
        TurnKeepsRunInv(KeysOf(nodes), edges, StartKey(nodes), t, KeySet(Popped(edges, s, n - 1)));
        KeySetAppends(Popped(edges, s, n - 1), t.queue[0]);
      } else {
        assert Popped(edges, s, n) == Popped(edges, s, n - 1);
      }
    }
  }

  // ---------------------------------------------------------------------------
  // Cycles
  // ---------------------------------------------------------------------------

  ghost predicate IsCycle(edges: seq<Edge>, cycle: seq<Key>) {
    IsPath(edges, cycle) && |cycle| > 1 && cycle[0] == cycle[|cycle| - 1]
  }

  ghost predicate Leads(edges: seq<Edge>, path: seq<Key>, from: Key, to: Key) {
    PathTo(edges, path, to) && path[0] == from
  }

  /** The node is the other one or has a path to it. */
  ghost predicate IsAncestor(edges: seq<Edge>, from: Key, to: Key) {
    exists path :: Leads(edges, path, from, to)
  }

  ghost predicate OnCycle(edges: seq<Edge>, v: Key) {
    exists cycle :: IsCycle(edges, cycle) && cycle[0] == v
  }

  /** A cycle that avoids the start node and leads to it */
  ghost predicate Blocks(edges: seq<Edge>, start: Key, cycle: seq<Key>) {
    IsCycle(edges, cycle) && start !in cycle && IsAncestor(edges, cycle[0], start)
  }

  /** Another ancestor of the start node lies on a cycle that avoids the start node. */
  ghost predicate Blocked(edges: seq<Edge>, start: Key) {
    exists cycle :: Blocks(edges, start, cycle)
  }

  lemma EdgeLeads(keys: seq<Key>, edges: seq<Edge>, e: Edge)
    requires Usable(keys, edges) && e in edges
    ensures e.from in keys && e.to in keys && e.from != e.to && IsAncestor(edges, e.from, e.to)
  {
    assert UsableEdge(keys, e);
    var path := [e.from, e.to];
    assert e == Edge(path[0], path[0 + 1]);
    assert Leads(edges, path, e.from, e.to);
  }

  lemma OwnAncestor(edges: seq<Edge>, v: Key)
    ensures IsAncestor(edges, v, v)
  {
    assert Leads(edges, [v], v, v);
  }

  lemma Segment(edges: seq<Edge>, path: seq<Key>, i: nat, k: nat)
    requires IsPath(edges, path) && i < k <= |path|
    ensures IsPath(edges, path[i..k])
  {
    var segment := path[i..k];
    forall j | 0 <= j < |segment| - 1
      ensures Edge(segment[j], segment[j + 1]) in edges
    {
      assert Edge(path[i + j], path[i + j + 1]) in edges;
    }
  }

  lemma PathsJoin(edges: seq<Edge>, a: seq<Key>, b: seq<Key>, u: Key, v: Key, w: Key)
    requires Leads(edges, a, u, v) && Leads(edges, b, v, w)
    ensures Leads(edges, a + b[1..], u, w)
  {
    var joined := a + b[1..];
    forall i | 0 <= i < |joined| - 1
      ensures Edge(joined[i], joined[i + 1]) in edges
    {
      if i < |a| - 1 {
        assert Edge(a[i], a[i + 1]) in edges;
      } else {
        assert Edge(b[i - (|a| - 1)], b[i - (|a| - 1) + 1]) in edges;
      }
    }
  }

  /** A path with more nodes than the graph runs into a cycle, from whose first node its end is reached. */
  lemma LongPathsRepeat(keys: seq<Key>, edges: seq<Edge>, path: seq<Key>) returns (cycle: seq<Key>)
    requires IsPath(edges, path) && |path| > |keys| && forall k | k in path :: k in keys
    ensures IsCycle(edges, cycle) && (forall k | k in cycle :: k in path)
    ensures IsAncestor(edges, cycle[0], path[|path| - 1])
  {
    if Distinct(path) {
      DistinctFits(path, KeySet(keys));
      KeySetSize(keys);
    }
    var i, j :| 0 <= i < j < |path| && path[i] == path[j];
    cycle := path[i..j + 1];
    Segment(edges, path, i, j + 1);
    Segment(edges, path, i, |path|);
    assert Leads(edges, path[i..|path|], cycle[0], path[|path| - 1]);
  }

  // ---------------------------------------------------------------------------
  // The queue never ends
  // ---------------------------------------------------------------------------

  /** Some node of the cycle is queued or still waits for a predecessor. */
  ghost predicate Token(s: Search, cycle: seq<Key>) {
    exists i :: TokenAt(s, cycle, i)
  }

  ghost predicate TokenAt(s: Search, cycle: seq<Key>, i: int) {
    0 <= i < |cycle| && (cycle[i] in s.queue || (cycle[i] in s.indegree && s.indegree[cycle[i]] > 0))
  }

  /** Popping a node of a cycle queues its successor there, unless that still waits for others. */
  lemma TurnKeepsToken(keys: seq<Key>, edges: seq<Edge>, s: Search, cycle: seq<Key>)
    requires Usable(keys, edges) && KeyCounts(keys, s) && s.queue != [] && IsCycle(edges, cycle) && Token(s, cycle)
    ensures Token(Turn(edges, s), cycle)
  {
    hide Turn, LevelsRelaxed, Count, Targets;
    var key, t := s.queue[0], Turn(edges, s);
    TurnTurns(keys, edges, s);
    if key in cycle {
      var i := NextOnCycle(edges, cycle, key);
      TargetsAreEdges(edges, key, cycle[i]);
      assert TokenAt(t, cycle, i);
    } else {
      var i :| TokenAt(s, cycle, i);
      CountPositive(Targets(edges, key), cycle[i]);
      assert TokenAt(t, cycle, i);
    }
  }

  lemma NextOnCycle(edges: seq<Edge>, cycle: seq<Key>, key: Key) returns (i: nat)
    requires IsCycle(edges, cycle) && key in cycle
    ensures i < |cycle| && Edge(key, cycle[i]) in edges
  {
    var k :| 0 <= k < |cycle| && cycle[k] == key;
    if k < |cycle| - 1 {
      assert Edge(cycle[k], cycle[k + 1]) in edges;
      i := k + 1;
    } else {
      assert Edge(cycle[0], cycle[0 + 1]) in edges;
      i := 1;
    }
  }

  lemma {:induction false} RunKeepsToken(nodes: seq<Node>, edges: seq<Edge>, cycle: seq<Key>, n: nat)
    requires Distinct(KeysOf(nodes)) && Usable(KeysOf(nodes), edges) && IsCycle(edges, cycle)
    ensures Token(Turns(edges, Initial(nodes, edges), n), cycle)
  {
    hide Initial, Turn, Usable, Distinct, Token, IsCycle;
    if n == 0 {
      InitialToken(nodes, edges, cycle);
    } else {
      RunKeepsToken(nodes, edges, cycle, n - 1);
      RunKeepsInv(nodes, edges, n - 1);
      var t := Turns(edges, Initial(nodes, edges), n - 1);
      if t.queue != [] {
        TurnKeepsToken(KeysOf(nodes), edges, t, cycle);
      }
    }
  }

  lemma InitialToken(nodes: seq<Node>, edges: seq<Edge>, cycle: seq<Key>)
    requires Distinct(KeysOf(nodes)) && Usable(KeysOf(nodes), edges) && IsCycle(edges, cycle)
    ensures Token(Initial(nodes, edges), cycle)
  {
    var keys := KeysOf(nodes);
    InitialQueueHolds(keys, edges, StartKey(nodes));
    PathKeysKnown(keys, edges, cycle);
    assert cycle[0] in cycle;
    assert TokenAt(Initial(nodes, edges), cycle, 0);
  }

  /** When the queue runs dry, every ancestor of the start node has been popped unless a cycle blocks one. */
  lemma AncestorsPopped(keys: seq<Key>, edges: seq<Edge>, start: Key, s: Search, done: set<Key>, v: Key)
    requires Usable(keys, edges) && RunInv(keys, edges, start, s, done) && s.queue == []
    requires start in keys && v in keys && IsAncestor(edges, v, start) && !Blocked(edges, start)
    ensures v in done
  {
    if v !in done {
      assert forall u | u in keys && u !in done :: InCount(edges, u, done) > 0;
      var path := EndlessPaths(keys, edges, done, v, |keys|);
      var cycle := LongPathsRepeat(keys, edges, path);
      AncestorsCompose(edges, cycle[0], v, start);
      assert Blocks(edges, start, cycle);
    }
  }

  lemma AncestorsCompose(edges: seq<Edge>, u: Key, v: Key, w: Key)
    requires IsAncestor(edges, u, v) && IsAncestor(edges, v, w)
    ensures IsAncestor(edges, u, w)
  {
    var a :| Leads(edges, a, u, v);
    var b :| Leads(edges, b, v, w);
    PathsJoin(edges, a, b, u, v, w);
  }

  /** The predecessors of a node on a cycle through the start node are ancestors of the start node. */
  lemma CycleLeads(edges: seq<Edge>, cycle: seq<Key>, i: nat, u: Key)
    requires IsCycle(edges, cycle) && i < |cycle| && Edge(u, cycle[i]) in edges
    ensures IsAncestor(edges, u, cycle[0])
  {
    Segment(edges, cycle, i, |cycle|);
    assert Leads(edges, cycle[i..|cycle|], cycle[i], cycle[0]);
    assert Edge([u, cycle[i]][0], [u, cycle[i]][0 + 1]) in edges;
    assert Leads(edges, [u, cycle[i]], u, cycle[i]);
    AncestorsCompose(edges, u, cycle[i], cycle[0]);
  }

  lemma NeverDry(nodes: seq<Node>, edges: seq<Edge>, n: nat)
    requires Distinct(KeysOf(nodes)) && Usable(KeysOf(nodes), edges)
    requires OnCycle(edges, StartKey(nodes)) && !Blocked(edges, StartKey(nodes))
    ensures !EndsBy(edges, Initial(nodes, edges), n)
  {
    hide Initial, Turns, Turn, Blocked;
    var keys, start, s := KeysOf(nodes), StartKey(nodes), Turns(edges, Initial(nodes, edges), n);
    var done := KeySet(Popped(edges, Initial(nodes, edges), n));
    var cycle :| IsCycle(edges, cycle) && cycle[0] == start;
    RunKeepsInv(nodes, edges, n);
    RunKeepsToken(nodes, edges, cycle, n);
    PathKeysKnown(keys, edges, cycle);
    assert cycle[0] in cycle;
    if s.queue == [] {
      var i :| TokenAt(s, cycle, i);
      assert cycle[i] in cycle;
      forall e | e in edges && e.to == cycle[i]
        ensures e.from in done
      {
        assert UsableEdge(keys, e) && e == Edge(e.from, cycle[i]);
        CycleLeads(edges, cycle, i, e.from);
        AncestorsPopped(keys, edges, start, s, done, e.from);
      }
      InCountZero(edges, cycle[i], done);
    }
  }

  // ---------------------------------------------------------------------------
  // The queue ends when the start node is popped once
  // ---------------------------------------------------------------------------

  /** Nodes that keep each other waiting, and keep the start node waiting if anything precedes it. */
  ghost predicate Waiting(edges: seq<Edge>, start: Key, waiting: set<Key>) {
    && start !in waiting
    && (forall u | u in waiting :: HasSourceIn(edges, waiting, u))
    && ((forall e | e in edges :: e.to != start) || HasSourceIn(edges, waiting, start))
  }

  /** Every node but the start node is queued or popped exactly when all its predecessors are popped. */
  ghost predicate OnceInv(keys: seq<Key>, edges: seq<Edge>, start: Key, waiting: set<Key>, s: Search, done: set<Key>) {
    && KeyCounts(keys, s)
    && (forall v | v in done :: v in keys && v !in s.queue)
    && (forall v | v in keys :: s.indegree[v] == InCount(edges, v, done))
    && (forall v | v in keys && v != start :: (v in s.queue || v in done) <==> InCount(edges, v, done) == 0)
    && (start in keys ==> start in s.queue || start in done)
    && (forall v | v in waiting :: v !in s.queue && v !in done)
  }

  lemma StillWaits(edges: seq<Edge>, start: Key, waiting: set<Key>, done: set<Key>, v: Key)
    requires Waiting(edges, start, waiting) && (forall u | u in waiting :: u !in done)
    requires v in waiting || (v == start && exists e :: e in edges && e.to == start)
    ensures InCount(edges, v, done) > 0
  {
    hide InCount;
    assert HasSourceIn(edges, waiting, v);
    var e :| e in edges && e.to == v && e.from in waiting;
    InCountZero(edges, v, done);
  }

  lemma InitialOnceInv(nodes: seq<Node>, edges: seq<Edge>, waiting: set<Key>)
    requires Distinct(KeysOf(nodes)) && Usable(KeysOf(nodes), edges) && Waiting(edges, StartKey(nodes), waiting)
    ensures OnceInv(KeysOf(nodes), edges, StartKey(nodes), waiting, Initial(nodes, edges), {})
  {
    hide StartKey, Sources, InitialQueue, InCount, HasSourceIn, Usable;
    var keys, start := KeysOf(nodes), StartKey(nodes);
    InitialQueueHolds(keys, edges, start);
    forall v
      ensures InCount(edges, v, {}) == |Sources(edges, v)|
      ensures v in waiting ==> v != start && InCount(edges, v, {}) > 0
    {
      InCountOfNone(edges, v);
      if v in waiting {
        StillWaits(edges, start, waiting, {}, v);
      }
    }
  }

  lemma TurnKeepsOnceInv(keys: seq<Key>, edges: seq<Edge>, start: Key, waiting: set<Key>, s: Search, done: set<Key>)
    requires Usable(keys, edges) && Waiting(edges, start, waiting)
    requires OnceInv(keys, edges, start, waiting, s, done) && s.queue != []
    ensures s.queue[0] in keys && s.queue[0] !in done
    ensures OnceInv(keys, edges, start, waiting, Turn(edges, s), done + {s.queue[0]})
  {
    hide Turn, LevelsRelaxed, Count, Targets, InCount, Waiting, Usable;
    var key, t, more := s.queue[0], Turn(edges, s), done + {s.queue[0]};
    TurnTurns(keys, edges, s);
    assert key in s.queue;
    forall v | v in keys
      ensures t.indegree[v] == InCount(edges, v, more)
      ensures v in Targets(edges, key) <==> InCount(edges, v, more) < InCount(edges, v, done)
      ensures v in waiting || (v == start && v in Targets(edges, key)) ==> InCount(edges, v, more) > 0
    {
      InCountAfterPop(edges, v, done, key);
      CountPositive(Targets(edges, key), v);
      if v == start && v in Targets(edges, key) {
        assert Edge(key, v) in edges && Edge(key, v).to == start;
      }
      if v in waiting || (v == start && v in Targets(edges, key)) {
        StillWaits(edges, start, waiting, more, v);
      }
    }
    OnceStep(keys, edges, start, waiting, s, t, done, key);
  }

  lemma OnceStep(keys: seq<Key>, edges: seq<Edge>, start: Key, waiting: set<Key>, s: Search, t: Search, done: set<Key>, key: Key)
    requires OnceInv(keys, edges, start, waiting, s, done) && key in s.queue && key !in Targets(edges, key)
    requires KeyCounts(keys, t) && Turned(edges, s, t, key)
    requires forall v | v in Targets(edges, key) :: v in keys
    requires forall v | v in keys :: t.indegree[v] == InCount(edges, v, done + {key})
    requires forall v | v in keys ::
               v in Targets(edges, key) <==> InCount(edges, v, done + {key}) < InCount(edges, v, done)
    requires forall v | v in keys && v in waiting :: InCount(edges, v, done + {key}) > 0
    requires start in Targets(edges, key) ==> InCount(edges, start, done + {key}) > 0 || start in s.queue
    ensures OnceInv(keys, edges, start, waiting, t, done + {key})
  {
    hide LevelsRelaxed, Count, Targets, InCount;
    forall v | v in keys && v != start
      ensures (v in t.queue || v in done + {key}) <==> InCount(edges, v, done + {key}) == 0
    {
    }
  }

  /** A run in which no node is popped twice has as many turns as nodes popped. */
  lemma {:induction false} RunKeepsOnceInv(nodes: seq<Node>, edges: seq<Edge>, waiting: set<Key>, n: nat)
    requires Distinct(KeysOf(nodes)) && Usable(KeysOf(nodes), edges) && Waiting(edges, StartKey(nodes), waiting)
    ensures var s, order := Turns(edges, Initial(nodes, edges), n), Popped(edges, Initial(nodes, edges), n);
            && OnceInv(KeysOf(nodes), edges, StartKey(nodes), waiting, s, KeySet(order))
            && Distinct(order) && |order| <= n && (s.queue != [] ==> |order| == n)
  {
    hide Initial, Turn, StartKey, Usable, Waiting, OnceInv;
    var s := Initial(nodes, edges);
    if n == 0 {
      InitialOnceInv(nodes, edges, waiting);
      assert KeySet([]) == {};
    } else {
      RunKeepsOnceInv(nodes, edges, waiting, n - 1);
      var t, order := Turns(edges, s, n - 1), Popped(edges, s, n - 1);
      if t.queue != [] {
        TurnKeepsOnceInv(KeysOf(nodes), edges, StartKey(nodes), waiting, t, KeySet(order));
        KeySetAppends(order, t.queue[0]);
      } else {
        assert Popped(edges, s, n) == order;
      }
    }
  }

  lemma OnceEnds(nodes: seq<Node>, edges: seq<Edge>, waiting: set<Key>)
    requires Distinct(KeysOf(nodes)) && Usable(KeysOf(nodes), edges) && Waiting(edges, StartKey(nodes), waiting)
    ensures EndsBy(edges, Initial(nodes, edges), |nodes|)
  {
    hide Initial, Turns, Turn, Popped, Waiting, OnceInv, StartKey, Usable, Distinct, KeySet, KeysOf;
    var s, order := Turns(edges, Initial(nodes, edges), |nodes|), Popped(edges, Initial(nodes, edges), |nodes|);
    RunKeepsOnceInv(nodes, edges, waiting, |nodes|);
    if s.queue != [] {
      OncePopped(KeysOf(nodes), edges, StartKey(nodes), waiting, s, KeySet(order));
      NoRoomLeft(KeysOf(nodes), order, s.queue[0]);
    }
  }

  lemma OncePopped(keys: seq<Key>, edges: seq<Edge>, start: Key, waiting: set<Key>, s: Search, done: set<Key>)
    requires OnceInv(keys, edges, start, waiting, s, done) && s.queue != []
    ensures s.queue[0] in keys && s.queue[0] !in done && forall v | v in done :: v in keys
  {
    hide InCount;
    assert s.queue[0] in s.queue;
  }

  lemma NoRoomLeft(keys: seq<Key>, order: seq<Key>, key: Key)
    requires Distinct(order) && (forall v | v in KeySet(order) :: v in keys) && key in keys && key !in KeySet(order)
    ensures |order| < |keys|
  {
    assert forall v | v in order :: v in KeySet(order);
    DistinctFits(order + [key], KeySet(keys));
    KeySetSize(keys);
  }

  /** A cycle that leads to the start node and the path from it are nodes that wait for each other. */
  lemma BlockedWaits(edges: seq<Edge>, start: Key) returns (waiting: set<Key>)
    requires Blocked(edges, start)
    ensures Waiting(edges, start, waiting) && waiting != {}
  {
    var cycle :| Blocks(edges, start, cycle);
    var path :| Leads(edges, path, cycle[0], start);
    assert cycle[0] in cycle && cycle[0] != start;
    var m := FirstArrival(path, start);
    waiting := KeySet(cycle) + KeySet(path[..m]);
    forall u | u in waiting
      ensures HasSourceIn(edges, waiting, u)
    {
      if u in cycle {
        var v := BeforeOnCycle(edges, cycle, u);
        assert Edge(v, u).from in waiting;
      } else {
        var i :| 0 <= i < m && path[..m][i] == u;
        assert i > 0;
        assert Edge(path[i - 1], path[i - 1 + 1]) in edges;
        assert path[..m][i - 1] in path[..m];
        assert Edge(path[i - 1], u).from in waiting;
      }
    }
    assert Edge(path[m - 1], path[m - 1 + 1]) in edges;
    assert path[..m][m - 1] in path[..m];
    assert Edge(path[m - 1], start).from in waiting;
  }

  lemma {:induction false} FirstArrival(path: seq<Key>, v: Key) returns (m: nat)
    requires path != [] && path[|path| - 1] == v
    ensures m < |path| && path[m] == v && v !in path[..m]
  {
    if path[0] == v {
      m := 0;
    } else {
      var k := FirstArrival(path[1..], v);
      m := k + 1;
      assert path[..m] == [path[0]] + path[1..][..k];
    }
  }

  lemma BeforeOnCycle(edges: seq<Edge>, cycle: seq<Key>, u: Key) returns (v: Key)
    requires IsCycle(edges, cycle) && u in cycle
    ensures v in cycle && Edge(v, u) in edges
  {
    var k :| 0 <= k < |cycle| && cycle[k] == u;
    var i := if k == 0 then |cycle| - 1 else k;
    v := cycle[i - 1];
    assert Edge(cycle[i - 1], cycle[i - 1 + 1]) in edges;
  }

  // ---------------------------------------------------------------------------
  // Exactly when the queue ends
  // ---------------------------------------------------------------------------

  /** Without an edge into the start node, or with an ancestor of it on a cycle that avoids it, every node is popped at most once. */
  lemma PoppedOnceEnds(nodes: seq<Node>, edges: seq<Edge>)
    requires Distinct(KeysOf(nodes)) && Usable(KeysOf(nodes), edges)
    requires StartIsSource(nodes, edges) || Blocked(edges, StartKey(nodes))
    ensures QueueEnds(nodes, edges)
    ensures forall n :: Distinct(Popped(edges, Initial(nodes, edges), n))
  {
    hide Initial, Blocked, StartKey, Waiting, OnceInv;
    var waiting: set<Key> := {};
    if Blocked(edges, StartKey(nodes)) {
      waiting := BlockedWaits(edges, StartKey(nodes));
    } else {
      NothingWaits(edges, StartKey(nodes));
    }
    OnceEnds(nodes, edges, waiting);
    assert EndsBy(edges, Initial(nodes, edges), |nodes|);
    forall n
      ensures Distinct(Popped(edges, Initial(nodes, edges), n))
    {
      RunKeepsOnceInv(nodes, edges, waiting, n);
    }
  }

  lemma NothingWaits(edges: seq<Edge>, start: Key)
    requires forall e | e in edges :: e.to != start
    ensures Waiting(edges, start, {})
  {
  }

  /**
   A start node on a cycle: whatever the order of the nodes, the queue ends if and only if another ancestor of
   the start node lies on a cycle that avoids it.
   */
  lemma EndsExactlyWhenBlocked(nodes: seq<Node>, edges: seq<Edge>)
    requires Distinct(KeysOf(nodes)) && Usable(KeysOf(nodes), edges) && OnCycle(edges, StartKey(nodes))
    ensures QueueEnds(nodes, edges) <==> Blocked(edges, StartKey(nodes))
  {
    hide Initial, Blocked, StartKey, OnCycle;
    if Blocked(edges, StartKey(nodes)) {
      PoppedOnceEnds(nodes, edges);
    } else {
      forall n: nat
        ensures !EndsBy(edges, Initial(nodes, edges), n)
      {
        NeverDry(nodes, edges, n);
      }
    }
  }
}
