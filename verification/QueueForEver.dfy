/**
 Exactly when the level queue runs for ever, for every graph and every order of its nodes: when at some turn
 all nodes of one cycle have their counts used up.
 */
module QueueForEver {
  import opened TreeLevels
  import opened QueueRuns
  import opened QueueEnding
  import opened StartOnce

  ghost predicate UsedUp(s: Search, cycle: seq<Key>) {
    forall v | v in cycle :: v in s.indegree && s.indegree[v] <= 0
  }

  ghost predicate UsesUp(nodes: seq<Node>, edges: seq<Edge>, cycle: seq<Key>, n: nat) {
    IsCycle(edges, cycle) && UsedUp(StateAt(nodes, edges, n), cycle)
  }

  // ---------------------------------------------------------------------------
  // A cycle without counts left goes round for ever
  // ---------------------------------------------------------------------------

  ghost predicate QueuedOn(s: Search, cycle: seq<Key>) {
    exists v :: v in cycle && v in s.queue
  }

  lemma TurnUsesUp(keys: seq<Key>, edges: seq<Edge>, s: Search, cycle: seq<Key>)
    requires Usable(keys, edges) && KeyCounts(keys, s) && s.queue != [] && IsCycle(edges, cycle)
    requires UsedUp(s, cycle) ==> QueuedOn(s, cycle)
    ensures UsedUp(Turn(edges, s), cycle) ==> QueuedOn(Turn(edges, s), cycle)
  {
    hide Turn, LevelsRelaxed, Count, Targets, IsCycle;
    var key, t := s.queue[0], Turn(edges, s);
    TurnTurns(keys, edges, s);
    PathOfCycle(keys, edges, cycle);
    if UsedUp(t, cycle) {
      if key in cycle {
        var i := NextOnCycle(edges, cycle, key);
        TargetsAreEdges(edges, key, cycle[i]);
        assert cycle[i] in cycle && cycle[i] in t.queue;
      } else if UsedUp(s, cycle) {
        var v :| v in cycle && v in s.queue;
        assert v in t.queue;
      } else {
        var v :| v in cycle && s.indegree[v] > 0;
        CountPositive(Targets(edges, key), v);
        assert v in t.queue;
      }
    }
  }

  lemma PathOfCycle(keys: seq<Key>, edges: seq<Edge>, cycle: seq<Key>)
    requires Usable(keys, edges) && IsCycle(edges, cycle)
    ensures forall k | k in cycle :: k in keys
  {
    PathKeysKnown(keys, edges, cycle);
  }

  lemma InitialCounts(nodes: seq<Node>, edges: seq<Edge>, cycle: seq<Key>)
    requires Usable(KeysOf(nodes), edges) && IsCycle(edges, cycle)
    ensures !UsedUp(Initial(nodes, edges), cycle)
  {
    hide InitialQueue, StartKey, Sources, Usable;
    var v := cycle[1];
    assert Edge(cycle[0], cycle[0 + 1]) in edges && v in cycle;
    PathOfCycle(KeysOf(nodes), edges, cycle);
    InCountZero(edges, v, {});
    InCountOfNone(edges, v);
    assert Edge(cycle[0], v).to == v;
  }

  lemma {:induction false} UsedUpIsQueued(nodes: seq<Node>, edges: seq<Edge>, cycle: seq<Key>, n: nat)
    requires Distinct(KeysOf(nodes)) && Usable(KeysOf(nodes), edges) && IsCycle(edges, cycle)
    ensures UsedUp(StateAt(nodes, edges, n), cycle) ==> QueuedOn(StateAt(nodes, edges, n), cycle)
  {
    hide Initial, Turn, Usable, Distinct, UsedUp, QueuedOn, IsCycle, KeysOf;
    if n == 0 {
      InitialCounts(nodes, edges, cycle);
    } else {
      UsedUpIsQueued(nodes, edges, cycle, n - 1);
      CountsOfRun(nodes, edges, n - 1);
      var t := StateAt(nodes, edges, n - 1);
      if t.queue != [] {
        TurnUsesUp(KeysOf(nodes), edges, t, cycle);
      }
    }
  }

  lemma TurnLeavesUsedUp(keys: seq<Key>, edges: seq<Edge>, s: Search, cycle: seq<Key>)
    requires Usable(keys, edges) && KeyCounts(keys, s) && s.queue != [] && UsedUp(s, cycle)
    ensures UsedUp(Turn(edges, s), cycle)
  {
    hide Turn, LevelsRelaxed, Count, Targets, Usable, Distinct;
    TurnTurns(keys, edges, s);
  }

  lemma {:induction false} UsedUpStays(nodes: seq<Node>, edges: seq<Edge>, cycle: seq<Key>, n: nat, m: nat)
    requires Distinct(KeysOf(nodes)) && Usable(KeysOf(nodes), edges) && n <= m
    requires UsedUp(StateAt(nodes, edges, n), cycle)
    ensures UsedUp(StateAt(nodes, edges, m), cycle)
  {
    hide Initial, Turn, Usable, Distinct, UsedUp, KeysOf;
    if n < m {
      UsedUpStays(nodes, edges, cycle, n, m - 1);
      CountsOfRun(nodes, edges, m - 1);
      var t := StateAt(nodes, edges, m - 1);
      if t.queue != [] {
        TurnLeavesUsedUp(KeysOf(nodes), edges, t, cycle);
      }
    }
  }

  lemma UsedUpNeverEnds(nodes: seq<Node>, edges: seq<Edge>, cycle: seq<Key>, n: nat, m: nat)
    requires Distinct(KeysOf(nodes)) && Usable(KeysOf(nodes), edges) && UsesUp(nodes, edges, cycle, n)
    ensures !EndsBy(edges, Initial(nodes, edges), m)
  {
    hide Initial, Turns, Usable, Distinct, UsedUp, IsCycle, KeysOf;
    var last := n + m;
    UsedUpStays(nodes, edges, cycle, n, last);
    UsedUpIsQueued(nodes, edges, cycle, last);
    if EndsBy(edges, Initial(nodes, edges), m) {
      TurnsStay(edges, Initial(nodes, edges), m, last);
    }
  }

  lemma CountsOfRun(nodes: seq<Node>, edges: seq<Edge>, n: nat)
    requires Distinct(KeysOf(nodes)) && Usable(KeysOf(nodes), edges)
    ensures KeyCounts(KeysOf(nodes), StateAt(nodes, edges, n))
    ensures forall v | v in StateAt(nodes, edges, n).queue ::
              v == StartKey(nodes) || StateAt(nodes, edges, n).indegree[v] <= 0
  {
    hide Initial, Turns, Popped, StartKey, InCount, Usable, Distinct, KeysOf;
    RunKeepsInv(nodes, edges, n);
  }

  // ---------------------------------------------------------------------------
  // Otherwise the run gets lighter
  // ---------------------------------------------------------------------------

  /** The nodes that still wait for a predecessor */
  ghost function WaitingIn(keys: seq<Key>, s: Search): set<Key> {
    set v | v in keys && v in s.indegree && s.indegree[v] > 0
  }

  ghost predicate Ready(keys: seq<Key>, s: Search) {
    KeyCounts(keys, s) && forall v | v in s.queue :: s.indegree[v] <= 0
  }

  lemma TurnStaysReady(keys: seq<Key>, edges: seq<Edge>, s: Search)
    requires Usable(keys, edges) && Ready(keys, s) && s.queue != []
    ensures Ready(keys, Turn(edges, s)) && WaitingIn(keys, Turn(edges, s)) <= WaitingIn(keys, s)
    ensures s.queue[0] !in WaitingIn(keys, s)
  {
    hide Turn, LevelsRelaxed, Count, Targets, Usable, Distinct;
    assert s.queue[0] in s.queue;
    TurnTurns(keys, edges, s);
  }

  lemma {:induction false} RunStaysReady(nodes: seq<Node>, edges: seq<Edge>, n: nat, m: nat)
    requires Usable(KeysOf(nodes), edges) && Ready(KeysOf(nodes), StateAt(nodes, edges, n)) && n <= m
    ensures Ready(KeysOf(nodes), StateAt(nodes, edges, m))
    ensures WaitingIn(KeysOf(nodes), StateAt(nodes, edges, m)) <= WaitingIn(KeysOf(nodes), StateAt(nodes, edges, n))
  {
    hide Initial, Turn, Usable, Ready, WaitingIn, KeysOf;
    if n < m {
      RunStaysReady(nodes, edges, n, m - 1);
      var t := StateAt(nodes, edges, m - 1);
      if t.queue != [] {
        TurnStaysReady(KeysOf(nodes), edges, t);
      }
    }
  }

  /** Without the edges out of waiting nodes no cycle is left. */
  lemma WaitingBreaksCycles(keys: seq<Key>, edges: seq<Edge>, s: Search)
    requires Usable(keys, edges) && KeyCounts(keys, s)
    requires forall cycle | IsCycle(edges, cycle) :: !UsedUp(s, cycle)
    ensures Usable(keys, Without(edges, WaitingIn(keys, s))) && Acyclic(Without(edges, WaitingIn(keys, s)))
  {
    hide Without, UsedUp, Usable, WaitingIn, KeyCounts;
    var light := Without(edges, WaitingIn(keys, s));
    WithoutEdges(edges, WaitingIn(keys, s));
    LightUsable(keys, edges, light);
    forall path | IsPath(light, path) && |path| > 1
      ensures path[0] != path[|path| - 1]
    {
      LightCycle(edges, light, path);
      assert IsCycle(edges, path) ==> !UsedUp(s, path);
      LightIsUsedUp(keys, edges, s, path);
    }
  }

  lemma LightUsable(keys: seq<Key>, edges: seq<Edge>, light: seq<Edge>)
    requires Usable(keys, edges) && forall e | e in light :: e in edges
    ensures Usable(keys, light)
  {
  }

  /** A cycle of edges out of nodes that wait for nothing has no count left. */
  lemma LightIsUsedUp(keys: seq<Key>, edges: seq<Edge>, s: Search, path: seq<Key>)
    requires Usable(keys, edges) && KeyCounts(keys, s)
    requires IsPath(Without(edges, WaitingIn(keys, s)), path) && |path| > 1
    ensures path[0] == path[|path| - 1] ==> UsedUp(s, path)
  {
    hide Without, Distinct;
    var light := Without(edges, WaitingIn(keys, s));
    WithoutEdges(edges, WaitingIn(keys, s));
    forall i | 0 <= i < |path| - 1
      ensures path[i] in s.indegree && s.indegree[path[i]] <= 0
    {
      assert Edge(path[i], path[i + 1]) in light;
      assert UsableEdge(keys, Edge(path[i], path[i + 1]));
    }
  }

  /** As long as the same nodes wait, every turn makes the queue lighter. */
  lemma {:induction false} SameWaitingLightens(nodes: seq<Node>, edges: seq<Edge>, n: nat, m: nat)
    requires Usable(KeysOf(nodes), edges) && Ready(KeysOf(nodes), StateAt(nodes, edges, n)) && n <= m
    requires WaitingIn(KeysOf(nodes), StateAt(nodes, edges, m)) == WaitingIn(KeysOf(nodes), StateAt(nodes, edges, n))
    requires var light := Without(edges, WaitingIn(KeysOf(nodes), StateAt(nodes, edges, n)));
             Usable(KeysOf(nodes), light) && Acyclic(light)
    ensures var light, size := Without(edges, WaitingIn(KeysOf(nodes), StateAt(nodes, edges, n))), |KeysOf(nodes)| + 1;
            || EndsBy(edges, Initial(nodes, edges), m)
            || WeightAll(light, StateAt(nodes, edges, m).queue, size) + (m - n) <= WeightAll(light, StateAt(nodes, edges, n).queue, size)
  {
    hide Initial, Turn, Usable, Ready, WaitingIn, KeysOf, Without, WeightAll, Acyclic, Targets;
    if n < m {
      var keys, t := KeysOf(nodes), StateAt(nodes, edges, m - 1);
      RunStaysReady(nodes, edges, n, m - 1);
      if t.queue != [] {
        TurnStaysReady(keys, edges, t);
        SameWaitingLightens(nodes, edges, n, m - 1);
        var waiting := WaitingIn(keys, StateAt(nodes, edges, n));
        WithoutTargets(edges, waiting, t.queue[0]);
        TurnLightens(keys, edges, Without(edges, waiting), t);
      }
    }
  }

  lemma {:induction false} EndsFrom(nodes: seq<Node>, edges: seq<Edge>, n: nat)
    requires Distinct(KeysOf(nodes)) && Usable(KeysOf(nodes), edges) && Ready(KeysOf(nodes), StateAt(nodes, edges, n))
    requires forall m, cycle :: !UsesUp(nodes, edges, cycle, m)
    ensures QueueEnds(nodes, edges)
    decreases |WaitingIn(KeysOf(nodes), StateAt(nodes, edges, n))|
  {
    hide Initial, Turns, Usable, Distinct, Ready, WaitingIn, KeysOf, Without, WeightAll, Acyclic, EndsBy, UsedUp, IsCycle;
    var keys, s := KeysOf(nodes), StateAt(nodes, edges, n);
    var waiting := WaitingIn(keys, s);
    forall cycle | IsCycle(edges, cycle)
      ensures !UsedUp(s, cycle)
    {
      assert !UsesUp(nodes, edges, cycle, n);
    }
    ReadyCounts(keys, s);
    WaitingBreaksCycles(keys, edges, s);
    var m := n + WeightAll(Without(edges, waiting), s.queue, |keys| + 1) + 1;
    RunStaysReady(nodes, edges, n, m);
    if WaitingIn(keys, StateAt(nodes, edges, m)) == waiting {
      SameWaitingLightens(nodes, edges, n, m);
      assert EndsBy(edges, Initial(nodes, edges), m);
    } else {
      Fewer(WaitingIn(keys, StateAt(nodes, edges, m)), waiting);
      EndsFrom(nodes, edges, m);
    }
  }

  lemma ReadyCounts(keys: seq<Key>, s: Search)
    requires Ready(keys, s)
    ensures KeyCounts(keys, s)
  {
  }

  lemma {:induction false} Fewer(a: set<Key>, b: set<Key>)
    requires a < b
    ensures |a| < |b|
  {
    var x :| x in b && x !in a;
    if a != {} {
      var y :| y in a;
      Fewer(a - {y}, b - {y});
    }
  }

  /** Once the start node has been popped for the first time, only nodes without a count are queued. */
  lemma ReadyAtLast(nodes: seq<Node>, edges: seq<Edge>) returns (n: nat)
    requires Distinct(KeysOf(nodes)) && Usable(KeysOf(nodes), edges)
    ensures Ready(KeysOf(nodes), StateAt(nodes, edges, n))
  {
    hide Initial, Turn, Usable, Distinct, StartKey, KeysOf, Popped, Targets, LevelsRelaxed, Count;
    if StartKey(nodes) in KeysOf(nodes) {
      var j := StartIsPoppedInPlace(nodes, edges);
      QueuedIsPopped(edges, Initial(nodes, edges), 0, j);
      n := j + 1;
      CountsOfRun(nodes, edges, j);
      CountsOfRun(nodes, edges, n);
      assert StateAt(nodes, edges, j).queue[0] == StartKey(nodes) by {
        assert Initial(nodes, edges).queue[j..][0] == StartKey(nodes);
      }
      TurnTurns(KeysOf(nodes), edges, StateAt(nodes, edges, j));
    } else {
      n := 0;
      CountsOfRun(nodes, edges, 0);
    }
  }

  /** The queue runs for ever if and only if at some turn all nodes of a cycle have their counts used up. */
  lemma NeverEndsExactly(nodes: seq<Node>, edges: seq<Edge>)
    requires Distinct(KeysOf(nodes)) && Usable(KeysOf(nodes), edges)
    ensures !QueueEnds(nodes, edges) <==> exists n, cycle :: UsesUp(nodes, edges, cycle, n)
  {
    hide Initial, Turns, Usable, Distinct, KeysOf, Ready, UsedUp, IsCycle;
    if n, cycle :| UsesUp(nodes, edges, cycle, n) {
      forall m: nat
        ensures !EndsBy(edges, Initial(nodes, edges), m)
      {
        UsedUpNeverEnds(nodes, edges, cycle, n, m);
      }
    } else {
      var n := ReadyAtLast(nodes, edges);
      EndsFrom(nodes, edges, n);
    }
  }
}
