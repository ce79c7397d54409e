/**
 Where the level queue can run for ever: only in a graph with a cycle below its start node. The nodes that are
 not below the start node are popped at most once, and never on or below a cycle; the rest of the graph gets
 lighter with every turn.
 */
module QueueEnding {
  import opened TreeLevels
  import opened QueueRuns

  // ---------------------------------------------------------------------------
  // Weights
  // ---------------------------------------------------------------------------

  /** The number of paths of at most n edges out of a node. */
  function Weight(edges: seq<Edge>, v: Key, n: nat): nat
    decreases n, 0
  {
    if n == 0 then 1 else 1 + WeightAll(edges, Targets(edges, v), n - 1)
  }

  function WeightAll(edges: seq<Edge>, vs: seq<Key>, n: nat): nat
    decreases n, 1, |vs|
  {
    if vs == [] then 0 else WeightAll(edges, vs[..|vs| - 1], n) + Weight(edges, vs[|vs| - 1], n)
  }

  /** A weight that still grows has a path as long as the bound. */
  lemma {:induction false} GrowingWeight(edges: seq<Edge>, v: Key, n: nat) returns (path: seq<Key>)
    requires Weight(edges, v, n + 1) != Weight(edges, v, n)
    ensures IsPath(edges, path) && path[0] == v && |path| == n + 2
    decreases n, 0
  {
    if n == 0 {
      assert Targets(edges, v) != [];
      var t := Targets(edges, v)[0];
      TargetsAreEdges(edges, v, t);
      path := [v, t];
    } else {
      var t, rest := GrowingWeights(edges, Targets(edges, v), n - 1);
      TargetsAreEdges(edges, v, t);
      path := [v] + rest;
      PathStarts(edges, v, rest);
    }
  }

  lemma {:induction false} GrowingWeights(edges: seq<Edge>, vs: seq<Key>, n: nat) returns (t: Key, path: seq<Key>)
    requires WeightAll(edges, vs, n + 1) != WeightAll(edges, vs, n)
    ensures t in vs && IsPath(edges, path) && path[0] == t && |path| == n + 2
    decreases n, 1, |vs|
  {
    var k := |vs| - 1;
    if Weight(edges, vs[k], n + 1) != Weight(edges, vs[k], n) {
      t := vs[k];
      path := GrowingWeight(edges, t, n);
    } else {
      t, path := GrowingWeights(edges, vs[..k], n);
    }
  }

  lemma PathStarts(edges: seq<Edge>, v: Key, path: seq<Key>)
    requires IsPath(edges, path) && Edge(v, path[0]) in edges
    ensures IsPath(edges, [v] + path)
  {
    var longer := [v] + path;
    forall i | 0 <= i < |longer| - 1
      ensures Edge(longer[i], longer[i + 1]) in edges
    {
      if i > 0 {
        assert Edge(path[i - 1], path[i - 1 + 1]) in edges;
      }
    }
  }

  lemma {:induction false} WeightsStand(keys: seq<Key>, edges: seq<Edge>, vs: seq<Key>)
    requires Usable(keys, edges) && Acyclic(edges)
    ensures WeightAll(edges, vs, |keys| + 1) == WeightAll(edges, vs, |keys|)
  {
    if WeightAll(edges, vs, |keys| + 1) != WeightAll(edges, vs, |keys|) {
      hide WeightAll, Acyclic, Usable, IsPath;
      var t, path := GrowingWeights(edges, vs, |keys|);
      AcyclicPathsAreShort(keys, edges, path);
    }
  }

  lemma {:induction false} RelaxAllWeight(edges: seq<Edge>, s: Search, base: nat, outs: seq<Key>, n: nat)
    ensures WeightAll(edges, RelaxAll(s, base, outs).queue, n) <= WeightAll(edges, s.queue, n) + WeightAll(edges, outs, n)
  {
    if outs != [] {
      var k := |outs| - 1;
      RelaxAllWeight(edges, s, base, outs[..k], n);
      var t := RelaxAll(s, base, outs[..k]);
      assert (t.queue + [outs[k]])[..|t.queue|] == t.queue;
    }
  }

  lemma {:induction false} HeadWeight(edges: seq<Edge>, vs: seq<Key>, n: nat)
    requires vs != []
    ensures WeightAll(edges, vs, n) == Weight(edges, vs[0], n) + WeightAll(edges, vs[1..], n)
  {
    hide Weight;
    var k := |vs| - 1;
    if k > 0 {
      HeadWeight(edges, vs[..k], n);
      assert vs[1..][..k - 1] == vs[..k][1..];
    }
  }

  /** The edges out of nodes outside a set */
  ghost function Without(edges: seq<Edge>, stuck: set<Key>): seq<Edge> {
    if edges == [] then []
    else
      var e := edges[|edges| - 1];
      Without(edges[..|edges| - 1], stuck) + if e.from in stuck then [] else [e]
  }

  lemma {:induction false} WithoutEdges(edges: seq<Edge>, stuck: set<Key>)
    ensures forall e :: e in Without(edges, stuck) <==> e in edges && e.from !in stuck
  {
    if edges != [] {
      WithoutEdges(edges[..|edges| - 1], stuck);
      assert edges == edges[..|edges| - 1] + [edges[|edges| - 1]];
    }
  }

  lemma {:induction false} WithoutTargets(edges: seq<Edge>, stuck: set<Key>, from: Key)
    requires from !in stuck
    ensures Targets(Without(edges, stuck), from) == Targets(edges, from)
  {
    if edges != [] {
      var n := |edges| - 1;
      WithoutTargets(edges[..n], stuck, from);
      if edges[n].from !in stuck {
        assert Without(edges, stuck)[..|Without(edges[..n], stuck)|] == Without(edges[..n], stuck);
      } else {
        assert Without(edges, stuck) == Without(edges[..n], stuck);
      }
    }
  }

  /** Each turn replaces a node by some of its targets, which weigh less together. */
  lemma TurnLightens(keys: seq<Key>, edges: seq<Edge>, light: seq<Edge>, s: Search)
    requires Usable(keys, light) && Acyclic(light) && s.queue != []
    requires Targets(light, s.queue[0]) == Targets(edges, s.queue[0])
    ensures WeightAll(light, Turn(edges, s).queue, |keys| + 1) < WeightAll(light, s.queue, |keys| + 1)
  {
    hide Acyclic, Usable, WeightAll, RelaxAll;
    var n, outs := |keys| + 1, Targets(edges, s.queue[0]);
    RelaxAllWeight(light, s.(queue := s.queue[1..]), LevelOr0(s.levels, s.queue[0]), outs, n);
    HeadWeight(light, s.queue, n);
    WeightsStand(keys, light, outs);
  }

  // ---------------------------------------------------------------------------
  // Nodes not below the start node
  // ---------------------------------------------------------------------------

  /** Every predecessor of the nodes is among them, and the start node is not. */
  ghost predicate Calm(edges: seq<Edge>, start: Key, calm: set<Key>) {
    start !in calm && forall e | e in edges && e.to in calm :: e.from in calm
  }

  /** Calm nodes that keep each other waiting */
  ghost predicate Stuck(edges: seq<Edge>, calm: set<Key>, stuck: set<Key>) {
    stuck <= calm && forall v | v in stuck :: HasSourceIn(edges, stuck, v)
  }

  /** A calm node is queued or popped, and never both, exactly when all its predecessors are popped; a stuck one is neither. */
  ghost predicate CalmInv(keys: seq<Key>, edges: seq<Edge>, calm: set<Key>, stuck: set<Key>, s: Search, done: set<Key>) {
    && KeyCounts(keys, s)
    && (forall v | v in keys && v in calm :: s.indegree[v] == InCount(edges, v, done))
    && (forall v | v in keys && v in calm :: v in s.queue || v in done <==> InCount(edges, v, done) == 0)
    && (forall v | v in calm :: !(v in s.queue && v in done))
    && (forall v | v in stuck :: v !in s.queue && v !in done)
  }

  lemma StuckWaits(edges: seq<Edge>, calm: set<Key>, stuck: set<Key>, done: set<Key>, v: Key)
    requires Stuck(edges, calm, stuck) && v in stuck && done !! stuck
    ensures InCount(edges, v, done) > 0
  {
    hide InCount;
    assert HasSourceIn(edges, stuck, v);
    var e :| e in edges && e.to == v && e.from in stuck;
    InCountZero(edges, v, done);
  }

  lemma InitialCalm(nodes: seq<Node>, edges: seq<Edge>, calm: set<Key>, stuck: set<Key>)
    requires Distinct(KeysOf(nodes)) && Calm(edges, StartKey(nodes), calm) && Stuck(edges, calm, stuck)
    ensures CalmInv(KeysOf(nodes), edges, calm, stuck, Initial(nodes, edges), {})
  {
    hide StartKey, Sources, InitialQueue, InCount, HasSourceIn;
    InitialQueueHolds(KeysOf(nodes), edges, StartKey(nodes));
    forall v
      ensures InCount(edges, v, {}) == |Sources(edges, v)|
      ensures v in stuck ==> v != StartKey(nodes) && InCount(edges, v, {}) > 0
    {
      InCountOfNone(edges, v);
      if v in stuck {
        StuckWaits(edges, calm, stuck, {}, v);
      }
    }
  }

  /** What popping a node does to the predecessors a calm node waits for */
  lemma CalmCounts(keys: seq<Key>, edges: seq<Edge>, start: Key, calm: set<Key>, s: Search, done: set<Key>, key: Key, v: Key)
    requires Calm(edges, start, calm) && v in calm && (key in calm ==> key !in done)
    ensures InCount(edges, v, done + {key}) + Count(Targets(edges, key), v) == InCount(edges, v, done)
    ensures v in Targets(edges, key) <==> Count(Targets(edges, key), v) > 0
  {
    hide Count, InCount, Targets;
    CountPositive(Targets(edges, key), v);
    TargetsAreEdges(edges, key, v);
    if key in done {
      assert Edge(key, v) in edges ==> Edge(key, v).to !in calm;
      assert done + {key} == done;
    } else {
      InCountAfterPop(edges, v, done, key);
    }
  }

  lemma TurnKeepsCalm(keys: seq<Key>, edges: seq<Edge>, start: Key, calm: set<Key>, stuck: set<Key>, s: Search, done: set<Key>)
    requires Usable(keys, edges) && Calm(edges, start, calm) && Stuck(edges, calm, stuck)
    requires CalmInv(keys, edges, calm, stuck, s, done) && s.queue != []
    ensures CalmInv(keys, edges, calm, stuck, Turn(edges, s), done + {s.queue[0]})
  {
    hide Turn, LevelsRelaxed, Count, Targets, InCount, HasSourceIn, Usable;
    var key, t, more := s.queue[0], Turn(edges, s), done + {s.queue[0]};
    TurnTurns(keys, edges, s);
    assert key in s.queue;
    forall v | v in calm
      ensures InCount(edges, v, more) + Count(Targets(edges, key), v) == InCount(edges, v, done)
      ensures v in Targets(edges, key) <==> Count(Targets(edges, key), v) > 0
    {
      CalmCounts(keys, edges, start, calm, s, done, key, v);
    }
    forall v | v in stuck
      ensures InCount(edges, v, more) > 0
    {
      StuckWaits(edges, calm, stuck, more, v);
    }
    CalmStep(keys, edges, calm, stuck, s, t, done, key);
  }

  lemma CalmStep(keys: seq<Key>, edges: seq<Edge>, calm: set<Key>, stuck: set<Key>, s: Search, t: Search, done: set<Key>, key: Key)
    requires CalmInv(keys, edges, calm, stuck, s, done) && key in s.queue && key !in Targets(edges, key) && stuck <= calm
    requires KeyCounts(keys, t) && Turned(edges, s, t, key)
    requires forall v | v in Targets(edges, key) :: v in keys
    requires forall v | v in calm :: InCount(edges, v, done + {key}) + Count(Targets(edges, key), v) == InCount(edges, v, done)
    requires forall v | v in calm :: v in Targets(edges, key) <==> Count(Targets(edges, key), v) > 0
    requires forall v | v in stuck :: InCount(edges, v, done + {key}) > 0
    ensures CalmInv(keys, edges, calm, stuck, t, done + {key})
  {
    hide LevelsRelaxed, Count, Targets, InCount, Distinct;
    forall v | v in keys && v in calm
      ensures t.indegree[v] == InCount(edges, v, done + {key})
      ensures v in t.queue || v in done + {key} <==> InCount(edges, v, done + {key}) == 0
      ensures !(v in t.queue && v in done + {key})
    {
    }
  }

  lemma {:induction false} RunStaysCalm(nodes: seq<Node>, edges: seq<Edge>, calm: set<Key>, stuck: set<Key>, n: nat)
    requires Distinct(KeysOf(nodes)) && Usable(KeysOf(nodes), edges)
    requires Calm(edges, StartKey(nodes), calm) && Stuck(edges, calm, stuck)
    ensures CalmInv(KeysOf(nodes), edges, calm, stuck, Turns(edges, Initial(nodes, edges), n),
                    KeySet(Popped(edges, Initial(nodes, edges), n)))
  {
    hide Initial, Turn, StartKey, Usable, CalmInv, Calm, Stuck, Distinct;
    var s := Initial(nodes, edges);
    if n == 0 {
      InitialCalm(nodes, edges, calm, stuck);
      assert KeySet([]) == {};
    } else {
      RunStaysCalm(nodes, edges, calm, stuck, n - 1);
      var t, order := Turns(edges, s, n - 1), Popped(edges, s, n - 1);
      if t.queue != [] {
        TurnKeepsCalm(KeysOf(nodes), edges, StartKey(nodes), calm, stuck, t, KeySet(order));
        KeySetAppends(order, t.queue[0]);
      } else {
        assert Popped(edges, s, n) == order;
      }
    }
  }

  // ---------------------------------------------------------------------------
  // Cycles below the start node
  // ---------------------------------------------------------------------------

  ghost predicate CycleBelow(edges: seq<Edge>, start: Key) {
    exists cycle :: IsCycle(edges, cycle) && IsAncestor(edges, start, cycle[0])
  }

  /** The node is on or below a cycle. */
  ghost predicate BelowCycle(edges: seq<Edge>, v: Key) {
    exists cycle :: IsCycle(edges, cycle) && IsAncestor(edges, cycle[0], v)
  }

  lemma AncestorStep(edges: seq<Edge>, u: Key, e: Edge)
    requires e in edges && IsAncestor(edges, u, e.from)
    ensures IsAncestor(edges, u, e.to)
  {
    var path :| Leads(edges, path, u, e.from);
    assert e == Edge(e.from, e.to);
    PathExtends(edges, path, e.from, e.to);
    assert Leads(edges, path + [e.to], u, e.to);
  }

  /** A node on or below a cycle has a predecessor that is. */
  lemma SourceBelowCycle(edges: seq<Edge>, v: Key) returns (e: Edge)
    requires BelowCycle(edges, v)
    ensures e in edges && e.to == v && BelowCycle(edges, e.from)
  {
    var cycle :| IsCycle(edges, cycle) && IsAncestor(edges, cycle[0], v);
    var path :| Leads(edges, path, cycle[0], v);
    var way := if |path| > 1 then path else cycle;
    var n := |way| - 1;
    PathPrefix(edges, way, v);
    e := Edge(way[n - 1], v);
    assert Leads(edges, way[..n], cycle[0], e.from);
  }

  /** The nodes that are not below the start node, and those of them that are below a cycle */
  lemma CalmAndStuck(keys: seq<Key>, edges: seq<Edge>, start: Key) returns (calm: set<Key>, stuck: set<Key>)
    requires Usable(keys, edges)
    ensures Calm(edges, start, calm) && Stuck(edges, calm, stuck)
    ensures forall v | v in keys :: v in calm <==> !IsAncestor(edges, start, v)
    ensures forall v :: v in stuck <==> v in calm && BelowCycle(edges, v)
  {
    calm := set v | v in keys && !IsAncestor(edges, start, v);
    stuck := set v | v in calm && BelowCycle(edges, v);
    hide IsAncestor, BelowCycle, Usable;
    OwnAncestor(edges, start);
    forall e | e in edges && e.to in calm
      ensures e.from in calm
    {
      EdgeLeads(keys, edges, e);
      if IsAncestor(edges, start, e.from) {
        AncestorStep(edges, start, e);
      }
    }
    forall v | v in stuck
      ensures HasSourceIn(edges, stuck, v)
    {
      var e := SourceBelowCycle(edges, v);
      assert e.from in stuck;
    }
  }

  /** Without the edges out of stuck nodes every cycle is below the start node. */
  lemma LightIsAcyclic(keys: seq<Key>, edges: seq<Edge>, start: Key, calm: set<Key>, stuck: set<Key>)
    requires Usable(keys, edges) && !CycleBelow(edges, start)
    requires forall v | v in keys :: v in calm <==> !IsAncestor(edges, start, v)
    requires forall v :: v in stuck <==> v in calm && BelowCycle(edges, v)
    ensures Usable(keys, Without(edges, stuck)) && Acyclic(Without(edges, stuck))
  {
    var light := Without(edges, stuck);
    WithoutEdges(edges, stuck);
    forall path | IsPath(light, path) && |path| > 1
      ensures path[0] != path[|path| - 1]
    {
      assert Edge(path[0], path[0 + 1]) in light;
      assert UsableEdge(keys, Edge(path[0], path[1]));
      if path[0] == path[|path| - 1] {
        LightCycle(edges, light, path);
        assert IsCycle(edges, path);
        OwnAncestor(edges, path[0]);
        assert BelowCycle(edges, path[0]);
      }
    }
  }

  lemma LightCycle(edges: seq<Edge>, light: seq<Edge>, path: seq<Key>)
    requires IsPath(light, path) && forall e | e in light :: e in edges
    ensures IsPath(edges, path)
  {
    forall i | 0 <= i < |path| - 1
      ensures Edge(path[i], path[i + 1]) in edges
    {
      assert Edge(path[i], path[i + 1]) in light;
    }
  }

  lemma HeadIsNotStuck(keys: seq<Key>, edges: seq<Edge>, calm: set<Key>, stuck: set<Key>, s: Search, done: set<Key>)
    requires CalmInv(keys, edges, calm, stuck, s, done) && s.queue != []
    ensures s.queue[0] !in stuck
  {
    hide InCount, KeyCounts;
    assert s.queue[0] in s.queue;
  }

  lemma {:induction false} WeightBoundsTurns(nodes: seq<Node>, edges: seq<Edge>, calm: set<Key>, stuck: set<Key>, n: nat)
    requires Distinct(KeysOf(nodes)) && Usable(KeysOf(nodes), edges)
    requires Calm(edges, StartKey(nodes), calm) && Stuck(edges, calm, stuck)
    requires Usable(KeysOf(nodes), Without(edges, stuck)) && Acyclic(Without(edges, stuck))
    ensures var s, size, light := Initial(nodes, edges), |nodes| + 1, Without(edges, stuck);
            EndsBy(edges, s, n) || WeightAll(light, Turns(edges, s, n).queue, size) + n <= WeightAll(light, s.queue, size)
  {
    hide Acyclic, Usable, WeightAll, Turn, Initial, Without, Calm, Stuck, CalmInv, Distinct, StartKey, Targets;
    if n > 0 {
      WeightBoundsTurns(nodes, edges, calm, stuck, n - 1);
      var t := Turns(edges, Initial(nodes, edges), n - 1);
      if t.queue != [] {
        RunStaysCalm(nodes, edges, calm, stuck, n - 1);
        HeadIsNotStuck(KeysOf(nodes), edges, calm, stuck, t, KeySet(Popped(edges, Initial(nodes, edges), n - 1)));
        WithoutTargets(edges, stuck, t.queue[0]);
        TurnLightens(KeysOf(nodes), edges, Without(edges, stuck), t);
      }
    }
  }

  /** Without a cycle below the start node the queue ends, whatever cycles the graph has elsewhere. */
  lemma EndsWithoutCycleBelow(nodes: seq<Node>, edges: seq<Edge>)
    requires Distinct(KeysOf(nodes)) && Usable(KeysOf(nodes), edges) && !CycleBelow(edges, StartKey(nodes))
    ensures QueueEnds(nodes, edges)
  {
    hide Acyclic, Usable, Initial, EndsBy, Turns, WeightAll, Without, Calm, Stuck, CycleBelow, BelowCycle, IsAncestor, StartKey, Distinct;
    var calm, stuck := CalmAndStuck(KeysOf(nodes), edges, StartKey(nodes));
    LightIsAcyclic(KeysOf(nodes), edges, StartKey(nodes), calm, stuck);
    var n := WeightAll(Without(edges, stuck), Initial(nodes, edges).queue, |nodes| + 1) + 1;
    WeightBoundsTurns(nodes, edges, calm, stuck, n);
    assert EndsBy(edges, Initial(nodes, edges), n);
  }

  lemma AcyclicEnds(nodes: seq<Node>, edges: seq<Edge>)
    requires Distinct(KeysOf(nodes)) && Usable(KeysOf(nodes), edges) && Acyclic(edges)
    ensures QueueEnds(nodes, edges)
  {
    EndsWithoutCycleBelow(nodes, edges);
  }
}
