/**
 What the levels say along a run of the level queue and at its end: a node with a longest path is popped at
 the level of that path, whatever cycles the graph has elsewhere.
 */
module RunLevels {
  import opened TreeLevels
  import opened QueueRuns

  // ---------------------------------------------------------------------------
  // What every turn keeps
  // ---------------------------------------------------------------------------

  /** The node is queued, waits for a predecessor, or all its targets are above it. */
  ghost predicate Settled(edges: seq<Edge>, s: Search, u: Key) {
    u in s.queue || (u in s.indegree && s.indegree[u] > 0) || Up(edges, s.levels, u)
  }

  /** A level above 0 comes from a popped predecessor. */
  ghost predicate Supported(edges: seq<Edge>, levels: map<Key, nat>, done: set<Key>, v: Key) {
    v in levels && levels[v] > 0 ==> exists u :: Supports(edges, levels, done, u, v)
  }

  ghost predicate Supports(edges: seq<Edge>, levels: map<Key, nat>, done: set<Key>, u: Key, v: Key)
    requires v in levels
  {
    Edge(u, v) in edges && u in done && u in levels && levels[v] <= levels[u] + 1
  }

  /** A level is the length of some path, comes from a popped predecessor, and is given to the targets of what is popped. */
  ghost predicate LevelInv(keys: seq<Key>, edges: seq<Edge>, s: Search, done: set<Key>) {
    && (forall v :: v in s.levels <==> v in s.queue || v in done || HasSourceIn(edges, done, v))
    && (forall v | v in s.levels :: v in keys && HasPathOfLength(edges, v, s.levels[v]))
    && (forall v :: Supported(edges, s.levels, done, v))
    && (forall v | v in keys :: Settled(edges, s, v))
  }

  lemma InitialLevels(nodes: seq<Node>, edges: seq<Edge>)
    requires Distinct(KeysOf(nodes))
    ensures LevelInv(KeysOf(nodes), edges, Initial(nodes, edges), {})
  {
    hide InitialQueue, StartKey, IsPath;
    InitialQueueHolds(KeysOf(nodes), edges, StartKey(nodes));
    forall v
      ensures HasPathOfLength(edges, v, 0)
    {
      assert PathTo(edges, [v], v) by {
        assert IsPath(edges, [v]) by { OneNodePath(edges, v); }
      }
    }
  }

  lemma OneNodePath(edges: seq<Edge>, v: Key)
    ensures IsPath(edges, [v])
  {
  }

  /** No level falls, and the popped node keeps its own. */
  ghost predicate Raised(s: Search, t: Search, key: Key) {
    && (forall v | v in s.levels :: v in t.levels && s.levels[v] <= t.levels[v])
    && key in s.levels && t.levels[key] == s.levels[key]
  }

  lemma RaisedBy(s: Search, t: Search, key: Key, outs: seq<Key>)
    requires key in s.levels && key !in outs && LevelsRelaxed(s, t, s.levels[key], outs)
    ensures Raised(s, t, key)
  {
  }

  lemma KeepsPath(edges: seq<Edge>, s: Search, t: Search, key: Key, v: Key)
    requires key in s.levels && LevelsRelaxed(s, t, s.levels[key], Targets(edges, key)) && v in t.levels
    requires forall u | u in s.levels :: HasPathOfLength(edges, u, s.levels[u])
    ensures HasPathOfLength(edges, v, t.levels[v])
  {
    hide Targets, IsPath;
    if v in Targets(edges, key) && t.levels[v] == s.levels[key] + 1 {
      TargetsAreEdges(edges, key, v);
      var path :| PathTo(edges, path, key) && |path| == s.levels[key] + 1;
      PathExtends(edges, path, key, v);
    }
  }

  lemma KeepsSupport(edges: seq<Edge>, s: Search, t: Search, done: set<Key>, key: Key, v: Key)
    requires Raised(s, t, key) && LevelsRelaxed(s, t, s.levels[key], Targets(edges, key)) && v in t.levels
    requires Supported(edges, s.levels, done, v)
    ensures Supported(edges, t.levels, done + {key}, v)
  {
    hide Targets;
    TargetsAreEdges(edges, key, v);
    if t.levels[v] > 0 {
      if v in s.levels && t.levels[v] == s.levels[v] {
        var u :| Supports(edges, s.levels, done, u, v);
        assert Supports(edges, t.levels, done + {key}, u, v);
      } else {
        assert Supports(edges, t.levels, done + {key}, key, v);
      }
    }
  }

  lemma KeepsSettled(keys: seq<Key>, edges: seq<Edge>, s: Search, t: Search, key: Key, u: Key)
    requires KeyCounts(keys, s) && KeyCounts(keys, t) && Turned(edges, s, t, key) && Raised(s, t, key) && u in keys
    requires Settled(edges, s, u)
    ensures Settled(edges, t, u)
  {
    hide Targets, Count, Distinct;
    CountPositive(Targets(edges, key), u);
    if u == key {
      forall e | e in edges && e.from == key
        ensures e.to in t.levels && t.levels[key] < t.levels[e.to]
      {
        TargetsAreEdges(edges, key, e.to);
        assert e == Edge(key, e.to);
      }
    }
  }

  lemma KeepsReached(keys: seq<Key>, edges: seq<Edge>, s: Search, t: Search, done: set<Key>, key: Key, v: Key)
    requires KeyCounts(keys, s) && Turned(edges, s, t, key) && key in s.queue
    requires v in s.levels <==> v in s.queue || v in done || HasSourceIn(edges, done, v)
    requires forall w | w in Targets(edges, key) :: w in keys
    ensures v in t.levels <==> v in t.queue || v in done + {key} || HasSourceIn(edges, done + {key}, v)
  {
    hide Targets, Count, Distinct, HasSourceIn;
    DoneSourceAfterPop(edges, done, key, v);
  }

  lemma TurnKeepsLevels(keys: seq<Key>, edges: seq<Edge>, s: Search, done: set<Key>)
    requires Usable(keys, edges) && KeyCounts(keys, s) && LevelInv(keys, edges, s, done) && s.queue != []
    ensures LevelInv(keys, edges, Turn(edges, s), done + {s.queue[0]})
  {
    hide Turn, Targets, Count, LevelsRelaxed, HasPathOfLength, Supported, Settled, HasSourceIn, Usable, Raised;
    var key, t := s.queue[0], Turn(edges, s);
    TurnTurns(keys, edges, s);
    assert key in s.queue && key in s.levels;
    RaisedBy(s, t, key, Targets(edges, key));
    forall v
      ensures v in t.levels <==> v in t.queue || v in done + {key} || HasSourceIn(edges, done + {key}, v)
      ensures Supported(edges, t.levels, done + {key}, v)
      ensures v in t.levels ==> HasPathOfLength(edges, v, t.levels[v])
    {
      KeepsReached(keys, edges, s, t, done, key, v);
      if v in t.levels {
        KeepsPath(edges, s, t, key, v);
        KeepsSupport(edges, s, t, done, key, v);
      } else {
        NotReached(edges, t.levels, done + {key}, v);
      }
    }
    forall u | u in keys
      ensures Settled(edges, t, u)
    {
      KeepsSettled(keys, edges, s, t, key, u);
    }
    LevelsOfKeys(s, t, keys, key, Targets(edges, key));
  }

  lemma NotReached(edges: seq<Edge>, levels: map<Key, nat>, done: set<Key>, v: Key)
    requires v !in levels
    ensures Supported(edges, levels, done, v)
  {
  }

  lemma LevelsOfKeys(s: Search, t: Search, keys: seq<Key>, key: Key, outs: seq<Key>)
    requires LevelsRelaxed(s, t, LevelOr0(s.levels, key), outs)
    requires (forall v | v in s.levels :: v in keys) && forall v | v in outs :: v in keys
    ensures forall v | v in t.levels :: v in keys
  {
  }

  lemma {:induction false} RunKeepsLevels(nodes: seq<Node>, edges: seq<Edge>, n: nat)
    requires Distinct(KeysOf(nodes)) && Usable(KeysOf(nodes), edges)
    ensures LevelInv(KeysOf(nodes), edges, Turns(edges, Initial(nodes, edges), n),
                     KeySet(Popped(edges, Initial(nodes, edges), n)))
  {
    hide LevelInv, Initial, Turn, StartKey, Usable, Distinct;
    var s := Initial(nodes, edges);
    if n == 0 {
      InitialLevels(nodes, edges);
      assert KeySet([]) == {};
    } else {
      RunKeepsLevels(nodes, edges, n - 1);
      RunKeepsInv(nodes, edges, n - 1);
      var t := Turns(edges, s, n - 1);
      if t.queue != [] {
        TurnKeepsLevels(KeysOf(nodes), edges, t, KeySet(Popped(edges, s, n - 1)));
        KeySetAppends(Popped(edges, s, n - 1), t.queue[0]);
      } else {
        assert Popped(edges, s, n) == Popped(edges, s, n - 1);
      }
    }
  }

  // ---------------------------------------------------------------------------
  // When the queue is empty
  // ---------------------------------------------------------------------------

  ghost predicate Finished(keys: seq<Key>, edges: seq<Edge>, start: Key, s: Search, done: set<Key>) {
    Usable(keys, edges) && RunInv(keys, edges, start, s, done) && LevelInv(keys, edges, s, done) && s.queue == []
  }

  /** Every predecessor of an unpopped node waits for another unpopped one. */
  lemma UnpoppedWaits(keys: seq<Key>, edges: seq<Edge>, start: Key, s: Search, done: set<Key>, v: Key, length: nat)
    returns (path: seq<Key>)
    requires Finished(keys, edges, start, s, done) && v in keys && v !in done
    ensures PathTo(edges, path, v) && |path| == length + 1 && forall k | k in path :: k in keys && k !in done
  {
    hide LevelInv, InCount, IsPath, Usable;
    assert forall u | u in keys && u !in done :: InCount(edges, u, done) > 0;
    path := EndlessPaths(keys, edges, done, v, length);
  }

  lemma NothingLeft(keys: seq<Key>, edges: seq<Edge>, start: Key, s: Search, done: set<Key>, u: Key)
    requires Finished(keys, edges, start, s, done) && u in keys && InCount(edges, u, done) == 0
    ensures Up(edges, s.levels, u)
  {
    hide InCount, Up, Usable, HasPathOfLength, Supported, HasSourceIn;
    assert s.indegree[u] <= 0;
    assert Settled(edges, s, u);
  }

  /** Edges out of popped nodes climb; those out of the start node, unless a cycle blocks it. */
  lemma PoppedUp(keys: seq<Key>, edges: seq<Edge>, start: Key, s: Search, done: set<Key>, u: Key)
    requires Finished(keys, edges, start, s, done) && u in done && (u != start || !Blocked(edges, start))
    ensures Up(edges, s.levels, u)
  {
    hide InCount, Up, Usable, HasPathOfLength, Supported, HasSourceIn, Blocked, IsAncestor;
    if u != start {
      assert Settled(edges, s, u);
    } else {
      forall e | e in edges && e.to == start
        ensures e.from in done
      {
        EdgeLeads(keys, edges, e);
        AncestorsPopped(keys, edges, start, s, done, e.from);
      }
      InCountZero(edges, start, done);
      NothingLeft(keys, edges, start, s, done, start);
    }
  }

  lemma PathSuffix(edges: seq<Edge>, path: seq<Key>, v: Key, n: nat)
    requires PathTo(edges, path, v) && n < |path|
    ensures HasPathOfLength(edges, v, n)
  {
    Segment(edges, path, |path| - 1 - n, |path|);
    assert PathTo(edges, path[|path| - 1 - n..|path|], v);
  }

  /** The ancestors of a node without endless paths are all popped. */
  lemma FiniteAncestorsPopped(keys: seq<Key>, edges: seq<Edge>, start: Key, s: Search, done: set<Key>, u: Key, v: Key)
    requires Finished(keys, edges, start, s, done) && u in keys && IsAncestor(edges, u, v) && !HasEndlessPaths(edges, v)
    ensures u in done
  {
    hide Finished, HasPathOfLength;
    var n: nat :| !HasPathOfLength(edges, v, n);
    var path :| Leads(edges, path, u, v);
    if u !in done {
      var longer := UnpoppedWaits(keys, edges, start, s, done, u, n);
      PathsJoin(edges, longer, path, longer[0], u, v);
      PathSuffix(edges, longer + path[1..], v, n);
    }
  }

  lemma FiniteAncestorsUp(keys: seq<Key>, edges: seq<Edge>, start: Key, s: Search, done: set<Key>, u: Key, v: Key)
    requires Finished(keys, edges, start, s, done) && u in keys && IsAncestor(edges, u, v) && !HasEndlessPaths(edges, v)
    ensures Up(edges, s.levels, u)
  {
    hide RunInv, LevelInv, Usable, Up, InCount, IsAncestor, HasEndlessPaths;
    forall e | e in edges && e.to == u
      ensures e.from in done
    {
      EdgeLeads(keys, edges, e);
      AncestorsCompose(edges, e.from, u, v);
      FiniteAncestorsPopped(keys, edges, start, s, done, e.from, v);
    }
    InCountZero(edges, u, done);
    NothingLeft(keys, edges, start, s, done, u);
  }

  lemma OnPath(keys: seq<Key>, edges: seq<Edge>, path: seq<Key>, v: Key, k: Key)
    requires Usable(keys, edges) && v in keys && PathTo(edges, path, v) && k in path
    ensures k in keys && IsAncestor(edges, k, v)
  {
    if |path| > 1 {
      PathKeysKnown(keys, edges, path);
    }
    var i :| 0 <= i < |path| && path[i] == k;
    Segment(edges, path, i, |path|);
    assert Leads(edges, path[i..|path|], k, v);
  }

  /** A node without endless paths has been popped, and its level is the length of the longest path to it. */
  lemma LevelsAreLongestPaths(keys: seq<Key>, edges: seq<Edge>, start: Key, s: Search, done: set<Key>, v: Key)
    requires Finished(keys, edges, start, s, done) && v in keys && !HasEndlessPaths(edges, v)
    ensures v in done && v in s.levels && IsLongest(edges, v, s.levels[v])
  {
    hide RunInv, Usable, Up, IsAncestor, IsPath, HasEndlessPaths, Settled, Supported, HasSourceIn;
    OwnAncestor(edges, v);
    FiniteAncestorsPopped(keys, edges, start, s, done, v, v);
    assert HasPathOfLength(edges, v, s.levels[v]);
    forall path | PathTo(edges, path, v)
      ensures |path| <= s.levels[v] + 1
    {
      forall k | k in path
        ensures Up(edges, s.levels, k)
      {
        OnPath(keys, edges, path, v, k);
        FiniteAncestorsUp(keys, edges, start, s, done, k, v);
      }
      PathsClimb(edges, s.levels, path, v);
    }
  }

  /** The level of any node with a popped predecessor is one above the greatest of those, unless a cycle blocks the start node. */
  lemma ReachedFits(keys: seq<Key>, edges: seq<Edge>, start: Key, s: Search, done: set<Key>, v: Key)
    requires Finished(keys, edges, start, s, done) && HasSourceIn(edges, done, v) && !Blocked(edges, start)
    ensures v in s.levels && LevelFits(edges, s.levels, done, v)
  {
    hide RunInv, Usable, HasPathOfLength, Settled, Blocked;
    forall e | e in edges && e.to == v && e.from in done
      ensures e.from in s.levels && s.levels[e.from] < s.levels[v]
    {
      PoppedUp(keys, edges, start, s, done, e.from);
    }
    assert Supported(edges, s.levels, done, v);
    var u :| Supports(edges, s.levels, done, u, v);
    assert Edge(u, v).from == u;
  }

  lemma {:induction false} AcyclicIsFinite(keys: seq<Key>, edges: seq<Edge>, v: Key)
    requires Usable(keys, edges) && Acyclic(edges)
    ensures !HasEndlessPaths(edges, v)
  {
    hide Acyclic, Usable, IsPath;
    if HasEndlessPaths(edges, v) {
      assert HasPathOfLength(edges, v, |keys| + 1);
      var path :| PathTo(edges, path, v) && |path| == |keys| + 2;
      AcyclicPathsAreShort(keys, edges, path);
    }
  }

  // ---------------------------------------------------------------------------
  // How great a level can be
  // ---------------------------------------------------------------------------

  /** When edges out of popped nodes climb, the levels below a level are all taken. */
  lemma {:induction false} LevelsBelowTaken(edges: seq<Edge>, levels: map<Key, nat>, done: set<Key>, v: Key) returns (taken: set<Key>)
    requires forall u | u in done :: Up(edges, levels, u)
    requires forall u :: Supported(edges, levels, done, u)
    requires v in levels
    ensures |taken| == levels[v] + 1 && forall u | u in taken :: u in levels && levels[u] <= levels[v]
    decreases levels[v]
  {
    if levels[v] == 0 {
      taken := {v};
    } else {
      assert Supported(edges, levels, done, v);
      var u :| Supports(edges, levels, done, u, v);
      assert Edge(u, v).from == u;
      var below := LevelsBelowTaken(edges, levels, done, u);
      taken := below + {v};
    }
  }

  /** A run that pops no node twice gives no level above the number of popped nodes. */
  ghost predicate Shallow(s: Search, done: set<Key>) {
    forall v | v in s.levels :: s.levels[v] <= |done|
  }

  lemma TurnStaysShallow(s: Search, t: Search, done: set<Key>, key: Key, outs: seq<Key>)
    requires Shallow(s, done) && key !in done && LevelsRelaxed(s, t, LevelOr0(s.levels, key), outs)
    ensures Shallow(t, done + {key})
  {
    assert |done + {key}| == |done| + 1;
  }

  lemma {:induction false} RunStaysShallow(nodes: seq<Node>, edges: seq<Edge>, waiting: set<Key>, n: nat)
    requires Distinct(KeysOf(nodes)) && Usable(KeysOf(nodes), edges) && Waiting(edges, StartKey(nodes), waiting)
    ensures Shallow(Turns(edges, Initial(nodes, edges), n), KeySet(Popped(edges, Initial(nodes, edges), n)))
  {
    hide Initial, Turn, StartKey, Usable, Waiting, OnceInv, LevelsRelaxed, Shallow, Distinct, KeySet, Targets;
    var s := Initial(nodes, edges);
    if n == 0 {
      InitialShallow(nodes, edges);
    } else {
      RunStaysShallow(nodes, edges, waiting, n - 1);
      RunKeepsOnceInv(nodes, edges, waiting, n - 1);
      var t, done := Turns(edges, s, n - 1), KeySet(Popped(edges, s, n - 1));
      if t.queue != [] {
        OncePopped(KeysOf(nodes), edges, StartKey(nodes), waiting, t, done);
        OnceCounts(KeysOf(nodes), edges, StartKey(nodes), waiting, t, done);
        TurnTurns(KeysOf(nodes), edges, t);
        TurnedLevels(edges, t, Turn(edges, t), t.queue[0]);
        TurnStaysShallow(t, Turn(edges, t), done, t.queue[0], Targets(edges, t.queue[0]));
        KeySetAppends(Popped(edges, s, n - 1), t.queue[0]);
      } else {
        assert Popped(edges, s, n) == Popped(edges, s, n - 1);
      }
    }
  }

  lemma InitialShallow(nodes: seq<Node>, edges: seq<Edge>)
    ensures Shallow(Initial(nodes, edges), KeySet([]))
  {
    hide InitialQueue, Sources, StartKey;
  }

  lemma OnceCounts(keys: seq<Key>, edges: seq<Edge>, start: Key, waiting: set<Key>, s: Search, done: set<Key>)
    requires OnceInv(keys, edges, start, waiting, s, done)
    ensures KeyCounts(keys, s)
  {
    hide InCount, Distinct;
  }

  lemma TurnedLevels(edges: seq<Edge>, s: Search, t: Search, key: Key)
    requires Turned(edges, s, t, key)
    ensures LevelsRelaxed(s, t, LevelOr0(s.levels, key), Targets(edges, key))
  {
    hide LevelsRelaxed, Targets, Count;
  }

  /** An unpopped node waits for another one. */
  lemma TwoUnpopped(keys: seq<Key>, edges: seq<Edge>, start: Key, s: Search, done: set<Key>, v: Key) returns (u: Key)
    requires Finished(keys, edges, start, s, done) && v in keys && v !in done
    ensures u in keys && u !in done && u != v && |done| + 2 <= |keys|
  {
    hide LevelInv, InCount, Usable;
    var path := UnpoppedWaits(keys, edges, start, s, done, v, 1);
    assert path[0] in path && Edge(path[0], path[0 + 1]) in edges;
    u := path[0];
    EdgeLeads(keys, edges, Edge(u, v));
    KeysFit(keys, done, {u, v});
  }

  lemma KeysFit(keys: seq<Key>, done: set<Key>, extra: set<Key>)
    requires (forall v | v in done :: v in keys) && (forall v | v in extra :: v in keys) && done !! extra
    ensures |done| + |extra| <= |keys|
  {
    KeySetSize(keys);
    SubsetSize(done + extra, KeySet(keys));
  }

  lemma {:induction false} SubsetSize(a: set<Key>, b: set<Key>)
    requires a <= b
    ensures |a| <= |b|
  {
    if a != {} {
      var x :| x in a;
      SubsetSize(a - {x}, b - {x});
    }
  }

  /** No level reaches the number of nodes, and with an unreached node none reaches one less. */
  ghost predicate LowLevels(keys: seq<Key>, levels: map<Key, nat>) {
    && (forall v | v in levels :: levels[v] < |keys|)
    && (forall v, w | v in levels && w in keys && w !in levels :: levels[v] + 1 < |keys|)
  }

  lemma UnblockedLevelsLow(keys: seq<Key>, edges: seq<Edge>, start: Key, s: Search, done: set<Key>)
    requires Finished(keys, edges, start, s, done) && !Blocked(edges, start)
    ensures LowLevels(keys, s.levels)
  {
    hide RunInv, Usable, Up, Blocked, HasPathOfLength, Settled, HasSourceIn, Supported;
    forall v | v in s.levels
      ensures s.levels[v] < |keys|
      ensures forall w | w in keys && w !in s.levels :: s.levels[v] + 1 < |keys|
    {
      forall u | u in done
        ensures Up(edges, s.levels, u)
      {
        PoppedUp(keys, edges, start, s, done, u);
      }
      var taken := LevelsBelowTaken(edges, s.levels, done, v);
      KeysFit(keys, taken, {});
      forall w | w in keys && w !in s.levels
        ensures s.levels[v] + 1 < |keys|
      {
        KeysFit(keys, taken, {w});
      }
    }
  }

  lemma BlockedLevelsLow(keys: seq<Key>, edges: seq<Edge>, start: Key, s: Search, done: set<Key>, v: Key)
    requires Finished(keys, edges, start, s, done) && Shallow(s, done) && v in keys && v !in done
    ensures LowLevels(keys, s.levels)
  {
    hide Finished;
    var u := TwoUnpopped(keys, edges, start, s, done, v);
  }

  // ---------------------------------------------------------------------------
  // The end of a run
  // ---------------------------------------------------------------------------

  lemma RunFinishes(nodes: seq<Node>, edges: seq<Edge>, n: nat)
    requires Distinct(KeysOf(nodes)) && Usable(KeysOf(nodes), edges) && EndsBy(edges, Initial(nodes, edges), n)
    ensures Finished(KeysOf(nodes), edges, StartKey(nodes), Turns(edges, Initial(nodes, edges), n),
                     KeySet(Popped(edges, Initial(nodes, edges), n)))
  {
    hide RunInv, LevelInv, Initial, Turns, Popped, StartKey, Usable, Distinct, KeySet;
    RunKeepsInv(nodes, edges, n);
    RunKeepsLevels(nodes, edges, n);
  }

  lemma FinalLevelsLow(nodes: seq<Node>, edges: seq<Edge>, n: nat)
    requires Distinct(KeysOf(nodes)) && Usable(KeysOf(nodes), edges) && EndsBy(edges, Initial(nodes, edges), n)
    ensures LowLevels(KeysOf(nodes), Turns(edges, Initial(nodes, edges), n).levels)
  {
    hide Initial, Turns, Popped, Finished, Blocked, StartKey, Waiting, LowLevels, Shallow, Distinct, KeySet, Usable, EndsBy;
    var keys, start, s := KeysOf(nodes), StartKey(nodes), Turns(edges, Initial(nodes, edges), n);
    var done := KeySet(Popped(edges, Initial(nodes, edges), n));
    RunFinishes(nodes, edges, n);
    if Blocked(edges, start) {
      var waiting := BlockedWaits(edges, start);
      RunStaysShallow(nodes, edges, waiting, n);
      RunKeepsOnceInv(nodes, edges, waiting, n);
      var v := SomeWaits(keys, edges, start, waiting, s, done);
      BlockedLevelsLow(keys, edges, start, s, done, v);
    } else {
      UnblockedLevelsLow(keys, edges, start, s, done);
    }
  }

  lemma SomeWaits(keys: seq<Key>, edges: seq<Edge>, start: Key, waiting: set<Key>, s: Search, done: set<Key>) returns (v: Key)
    requires Usable(keys, edges) && Waiting(edges, start, waiting) && waiting != {}
    requires OnceInv(keys, edges, start, waiting, s, done)
    ensures v in keys && v !in done
  {
    hide InCount, KeyCounts;
    v :| v in waiting;
    assert HasSourceIn(edges, waiting, v);
    var e :| e in edges && e.to == v && e.from in waiting;
    assert UsableEdge(keys, e);
  }

  lemma {:induction false} ClosedPath(edges: seq<Edge>, done: set<Key>, path: seq<Key>, v: Key)
    requires Closed(edges, done) && v in done && PathTo(edges, path, v)
    ensures forall k | k in path :: k in done
    decreases |path|
  {
    if |path| > 1 {
      PathPrefix(edges, path, v);
      var n := |path| - 1;
      assert Edge(path[n - 1], v).from in done;
      ClosedPath(edges, done, path[..n], path[n - 1]);
      assert path == path[..n] + [v];
    }
  }

  lemma OnceClosed(keys: seq<Key>, edges: seq<Edge>, start: Key, s: Search, done: set<Key>)
    requires OnceInv(keys, edges, start, {}, s, done) && forall e | e in edges :: e.to != start
    ensures Closed(edges, done)
  {
    hide InCount, KeyCounts;
    forall e | e in edges && e.to in done
      ensures e.from in done
    {
      InCountZero(edges, e.to, done);
    }
  }

  lemma ClosedIsFinite(edges: seq<Edge>, levels: map<Key, nat>, done: set<Key>, v: Key)
    requires Closed(edges, done) && v in done && forall u | u in done :: Up(edges, levels, u)
    ensures !HasEndlessPaths(edges, v)
  {
    if HasEndlessPaths(edges, v) {
      hide Up, Closed, IsPath;
      assert Up(edges, levels, v);
      assert v in levels by { UpKnown(edges, levels, v); }
      assert HasPathOfLength(edges, v, levels[v] + 1);
      var path :| PathTo(edges, path, v) && |path| == levels[v] + 2;
      ClosedPath(edges, done, path, v);
      PathsClimb(edges, levels, path, v);
    }
  }

  lemma UpKnown(edges: seq<Edge>, levels: map<Key, nat>, v: Key)
    requires Up(edges, levels, v)
    ensures v in levels
  {
  }

  /** Without an edge into the start node every node is popped at most once, and none on or below a cycle is. */
  lemma SourceStartPopsFinite(nodes: seq<Node>, edges: seq<Edge>, n: nat, v: Key)
    requires Distinct(KeysOf(nodes)) && Usable(KeysOf(nodes), edges) && StartIsSource(nodes, edges)
    requires EndsBy(edges, Initial(nodes, edges), n) && v in Popped(edges, Initial(nodes, edges), n)
    ensures Distinct(Popped(edges, Initial(nodes, edges), n)) && !HasEndlessPaths(edges, v)
  {
    hide Initial, Turns, Popped, Finished, Blocked, StartKey, Waiting, Distinct, Usable, EndsBy, Up, OnceInv, HasEndlessPaths, Closed;
    var keys, start, s := KeysOf(nodes), StartKey(nodes), Turns(edges, Initial(nodes, edges), n);
    var done := KeySet(Popped(edges, Initial(nodes, edges), n));
    NothingWaits(edges, start);
    RunFinishes(nodes, edges, n);
    RunKeepsOnceInv(nodes, edges, {}, n);
    OnceClosed(keys, edges, start, s, done);
    forall u | u in done
      ensures Up(edges, s.levels, u)
    {
      SourceStartUnblocked(edges, start);
      PoppedUp(keys, edges, start, s, done, u);
    }
    ClosedIsFinite(edges, s.levels, done, v);
  }

  lemma SourceStartUnblocked(edges: seq<Edge>, start: Key)
    requires forall e | e in edges :: e.to != start
    ensures !Blocked(edges, start)
  {
    if Blocked(edges, start) {
      var cycle :| Blocks(edges, start, cycle);
      assert cycle[0] in cycle;
      var path :| Leads(edges, path, cycle[0], start);
      PathPrefix(edges, path, start);
    }
  }
}
