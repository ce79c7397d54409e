/**
 When the level queue pops the start node no more than once: exactly when a cycle blocks it, or when whatever
 precedes it is a source listed before it. No node is popped twice then, and the queue ends.
 */
module StartOnce {
  import opened TreeLevels
  import opened QueueRuns

  ghost predicate Before(s: seq<Key>, a: Key, b: Key) {
    exists i, j :: IsBefore(s, a, b, i, j)
  }

  ghost predicate IsBefore(s: seq<Key>, a: Key, b: Key, i: int, j: int) {
    0 <= i < j < |s| && s[i] == a && s[j] == b
  }

  /** Every predecessor of the start node is a source and is listed before it. */
  ghost predicate PredecessorsFirst(nodes: seq<Node>, edges: seq<Edge>) {
    forall e | e in edges && e.to == StartKey(nodes) ::
      Sources(edges, e.from) == [] && Before(KeysOf(nodes), e.from, StartKey(nodes))
  }

  ghost predicate PopsStartOnce(nodes: seq<Node>, edges: seq<Edge>) {
    forall n :: Count(Popped(edges, Initial(nodes, edges), n), StartKey(nodes)) <= 1
  }

  // ---------------------------------------------------------------------------
  // First in, first out
  // ---------------------------------------------------------------------------

  lemma {:induction false} RelaxExtends(s: Search, base: nat, outs: seq<Key>)
    ensures s.queue <= RelaxAll(s, base, outs).queue
  {
    if outs != [] {
      RelaxExtends(s, base, outs[..|outs| - 1]);
    }
  }

  lemma TurnShifts(edges: seq<Edge>, s: Search)
    requires s.queue != []
    ensures s.queue[1..] <= Turn(edges, s).queue
  {
    hide RelaxAll;
    RelaxExtends(s.(queue := s.queue[1..]), LevelOr0(s.levels, s.queue[0]), Targets(edges, s.queue[0]));
  }

  /** What is queued is popped in its turn, behind what was queued before it. */
  lemma {:induction false} QueuedIsPopped(edges: seq<Edge>, s: Search, n: nat, j: nat)
    requires j <= |Turns(edges, s, n).queue|
    ensures Popped(edges, s, n + j) == Popped(edges, s, n) + Turns(edges, s, n).queue[..j]
    ensures Turns(edges, s, n).queue[j..] <= Turns(edges, s, n + j).queue
  {
    hide Turn;
    var queue := Turns(edges, s, n).queue;
    if j > 0 {
      QueuedIsPopped(edges, s, n, j - 1);
      var t := Turns(edges, s, n + j - 1);
      TurnShifts(edges, t);
      assert queue[..j] == queue[..j - 1] + [queue[j - 1]];
      assert queue[j - 1..][1..] == queue[j..];
      assert t.queue[0] == queue[j - 1..][0];
    }
  }

  // ---------------------------------------------------------------------------
  // Runs in which the start node is not queued again
  // ---------------------------------------------------------------------------

  /** The turn does not queue a start node that has been popped. */
  ghost predicate KeepsStartOut(edges: seq<Edge>, start: Key, s: Search, done: set<Key>) {
    s.queue != [] && start in Targets(edges, s.queue[0]) ==>
      InCount(edges, start, done + {s.queue[0]}) > 0 || start in s.queue
  }

  lemma TurnKeepsOnce(keys: seq<Key>, edges: seq<Edge>, start: Key, s: Search, done: set<Key>)
    requires Usable(keys, edges) && OnceInv(keys, edges, start, {}, s, done) && s.queue != []
    requires KeepsStartOut(edges, start, s, done)
    ensures s.queue[0] in keys && s.queue[0] !in done
    ensures OnceInv(keys, edges, start, {}, Turn(edges, s), done + {s.queue[0]})
  {
    hide Turn, LevelsRelaxed, Count, Targets, InCount, Usable;
    var key, t, more := s.queue[0], Turn(edges, s), done + {s.queue[0]};
    TurnTurns(keys, edges, s);
    assert key in s.queue;
    forall v | v in keys
      ensures t.indegree[v] == InCount(edges, v, more)
      ensures v in Targets(edges, key) <==> InCount(edges, v, more) < InCount(edges, v, done)
    {
      InCountAfterPop(edges, v, done, key);
      CountPositive(Targets(edges, key), v);
    }
    OnceStep(keys, edges, start, {}, s, t, done, key);
  }

  lemma InitialOnce(nodes: seq<Node>, edges: seq<Edge>)
    requires Distinct(KeysOf(nodes))
    ensures OnceInv(KeysOf(nodes), edges, StartKey(nodes), {}, Initial(nodes, edges), {})
  {
    hide StartKey, Sources, InitialQueue, InCount;
    InitialQueueHolds(KeysOf(nodes), edges, StartKey(nodes));
    forall v
      ensures InCount(edges, v, {}) == |Sources(edges, v)|
    {
      InCountOfNone(edges, v);
    }
  }

  function StateAt(nodes: seq<Node>, edges: seq<Edge>, n: nat): Search {
    Turns(edges, Initial(nodes, edges), n)
  }

  function DoneAt(nodes: seq<Node>, edges: seq<Edge>, n: nat): set<Key> {
    KeySet(Popped(edges, Initial(nodes, edges), n))
  }

  lemma DoneStep(nodes: seq<Node>, edges: seq<Edge>, n: nat)
    ensures DoneAt(nodes, edges, n + 1)
         == DoneAt(nodes, edges, n) + if StateAt(nodes, edges, n).queue == [] then {} else {StateAt(nodes, edges, n).queue[0]}
  {
    hide Initial, Turn;
    var s := Initial(nodes, edges);
    if StateAt(nodes, edges, n).queue == [] {
      assert Popped(edges, s, n + 1) == Popped(edges, s, n);
    } else {
      KeySetAppends(Popped(edges, s, n), StateAt(nodes, edges, n).queue[0]);
    }
  }

  ghost predicate OnceAt(nodes: seq<Node>, edges: seq<Edge>, n: nat) {
    var order := Popped(edges, Initial(nodes, edges), n);
    && OnceInv(KeysOf(nodes), edges, StartKey(nodes), {}, StateAt(nodes, edges, n), DoneAt(nodes, edges, n))
    && Distinct(order) && |order| <= n && (StateAt(nodes, edges, n).queue != [] ==> |order| == n)
  }

  lemma OnceNext(nodes: seq<Node>, edges: seq<Edge>, n: nat)
    requires Distinct(KeysOf(nodes)) && Usable(KeysOf(nodes), edges) && OnceAt(nodes, edges, n)
    requires KeepsStartOut(edges, StartKey(nodes), StateAt(nodes, edges, n), DoneAt(nodes, edges, n))
    ensures OnceAt(nodes, edges, n + 1)
  {
    hide Initial, Turn, StartKey, Usable, OnceInv, KeepsStartOut, KeysOf;
    var s := Initial(nodes, edges);
    var t, order := Turns(edges, s, n), Popped(edges, s, n);
    if t.queue != [] {
      TurnKeepsOnce(KeysOf(nodes), edges, StartKey(nodes), t, KeySet(order));
      KeySetAppends(order, t.queue[0]);
    } else {
      assert Popped(edges, s, n + 1) == order;
    }
  }

  lemma OnceAtStart(nodes: seq<Node>, edges: seq<Edge>)
    requires Distinct(KeysOf(nodes))
    ensures OnceAt(nodes, edges, 0)
  {
    hide OnceInv, Initial, StartKey;
    InitialOnce(nodes, edges);
    assert KeySet([]) == {};
  }

  lemma OnceAtEnd(nodes: seq<Node>, edges: seq<Edge>)
    requires OnceAt(nodes, edges, |nodes|)
    ensures EndsBy(edges, Initial(nodes, edges), |nodes|)
  {
    hide Initial, Turns, Popped, OnceInv, StartKey, Distinct, KeySet, KeysOf;
    var s, order := StateAt(nodes, edges, |nodes|), Popped(edges, Initial(nodes, edges), |nodes|);
    if s.queue != [] {
      OncePopped(KeysOf(nodes), edges, StartKey(nodes), {}, s, KeySet(order));
      NoRoomLeft(KeysOf(nodes), order, s.queue[0]);
    }
  }

  // ---------------------------------------------------------------------------
  // Predecessors first: the start node waits its turn behind them
  // ---------------------------------------------------------------------------

  /** All predecessors of a popped start node are popped, those of a queued one are popped or ahead of it. */
  ghost predicate Served(edges: seq<Edge>, start: Key, s: Search, done: set<Key>) {
    && (start in done ==> InCount(edges, start, done) == 0)
    && (start in s.queue ==> forall e | e in edges && e.to == start && e.from !in done :: Before(s.queue, e.from, start))
  }

  lemma HeadHasNothingBefore(queue: seq<Key>, a: Key)
    requires Distinct(queue) && queue != []
    ensures !Before(queue, a, queue[0])
  {
  }

  lemma BeforeShifts(queue: seq<Key>, longer: seq<Key>, a: Key, b: Key)
    requires queue != [] && queue[1..] <= longer && Before(queue, a, b) && a != queue[0]
    ensures Before(longer, a, b)
  {
    var i, j :| IsBefore(queue, a, b, i, j);
    assert queue[1..][i - 1] == a && queue[1..][j - 1] == b;
    assert IsBefore(longer, a, b, i - 1, j - 1);
  }

  lemma ServedKeepsOut(keys: seq<Key>, edges: seq<Edge>, start: Key, s: Search, done: set<Key>)
    requires OnceInv(keys, edges, start, {}, s, done) && Served(edges, start, s, done) && start in keys
    ensures KeepsStartOut(edges, start, s, done)
  {
    hide InCount, Targets, Before;
    if s.queue != [] {
      var e := Edge(s.queue[0], start);
      assert s.queue[0] in s.queue && e.to == start;
      TargetsAreEdges(edges, s.queue[0], start);
      InCountZero(edges, start, done);
    }
  }

  lemma TurnKeepsServed(keys: seq<Key>, edges: seq<Edge>, start: Key, s: Search, done: set<Key>)
    requires Usable(keys, edges) && OnceInv(keys, edges, start, {}, s, done) && s.queue != []
    requires Served(edges, start, s, done) && start in keys
    requires OnceInv(keys, edges, start, {}, Turn(edges, s), done + {s.queue[0]})
    ensures Served(edges, start, Turn(edges, s), done + {s.queue[0]})
  {
    hide Turn, Targets, InCount, Before, Usable;
    var key, t, more := s.queue[0], Turn(edges, s), done + {s.queue[0]};
    InCountZero(edges, start, done);
    InCountZero(edges, start, more);
    TurnShifts(edges, s);
    if key == start {
      forall e | e in edges && e.to == start
        ensures e.from in more
      {
        HeadHasNothingBefore(s.queue, e.from);
      }
    } else if start in s.queue {
      forall e | e in edges && e.to == start && e.from !in more
        ensures Before(t.queue, e.from, start)
      {
        BeforeShifts(s.queue, t.queue, e.from, start);
      }
    }
  }

  lemma {:induction false} InitialQueueOrder(keys: seq<Key>, edges: seq<Edge>, start: Key, a: Key, b: Key)
    requires Distinct(keys)
    ensures Before(InitialQueue(keys, edges, start), a, b) <==>
              && a in InitialQueue(keys, edges, start) && b in InitialQueue(keys, edges, start) && Before(keys, a, b)
  {
    if keys != [] {
      hide InitialQueue, Before;
      var n := |keys| - 1;
      var shorter, queue := InitialQueue(keys[..n], edges, start), InitialQueue(keys, edges, start);
      InitialQueueOrder(keys[..n], edges, start, a, b);
      InitialQueueHolds(keys, edges, start);
      InitialQueueHolds(keys[..n], edges, start);
      assert keys == keys[..n] + [keys[n]];
      InitialQueueLast(keys, edges, start);
      BeforeAppends(keys[..n], keys[n], a, b);
      if queue != shorter {
        BeforeAppends(shorter, keys[n], a, b);
      }
    }
  }

  lemma InitialQueueLast(keys: seq<Key>, edges: seq<Edge>, start: Key)
    requires keys != []
    ensures var n := |keys| - 1;
            InitialQueue(keys, edges, start)
            == InitialQueue(keys[..n], edges, start) + if keys[n] == start || Sources(edges, keys[n]) == [] then [keys[n]] else []
  {
  }

  lemma BeforeAppends(s: seq<Key>, key: Key, a: Key, b: Key)
    ensures Before(s + [key], a, b) <==> Before(s, a, b) || (a in s && b == key)
  {
    var longer := s + [key];
    if Before(s, a, b) {
      var i, j :| IsBefore(s, a, b, i, j);
      assert IsBefore(longer, a, b, i, j);
    }
    if a in s && b == key {
      var i :| 0 <= i < |s| && s[i] == a;
      assert IsBefore(longer, a, b, i, |s|);
    }
    if Before(longer, a, b) {
      var i, j :| IsBefore(longer, a, b, i, j);
      if j < |s| {
        assert IsBefore(s, a, b, i, j);
      }
    }
  }

  lemma InitialServed(nodes: seq<Node>, edges: seq<Edge>)
    requires Distinct(KeysOf(nodes)) && Usable(KeysOf(nodes), edges) && PredecessorsFirst(nodes, edges)
    ensures Served(edges, StartKey(nodes), Initial(nodes, edges), {})
  {
    hide InitialQueue, Sources, Before, StartKey, Usable;
    var keys, start := KeysOf(nodes), StartKey(nodes);
    InitialQueueHolds(keys, edges, start);
    forall e | e in edges && e.to == start
      ensures Before(InitialQueue(keys, edges, start), e.from, start)
    {
      EdgeLeads(keys, edges, e);
      InitialQueueOrder(keys, edges, start, e.from, start);
    }
  }

  lemma {:induction false} RunStaysServed(nodes: seq<Node>, edges: seq<Edge>, n: nat)
    requires Distinct(KeysOf(nodes)) && Usable(KeysOf(nodes), edges) && PredecessorsFirst(nodes, edges)
    requires StartKey(nodes) in KeysOf(nodes)
    ensures OnceAt(nodes, edges, n) && Served(edges, StartKey(nodes), StateAt(nodes, edges, n), DoneAt(nodes, edges, n))
  {
    hide Initial, StartKey, Usable, OnceInv, Served, KeysOf, PredecessorsFirst, Turn, Popped, KeepsStartOut, Distinct, KeySet;
    if n == 0 {
      OnceAtStart(nodes, edges);
      InitialServed(nodes, edges);
      NothingDone(nodes, edges);
    } else {
      RunStaysServed(nodes, edges, n - 1);
      var keys, start, s, done := KeysOf(nodes), StartKey(nodes), StateAt(nodes, edges, n - 1), DoneAt(nodes, edges, n - 1);
      ServedKeepsOut(keys, edges, start, s, done);
      OnceNext(nodes, edges, n - 1);
      DoneStep(nodes, edges, n - 1);
      if s.queue != [] {
        TurnKeepsServed(keys, edges, start, s, done);
      } else {
        assert done + {} == done;
      }
    }
  }

  lemma NothingDone(nodes: seq<Node>, edges: seq<Edge>)
    ensures DoneAt(nodes, edges, 0) == {} && StateAt(nodes, edges, 0) == Initial(nodes, edges)
  {
    hide Initial;
  }

  /** Predecessors first: the queue ends and no node is popped twice. */
  lemma PredecessorsFirstEnds(nodes: seq<Node>, edges: seq<Edge>)
    requires Distinct(KeysOf(nodes)) && Usable(KeysOf(nodes), edges) && PredecessorsFirst(nodes, edges)
    ensures QueueEnds(nodes, edges)
    ensures forall n :: Distinct(Popped(edges, Initial(nodes, edges), n))
  {
    hide Initial, StartKey, Usable, OnceInv, Served, KeysOf, Popped, PredecessorsFirst, EndsBy, KeySet, StateAt, DoneAt, Distinct;
    if StartKey(nodes) in KeysOf(nodes) {
      RunStaysServed(nodes, edges, |nodes|);
      OnceAtEnd(nodes, edges);
      assert EndsBy(edges, Initial(nodes, edges), |nodes|);
      forall n
        ensures Distinct(Popped(edges, Initial(nodes, edges), n))
      {
        RunStaysServed(nodes, edges, n);
      }
    } else {
      NoStartIsSource(nodes, edges);
      PoppedOnceEnds(nodes, edges);
    }
  }

  lemma NoStartIsSource(nodes: seq<Node>, edges: seq<Edge>)
    requires Usable(KeysOf(nodes), edges) && StartKey(nodes) !in KeysOf(nodes)
    ensures StartIsSource(nodes, edges)
  {
    hide StartKey;
    forall e | e in edges
      ensures e.to != StartKey(nodes)
    {
      assert UsableEdge(KeysOf(nodes), e);
    }
  }

  // ---------------------------------------------------------------------------
  // Popped once: the predecessors came first
  // ---------------------------------------------------------------------------

  lemma {:induction false} CountAppends(a: seq<Key>, b: seq<Key>, key: Key)
    ensures Count(a + b, key) == Count(a, key) + Count(b, key)
  {
    if b == [] {
      assert a + b == a;
    } else {
      var n := |b| - 1;
      CountAppends(a, b[..n], key);
      assert (a + b)[..|a + b| - 1] == a + b[..n];
    }
  }

  /** A popped node that is queued again will be popped again. */
  lemma QueuedAgainIsPoppedAgain(edges: seq<Edge>, s: Search, n: nat, key: Key)
    requires key in Popped(edges, s, n) && key in Turns(edges, s, n).queue
    ensures exists m :: Count(Popped(edges, s, m), key) > 1
  {
    hide Turns, Popped;
    var queue := Turns(edges, s, n).queue;
    var j :| 0 <= j < |queue| && queue[j] == key;
    QueuedIsPopped(edges, s, n, j + 1);
    CountAppends(Popped(edges, s, n), queue[..j + 1], key);
    CountPositive(Popped(edges, s, n), key);
    assert queue[..j + 1][j] == key;
    CountPositive(queue[..j + 1], key);
    assert Count(Popped(edges, s, n + (j + 1)), key) > 1;
  }

  /** A start node that is popped once is not queued again. */
  lemma PoppedOnceStaysOut(nodes: seq<Node>, edges: seq<Edge>, n: nat)
    requires Distinct(KeysOf(nodes)) && Usable(KeysOf(nodes), edges) && StartKey(nodes) in KeysOf(nodes)
    requires PopsStartOnce(nodes, edges) && OnceAt(nodes, edges, n)
    ensures KeepsStartOut(edges, StartKey(nodes), StateAt(nodes, edges, n), DoneAt(nodes, edges, n))
  {
    hide Initial, Turn, StartKey, Usable, KeysOf, Popped, InCount, Targets, Count, LevelsRelaxed;
    var keys, start, s, done := KeysOf(nodes), StartKey(nodes), StateAt(nodes, edges, n), DoneAt(nodes, edges, n);
    if s.queue != [] && start in Targets(edges, s.queue[0]) && start !in s.queue {
      assert start in done && s.queue[0] in s.queue;
      var t := Turn(edges, s);
      TurnTurns(keys, edges, s);
      InCountAfterPop(edges, start, done, s.queue[0]);
      assert t.indegree[start] == InCount(edges, start, done + {s.queue[0]});
      if start in t.queue {
        PoppedStaysPopped(nodes, edges, n, start);
        QueuedAgainIsPoppedAgain(edges, Initial(nodes, edges), n + 1, start);
      }
    }
  }

  lemma PoppedStaysPopped(nodes: seq<Node>, edges: seq<Edge>, n: nat, key: Key)
    requires key in DoneAt(nodes, edges, n)
    ensures key in Popped(edges, Initial(nodes, edges), n + 1)
  {
    hide Initial, Turns;
  }

  lemma {:induction false} PoppedOnceRuns(nodes: seq<Node>, edges: seq<Edge>, n: nat)
    requires Distinct(KeysOf(nodes)) && Usable(KeysOf(nodes), edges) && StartKey(nodes) in KeysOf(nodes)
    requires PopsStartOnce(nodes, edges)
    ensures OnceAt(nodes, edges, n)
  {
    hide OnceAt, PopsStartOnce, Usable, StartKey, KeysOf, KeepsStartOut, StateAt, DoneAt, Distinct, Initial;
    if n == 0 {
      OnceAtStart(nodes, edges);
    } else {
      PoppedOnceRuns(nodes, edges, n - 1);
      PoppedOnceStaysOut(nodes, edges, n - 1);
      OnceNext(nodes, edges, n - 1);
    }
  }

  /** A start node popped before one of its predecessors would still wait for one at the end. */
  lemma {:induction false} StillWaitsLater(nodes: seq<Node>, edges: seq<Edge>, n: nat, m: nat)
    requires Distinct(KeysOf(nodes)) && Usable(KeysOf(nodes), edges) && StartKey(nodes) in KeysOf(nodes)
    requires PopsStartOnce(nodes, edges) && n <= m
    requires StartKey(nodes) in DoneAt(nodes, edges, n) && InCount(edges, StartKey(nodes), DoneAt(nodes, edges, n)) > 0
    ensures StartKey(nodes) in DoneAt(nodes, edges, m) && InCount(edges, StartKey(nodes), DoneAt(nodes, edges, m)) > 0
  {
    hide PopsStartOnce, Usable, StartKey, KeysOf, Distinct, Initial, InCount, Popped, Turn, Targets, KeySet, DoneAt, OnceAt, KeepsStartOut;
    if n < m {
      StillWaitsLater(nodes, edges, n, m - 1);
      PoppedOnceRuns(nodes, edges, m - 1);
      PoppedOnceStaysOut(nodes, edges, m - 1);
      DoneStep(nodes, edges, m - 1);
      StillWaitsNext(nodes, edges, m - 1);
    }
  }

  lemma StillWaitsNext(nodes: seq<Node>, edges: seq<Edge>, n: nat)
    requires OnceAt(nodes, edges, n)
    requires KeepsStartOut(edges, StartKey(nodes), StateAt(nodes, edges, n), DoneAt(nodes, edges, n))
    requires StartKey(nodes) in DoneAt(nodes, edges, n) && InCount(edges, StartKey(nodes), DoneAt(nodes, edges, n)) > 0
    ensures StateAt(nodes, edges, n).queue != [] ==>
              InCount(edges, StartKey(nodes), DoneAt(nodes, edges, n) + {StateAt(nodes, edges, n).queue[0]}) > 0
    ensures DoneAt(nodes, edges, n) + {} == DoneAt(nodes, edges, n)
  {
    hide StartKey, KeysOf, Distinct, Initial, InCount, Popped, Turns, Targets, KeySet;
    var start, s, done := StartKey(nodes), StateAt(nodes, edges, n), DoneAt(nodes, edges, n);
    if s.queue != [] {
      assert s.queue[0] in s.queue;
      InCountAfterPop(edges, start, done, s.queue[0]);
      CountPositive(Targets(edges, s.queue[0]), start);
    }
  }

  /** At the end every predecessor of a start node that no cycle blocks has been popped. */
  lemma UnblockedIsServed(nodes: seq<Node>, edges: seq<Edge>, n: nat)
    requires Distinct(KeysOf(nodes)) && Usable(KeysOf(nodes), edges) && StartKey(nodes) in KeysOf(nodes)
    requires !Blocked(edges, StartKey(nodes)) && EndsBy(edges, Initial(nodes, edges), n)
    ensures InCount(edges, StartKey(nodes), DoneAt(nodes, edges, n)) == 0
  {
    hide StartKey, KeysOf, Distinct, Initial, InCount, Popped, Turns, KeySet, Usable, Blocked, RunInv, IsAncestor;
    var keys, start, s, done := KeysOf(nodes), StartKey(nodes), StateAt(nodes, edges, n), DoneAt(nodes, edges, n);
    RunKeepsInv(nodes, edges, n);
    forall e | e in edges && e.to == start
      ensures e.from in done
    {
      EdgeLeads(keys, edges, e);
      AncestorsPopped(keys, edges, start, s, done, e.from);
    }
    InCountZero(edges, start, done);
  }

  /** The start node is popped in the turn of its place in the first queue, right behind what stands before it there. */
  lemma StartIsPoppedInPlace(nodes: seq<Node>, edges: seq<Edge>) returns (j: nat)
    requires Distinct(KeysOf(nodes)) && StartKey(nodes) in KeysOf(nodes)
    ensures j < |Initial(nodes, edges).queue| && Initial(nodes, edges).queue[j] == StartKey(nodes)
    ensures DoneAt(nodes, edges, j + 1) == KeySet(Initial(nodes, edges).queue[..j]) + {StartKey(nodes)}
  {
    hide StartKey, KeysOf, Turn, InitialQueue, Sources;
    var s, start := Initial(nodes, edges), StartKey(nodes);
    InitialQueueHolds(KeysOf(nodes), edges, start);
    j :| 0 <= j < |s.queue| && s.queue[j] == start;
    QueuedIsPopped(edges, s, 0, j + 1);
    assert Popped(edges, s, 0) == [];
    assert s.queue[..j + 1] == s.queue[..j] + [start];
    KeySetAppends(s.queue[..j], start);
  }

  lemma PredecessorsWereFirst(nodes: seq<Node>, edges: seq<Edge>, j: nat)
    requires Distinct(KeysOf(nodes)) && Usable(KeysOf(nodes), edges)
    requires j < |Initial(nodes, edges).queue| && Initial(nodes, edges).queue[j] == StartKey(nodes)
    requires InCount(edges, StartKey(nodes), KeySet(Initial(nodes, edges).queue[..j]) + {StartKey(nodes)}) == 0
    ensures PredecessorsFirst(nodes, edges)
  {
    hide StartKey, InitialQueue, Sources, InCount, Usable;
    var keys, start, queue := KeysOf(nodes), StartKey(nodes), Initial(nodes, edges).queue;
    InitialQueueHolds(keys, edges, start);
    InCountZero(edges, start, KeySet(queue[..j]) + {start});
    forall e | e in edges && e.to == start
      ensures Sources(edges, e.from) == [] && Before(keys, e.from, start)
    {
      EdgeLeads(keys, edges, e);
      assert e.from in queue[..j];
      var i :| 0 <= i < j && queue[..j][i] == e.from;
      assert IsBefore(queue, e.from, start, i, j);
      InitialQueueOrder(keys, edges, start, e.from, start);
    }
  }

  lemma PoppedOnceHadPredecessorsFirst(nodes: seq<Node>, edges: seq<Edge>)
    requires Distinct(KeysOf(nodes)) && Usable(KeysOf(nodes), edges) && StartKey(nodes) in KeysOf(nodes)
    requires PopsStartOnce(nodes, edges) && !Blocked(edges, StartKey(nodes))
    ensures PredecessorsFirst(nodes, edges)
  {
    hide StartKey, KeysOf, Distinct, Initial, InCount, Usable, Blocked, PopsStartOnce, PredecessorsFirst, OnceAt, KeySet, DoneAt, Turns;
    PoppedOnceRuns(nodes, edges, |nodes|);
    OnceAtEnd(nodes, edges);
    var j := StartIsPoppedInPlace(nodes, edges);
    var m := |nodes| + j + 1;
    TurnsStay(edges, Initial(nodes, edges), |nodes|, m);
    UnblockedIsServed(nodes, edges, m);
    if InCount(edges, StartKey(nodes), DoneAt(nodes, edges, j + 1)) > 0 {
      StillWaitsLater(nodes, edges, j + 1, m);
    }
    PredecessorsWereFirst(nodes, edges, j);
  }

  lemma {:induction false} DistinctCounts(s: seq<Key>, key: Key)
    requires Distinct(s)
    ensures Count(s, key) <= 1
  {
    if s != [] {
      var n := |s| - 1;
      DistinctCounts(s[..n], key);
      CountPositive(s[..n], key);
    }
  }

  /**
   For all graphs and all orders of their nodes: the start node is popped no more than once if and only if a
   cycle blocks it or all its predecessors are sources listed before it; no node is popped twice then, and the
   queue ends.
   */
  lemma StartPoppedOnceExactly(nodes: seq<Node>, edges: seq<Edge>)
    requires Distinct(KeysOf(nodes)) && Usable(KeysOf(nodes), edges)
    ensures PopsStartOnce(nodes, edges) <==> Blocked(edges, StartKey(nodes)) || PredecessorsFirst(nodes, edges)
    ensures PopsStartOnce(nodes, edges) ==>
              QueueEnds(nodes, edges) && forall n :: Distinct(Popped(edges, Initial(nodes, edges), n))
  {
    hide StartKey, KeysOf, Distinct, Initial, Usable, Blocked, PredecessorsFirst, QueueEnds, Popped, Count;
    if Blocked(edges, StartKey(nodes)) {
      PoppedOnceEnds(nodes, edges);
    } else if PredecessorsFirst(nodes, edges) {
      PredecessorsFirstEnds(nodes, edges);
    } else if StartKey(nodes) in KeysOf(nodes) {
      if PopsStartOnce(nodes, edges) {
        PoppedOnceHadPredecessorsFirst(nodes, edges);
      }
    } else {
      NoStartIsFirst(nodes, edges);
    }
    forall n: nat | Distinct(Popped(edges, Initial(nodes, edges), n))
      ensures Count(Popped(edges, Initial(nodes, edges), n), StartKey(nodes)) <= 1
    {
      DistinctCounts(Popped(edges, Initial(nodes, edges), n), StartKey(nodes));
    }
  }

  lemma NoStartIsFirst(nodes: seq<Node>, edges: seq<Edge>)
    requires Usable(KeysOf(nodes), edges) && StartKey(nodes) !in KeysOf(nodes)
    ensures PredecessorsFirst(nodes, edges)
  {
    hide StartKey, Before, Sources;
    NoStartIsSource(nodes, edges);
  }
}
