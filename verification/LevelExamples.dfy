/**
 Small graphs on which the level queue does not do what its comment says.
 */
module LevelExamples {
  import opened TreeLevels
  import opened QueueRuns
  import opened RunLevels
  import opened LongestPaths

  // ---------------------------------------------------------------------------
  // A cycle below a popped node
  // ---------------------------------------------------------------------------

  function ColumnNodes(): seq<Node> {
    [Node("start", "START"), Node("a", "FORM"), Node("b", "FORM"), Node("c", "FORM"), Node("d", "FORM"), Node("e", "END")]
  }

  /** Two nodes point to each other below START, beside a branch of three. */
  function ColumnEdges(): seq<Edge> {
    [Edge("start", "a"), Edge("a", "b"), Edge("b", "a"), Edge("start", "c"), Edge("c", "d"), Edge("d", "e")]
  }

  ghost predicate OnlySource(edges: seq<Edge>, u: Key, v: Key) {
    Edge(u, v) in edges && forall e | e in edges && e.to == v :: e.from == u
  }

  lemma FirstLevel(nodes: seq<Node>, edges: seq<Edge>, levels: map<Key, nat>, order: seq<Key>, v: Key)
    requires LongestLevels(nodes, edges, levels, order) && v in levels && forall e | e in edges :: e.to != v
    ensures !HasEndlessPaths(edges, v) && levels[v] == 0
  {
    forall path | PathTo(edges, path, v)
      ensures |path| == 1
    {
      if |path| > 1 {
        PathPrefix(edges, path, v);
      }
    }
    assert !HasPathOfLength(edges, v, 1);
  }

  lemma NextLevel(nodes: seq<Node>, edges: seq<Edge>, levels: map<Key, nat>, order: seq<Key>, u: Key, v: Key)
    requires LongestLevels(nodes, edges, levels, order) && u in levels && v in levels
    requires OnlySource(edges, u, v) && !HasEndlessPaths(edges, u)
    ensures !HasEndlessPaths(edges, v) && levels[v] == levels[u] + 1
  {
    var n: nat :| !HasPathOfLength(edges, u, n);
    if HasPathOfLength(edges, v, n + 1) {
      var path :| PathTo(edges, path, v) && |path| == n + 2;
      PathPrefix(edges, path, v);
    }
    var path :| PathTo(edges, path, u) && |path| == levels[u] + 1;
    PathExtends(edges, path, u, v);
    var other :| PathTo(edges, other, v) && |other| == levels[v] + 1;
    PathPrefix(edges, other, v);
  }

  /** Nodes that point to each other have no longest path. */
  lemma TurningIsEndless(edges: seq<Edge>, u: Key, v: Key, length: nat)
    requires Edge(u, v) in edges && Edge(v, u) in edges
    ensures !IsLongest(edges, u, length)
  {
    if IsLongest(edges, u, length) {
      var path :| PathTo(edges, path, u) && |path| == length + 1;
      PathExtends(edges, path, u, v);
      PathExtends(edges, path + [v], v, u);
    }
  }

  lemma TurningIsUnpopped(nodes: seq<Node>, edges: seq<Edge>, levels: map<Key, nat>, order: seq<Key>, u: Key, v: Key)
    requires LongestLevels(nodes, edges, levels, order) && StartIsSource(nodes, edges)
    requires Edge(u, v) in edges && Edge(v, u) in edges
    ensures u !in order
  {
    hide IsLongest, HasEndlessPaths;
    if u in order {
      TurningIsEndless(edges, u, v, levels[u]);
    }
  }

  /** The entry of a cycle below START stands after START, and the node only the cycle leads to behind everything reached. */
  lemma TurningLevels(nodes: seq<Node>, edges: seq<Edge>, levels: map<Key, nat>, order: seq<Key>, start: Key, u: Key, v: Key)
    requires LongestLevels(nodes, edges, levels, order) && StartIsSource(nodes, edges)
    requires start in order && levels[start] == 0 && u in levels && v in levels
    requires Edge(start, u) in edges && Edge(u, v) in edges && Edge(v, u) in edges
    requires forall e | e in edges && e.to == u :: e.from == start || e.from == v
    requires forall e | e in edges && e.to == v :: e.from == u
    ensures levels[u] == 1 && forall w | w in order :: levels[w] < levels[v]
  {
    hide IsLongest, HasEndlessPaths, Acyclic, Blocked;
    TurningIsUnpopped(nodes, edges, levels, order, u, v);
    TurningIsUnpopped(nodes, edges, levels, order, v, u);
    SourceStartUnblocked(edges, StartKey(nodes));
    assert Edge(start, u).to == u && start in KeySet(order);
    assert LevelFits(edges, levels, KeySet(order), u);
    assert BehindAllReached(edges, levels, order, v);
    assert forall w | w in order :: Reached(edges, order, w);
  }

  /** The first node of the cycle takes the column after START, two columns before the last node of the branch. */
  lemma CycleTakesTheNextColumn(levels: map<Key, nat>, order: seq<Key>)
    requires LongestLevels(ColumnNodes(), ColumnEdges(), levels, order)
    ensures levels.Keys == {"start", "a", "b", "c", "d", "e"}
    ensures levels["start"] == 0 && levels["a"] == 1 && levels["e"] == 3 && levels["b"] > 3
  {
    hide LongestLevels, HasEndlessPaths, OnlySource, Blocked, Acyclic;
    var nodes, edges := ColumnNodes(), ColumnEdges();
    ColumnKeys(levels, order);
    ColumnSources();
    ColumnStart();
    FirstLevel(nodes, edges, levels, order, "start");
    NextLevel(nodes, edges, levels, order, "start", "c");
    NextLevel(nodes, edges, levels, order, "c", "d");
    NextLevel(nodes, edges, levels, order, "d", "e");
    FiniteIsPopped(nodes, edges, levels, order, "start");
    FiniteIsPopped(nodes, edges, levels, order, "e");
    TurningLevels(nodes, edges, levels, order, "start", "a", "b");
  }

  lemma FiniteIsPopped(nodes: seq<Node>, edges: seq<Edge>, levels: map<Key, nat>, order: seq<Key>, v: Key)
    requires LongestLevels(nodes, edges, levels, order) && v in levels && !HasEndlessPaths(edges, v)
    ensures v in order
  {
  }

  lemma ColumnKeys(levels: map<Key, nat>, order: seq<Key>)
    requires LongestLevels(ColumnNodes(), ColumnEdges(), levels, order)
    ensures levels.Keys == {"start", "a", "b", "c", "d", "e"}
  {
    hide ColumnEdges, HasEndlessPaths, Blocked, Acyclic, IsLongest, Up, LevelFits, BehindAllReached, StartIsSource, StartKey;
    var keys := KeysOf(ColumnNodes());
    assert forall v :: v in levels <==> v in keys;
    assert keys == ["start", "a", "b", "c", "d", "e"];
  }

  lemma ColumnSources()
    ensures OnlySource(ColumnEdges(), "start", "c") && OnlySource(ColumnEdges(), "c", "d") && OnlySource(ColumnEdges(), "d", "e")
  {
  }

  lemma ColumnStart()
    ensures StartIsSource(ColumnNodes(), ColumnEdges())
  {
    assert StartKey(ColumnNodes()) == "start";
  }

  // ---------------------------------------------------------------------------
  // A loop through START
  // ---------------------------------------------------------------------------

  function LoopNodes(): seq<Node> {
    [Node("start", "START"), Node("step", "FORM")]
  }

  function LoopEdges(): seq<Edge> {
    [Edge("start", "step"), Edge("step", "start")]
  }

  lemma LoopUsable()
    ensures Distinct(KeysOf(LoopNodes())) && Usable(KeysOf(LoopNodes()), LoopEdges()) && StartKey(LoopNodes()) == "start"
  {
    assert KeysOf(LoopNodes()) == ["start", "step"];
  }

  lemma LoopTurns()
    ensures OnCycle(LoopEdges(), "start") && !Blocked(LoopEdges(), "start")
  {
    var cycle := ["start", "step", "start"];
    assert IsCycle(LoopEdges(), cycle) && cycle[0] == "start";
    forall other | IsCycle(LoopEdges(), other)
      ensures "start" in other
    {
      assert Edge(other[0], other[0 + 1]) in LoopEdges();
      assert other[0] in other && other[1] in other;
    }
  }

  /** START and a step that point to each other keep the queue busy for ever. */
  lemma LoopNeverEnds(n: nat)
    ensures Turns(LoopEdges(), Initial(LoopNodes(), LoopEdges()), n).queue != []
  {
    hide Turns, Initial, LoopNodes, LoopEdges;
    LoopUsable();
    LoopTurns();
    EndsExactlyWhenBlocked(LoopNodes(), LoopEdges());
    assert !EndsBy(LoopEdges(), Initial(LoopNodes(), LoopEdges()), n);
  }

  // ---------------------------------------------------------------------------
  // A cycle below a START node that is not on it
  // ---------------------------------------------------------------------------

  /** One node before START, two that point to each other behind it */
  function TailEdges(start: Key, a: Key, b: Key, c: Key): seq<Edge> {
    [Edge(a, start), Edge(start, b), Edge(b, c), Edge(c, b)]
  }

  ghost predicate TailNeighbours(edges: seq<Edge>, start: Key, a: Key, b: Key, c: Key) {
    && Targets(edges, a) == [start] && Targets(edges, start) == [b] && Targets(edges, b) == [c] && Targets(edges, c) == [b]
    && Sources(edges, a) == [] && Sources(edges, start) == [a] && Sources(edges, b) == [start, c] && Sources(edges, c) == [b]
  }

  lemma OneEdge(d: Edge, v: Key)
    ensures Targets([d], v) == (if d.from == v then [d.to] else []) && Sources([d], v) == if d.to == v then [d.from] else []
  {
    assert [d][..0] == [];
  }

  lemma FourEdges(d: Edge, e: Edge, f: Edge, g: Edge, v: Key)
    ensures Targets([d, e, f, g], v) == Targets([d], v) + Targets([e], v) + Targets([f], v) + Targets([g], v)
    ensures Sources([d, e, f, g], v) == Sources([d], v) + Sources([e], v) + Sources([f], v) + Sources([g], v)
  {
    hide Targets, Sources;
    OneEdge(d, v);
    OneEdge(e, v);
    OneEdge(f, v);
    OneEdge(g, v);
    NeighboursAppend([d], e, v);
    NeighboursAppend([d, e], f, v);
    NeighboursAppend([d, e, f], g, v);
    assert [d] + [e] == [d, e] && [d, e] + [f] == [d, e, f] && [d, e, f] + [g] == [d, e, f, g];
  }

  lemma NeighboursOf(start: Key, a: Key, b: Key, c: Key, v: Key)
    ensures Targets(TailEdges(start, a, b, c), v)
         == (if v == a then [start] else []) + (if v == start then [b] else [])
            + (if v == b then [c] else []) + (if v == c then [b] else [])
    ensures Sources(TailEdges(start, a, b, c), v)
         == (if v == start then [a] else []) + (if v == b then [start] else [])
            + (if v == c then [b] else []) + (if v == b then [c] else [])
  {
    hide Targets, Sources;
    FourEdges(Edge(a, start), Edge(start, b), Edge(b, c), Edge(c, b), v);
    OneEdge(Edge(a, start), v);
    OneEdge(Edge(start, b), v);
    OneEdge(Edge(b, c), v);
    OneEdge(Edge(c, b), v);
  }

  lemma TailIs(start: Key, a: Key, b: Key, c: Key)
    requires Distinct([start, a, b, c])
    ensures TailNeighbours(TailEdges(start, a, b, c), start, a, b, c)
  {
    hide Targets, Sources, TailEdges;
    Apart(start, a, b, c);
    NeighboursOf(start, a, b, c, start);
    NeighboursOf(start, a, b, c, a);
    NeighboursOf(start, a, b, c, b);
    NeighboursOf(start, a, b, c, c);
  }

  lemma Apart(start: Key, a: Key, b: Key, c: Key)
    requires Distinct([start, a, b, c])
    ensures start != a && start != b && start != c && a != b && a != c && b != c
  {
    var keys := [start, a, b, c];
    assert keys[0] != keys[1] && keys[0] != keys[2] && keys[0] != keys[3];
    assert keys[1] != keys[2] && keys[1] != keys[3] && keys[2] != keys[3];
  }

  lemma OneTarget(edges: seq<Edge>, s: Search, key: Key, rest: seq<Key>, next: Key)
    requires s.queue == [key] + rest && Targets(edges, key) == [next] && next in s.indegree
    ensures var t, left := Turn(edges, s), s.indegree[next] - 1;
            && t.indegree == s.indegree[next := left]
            && t.queue == rest + if left <= 0 && next !in rest then [next] else []
  {
    var popped, base := s.(queue := s.queue[1..]), LevelOr0(s.levels, key);
    assert [next][..0] == [];
    assert RelaxAll(popped, base, [next]) == RelaxOne(RelaxAll(popped, base, []), base, next);
  }

  /** The queue goes round the two nodes. */
  ghost predicate Round(s: Search, b: Key, c: Key) {
    && b in s.indegree && c in s.indegree && s.indegree[b] <= 1 && s.indegree[c] <= 1
    && (s.queue == [b] || s.queue == [c])
  }

  lemma RoundTurns(edges: seq<Edge>, s: Search, b: Key, c: Key)
    requires Targets(edges, b) == [c] && Targets(edges, c) == [b] && Round(s, b, c)
    ensures Round(Turn(edges, s), b, c)
  {
    hide Turn, Targets;
    if s.queue == [b] {
      OneTarget(edges, s, b, [], c);
    } else {
      OneTarget(edges, s, c, [], b);
    }
  }

  lemma {:induction false} RoundForEver(edges: seq<Edge>, s: Search, b: Key, c: Key, m: nat, n: nat)
    requires Targets(edges, b) == [c] && Targets(edges, c) == [b] && Round(Turns(edges, s, m), b, c) && m <= n
    ensures !EndsBy(edges, s, n) && Round(Turns(edges, s, n), b, c)
  {
    hide Turn, Targets;
    if n > m {
      RoundForEver(edges, s, b, c, m, n - 1);
      RoundTurns(edges, Turns(edges, s, n - 1), b, c);
    }
  }

  lemma QueueAppends(keys: seq<Key>, edges: seq<Edge>, start: Key, key: Key)
    ensures InitialQueue(keys + [key], edges, start)
         == InitialQueue(keys, edges, start) + if key == start || Sources(edges, key) == [] then [key] else []
  {
    assert (keys + [key])[..|keys|] == keys;
  }

  lemma TwoOfFourQueued(edges: seq<Edge>, start: Key, x: Key, y: Key, b: Key, c: Key)
    requires (x == start || Sources(edges, x) == []) && (y == start || Sources(edges, y) == [])
    requires b != start && c != start && Sources(edges, b) != [] && Sources(edges, c) != []
    ensures InitialQueue([x, y, b, c], edges, start) == [x, y]
  {
    hide Sources;
    QueueAppends([], edges, start, x);
    QueueAppends([x], edges, start, y);
    QueueAppends([x, y], edges, start, b);
    QueueAppends([x, y, b], edges, start, c);
    assert [] + [x] == [x] && [x] + [y] == [x, y] && [x, y] + [b] == [x, y, b] && [x, y, b] + [c] == [x, y, b, c];
  }

  /** START waits for one node, the first of the cycle for two. */
  ghost predicate TailCounts(s: Search, start: Key, b: Key, c: Key) {
    && start in s.indegree && b in s.indegree && c in s.indegree
    && s.indegree[start] == 1 && s.indegree[b] == 2 && s.indegree[c] == 1
  }

  lemma TailInitial(nodes: seq<Node>, edges: seq<Edge>, start: Key, a: Key, b: Key, c: Key, x: Key, y: Key)
    requires Distinct([start, a, b, c]) && TailNeighbours(edges, start, a, b, c)
    requires KeysOf(nodes) == [x, y, b, c] && StartKey(nodes) == start
    requires (x == start && y == a) || (x == a && y == start)
    ensures TailCounts(Initial(nodes, edges), start, b, c) && Initial(nodes, edges).queue == [x, y]
  {
    hide InitialQueue, Sources, Targets, KeysOf, StartKey;
    Apart(start, a, b, c);
    TwoOfFourQueued(edges, start, x, y, b, c);
    var keys := KeysOf(nodes);
    assert keys[0] in keys && keys[1] in keys && keys[2] in keys && keys[3] in keys;
  }

  /** START first is popped again after the node before it, and the second time sets the cycle going. */
  lemma StartFirstGoesRound(edges: seq<Edge>, s: Search, start: Key, a: Key, b: Key, c: Key)
    requires Distinct([start, a, b, c]) && TailNeighbours(edges, start, a, b, c)
    requires TailCounts(s, start, b, c) && s.queue == [start, a]
    ensures Round(Turns(edges, s, 3), b, c)
  {
    hide Turn, Targets, Sources;
    Apart(start, a, b, c);
    OneTarget(edges, s, start, [a], b);
    var t := Turn(edges, s);
    assert Turns(edges, s, 1) == t by { assert Turns(edges, s, 0) == s; }
    OneTarget(edges, t, a, [], start);
    var u := Turn(edges, t);
    assert Turns(edges, s, 2) == u;
    OneTarget(edges, u, start, [], b);
  }

  lemma StartSecondEnds(edges: seq<Edge>, s: Search, start: Key, a: Key, b: Key, c: Key)
    requires Distinct([start, a, b, c]) && TailNeighbours(edges, start, a, b, c)
    requires TailCounts(s, start, b, c) && s.queue == [a, start]
    ensures EndsBy(edges, s, 2)
  {
    hide Turn, Targets, Sources;
    Apart(start, a, b, c);
    OneTarget(edges, s, a, [start], start);
    var t := Turn(edges, s);
    assert Turns(edges, s, 1) == t by { assert Turns(edges, s, 0) == s; }
    OneTarget(edges, t, start, [], b);
  }

  function StartFirst(start: Key, a: Key, b: Key, c: Key): seq<Node> {
    [Node(start, "START"), Node(a, "FORM"), Node(b, "FORM"), Node(c, "FORM")]
  }

  function StartSecond(start: Key, a: Key, b: Key, c: Key): seq<Node> {
    [Node(a, "FORM"), Node(start, "START"), Node(b, "FORM"), Node(c, "FORM")]
  }

  lemma TailKeys(start: Key, a: Key, b: Key, c: Key)
    ensures KeysOf(StartFirst(start, a, b, c)) == [start, a, b, c] && StartKey(StartFirst(start, a, b, c)) == start
    ensures KeysOf(StartSecond(start, a, b, c)) == [a, start, b, c] && StartKey(StartSecond(start, a, b, c)) == start
  {
    assert StartSecond(start, a, b, c)[1..][0] == Node(start, "START");
  }

  /** The same edges, off any cycle through START: the order of the nodes decides whether the queue ends. */
  lemma NodeOrderDecides(start: Key, a: Key, b: Key, c: Key)
    requires Distinct([start, a, b, c])
    ensures !QueueEnds(StartFirst(start, a, b, c), TailEdges(start, a, b, c))
    ensures QueueEnds(StartSecond(start, a, b, c), TailEdges(start, a, b, c))
  {
    hide Initial, Turns, Targets, Sources, TailEdges, StartFirst, StartSecond, Distinct, Round;
    var edges := TailEdges(start, a, b, c);
    var first, second := StartFirst(start, a, b, c), StartSecond(start, a, b, c);
    TailIs(start, a, b, c);
    TailKeys(start, a, b, c);
    TailInitial(first, edges, start, a, b, c, start, a);
    TailInitial(second, edges, start, a, b, c, a, start);
    StartSecondEnds(edges, Initial(second, edges), start, a, b, c);
    StartFirstGoesRound(edges, Initial(first, edges), start, a, b, c);
    forall n: nat
      ensures !EndsBy(edges, Initial(first, edges), n)
    {
      StillRuns(edges, Initial(first, edges), b, c, n);
    }
  }

  lemma StillRuns(edges: seq<Edge>, s: Search, b: Key, c: Key, n: nat)
    requires Targets(edges, b) == [c] && Targets(edges, c) == [b] && Round(Turns(edges, s, 3), b, c)
    ensures !EndsBy(edges, s, n)
  {
    hide Turns, Targets;
    if EndsBy(edges, s, n) {
      TurnsStay(edges, s, n, n + 3);
      RoundForEver(edges, s, b, c, 3, n + 3);
    }
  }
}
