/**
 Levels of the seed layout: a queue in the manner of Kahn's algorithm computes, for each node, the
 length of the longest path that ends at it. Parallel edges are kept, self edges and edges with an
 unknown end are dropped before the queue runs.
 */
module TreeLevels {
  type Key = string

  datatype Edge = Edge(from: Key, to: Key)

  datatype Node = Node(key: Key, kind: string)

  function KeysOf(nodes: seq<Node>): (keys: seq<Key>)
    ensures |keys| == |nodes| && forall i | 0 <= i < |nodes| :: keys[i] == nodes[i].key
  {
    seq(|nodes|, i requires 0 <= i < |nodes| => nodes[i].key)
  }

  predicate Distinct(keys: seq<Key>) {
    forall i, j | 0 <= i < j < |keys| :: keys[i] != keys[j]
  }

  predicate UsableEdge(keys: seq<Key>, e: Edge) {
    e.from in keys && e.to in keys && e.from != e.to
  }

  /** Every edge joins two different known nodes. */
  ghost predicate Usable(keys: seq<Key>, edges: seq<Edge>) {
    forall e | e in edges :: UsableEdge(keys, e)
  }

  /** The targets of the edges out of a node, in the order of the edges. */
  function Targets(edges: seq<Edge>, from: Key): seq<Key> {
    if edges == [] then []
    else
      var e := edges[|edges| - 1];
      Targets(edges[..|edges| - 1], from) + if e.from == from then [e.to] else []
  }

  function Sources(edges: seq<Edge>, to: Key): seq<Key> {
    if edges == [] then []
    else
      var e := edges[|edges| - 1];
      Sources(edges[..|edges| - 1], to) + if e.to == to then [e.from] else []
  }

  function Count(s: seq<Key>, key: Key): nat {
    if s == [] then 0 else Count(s[..|s| - 1], key) + if s[|s| - 1] == key then 1 else 0
  }

  /** The number of edges into a node whose source is outside a set. */
  ghost function InCount(edges: seq<Edge>, to: Key, done: set<Key>): nat {
    if edges == [] then 0
    else
      var e := edges[|edges| - 1];
      InCount(edges[..|edges| - 1], to, done) + if e.to == to && e.from !in done then 1 else 0
  }

  // ---------------------------------------------------------------------------
  // One turn of the queue
  // ---------------------------------------------------------------------------

  datatype Search = Search(queue: seq<Key>, levels: map<Key, nat>, indegree: map<Key, int>)

  function LevelOr0(levels: map<Key, nat>, key: Key): nat {
    if key in levels then levels[key] else 0
  }

  function MaxNat(a: nat, b: nat): nat {
    if a >= b then a else b
  }

  /** The body of the inner loop, for one edge out of the popped node. */
  function RelaxOne(s: Search, base: nat, next: Key): Search {
    var left := (if next in s.indegree then s.indegree[next] else 1) - 1;
    Search(
      if left <= 0 && next !in s.queue then s.queue + [next] else s.queue,
      s.levels[next := MaxNat(LevelOr0(s.levels, next), base + 1)],
      s.indegree[next := left])
  }

  function RelaxAll(s: Search, base: nat, outs: seq<Key>): Search {
    if outs == [] then s else RelaxOne(RelaxAll(s, base, outs[..|outs| - 1]), base, outs[|outs| - 1])
  }

  /** The body of the outer loop. */
  function Turn(edges: seq<Edge>, s: Search): Search
    requires s.queue != []
  {
    var key := s.queue[0];
    RelaxAll(s.(queue := s.queue[1..]), LevelOr0(s.levels, key), Targets(edges, key))
  }

  // ---------------------------------------------------------------------------
  // What the inner loop does as a whole
  // ---------------------------------------------------------------------------

  lemma {:induction false} CountPositive(s: seq<Key>, key: Key)
    ensures Count(s, key) > 0 <==> key in s
  {
    if s != [] {
      CountPositive(s[..|s| - 1], key);
      assert s == s[..|s| - 1] + [s[|s| - 1]];
    }
  }

  ghost predicate LevelsRelaxed(s: Search, t: Search, base: nat, outs: seq<Key>) {
    && (forall v :: v in t.levels <==> v in s.levels || v in outs)
    && (forall v | v in t.levels ::
          t.levels[v] == if v in outs then MaxNat(LevelOr0(s.levels, v), base + 1) else s.levels[v])
  }

  ghost predicate CountsRelaxed(s: Search, t: Search, outs: seq<Key>) {
    && (forall v :: v in t.indegree <==> v in s.indegree)
    && (forall v | v in t.indegree :: t.indegree[v] == s.indegree[v] - Count(outs, v))
  }

  lemma CountAppend(outs: seq<Key>, next: Key, v: Key)
    ensures Count(outs + [next], v) == Count(outs, v) + if v == next then 1 else 0
    ensures v in outs + [next] <==> v in outs || v == next
  {
    assert (outs + [next])[..|outs|] == outs;
  }

  lemma RelaxOneLevels(s: Search, t: Search, base: nat, outs: seq<Key>, next: Key)
    requires LevelsRelaxed(s, t, base, outs)
    ensures LevelsRelaxed(s, RelaxOne(t, base, next), base, outs + [next])
  {
    hide Count;
    var u := RelaxOne(t, base, next);
    forall v
      ensures v in u.levels <==> v in s.levels || v in outs + [next]
      ensures v in u.levels ==>
        u.levels[v] == if v in outs + [next] then MaxNat(LevelOr0(s.levels, v), base + 1) else s.levels[v]
    {
      CountAppend(outs, next, v);
    }
  }

  lemma RelaxOneCounts(s: Search, t: Search, base: nat, outs: seq<Key>, next: Key)
    requires next in s.indegree && CountsRelaxed(s, t, outs)
    ensures CountsRelaxed(s, RelaxOne(t, base, next), outs + [next])
  {
    hide Count;
    var u := RelaxOne(t, base, next);
    forall v
      ensures v in u.indegree <==> v in s.indegree
      ensures v in u.indegree ==> u.indegree[v] == s.indegree[v] - Count(outs + [next], v)
    {
      CountAppend(outs, next, v);
    }
  }

  // ---------------------------------------------------------------------------
  // Edges and counts
  // ---------------------------------------------------------------------------

  lemma {:induction false} TargetsAreEdges(edges: seq<Edge>, from: Key, to: Key)
    ensures to in Targets(edges, from) <==> Edge(from, to) in edges
  {
    if edges != [] {
      TargetsAreEdges(edges[..|edges| - 1], from, to);
      assert edges == edges[..|edges| - 1] + [edges[|edges| - 1]];
    }
  }

  lemma {:induction false} InCountZero(edges: seq<Edge>, to: Key, done: set<Key>)
    ensures InCount(edges, to, done) == 0 <==> forall e | e in edges && e.to == to :: e.from in done
  {
    if edges != [] {
      InCountZero(edges[..|edges| - 1], to, done);
      assert edges == edges[..|edges| - 1] + [edges[|edges| - 1]];
    }
  }

  /** Popping a node takes its edges out of the counts, once each. */
  lemma {:induction false} InCountAfterPop(edges: seq<Edge>, to: Key, done: set<Key>, popped: Key)
    requires popped !in done
    ensures InCount(edges, to, done + {popped}) + Count(Targets(edges, popped), to) == InCount(edges, to, done)
  {
    if edges != [] {
      var n := |edges| - 1;
      InCountAfterPop(edges[..n], to, done, popped);
      var t := Targets(edges, popped);
      if edges[n].from == popped {
        assert t[..|t| - 1] == Targets(edges[..n], popped);
      } else {
        assert t == Targets(edges[..n], popped);
      }
    }
  }

  lemma {:induction false} InCountOfNone(edges: seq<Edge>, to: Key)
    ensures InCount(edges, to, {}) == |Sources(edges, to)|
  {
    if edges != [] {
      InCountOfNone(edges[..|edges| - 1], to);
    }
  }

  // ---------------------------------------------------------------------------
  // Levels
  // ---------------------------------------------------------------------------

  /** The level is one more than the greatest level of a popped predecessor. */
  ghost predicate LevelFits(edges: seq<Edge>, levels: map<Key, nat>, done: set<Key>, v: Key)
    requires v in levels
  {
    && (forall e | e in edges && e.to == v && e.from in done :: e.from in levels && levels[e.from] < levels[v])
    && (exists e :: e in edges && e.to == v && e.from in done && e.from in levels && levels[e.from] + 1 == levels[v])
  }

  ghost predicate HasSourceIn(edges: seq<Edge>, nodes: set<Key>, v: Key) {
    exists e :: e in edges && e.to == v && e.from in nodes
  }

  /** After a turn, a node has a popped source exactly as before or because the popped node points to it. */
  lemma DoneSourceAfterPop(edges: seq<Edge>, done: set<Key>, key: Key, v: Key)
    ensures HasSourceIn(edges, done + {key}, v) <==> HasSourceIn(edges, done, v) || v in Targets(edges, key)
  {
    TargetsAreEdges(edges, key, v);
    if v in Targets(edges, key) {
      assert Edge(key, v) in edges && Edge(key, v).from in done + {key};
    }
  }

  lemma LevelsIgnoreQueue(s: Search, rest: Search, t: Search, base: nat, outs: seq<Key>)
    requires s.levels == rest.levels && LevelsRelaxed(rest, t, base, outs)
    ensures LevelsRelaxed(s, t, base, outs)
  {
  }

  // ---------------------------------------------------------------------------
  // Longest paths
  // ---------------------------------------------------------------------------

  /** A sequence of nodes, each joined to the next by an edge. */
  ghost predicate IsPath(edges: seq<Edge>, path: seq<Key>) {
    path != [] && forall i | 0 <= i < |path| - 1 :: Edge(path[i], path[i + 1]) in edges
  }

  ghost predicate PathTo(edges: seq<Edge>, path: seq<Key>, v: Key) {
    IsPath(edges, path) && path[|path| - 1] == v
  }

  /** The length, in edges, of the longest path that ends at the node. */
  ghost predicate IsLongest(edges: seq<Edge>, v: Key, length: nat) {
    && (exists path :: PathTo(edges, path, v) && |path| == length + 1)
    && (forall path | PathTo(edges, path, v) :: |path| <= length + 1)
  }

  ghost predicate HasPathOfLength(edges: seq<Edge>, v: Key, length: nat) {
    exists path :: PathTo(edges, path, v) && |path| == length + 1
  }

  /** No longest path: some path of every length ends at the node. */
  ghost predicate HasEndlessPaths(edges: seq<Edge>, v: Key) {
    forall length: nat :: HasPathOfLength(edges, v, length)
  }

  /** Every predecessor of a popped node is popped. */
  ghost predicate Closed(edges: seq<Edge>, done: set<Key>) {
    forall e | e in edges && e.to in done :: e.from in done
  }

  lemma PathPrefix(edges: seq<Edge>, path: seq<Key>, v: Key)
    requires PathTo(edges, path, v) && |path| > 1
    ensures PathTo(edges, path[..|path| - 1], path[|path| - 2])
    ensures Edge(path[|path| - 2], v) in edges
  {
    var n := |path| - 1;
    assert Edge(path[n - 1], path[n - 1 + 1]) in edges;
    forall i | 0 <= i < |path[..n]| - 1
      ensures Edge(path[..n][i], path[..n][i + 1]) in edges
    {
      assert Edge(path[i], path[i + 1]) in edges;
    }
  }

  lemma PathExtends(edges: seq<Edge>, path: seq<Key>, u: Key, v: Key)
    requires PathTo(edges, path, u) && Edge(u, v) in edges
    ensures PathTo(edges, path + [v], v)
  {
    var longer := path + [v];
    forall i | 0 <= i < |longer| - 1
      ensures Edge(longer[i], longer[i + 1]) in edges
    {
      if i < |path| - 1 {
        assert Edge(path[i], path[i + 1]) in edges;
      }
    }
  }

  /** Every edge out of the node climbs. */
  ghost predicate Up(edges: seq<Edge>, levels: map<Key, nat>, u: Key) {
    u in levels && forall e | e in edges && e.from == u :: e.to in levels && levels[u] < levels[e.to]
  }

  /** A path whose edges climb is no longer than the level of its end. */
  lemma {:induction false} PathsClimb(edges: seq<Edge>, levels: map<Key, nat>, path: seq<Key>, v: Key)
    requires PathTo(edges, path, v) && v in levels && forall k | k in path :: Up(edges, levels, k)
    ensures |path| <= levels[v] + 1
    decreases |path|
  {
    if |path| > 1 {
      PathPrefix(edges, path, v);
      var u := path[|path| - 2];
      assert u in path && Edge(u, v).from == u;
      PathsClimb(edges, levels, path[..|path| - 1], u);
    }
  }

  /** Outside the popped nodes every node has a predecessor outside, so paths of any length end there. */
  lemma {:induction false} EndlessPaths(keys: seq<Key>, edges: seq<Edge>, done: set<Key>, v: Key, length: nat) returns (path: seq<Key>)
    requires Usable(keys, edges) && v in keys && v !in done
    requires forall u | u in keys && u !in done :: InCount(edges, u, done) > 0
    ensures PathTo(edges, path, v) && |path| == length + 1
    ensures forall k | k in path :: k in keys && k !in done
    decreases length
  {
    if length == 0 {
      path := [v];
    } else {
      InCountZero(edges, v, done);
      var e :| e in edges && e.to == v && e.from !in done;
      assert UsableEdge(keys, e);
      path := EndlessPaths(keys, edges, done, e.from, length - 1);
      assert e == Edge(e.from, v);
      PathExtends(edges, path, e.from, v);
      path := path + [v];
    }
  }

  ghost predicate Acyclic(edges: seq<Edge>) {
    forall path | IsPath(edges, path) && |path| > 1 :: path[0] != path[|path| - 1]
  }

  lemma PathKeysKnown(keys: seq<Key>, edges: seq<Edge>, path: seq<Key>)
    requires Usable(keys, edges) && IsPath(edges, path) && |path| > 1
    ensures forall k | k in path :: k in keys
  {
    forall i | 0 <= i < |path|
      ensures path[i] in keys
    {
      if i < |path| - 1 {
        assert UsableEdge(keys, Edge(path[i], path[i + 1]));
      } else {
        assert UsableEdge(keys, Edge(path[i - 1], path[i - 1 + 1]));
      }
    }
  }

  lemma {:induction false} DistinctFits(path: seq<Key>, pool: set<Key>)
    requires Distinct(path) && forall k | k in path :: k in pool
    ensures |path| <= |pool|
  {
    if path != [] {
      var n := |path| - 1;
      assert forall k | k in path[..n] :: k in path && k != path[n];
      DistinctFits(path[..n], pool - {path[n]});
    }
  }

  function KeySet(keys: seq<Key>): set<Key> {
    set k | k in keys
  }

  lemma {:induction false} KeySetSize(keys: seq<Key>)
    ensures |KeySet(keys)| <= |keys|
  {
    if keys != [] {
      var n := |keys| - 1;
      KeySetSize(keys[..n]);
      assert keys == keys[..n] + [keys[n]];
      assert KeySet(keys) == KeySet(keys[..n]) + {keys[n]};
    }
  }

  /** Without cycles no path visits a node twice, so none has more nodes than the graph. */
  lemma AcyclicPathsAreShort(keys: seq<Key>, edges: seq<Edge>, path: seq<Key>)
    requires Usable(keys, edges) && Acyclic(edges) && IsPath(edges, path) && |path| > 1
    ensures |path| <= |keys|
  {
    forall i, j | 0 <= i < j < |path|
      ensures path[i] != path[j]
    {
      var segment := path[i..j + 1];
      forall k | 0 <= k < |segment| - 1
        ensures Edge(segment[k], segment[k + 1]) in edges
      {
        assert Edge(path[i + k], path[i + k + 1]) in edges;
      }
      assert IsPath(edges, segment);
    }
    PathKeysKnown(keys, edges, path);
    DistinctFits(path, KeySet(keys));
    KeySetSize(keys);
  }
}
