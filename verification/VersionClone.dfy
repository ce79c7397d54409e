/**
 Cloning a version: what the new version owns, and why it reads like its source. Ids of conditions,
 actions and nodes are replaced consistently; a reference that leaves the source version has no
 replacement and makes the clone fail.
 */
module VersionClone {
  import opened Wrappers
  import opened VersionTables

  /** Everything the source version declares, as one read returned it. */
  datatype Source = Source(
    dependencies: seq<Row<Dependency>>, intermediates: seq<Row<Intermediate>>, outputs: seq<Row<OutputField>>,
    scripts: seq<Row<Script>>, uses: seq<Row<FieldUse>>,
    conditions: seq<Row<Condition>>, actions: seq<Row<Action>>, nodes: seq<Row<Node>>, edges: seq<Row<Edge>>)

  ghost predicate IsSource(s: Source, t: Tables, version: Id) {
    && IsRead(s.dependencies, t.dependencies, version)
    && IsRead(s.intermediates, t.intermediates, version)
    && IsRead(s.outputs, t.outputs, version)
    && IsRead(s.scripts, t.scripts, version)
    && IsRead(s.uses, t.uses, version)
    && IsRead(s.conditions, t.conditions, version)
    && IsRead(s.actions, t.actions, version)
    && IsRead(s.nodes, t.nodes, version)
    && IsRead(s.edges, t.edges, version)
  }

  // ---------------------------------------------------------------------------
  // Well-formed tables
  // ---------------------------------------------------------------------------

  ghost predicate ValidIds(t: Tables) {
    && ValidTable(t.dependencies) && ValidTable(t.intermediates) && ValidTable(t.outputs) && ValidTable(t.scripts)
    && ValidTable(t.uses) && ValidTable(t.conditions) && ValidTable(t.actions) && ValidTable(t.nodes)
    && ValidTable(t.edges)
  }

  /** Foreign keys of a node's bindings: the rows exist, in whatever version. */
  ghost predicate NodeRefersBelow(n: Node, conditions: Id, actions: Id) {
    && (forall k | 0 <= k < |n.conditions| :: n.conditions[k].condition < conditions)
    && (forall k | 0 <= k < |n.actions| :: n.actions[k].action < actions)
  }

  ghost predicate EdgeRefersBelow(e: Edge, conditions: Id, nodes: Id) {
    && e.from < nodes && e.to < nodes
    && (forall k | 0 <= k < |e.conditions| :: e.conditions[k].condition < conditions)
  }

  ghost predicate ValidReferences(t: Tables) {
    && (forall r | r in t.nodes.rows :: NodeRefersBelow(r.data, t.conditions.next, t.actions.next))
    && (forall r | r in t.edges.rows :: EdgeRefersBelow(r.data, t.conditions.next, t.nodes.next))
  }

  ghost predicate ValidTables(t: Tables) {
    ValidIds(t) && ValidReferences(t)
  }

  ghost predicate Unused<T>(t: Table<T>, version: Id) {
    forall r | r in t.rows :: r.version != version
  }

  ghost predicate UnusedVersion(t: Tables, version: Id) {
    && Unused(t.dependencies, version) && Unused(t.intermediates, version) && Unused(t.outputs, version)
    && Unused(t.scripts, version) && Unused(t.uses, version) && Unused(t.conditions, version)
    && Unused(t.actions, version) && Unused(t.nodes, version) && Unused(t.edges, version)
  }

  ghost predicate RowsBelow<T>(t: Table<T>, version: Id) {
    forall r | r in t.rows :: r.version < version
  }

  /** No version from this id on owns anything. */
  ghost predicate UnusedFrom(t: Tables, version: Id) {
    && RowsBelow(t.dependencies, version) && RowsBelow(t.intermediates, version) && RowsBelow(t.outputs, version)
    && RowsBelow(t.scripts, version) && RowsBelow(t.uses, version) && RowsBelow(t.conditions, version)
    && RowsBelow(t.actions, version) && RowsBelow(t.nodes, version) && RowsBelow(t.edges, version)
  }

  // ---------------------------------------------------------------------------
  // Replacing ids
  // ---------------------------------------------------------------------------

  /** `conditionMap`, `actionMap` and `nodeMap`: the k-th source row goes to the k-th new id. */
  ghost predicate IsIdMap<T>(m: map<Id, Id>, rows: seq<Row<T>>, first: Id) {
    && (forall id :: id in m <==> HasId(rows, id))
    && (forall k | 0 <= k < |rows| :: rows[k].id in m && m[rows[k].id] == first + k)
  }

  ghost function IdMap<T>(rows: seq<Row<T>>, first: Id): map<Id, Id>
    requires DistinctIds(rows)
  {
    map k | 0 <= k < |rows| :: rows[k].id := first + k
  }

  lemma IdMapIsIdMap<T>(rows: seq<Row<T>>, first: Id)
    requires DistinctIds(rows)
    ensures IsIdMap(IdMap(rows, first), rows, first)
  {
    assert forall k | 0 <= k < |rows| :: HasId(rows, rows[k].id);
    assert forall k | 0 <= k < |rows| :: rows[k].id in IdMap(rows, first);
  }

  lemma IdMapUnique<T>(m: map<Id, Id>, rows: seq<Row<T>>, first: Id)
    requires DistinctIds(rows) && IsIdMap(m, rows, first)
    ensures m == IdMap(rows, first)
  {
    IdMapIsIdMap(rows, first);
    var n := IdMap(rows, first);
    forall id | id in m
      ensures id in n && m[id] == n[id]
    {
      var k :| 0 <= k < |rows| && rows[k].id == id;
    }
    assert forall id | id in n :: id in m;
  }

  /** The map is total on the source rows and sends different rows to different ids. */
  lemma IdMapIsInjective<T>(m: map<Id, Id>, rows: seq<Row<T>>, first: Id, a: Id, b: Id)
    requires IsIdMap(m, rows, first) && a in m && b in m && m[a] == m[b]
    ensures a == b
  {
    assert HasId(rows, a) && HasId(rows, b);
    var i :| 0 <= i < |rows| && rows[i].id == a;
    var k :| 0 <= k < |rows| && rows[k].id == b;
    assert m[rows[i].id] == first + i && m[rows[k].id] == first + k;
  }

  predicate NodeResolves(n: Node, cm: map<Id, Id>, am: map<Id, Id>) {
    && (forall k | 0 <= k < |n.conditions| :: n.conditions[k].condition in cm)
    && (forall k | 0 <= k < |n.actions| :: n.actions[k].action in am)
  }

  predicate EdgeResolves(e: Edge, cm: map<Id, Id>, nm: map<Id, Id>) {
    && e.from in nm && e.to in nm
    && (forall k | 0 <= k < |e.conditions| :: e.conditions[k].condition in cm)
  }

  function NewConditions(bindings: seq<ConditionBinding>, cm: map<Id, Id>): seq<ConditionBinding>
    requires forall k | 0 <= k < |bindings| :: bindings[k].condition in cm
  {
    seq(|bindings|, k requires 0 <= k < |bindings| => bindings[k].(condition := cm[bindings[k].condition]))
  }

  function NewActions(bindings: seq<ActionBinding>, am: map<Id, Id>): seq<ActionBinding>
    requires forall k | 0 <= k < |bindings| :: bindings[k].action in am
  {
    seq(|bindings|, k requires 0 <= k < |bindings| => bindings[k].(action := am[bindings[k].action]))
  }

  function NewEdgeBindings(bindings: seq<EdgeBinding>, cm: map<Id, Id>): seq<EdgeBinding>
    requires forall k | 0 <= k < |bindings| :: bindings[k].condition in cm
  {
    seq(|bindings|, k requires 0 <= k < |bindings| => bindings[k].(condition := cm[bindings[k].condition]))
  }

  function NewNode(n: Node, cm: map<Id, Id>, am: map<Id, Id>): Node
    requires NodeResolves(n, cm, am)
  {
    n.(conditions := NewConditions(n.conditions, cm), actions := NewActions(n.actions, am))
  }

  function NewEdge(e: Edge, cm: map<Id, Id>, nm: map<Id, Id>): Edge
    requires EdgeResolves(e, cm, nm)
  {
    e.(from := nm[e.from], to := nm[e.to], conditions := NewEdgeBindings(e.conditions, cm))
  }

  ghost predicate NodesResolve(nodes: seq<Row<Node>>, cm: map<Id, Id>, am: map<Id, Id>) {
    forall k | 0 <= k < |nodes| :: NodeResolves(nodes[k].data, cm, am)
  }

  ghost predicate EdgesResolve(edges: seq<Row<Edge>>, cm: map<Id, Id>, nm: map<Id, Id>) {
    forall k | 0 <= k < |edges| :: EdgeResolves(edges[k].data, cm, nm)
  }

  ghost function NewNodes(nodes: seq<Row<Node>>, cm: map<Id, Id>, am: map<Id, Id>): seq<Node>
    requires NodesResolve(nodes, cm, am)
  {
    seq(|nodes|, k requires 0 <= k < |nodes| => NewNode(nodes[k].data, cm, am))
  }

  ghost function NewEdges(edges: seq<Row<Edge>>, cm: map<Id, Id>, nm: map<Id, Id>): seq<Edge>
    requires EdgesResolve(edges, cm, nm)
  {
    seq(|edges|, k requires 0 <= k < |edges| => NewEdge(edges[k].data, cm, nm))
  }

  ghost predicate DistinctSource(s: Source) {
    DistinctIds(s.conditions) && DistinctIds(s.actions) && DistinctIds(s.nodes)
  }

  ghost function ConditionMap(t: Tables, s: Source): map<Id, Id>
    requires DistinctSource(s)
  {
    IdMap(s.conditions, t.conditions.next)
  }

  ghost function ActionMap(t: Tables, s: Source): map<Id, Id>
    requires DistinctSource(s)
  {
    IdMap(s.actions, t.actions.next)
  }

  ghost function NodeMap(t: Tables, s: Source): map<Id, Id>
    requires DistinctSource(s)
  {
    IdMap(s.nodes, t.nodes.next)
  }

  ghost predicate Resolves(t: Tables, s: Source)
    requires DistinctSource(s)
  {
    && NodesResolve(s.nodes, ConditionMap(t, s), ActionMap(t, s))
    && EdgesResolve(s.edges, ConditionMap(t, s), NodeMap(t, s))
  }

  // ---------------------------------------------------------------------------
  // The clone as a function of the tables
  // ---------------------------------------------------------------------------

  ghost function WithDeclarations(t: Tables, s: Source, version: Id): Tables {
    t.(dependencies := InsertAll(t.dependencies, version, DataOf(s.dependencies)),
       intermediates := InsertAll(t.intermediates, version, DataOf(s.intermediates)),
       outputs := InsertAll(t.outputs, version, DataOf(s.outputs)),
       scripts := InsertAll(t.scripts, version, DataOf(s.scripts)),
       uses := InsertAll(t.uses, version, DataOf(s.uses)))
  }

  ghost function WithGraph(t: Tables, s: Source, version: Id): Tables
    requires DistinctSource(s) && Resolves(t, s)
  {
    t.(conditions := InsertAll(t.conditions, version, DataOf(s.conditions)),
       actions := InsertAll(t.actions, version, DataOf(s.actions)),
       nodes := InsertAll(t.nodes, version, NewNodes(s.nodes, ConditionMap(t, s), ActionMap(t, s))),
       edges := InsertAll(t.edges, version, NewEdges(s.edges, ConditionMap(t, s), NodeMap(t, s))))
  }

  ghost function Cloned(t: Tables, s: Source, version: Id): Tables
    requires DistinctSource(s) && Resolves(t, s)
  {
    WithGraph(WithDeclarations(t, s, version), s, version)
  }

  // ---------------------------------------------------------------------------
  // The clone reads like its source
  // ---------------------------------------------------------------------------

  lemma {:induction false} UnusedData<T>(rows: seq<Row<T>>, version: Id)
    requires forall r | r in rows :: r.version != version
    ensures DataFor(rows, version) == []
  {
    if rows != [] {
      assert rows[|rows| - 1] in rows;
      UnusedData(rows[..|rows| - 1], version);
    }
  }

  /** A table whose rows are copied as they are. */
  lemma CopyOwned<T(!new)>(t: Table<T>, rows: seq<Row<T>>, source: Id, version: Id)
    requires IsRead(rows, t, source) && ValidTable(t) && Unused(t, version)
    ensures Owned(InsertAll(t, version, DataOf(rows)), version) == Owned(t, source)
  {
    InsertedOwned(t, version, DataOf(rows), version);
    UnusedData(t.rows, version);
    ReadOwned(rows, t, source);
  }

  lemma ReadFinds<T(!new)>(t: Table<T>, rows: seq<Row<T>>, source: Id, k: nat)
    requires ValidTable(t) && IsRead(rows, t, source) && k < |rows|
    ensures Find(t.rows, rows[k].id) == Some(rows[k].data)
  {
    hide Find;
    assert rows[k] in rows;
    var i :| 0 <= i < |t.rows| && t.rows[i] == rows[k];
    FindExactly(t.rows, i);
  }

  /** A replaced id finds, among the new rows, the data of the copy of the row the old id finds. */
  lemma CopyFinds<T(!new)>(t: Table<T>, rows: seq<Row<T>>, source: Id, version: Id, data: seq<T>, id: Id) returns (k: nat)
    requires ValidTable(t) && IsRead(rows, t, source) && |data| == |rows| && HasId(rows, id)
    ensures id in IdMap(rows, t.next)
    ensures k < |rows| && rows[k].id == id && Find(t.rows, id) == Some(rows[k].data)
    ensures Find(InsertAll(t, version, data).rows, IdMap(rows, t.next)[id]) == Some(data[k])
  {
    hide Find, IdMap, InsertAll;
    IdMapIsIdMap(rows, t.next);
    k :| 0 <= k < |rows| && rows[k].id == id;
    hide IsRead;
    FindAfterInsert(t, version, data, t.next + k);
    ReadFinds(t, rows, source, k);
  }

  lemma ClonedConditionCode(t: Tables, s: Source, source: Id, version: Id, id: Id)
    requires ValidIds(t) && IsSource(s, t, source) && Resolves(t, s) && id in ConditionMap(t, s)
    ensures ConditionCode(Cloned(t, s, version), ConditionMap(t, s)[id]) == ConditionCode(t, id)
  {
    IdMapIsIdMap(s.conditions, t.conditions.next);
    var k := CopyFinds(t.conditions, s.conditions, source, version, DataOf(s.conditions), id);
  }

  lemma ClonedActionCode(t: Tables, s: Source, source: Id, version: Id, id: Id)
    requires ValidIds(t) && IsSource(s, t, source) && Resolves(t, s) && id in ActionMap(t, s)
    ensures ActionCode(Cloned(t, s, version), ActionMap(t, s)[id]) == ActionCode(t, id)
  {
    IdMapIsIdMap(s.actions, t.actions.next);
    var k := CopyFinds(t.actions, s.actions, source, version, DataOf(s.actions), id);
  }

  lemma ClonedNodeKey(t: Tables, s: Source, source: Id, version: Id, id: Id)
    requires ValidIds(t) && IsSource(s, t, source) && Resolves(t, s) && id in NodeMap(t, s)
    ensures NodeKey(Cloned(t, s, version), NodeMap(t, s)[id]) == NodeKey(t, id)
  {
    IdMapIsIdMap(s.nodes, t.nodes.next);
    var copies := NewNodes(s.nodes, ConditionMap(t, s), ActionMap(t, s));
    var k := CopyFinds(t.nodes, s.nodes, source, version, copies, id);
  }

  lemma ClonedNodeView(t: Tables, s: Source, source: Id, version: Id, n: Node)
    requires ValidIds(t) && IsSource(s, t, source) && Resolves(t, s) && Unused(t.uses, version)
    requires NodeResolves(n, ConditionMap(t, s), ActionMap(t, s))
    ensures ViewNode(Cloned(t, s, version), version, NewNode(n, ConditionMap(t, s), ActionMap(t, s)))
         == ViewNode(t, source, n)
  {
    hide IdMap, InsertAll, Find, DataFor, Resolves, ConditionCode, ActionCode;
    var cm, am, after := ConditionMap(t, s), ActionMap(t, s), Cloned(t, s, version);
    var copy := NewNode(n, cm, am);
    forall k | 0 <= k < |n.conditions|
      ensures BoundConditions(after, copy.conditions)[k] == BoundConditions(t, n.conditions)[k]
    {
      ClonedConditionCode(t, s, source, version, n.conditions[k].condition);
    }
    assert BoundConditions(after, copy.conditions) == BoundConditions(t, n.conditions);
    forall k | 0 <= k < |n.actions|
      ensures BoundActions(after, copy.actions)[k] == BoundActions(t, n.actions)[k]
    {
      ClonedActionCode(t, s, source, version, n.actions[k].action);
    }
    assert BoundActions(after, copy.actions) == BoundActions(t, n.actions);
    CopyOwned(t.uses, s.uses, source, version);
    KeepPermutes(DataFor(after.uses.rows, version), DataFor(t.uses.rows, source), (u: FieldUse) => u.nodeKey == n.key);
  }

  lemma ClonedEdgeView(t: Tables, s: Source, source: Id, version: Id, e: Edge)
    requires ValidIds(t) && IsSource(s, t, source) && Resolves(t, s)
    requires EdgeResolves(e, ConditionMap(t, s), NodeMap(t, s))
    ensures ViewEdge(Cloned(t, s, version), NewEdge(e, ConditionMap(t, s), NodeMap(t, s))) == ViewEdge(t, e)
  {
    hide IdMap, InsertAll, Find, Owned, Resolves, ConditionCode, NodeKey;
    var cm, nm, after := ConditionMap(t, s), NodeMap(t, s), Cloned(t, s, version);
    var copy := NewEdge(e, cm, nm);
    ClonedNodeKey(t, s, source, version, e.from);
    ClonedNodeKey(t, s, source, version, e.to);
    forall k | 0 <= k < |e.conditions|
      ensures BoundOnEdge(after, copy.conditions)[k] == BoundOnEdge(t, e.conditions)[k]
    {
      ClonedConditionCode(t, s, source, version, e.conditions[k].condition);
    }
    assert BoundOnEdge(after, copy.conditions) == BoundOnEdge(t, e.conditions);
  }

  lemma ClonedNodesView(t: Tables, s: Source, source: Id, version: Id)
    requires ValidIds(t) && IsSource(s, t, source) && Resolves(t, s) && Unused(t.uses, version) && Unused(t.nodes, version)
    ensures ViewNodes(Cloned(t, s, version), version) == ViewNodes(t, source)
  {
    hide IdMap, InsertAll, ViewNode, NodesResolve, DataFor;
    var cm, am, after := ConditionMap(t, s), ActionMap(t, s), Cloned(t, s, version);
    var copies := NewNodes(s.nodes, cm, am);
    forall k | 0 <= k < |s.nodes|
      ensures ViewNode(after, version, copies[k]) == ViewNode(t, source, s.nodes[k].data)
    {
      NodeOfAll(s.nodes, cm, am, k);
      ClonedNodeView(t, s, source, version, s.nodes[k].data);
    }
    CopyImages(t.nodes, s.nodes, source, version, copies, n => ViewNode(after, version, n), n => ViewNode(t, source, n));
  }

  /** Copies that are viewed as their originals make the new version viewed as the source. */
  lemma CopyImages<T(!new), V>(t: Table<T>, rows: seq<Row<T>>, source: Id, version: Id, copies: seq<T>, f: T -> V, g: T -> V)
    requires ValidTable(t) && IsRead(rows, t, source) && Unused(t, version)
    requires |copies| == |rows| && forall k | 0 <= k < |rows| :: f(copies[k]) == g(rows[k].data)
    ensures multiset(Map(DataFor(InsertAll(t, version, copies).rows, version), f)) == multiset(Map(DataFor(t.rows, source), g))
  {
    hide DataFor, IsRead, ValidTable, InsertAll;
    InsertedData(t, version, copies, version);
    UnusedData(t.rows, version);
    assert [] + copies == copies;
    ReadOwned(rows, t, source);
    SameImages(copies, rows, f, g);
    MapPermutes(DataOf(rows), DataFor(t.rows, source), g);
  }

  lemma SameImages<T, V>(copies: seq<T>, rows: seq<Row<T>>, f: T -> V, g: T -> V)
    requires |copies| == |rows| && forall k | 0 <= k < |rows| :: f(copies[k]) == g(rows[k].data)
    ensures Map(copies, f) == Map(DataOf(rows), g)
  {
  }

  lemma NodeOfAll(nodes: seq<Row<Node>>, cm: map<Id, Id>, am: map<Id, Id>, k: nat)
    requires NodesResolve(nodes, cm, am) && k < |nodes|
    ensures NodeResolves(nodes[k].data, cm, am) && NewNodes(nodes, cm, am)[k] == NewNode(nodes[k].data, cm, am)
  {
  }

  lemma ClonedEdgesView(t: Tables, s: Source, source: Id, version: Id)
    requires ValidIds(t) && IsSource(s, t, source) && Resolves(t, s) && Unused(t.edges, version)
    ensures ViewEdges(Cloned(t, s, version), version) == ViewEdges(t, source)
  {
    hide IdMap, InsertAll, ViewEdge, EdgesResolve, DataFor;
    var cm, nm, after := ConditionMap(t, s), NodeMap(t, s), Cloned(t, s, version);
    var copies := NewEdges(s.edges, cm, nm);
    forall k | 0 <= k < |s.edges|
      ensures ViewEdge(after, copies[k]) == ViewEdge(t, s.edges[k].data)
    {
      EdgeOfAll(s.edges, cm, nm, k);
      ClonedEdgeView(t, s, source, version, s.edges[k].data);
    }
    CopyImages(t.edges, s.edges, source, version, copies, e => ViewEdge(after, e), e => ViewEdge(t, e));
  }

  lemma EdgeOfAll(edges: seq<Row<Edge>>, cm: map<Id, Id>, nm: map<Id, Id>, k: nat)
    requires EdgesResolve(edges, cm, nm) && k < |edges|
    ensures EdgeResolves(edges[k].data, cm, nm) && NewEdges(edges, cm, nm)[k] == NewEdge(edges[k].data, cm, nm)
  {
  }

  /** The clone's view is its source's view. */
  lemma CloneReadsLikeSource(t: Tables, s: Source, source: Id, version: Id)
    requires ValidTables(t) && IsSource(s, t, source) && Resolves(t, s) && UnusedVersion(t, version)
    ensures ViewOf(Cloned(t, s, version), version) == ViewOf(t, source)
  {
    hide InsertAll, Owned, ViewNodes, ViewEdges, Resolves, IdMap;
    CopyOwned(t.dependencies, s.dependencies, source, version);
    CopyOwned(t.intermediates, s.intermediates, source, version);
    CopyOwned(t.outputs, s.outputs, source, version);
    CopyOwned(t.scripts, s.scripts, source, version);
    CopyOwned(t.conditions, s.conditions, source, version);
    CopyOwned(t.actions, s.actions, source, version);
    ClonedNodesView(t, s, source, version);
    ClonedEdgesView(t, s, source, version);
  }

  // ---------------------------------------------------------------------------
  // Every other version is left alone
  // ---------------------------------------------------------------------------

  lemma OtherNodeView(t: Tables, s: Source, source: Id, version: Id, w: Id, n: Node)
    requires ValidIds(t) && IsSource(s, t, source) && Resolves(t, s) && w != version
    requires NodeRefersBelow(n, t.conditions.next, t.actions.next)
    ensures ViewNode(Cloned(t, s, version), w, n) == ViewNode(t, w, n)
  {
    hide IdMap, InsertAll, Owned, Find, Resolves;
    var after := Cloned(t, s, version);
    forall k | 0 <= k < |n.conditions|
      ensures BoundConditions(after, n.conditions)[k] == BoundConditions(t, n.conditions)[k]
    {
      FindAfterInsert(t.conditions, version, DataOf(s.conditions), n.conditions[k].condition);
    }
    assert BoundConditions(after, n.conditions) == BoundConditions(t, n.conditions);
    forall k | 0 <= k < |n.actions|
      ensures BoundActions(after, n.actions)[k] == BoundActions(t, n.actions)[k]
    {
      FindAfterInsert(t.actions, version, DataOf(s.actions), n.actions[k].action);
    }
    assert BoundActions(after, n.actions) == BoundActions(t, n.actions);
    InsertedData(t.uses, version, DataOf(s.uses), w);
  }

  lemma OtherEdgeView(t: Tables, s: Source, source: Id, version: Id, e: Edge)
    requires ValidIds(t) && IsSource(s, t, source) && Resolves(t, s)
    requires EdgeRefersBelow(e, t.conditions.next, t.nodes.next)
    ensures ViewEdge(Cloned(t, s, version), e) == ViewEdge(t, e)
  {
    hide IdMap, InsertAll, Owned, Find;
    var after := Cloned(t, s, version);
    var copies := NewNodes(s.nodes, ConditionMap(t, s), ActionMap(t, s));
    FindAfterInsert(t.nodes, version, copies, e.from);
    FindAfterInsert(t.nodes, version, copies, e.to);
    forall k | 0 <= k < |e.conditions|
      ensures BoundOnEdge(after, e.conditions)[k] == BoundOnEdge(t, e.conditions)[k]
    {
      FindAfterInsert(t.conditions, version, DataOf(s.conditions), e.conditions[k].condition);
    }
    assert BoundOnEdge(after, e.conditions) == BoundOnEdge(t, e.conditions);
  }

  lemma OtherNodesView(t: Tables, s: Source, source: Id, version: Id, w: Id)
    requires ValidTables(t) && IsSource(s, t, source) && Resolves(t, s) && w != version
    ensures ViewNodes(Cloned(t, s, version), w) == ViewNodes(t, w)
  {
    hide IdMap, InsertAll, DataFor, ViewNode;
    var after, owned := Cloned(t, s, version), DataFor(t.nodes.rows, w);
    InsertedData(t.nodes, version, NewNodes(s.nodes, ConditionMap(t, s), ActionMap(t, s)), w);
    forall k | 0 <= k < |owned|
      ensures ViewNode(after, w, owned[k]) == ViewNode(t, w, owned[k])
    {
      DataRow(t.nodes.rows, w, owned[k]);
      OtherNodeView(t, s, source, version, w, owned[k]);
    }
    assert Map(owned, n => ViewNode(after, w, n)) == Map(owned, n => ViewNode(t, w, n));
  }

  lemma OtherEdgesView(t: Tables, s: Source, source: Id, version: Id, w: Id)
    requires ValidTables(t) && IsSource(s, t, source) && Resolves(t, s) && w != version
    ensures ViewEdges(Cloned(t, s, version), w) == ViewEdges(t, w)
  {
    hide IdMap, InsertAll, DataFor, ViewEdge;
    var after, owned := Cloned(t, s, version), DataFor(t.edges.rows, w);
    InsertedData(t.edges, version, NewEdges(s.edges, ConditionMap(t, s), NodeMap(t, s)), w);
    forall k | 0 <= k < |owned|
      ensures ViewEdge(after, owned[k]) == ViewEdge(t, owned[k])
    {
      DataRow(t.edges.rows, w, owned[k]);
      OtherEdgeView(t, s, source, version, owned[k]);
    }
    assert Map(owned, e => ViewEdge(after, e)) == Map(owned, e => ViewEdge(t, e));
  }

  /** Whatever other version is read after a clone, it reads as before. */
  lemma CloneLeavesOthersAlone(t: Tables, s: Source, source: Id, version: Id, w: Id)
    requires ValidTables(t) && IsSource(s, t, source) && Resolves(t, s) && w != version
    ensures ViewOf(Cloned(t, s, version), w) == ViewOf(t, w)
  {
    hide InsertAll, Owned, ViewNodes, ViewEdges, Resolves, IdMap;
    InsertedOwned(t.dependencies, version, DataOf(s.dependencies), w);
    InsertedOwned(t.intermediates, version, DataOf(s.intermediates), w);
    InsertedOwned(t.outputs, version, DataOf(s.outputs), w);
    InsertedOwned(t.scripts, version, DataOf(s.scripts), w);
    InsertedOwned(t.conditions, version, DataOf(s.conditions), w);
    InsertedOwned(t.actions, version, DataOf(s.actions), w);
    OtherNodesView(t, s, source, version, w);
    OtherEdgesView(t, s, source, version, w);
  }

  // ---------------------------------------------------------------------------
  // The tables stay well formed
  // ---------------------------------------------------------------------------

  lemma InsertKeepsBelow<T(!new)>(t: Table<T>, version: Id, data: seq<T>)
    requires RowsBelow(t, version)
    ensures RowsBelow(InsertAll(t, version, data), version + 1)
  {
    forall r | r in InsertAll(t, version, data).rows
      ensures r.version < version + 1
    {
      assert r in t.rows || r in Numbered(t.next, version, data);
    }
  }

  lemma IdMapRange<T>(rows: seq<Row<T>>, first: Id, id: Id)
    requires DistinctIds(rows) && id in IdMap(rows, first)
    ensures first <= IdMap(rows, first)[id] < first + |rows|
  {
    IdMapIsIdMap(rows, first);
    assert HasId(rows, id);
    var k :| 0 <= k < |rows| && rows[k].id == id;
  }

  lemma NewNodeRefersBelow(t: Tables, s: Source, n: Node)
    requires DistinctSource(s) && NodeResolves(n, ConditionMap(t, s), ActionMap(t, s))
    ensures NodeRefersBelow(NewNode(n, ConditionMap(t, s), ActionMap(t, s)),
                            t.conditions.next + |s.conditions|, t.actions.next + |s.actions|)
  {
    hide IdMap;
    forall k | 0 <= k < |n.conditions|
      ensures ConditionMap(t, s)[n.conditions[k].condition] < t.conditions.next + |s.conditions|
    {
      IdMapRange(s.conditions, t.conditions.next, n.conditions[k].condition);
    }
    forall k | 0 <= k < |n.actions|
      ensures ActionMap(t, s)[n.actions[k].action] < t.actions.next + |s.actions|
    {
      IdMapRange(s.actions, t.actions.next, n.actions[k].action);
    }
  }

  lemma NewEdgeRefersBelow(t: Tables, s: Source, e: Edge)
    requires DistinctSource(s) && EdgeResolves(e, ConditionMap(t, s), NodeMap(t, s))
    ensures EdgeRefersBelow(NewEdge(e, ConditionMap(t, s), NodeMap(t, s)),
                            t.conditions.next + |s.conditions|, t.nodes.next + |s.nodes|)
  {
    hide IdMap;
    IdMapRange(s.nodes, t.nodes.next, e.from);
    IdMapRange(s.nodes, t.nodes.next, e.to);
    forall k | 0 <= k < |e.conditions|
      ensures ConditionMap(t, s)[e.conditions[k].condition] < t.conditions.next + |s.conditions|
    {
      IdMapRange(s.conditions, t.conditions.next, e.conditions[k].condition);
    }
  }

  lemma InsertedRows<T(!new)>(t: Table<T>, version: Id, data: seq<T>, p: T -> bool)
    requires forall r | r in t.rows :: p(r.data)
    requires forall k | 0 <= k < |data| :: p(data[k])
    ensures forall r | r in InsertAll(t, version, data).rows :: p(r.data)
  {
    forall r | r in InsertAll(t, version, data).rows
      ensures p(r.data)
    {
      if r !in t.rows {
        assert r in Numbered(t.next, version, data);
        var k :| 0 <= k < |data| && Numbered(t.next, version, data)[k] == r;
      }
    }
  }

  lemma CloneKeepsReferences(t: Tables, s: Source, version: Id)
    requires ValidReferences(t) && DistinctSource(s) && Resolves(t, s)
    ensures ValidReferences(Cloned(t, s, version))
  {
    hide IdMap, NodeRefersBelow, EdgeRefersBelow;
    var cm, am, nm := ConditionMap(t, s), ActionMap(t, s), NodeMap(t, s);
    var conditions, actions, nodes :=
      t.conditions.next + |s.conditions|, t.actions.next + |s.actions|, t.nodes.next + |s.nodes|;
    forall n: Node | NodeRefersBelow(n, t.conditions.next, t.actions.next)
      ensures NodeRefersBelow(n, conditions, actions)
    {
      NodeBelowMore(n, t.conditions.next, t.actions.next, conditions, actions);
    }
    forall e: Edge | EdgeRefersBelow(e, t.conditions.next, t.nodes.next)
      ensures EdgeRefersBelow(e, conditions, nodes)
    {
      EdgeBelowMore(e, t.conditions.next, t.nodes.next, conditions, nodes);
    }
    forall k | 0 <= k < |s.nodes|
      ensures NodeRefersBelow(NewNodes(s.nodes, cm, am)[k], conditions, actions)
    {
      NewNodeRefersBelow(t, s, s.nodes[k].data);
    }
    forall k | 0 <= k < |s.edges|
      ensures EdgeRefersBelow(NewEdges(s.edges, cm, nm)[k], conditions, nodes)
    {
      NewEdgeRefersBelow(t, s, s.edges[k].data);
    }
    InsertedRows(t.nodes, version, NewNodes(s.nodes, cm, am), n => NodeRefersBelow(n, conditions, actions));
    InsertedRows(t.edges, version, NewEdges(s.edges, cm, nm), e => EdgeRefersBelow(e, conditions, nodes));
  }

  lemma NodeBelowMore(n: Node, c: Id, a: Id, moreC: Id, moreA: Id)
    requires NodeRefersBelow(n, c, a) && c <= moreC && a <= moreA
    ensures NodeRefersBelow(n, moreC, moreA)
  {
  }

  lemma EdgeBelowMore(e: Edge, c: Id, n: Id, moreC: Id, moreN: Id)
    requires EdgeRefersBelow(e, c, n) && c <= moreC && n <= moreN
    ensures EdgeRefersBelow(e, moreC, moreN)
  {
  }

  lemma CloneKeepsIds(t: Tables, s: Source, version: Id)
    requires ValidIds(t) && DistinctSource(s) && Resolves(t, s)
    ensures ValidIds(Cloned(t, s, version))
  {
    hide ValidTable, InsertAll, IdMap, Resolves;
    InsertKeepsTable(t.dependencies, version, DataOf(s.dependencies));
    InsertKeepsTable(t.intermediates, version, DataOf(s.intermediates));
    InsertKeepsTable(t.outputs, version, DataOf(s.outputs));
    InsertKeepsTable(t.scripts, version, DataOf(s.scripts));
    InsertKeepsTable(t.uses, version, DataOf(s.uses));
    InsertKeepsTable(t.conditions, version, DataOf(s.conditions));
    InsertKeepsTable(t.actions, version, DataOf(s.actions));
    CloneKeepsGraphIds(t, s, version);
  }

  lemma CloneKeepsGraphIds(t: Tables, s: Source, version: Id)
    requires ValidIds(t) && DistinctSource(s) && Resolves(t, s)
    ensures ValidTable(Cloned(t, s, version).nodes) && ValidTable(Cloned(t, s, version).edges)
  {
    hide ValidTable, InsertAll, IdMap;
    InsertKeepsTable(t.nodes, version, NewNodes(s.nodes, ConditionMap(t, s), ActionMap(t, s)));
    InsertKeepsTable(t.edges, version, NewEdges(s.edges, ConditionMap(t, s), NodeMap(t, s)));
  }

  lemma CloneKeepsVersions(t: Tables, s: Source, version: Id)
    requires UnusedFrom(t, version) && DistinctSource(s) && Resolves(t, s)
    ensures UnusedFrom(Cloned(t, s, version), version + 1)
  {
    hide InsertAll, IdMap, RowsBelow;
    InsertKeepsBelow(t.dependencies, version, DataOf(s.dependencies));
    InsertKeepsBelow(t.intermediates, version, DataOf(s.intermediates));
    InsertKeepsBelow(t.outputs, version, DataOf(s.outputs));
    InsertKeepsBelow(t.scripts, version, DataOf(s.scripts));
    InsertKeepsBelow(t.uses, version, DataOf(s.uses));
    InsertKeepsBelow(t.conditions, version, DataOf(s.conditions));
    InsertKeepsBelow(t.actions, version, DataOf(s.actions));
    InsertKeepsBelow(t.nodes, version, NewNodes(s.nodes, ConditionMap(t, s), ActionMap(t, s)));
    InsertKeepsBelow(t.edges, version, NewEdges(s.edges, ConditionMap(t, s), NodeMap(t, s)));
  }

  /** Cloning keeps ids unique and every reference resolvable, so clones can be cloned again. */
  lemma CloneKeepsTables(t: Tables, s: Source, version: Id)
    requires ValidTables(t) && UnusedFrom(t, version) && DistinctSource(s) && Resolves(t, s)
    ensures ValidTables(Cloned(t, s, version)) && UnusedFrom(Cloned(t, s, version), version + 1)
  {
    CloneKeepsIds(t, s, version);
    CloneKeepsReferences(t, s, version);
    CloneKeepsVersions(t, s, version);
  }
}
