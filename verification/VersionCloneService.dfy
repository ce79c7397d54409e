/**
 The clone as the service performs it: rows are created one by one, three maps remember where each
 source row went, and the transaction leaves no trace when a reference cannot be replaced.
 */
module VersionCloneService {
  import opened Wrappers
  import opened VersionTables
  import opened VersionClone

  datatype CloneError = VersionNotFound | UnresolvedReference

  // ---------------------------------------------------------------------------
  // When every reference can be replaced
  // ---------------------------------------------------------------------------

  ghost predicate OwnsId<T(!new)>(t: Table<T>, version: Id, id: Id) {
    exists r :: r in t.rows && r.version == version && r.id == id
  }

  ghost predicate NodeInside(t: Tables, version: Id, n: Node) {
    && (forall k | 0 <= k < |n.conditions| :: OwnsId(t.conditions, version, n.conditions[k].condition))
    && (forall k | 0 <= k < |n.actions| :: OwnsId(t.actions, version, n.actions[k].action))
  }

  ghost predicate EdgeInside(t: Tables, version: Id, e: Edge) {
    && OwnsId(t.nodes, version, e.from) && OwnsId(t.nodes, version, e.to)
    && (forall k | 0 <= k < |e.conditions| :: OwnsId(t.conditions, version, e.conditions[k].condition))
  }

  /** No node or edge of the version refers to a row of another version. */
  ghost predicate SelfContained(t: Tables, version: Id) {
    && (forall r | r in t.nodes.rows && r.version == version :: NodeInside(t, version, r.data))
    && (forall r | r in t.edges.rows && r.version == version :: EdgeInside(t, version, r.data))
  }

  lemma InMapExactly<T(!new)>(t: Table<T>, rows: seq<Row<T>>, version: Id, m: map<Id, Id>, first: Id, id: Id)
    requires IsRead(rows, t, version) && IsIdMap(m, rows, first)
    ensures id in m <==> OwnsId(t, version, id)
  {
    if id in m {
      assert HasId(rows, id);
      var k :| 0 <= k < |rows| && rows[k].id == id;
      assert rows[k] in rows;
    }
    if OwnsId(t, version, id) {
      var r :| r in t.rows && r.version == version && r.id == id;
      assert r in rows;
      assert HasId(rows, id);
    }
  }

  lemma NodeResolvesExactly(t: Tables, s: Source, source: Id, n: Node)
    requires IsSource(s, t, source)
    ensures NodeResolves(n, ConditionMap(t, s), ActionMap(t, s)) <==> NodeInside(t, source, n)
  {
    hide IdMap, OwnsId, IsIdMap;
    IdMapIsIdMap(s.conditions, t.conditions.next);
    IdMapIsIdMap(s.actions, t.actions.next);
    forall id
      ensures id in ConditionMap(t, s) <==> OwnsId(t.conditions, source, id)
      ensures id in ActionMap(t, s) <==> OwnsId(t.actions, source, id)
    {
      InMapExactly(t.conditions, s.conditions, source, ConditionMap(t, s), t.conditions.next, id);
      InMapExactly(t.actions, s.actions, source, ActionMap(t, s), t.actions.next, id);
    }
  }

  lemma EdgeResolvesExactly(t: Tables, s: Source, source: Id, e: Edge)
    requires IsSource(s, t, source)
    ensures EdgeResolves(e, ConditionMap(t, s), NodeMap(t, s)) <==> EdgeInside(t, source, e)
  {
    hide IdMap, OwnsId, IsIdMap;
    IdMapIsIdMap(s.conditions, t.conditions.next);
    IdMapIsIdMap(s.nodes, t.nodes.next);
    forall id
      ensures id in ConditionMap(t, s) <==> OwnsId(t.conditions, source, id)
      ensures id in NodeMap(t, s) <==> OwnsId(t.nodes, source, id)
    {
      InMapExactly(t.conditions, s.conditions, source, ConditionMap(t, s), t.conditions.next, id);
      InMapExactly(t.nodes, s.nodes, source, NodeMap(t, s), t.nodes.next, id);
    }
  }

  lemma EveryRead<T(!new)>(rows: seq<Row<T>>, t: Table<T>, version: Id, p: T -> bool)
    requires IsRead(rows, t, version)
    ensures (forall k | 0 <= k < |rows| :: p(rows[k].data)) <==> forall r | r in t.rows && r.version == version :: p(r.data)
  {
    if forall k | 0 <= k < |rows| :: p(rows[k].data) {
      forall r | r in t.rows && r.version == version
        ensures p(r.data)
      {
        assert r in rows;
        var k :| 0 <= k < |rows| && rows[k] == r;
      }
    }
    if forall r | r in t.rows && r.version == version :: p(r.data) {
      forall k | 0 <= k < |rows|
        ensures p(rows[k].data)
      {
        assert rows[k] in rows;
      }
    }
  }

  /** The references of a version can all be replaced exactly when none of them leaves it. */
  lemma ResolvesExactly(t: Tables, s: Source, source: Id)
    requires IsSource(s, t, source)
    ensures Resolves(t, s) <==> SelfContained(t, source)
  {
    hide IdMap, NodeInside, EdgeInside, NodeResolves, EdgeResolves;
    var cm, am, nm := ConditionMap(t, s), ActionMap(t, s), NodeMap(t, s);
    EveryRead(s.nodes, t.nodes, source, n => NodeResolves(n, cm, am));
    EveryRead(s.edges, t.edges, source, e => EdgeResolves(e, cm, nm));
    forall n: Node
      ensures NodeResolves(n, cm, am) <==> NodeInside(t, source, n)
    {
      NodeResolvesExactly(t, s, source, n);
    }
    forall e: Edge
      ensures EdgeResolves(e, cm, nm) <==> EdgeInside(t, source, e)
    {
      EdgeResolvesExactly(t, s, source, e);
    }
  }

  // ---------------------------------------------------------------------------
  // Creating rows one by one
  // ---------------------------------------------------------------------------

  function Insert<T>(t: Table<T>, version: Id, data: T): Table<T> {
    InsertAll(t, version, [data])
  }

  lemma InsertStep<T>(t: Table<T>, version: Id, done: seq<T>, data: T)
    ensures Insert(InsertAll(t, version, done), version, data) == InsertAll(t, version, done + [data])
  {
  }

  lemma InsertNone<T>(t: Table<T>, version: Id)
    ensures InsertAll(t, version, []) == t
  {
    assert t.rows + Numbered(t.next, version, []) == t.rows;
  }

  lemma IdMapStep<T>(m: map<Id, Id>, rows: seq<Row<T>>, first: Id, i: nat)
    requires DistinctIds(rows) && i < |rows| && IsIdMap(m, rows[..i], first)
    ensures IsIdMap(m[rows[i].id := first + i], rows[..i + 1], first)
  {
    var more := m[rows[i].id := first + i];
    forall id
      ensures id in more <==> HasId(rows[..i + 1], id)
    {
      if id in m {
        assert HasId(rows[..i], id);
        var k :| 0 <= k < i && rows[..i][k].id == id;
        assert rows[..i + 1][k].id == id;
      }
      if HasId(rows[..i + 1], id) {
        var k :| 0 <= k < i + 1 && rows[..i + 1][k].id == id;
        assert k < i ==> rows[..i][k].id == id;
      }
      assert rows[..i + 1][i].id == rows[i].id;
    }
    var longer := rows[..i + 1];
    forall k | 0 <= k < |longer|
      ensures longer[k].id in more && more[longer[k].id] == first + k
    {
      if k < i {
        assert rows[..i][k] == rows[k];
      }
    }
  }

  /** A node as it is first created, before its bindings exist. */
  function BareNode(n: Node): Node {
    Node(n.key, n.kind, n.title, n.config, n.x, n.y, n.orderIndex, n.terminal, [], [])
  }

  ghost function BareNodes(nodes: seq<Row<Node>>): seq<Node> {
    seq(|nodes|, k requires 0 <= k < |nodes| => BareNode(nodes[k].data))
  }

  /** The `createMany` calls of one node: its rows in the two binding tables. */
  function WithBindings(rows: seq<Row<Node>>, id: Id, cs: seq<ConditionBinding>, xs: seq<ActionBinding>): seq<Row<Node>> {
    seq(|rows|, k requires 0 <= k < |rows| =>
      if rows[k].id == id
      then rows[k].(data := rows[k].data.(conditions := rows[k].data.conditions + cs, actions := rows[k].data.actions + xs))
      else rows[k])
  }

  lemma BindOne(t: Table<Node>, version: Id, data: seq<Node>, k: nat, cs: seq<ConditionBinding>, xs: seq<ActionBinding>)
    requires ValidTable(t) && k < |data| && data[k].conditions == [] && data[k].actions == []
    ensures InsertAll(t, version, data).(rows := WithBindings(InsertAll(t, version, data).rows, t.next + k, cs, xs))
         == InsertAll(t, version, data[k := data[k].(conditions := cs, actions := xs)])
  {
    var rows := InsertAll(t, version, data).rows;
    var left := WithBindings(rows, t.next + k, cs, xs);
    var right := InsertAll(t, version, data[k := data[k].(conditions := cs, actions := xs)]).rows;
    forall i | 0 <= i < |rows|
      ensures left[i] == right[i]
    {
      if i >= |t.rows| {
        assert rows[i] == Row(t.next + (i - |t.rows|), version, data[i - |t.rows|]);
        assert [] + cs == cs && [] + xs == xs;
      }
    }
  }

  lemma IdOfRow<T>(m: map<Id, Id>, rows: seq<Row<T>>, first: Id, k: nat)
    requires IsIdMap(m, rows, first) && k < |rows|
    ensures rows[k].id in m && m[rows[k].id] == first + k
  {
  }

  ghost predicate PartlyBound(data: seq<Node>, nodes: seq<Row<Node>>, cm: map<Id, Id>, am: map<Id, Id>, done: nat) {
    && |data| == |nodes| && done <= |nodes|
    && (forall k | 0 <= k < done :: NodeResolves(nodes[k].data, cm, am) && data[k] == NewNode(nodes[k].data, cm, am))
    && (forall k | done <= k < |nodes| :: data[k] == BareNode(nodes[k].data))
  }

  lemma BindStep(data: seq<Node>, rows: seq<Row<Node>>, cm: map<Id, Id>, am: map<Id, Id>, i: nat)
    requires PartlyBound(data, rows, cm, am, i) && i < |rows| && NodeResolves(rows[i].data, cm, am)
    ensures PartlyBound(data[i := NewNode(rows[i].data, cm, am)], rows, cm, am, i + 1)
    ensures i < |data| && data[i].conditions == [] && data[i].actions == []
    ensures NewNode(rows[i].data, cm, am)
         == data[i].(conditions := NewConditions(rows[i].data.conditions, cm), actions := NewActions(rows[i].data.actions, am))
  {
    hide NodeResolves, NewConditions, NewActions;
  }

  lemma StartUnbound(rows: seq<Row<Node>>, cm: map<Id, Id>, am: map<Id, Id>)
    ensures PartlyBound(BareNodes(rows), rows, cm, am, 0)
  {
  }

  lemma AllBound(data: seq<Node>, rows: seq<Row<Node>>, cm: map<Id, Id>, am: map<Id, Id>)
    requires PartlyBound(data, rows, cm, am, |rows|)
    ensures NodesResolve(rows, cm, am) && data == NewNodes(rows, cm, am)
  {
  }

  // ---------------------------------------------------------------------------
  // The service
  // ---------------------------------------------------------------------------

  method ReadRows<T(!new)>(t: Table<T>, version: Id) returns (rows: seq<Row<T>>)
    requires ValidTable(t)
    ensures IsRead(rows, t, version)
  {
    rows := [];
    for i := 0 to |t.rows|
      invariant forall r :: r in rows <==> r in t.rows[..i] && r.version == version
      invariant DistinctIds(rows)
    {
      assert t.rows[..i + 1] == t.rows[..i] + [t.rows[i]];
      if t.rows[i].version == version {
        forall k | 0 <= k < |rows|
          ensures rows[k].id != t.rows[i].id
        {
          assert rows[k] in rows;
          var n :| 0 <= n < i && t.rows[n] == rows[k];
        }
        rows := rows + [t.rows[i]];
      }
    }
    assert t.rows[..|t.rows|] == t.rows;
  }

  class Database {
    var tables: Tables
    /** Each version and the tenant of its artifact */
    var versions: map<Id, nat>
    var nextVersion: Id

    ghost predicate Valid()
      reads this
    {
      ValidTables(tables) && UnusedFrom(tables, nextVersion) && forall v | v in versions :: v < nextVersion
    }

    constructor ()
      ensures Valid() && versions == map[]
    {
      tables := Tables(Table([], 0), Table([], 0), Table([], 0), Table([], 0), Table([], 0), Table([], 0), Table([], 0),
        Table([], 0), Table([], 0));
      versions, nextVersion := map[], 0;
    }

    /** `CLONE_SOURCE_INCLUDE` */
    method ReadSource(source: Id) returns (s: Source)
      requires ValidTables(tables)
      ensures IsSource(s, tables, source)
    {
      var dependencies := ReadRows(tables.dependencies, source);
      var intermediates := ReadRows(tables.intermediates, source);
      var outputs := ReadRows(tables.outputs, source);
      var scripts := ReadRows(tables.scripts, source);
      var uses := ReadRows(tables.uses, source);
      var conditions := ReadRows(tables.conditions, source);
      var actions := ReadRows(tables.actions, source);
      var nodes := ReadRows(tables.nodes, source);
      var edges := ReadRows(tables.edges, source);
      s := Source(dependencies, intermediates, outputs, scripts, uses, conditions, actions, nodes, edges);
    }

    /** `cloneVersionDeclarations` */
    method CopyDeclarations(s: Source, version: Id)
      modifies this`tables
      ensures tables == WithDeclarations(old(tables), s, version)
    {
      tables := tables.(
        dependencies := InsertAll(tables.dependencies, version, DataOf(s.dependencies)),
        intermediates := InsertAll(tables.intermediates, version, DataOf(s.intermediates)));
      ghost var before := tables.outputs;
      InsertNone(before, version);
      for i := 0 to |s.outputs|
        invariant tables == old(tables).(
          dependencies := InsertAll(old(tables).dependencies, version, DataOf(s.dependencies)),
          intermediates := InsertAll(old(tables).intermediates, version, DataOf(s.intermediates)),
          outputs := InsertAll(before, version, DataOf(s.outputs)[..i]))
      {
        var field := s.outputs[i].data;
        InsertStep(before, version, DataOf(s.outputs)[..i], field);
        assert DataOf(s.outputs)[..i + 1] == DataOf(s.outputs)[..i] + [field];
        tables := tables.(outputs := Insert(tables.outputs, version, OutputField(field.code, field.rest, field.reasons)));
      }
      assert DataOf(s.outputs)[..|s.outputs|] == DataOf(s.outputs);
      tables := tables.(
        scripts := InsertAll(tables.scripts, version, DataOf(s.scripts)),
        uses := InsertAll(tables.uses, version, DataOf(s.uses)));
    }

    method CopyConditions(rows: seq<Row<Condition>>, version: Id) returns (conditionMap: map<Id, Id>)
      requires DistinctIds(rows)
      modifies this`tables
      ensures tables == old(tables).(conditions := InsertAll(old(tables).conditions, version, DataOf(rows)))
      ensures IsIdMap(conditionMap, rows, old(tables).conditions.next)
    {
      conditionMap := map[];
      ghost var before := tables.conditions;
      InsertNone(before, version);
      for i := 0 to |rows|
        invariant tables == old(tables).(conditions := InsertAll(before, version, DataOf(rows[..i])))
        invariant IsIdMap(conditionMap, rows[..i], before.next)
      {
        var c := rows[i].data;
        IdMapStep(conditionMap, rows, before.next, i);
        InsertStep(before, version, DataOf(rows[..i]), c);
        assert DataOf(rows[..i + 1]) == DataOf(rows[..i]) + [c];
        conditionMap := conditionMap[rows[i].id := tables.conditions.next];
        tables := tables.(conditions := Insert(tables.conditions, version,
          Condition(c.code, c.name, c.expressionType, c.expression, c.severity, c.reusable)));
      }
      assert rows[..|rows|] == rows;
    }

    method CopyActions(rows: seq<Row<Action>>, version: Id) returns (actionMap: map<Id, Id>)
      requires DistinctIds(rows)
      modifies this`tables
      ensures tables == old(tables).(actions := InsertAll(old(tables).actions, version, DataOf(rows)))
      ensures IsIdMap(actionMap, rows, old(tables).actions.next)
    {
      actionMap := map[];
      ghost var before := tables.actions;
      InsertNone(before, version);
      for i := 0 to |rows|
        invariant tables == old(tables).(actions := InsertAll(before, version, DataOf(rows[..i])))
        invariant IsIdMap(actionMap, rows[..i], before.next)
      {
        var a := rows[i].data;
        IdMapStep(actionMap, rows, before.next, i);
        InsertStep(before, version, DataOf(rows[..i]), a);
        assert DataOf(rows[..i + 1]) == DataOf(rows[..i]) + [a];
        actionMap := actionMap[rows[i].id := tables.actions.next];
        tables := tables.(actions := Insert(tables.actions, version,
          Action(a.code, a.kind, a.schema, a.template, a.terminal, a.reasons)));
      }
      assert rows[..|rows|] == rows;
    }

    method CopyNodes(rows: seq<Row<Node>>, version: Id) returns (nodeMap: map<Id, Id>)
      requires DistinctIds(rows)
      modifies this`tables
      ensures tables == old(tables).(nodes := InsertAll(old(tables).nodes, version, BareNodes(rows)))
      ensures IsIdMap(nodeMap, rows, old(tables).nodes.next)
    {
      nodeMap := map[];
      ghost var before := tables.nodes;
      InsertNone(before, version);
      for i := 0 to |rows|
        invariant tables == old(tables).(nodes := InsertAll(before, version, BareNodes(rows[..i])))
        invariant IsIdMap(nodeMap, rows[..i], before.next)
      {
        IdMapStep(nodeMap, rows, before.next, i);
        InsertStep(before, version, BareNodes(rows[..i]), BareNode(rows[i].data));
        assert BareNodes(rows[..i + 1]) == BareNodes(rows[..i]) + [BareNode(rows[i].data)];
        nodeMap := nodeMap[rows[i].id := tables.nodes.next];
        tables := tables.(nodes := Insert(tables.nodes, version, BareNode(rows[i].data)));
      }
      assert rows[..|rows|] == rows;
    }

    /** The second pass over the nodes; it stops at the first binding without a replacement. */
    method BindNodes(rows: seq<Row<Node>>, version: Id, cm: map<Id, Id>, am: map<Id, Id>, nm: map<Id, Id>, ghost before: Table<Node>)
      returns (ok: bool)
      requires DistinctIds(rows) && ValidTable(before) && IsIdMap(nm, rows, before.next)
      requires tables.nodes == InsertAll(before, version, BareNodes(rows))
      modifies this`tables
      ensures ok <==> NodesResolve(rows, cm, am)
      ensures ok ==> tables == old(tables).(nodes := InsertAll(before, version, NewNodes(rows, cm, am)))
    {
      hide IsIdMap, DistinctIds, InsertAll, WithBindings, PartlyBound, NewNode, NewNodes, BareNode;
      StartUnbound(rows, cm, am);
      ghost var data := BareNodes(rows);
      for i := 0 to |rows|
        invariant PartlyBound(data, rows, cm, am, i)
        invariant tables == old(tables).(nodes := InsertAll(before, version, data))
      {
        var n := rows[i].data;
        if !NodeResolves(n, cm, am) {
          return false;
        }
        var conditions, actions := NewConditions(n.conditions, cm), NewActions(n.actions, am);
        IdOfRow(nm, rows, before.next, i);
        BindStep(data, rows, cm, am, i);
        BindOne(before, version, data, i, conditions, actions);
        tables := tables.(nodes := tables.nodes.(rows := WithBindings(tables.nodes.rows, nm[rows[i].id], conditions, actions)));
        data := data[i := NewNode(n, cm, am)];
      }
      AllBound(data, rows, cm, am);
      ok := true;
    }

    /** The pass over the edges; it stops at the first endpoint or binding without a replacement. */
    method CopyEdges(rows: seq<Row<Edge>>, version: Id, cm: map<Id, Id>, nm: map<Id, Id>) returns (ok: bool)
      modifies this`tables
      ensures ok <==> EdgesResolve(rows, cm, nm)
      ensures ok ==> tables == old(tables).(edges := InsertAll(old(tables).edges, version, NewEdges(rows, cm, nm)))
    {
      ghost var before := tables.edges;
      InsertNone(before, version);
      for i := 0 to |rows|
        invariant EdgesResolve(rows[..i], cm, nm)
        invariant tables == old(tables).(edges := InsertAll(before, version, NewEdges(rows[..i], cm, nm)))
      {
        var e := rows[i].data;
        if !EdgeResolves(e, cm, nm) {
          return false;
        }
        EdgesStep(rows, cm, nm, i);
        InsertStep(before, version, NewEdges(rows[..i], cm, nm), NewEdge(e, cm, nm));
        tables := tables.(edges := Insert(tables.edges, version,
          Edge(nm[e.from], nm[e.to], e.key, e.kind, e.priority, e.isDefault, NewEdgeBindings(e.conditions, cm))));
      }
      assert rows[..|rows|] == rows;
      ok := true;
    }

    /** `cloneVersionGraph` */
    method CopyGraph(s: Source, version: Id) returns (ok: bool)
      requires DistinctSource(s) && ValidTable(tables.nodes)
      modifies this`tables
      ensures ok <==> Resolves(old(tables), s)
      ensures ok ==> tables == WithGraph(old(tables), s, version)
    {
      var conditionMap := CopyConditions(s.conditions, version);
      var actionMap := CopyActions(s.actions, version);
      ghost var before := tables.nodes;
      var nodeMap := CopyNodes(s.nodes, version);
      IdMapUnique(conditionMap, s.conditions, old(tables).conditions.next);
      IdMapUnique(actionMap, s.actions, old(tables).actions.next);
      IdMapUnique(nodeMap, s.nodes, old(tables).nodes.next);
      ok := BindNodes(s.nodes, version, conditionMap, actionMap, nodeMap, before);
      if ok {
        ok := CopyEdges(s.edges, version, conditionMap, nodeMap);
      }
    }

    /** Both copies, into a version that owns nothing yet */
    method CopyVersion(s: Source, version: Id) returns (ok: bool)
      requires DistinctSource(s) && ValidTable(tables.nodes)
      modifies this`tables
      ensures ok <==> Resolves(old(tables), s)
      ensures ok ==> tables == Cloned(old(tables), s, version)
    {
      hide WithDeclarations, WithGraph;
      DeclarationsKeepReferences(tables, s, version);
      CopyDeclarations(s, version);
      ok := CopyGraph(s, version);
    }

    /** The transaction of a clone: the copies as a new version, or the tables as they were. */
    method CloneTables(source: Id, version: Id) returns (ok: bool)
      requires ValidTables(tables) && UnusedFrom(tables, version)
      modifies this`tables
      ensures ok <==> SelfContained(old(tables), source)
      ensures ok ==> CloneOf(old(tables), tables, source, version)
      ensures !ok ==> tables == old(tables)
    {
      var s := ReadSource(source);
      hide ViewOf, SelfContained, Resolves, ValidTables, UnusedFrom, Cloned, IsSource, DistinctSource, CloneOf;
      var before := tables;
      ResolvesExactly(before, s, source);
      ReadyToCopy(before, s, source);
      ok := CopyVersion(s, version);
      if !ok {
        tables := before;
        return;
      }
      CloneFacts(before, s, source, version);
    }

    /** The row of the new version */
    method AdmitVersion(version: Id, tenant: nat)
      requires version == nextVersion && ValidTables(tables) && UnusedFrom(tables, version + 1)
      requires forall v | v in versions :: v < version
      modifies this`versions, this`nextVersion
      ensures Valid() && versions == old(versions)[version := tenant]
    {
      nextVersion := version + 1;
      versions := versions[version := tenant];
    }

    /**
     `cloneVersion`: a success is a new version that reads like its source while every other version reads
     as before; a failure changes nothing and has exactly two causes.
     */
    method CloneVersion(tenant: nat, source: Id) returns (r: Result<Id, CloneError>)
      requires Valid()
      modifies this
      ensures Valid()
      ensures r == Failure(VersionNotFound) <==> !Belongs(old(versions), source, tenant)
      ensures r == Failure(UnresolvedReference) <==> Belongs(old(versions), source, tenant) && !SelfContained(old(tables), source)
      ensures r.Failure? ==> tables == old(tables) && versions == old(versions)
      ensures r.Success? ==> r.value !in old(versions) && versions == old(versions)[r.value := tenant]
      ensures r.Success? ==> ViewOf(tables, r.value) == ViewOf(old(tables), source)
      ensures r.Success? ==> forall v | v in old(versions) :: ViewOf(tables, v) == ViewOf(old(tables), v)
    {
      if source !in versions || versions[source] != tenant {
        return Failure(VersionNotFound);
      }
      hide ViewOf, SelfContained;
      var version := nextVersion;
      var ok := CloneTables(source, version);
      if !ok {
        return Failure(UnresolvedReference);
      }
      AdmitVersion(version, tenant);
      r := Success(version);
    }
  }

  /** The tables are well formed, the new version reads like its source and every older one as before. */
  ghost predicate CloneOf(before: Tables, after: Tables, source: Id, version: Id) {
    && ValidTables(after) && UnusedFrom(after, version + 1)
    && ViewOf(after, version) == ViewOf(before, source)
    && forall v: Id | v < version :: ViewOf(after, v) == ViewOf(before, v)
  }

  /** The `where` of the read: the version exists and its artifact is the tenant's. */
  predicate Belongs(versions: map<Id, nat>, version: Id, tenant: nat) {
    version in versions && versions[version] == tenant
  }

  lemma ReadyToCopy(t: Tables, s: Source, source: Id)
    requires ValidTables(t) && IsSource(s, t, source)
    ensures ValidTable(t.nodes) && DistinctSource(s)
  {
  }

  /** Declarations leave conditions, actions and nodes alone, and so the ids their copies will get. */
  lemma DeclarationsKeepReferences(t: Tables, s: Source, version: Id)
    requires DistinctSource(s)
    ensures Resolves(WithDeclarations(t, s, version), s) <==> Resolves(t, s)
    ensures WithDeclarations(t, s, version).nodes == t.nodes
  {
    hide IdMap, InsertAll, NodesResolve, EdgesResolve;
  }

  lemma EdgesStep(rows: seq<Row<Edge>>, cm: map<Id, Id>, nm: map<Id, Id>, i: nat)
    requires i < |rows| && EdgesResolve(rows[..i], cm, nm) && EdgeResolves(rows[i].data, cm, nm)
    ensures EdgesResolve(rows[..i + 1], cm, nm)
    ensures NewEdges(rows[..i + 1], cm, nm) == NewEdges(rows[..i], cm, nm) + [NewEdge(rows[i].data, cm, nm)]
  {
    var longer := rows[..i + 1];
    forall k | 0 <= k < |longer|
      ensures EdgeResolves(longer[k].data, cm, nm)
    {
      if k < i {
        assert rows[..i][k] == rows[k];
      }
    }
  }

  lemma CloneFacts(t: Tables, s: Source, source: Id, version: Id)
    requires ValidTables(t) && UnusedFrom(t, version) && IsSource(s, t, source) && Resolves(t, s)
    ensures CloneOf(t, Cloned(t, s, version), source, version)
  {
    hide ViewOf, ValidTables, UnusedFrom, Cloned, Resolves;
    CloneKeepsTables(t, s, version);
    BelowIsUnused(t, version);
    CloneReadsLikeSource(t, s, source, version);
    forall v: Id | v < version
      ensures ViewOf(Cloned(t, s, version), v) == ViewOf(t, v)
    {
      CloneLeavesOthersAlone(t, s, source, version, v);
    }
  }

  lemma BelowIsUnused(t: Tables, version: Id)
    requires UnusedFrom(t, version)
    ensures UnusedVersion(t, version)
  {
  }
}
