/**
 The tables a version of an artifact owns, and what the graph reader makes of them. A table hands out
 increasing ids; the views below are what remains of a version once database ids are forgotten.
 */
module VersionTables {
  import opened Wrappers

  type Id = nat

  type Json = string

  datatype Row<T> = Row(id: Id, version: Id, data: T)

  /** Rows in insertion order and the next value of the id sequence. */
  datatype Table<T> = Table(rows: seq<Row<T>>, next: Id)

  datatype Condition = Condition(
    code: string, name: string, expressionType: string, expression: Json, severity: string, reusable: bool)

  datatype ReasonMapping = ReasonMapping(reasonCode: Id, priority: int, message: Option<Json>)

  datatype Action = Action(
    code: string, kind: string, schema: Option<Json>, template: Json, terminal: bool, reasons: seq<ReasonMapping>)

  datatype ConditionBinding = ConditionBinding(condition: Id, order: int, expected: bool)

  datatype ActionBinding = ActionBinding(action: Id, order: int)

  /** A node together with its rows in the two binding tables. */
  datatype Node = Node(
    key: string, kind: string, title: string, config: Json, x: real, y: real, orderIndex: int, terminal: bool,
    conditions: seq<ConditionBinding>, actions: seq<ActionBinding>)

  datatype EdgeBinding = EdgeBinding(condition: Id, order: int)

  datatype Edge = Edge(
    from: Id, to: Id, key: string, kind: string, priority: int, isDefault: bool, conditions: seq<EdgeBinding>)

  datatype Dependency = Dependency(
    variableVersion: Id, usage: string, required: bool, fallback: string, path: string)

  /** `rest` stands for the columns that travel as one spread record. */
  datatype Intermediate = Intermediate(code: string, rest: Json)

  datatype OutputField = OutputField(code: string, rest: Json, reasons: seq<ReasonMapping>)

  datatype Script = Script(nodeKey: string, rest: Json)

  datatype FieldUse = FieldUse(nodeKey: string, callKey: string, fieldVersion: Id, rest: Json)

  datatype Tables = Tables(
    dependencies: Table<Dependency>, intermediates: Table<Intermediate>, outputs: Table<OutputField>,
    scripts: Table<Script>, uses: Table<FieldUse>,
    conditions: Table<Condition>, actions: Table<Action>, nodes: Table<Node>, edges: Table<Edge>)

  // ---------------------------------------------------------------------------
  // Any table
  // ---------------------------------------------------------------------------

  ghost predicate DistinctIds<T>(rows: seq<Row<T>>) {
    forall i, k | 0 <= i < k < |rows| :: rows[i].id != rows[k].id
  }

  ghost predicate ValidTable<T>(t: Table<T>) {
    DistinctIds(t.rows) && forall i | 0 <= i < |t.rows| :: t.rows[i].id < t.next
  }

  function Numbered<T>(first: Id, version: Id, data: seq<T>): seq<Row<T>> {
    seq(|data|, k requires 0 <= k < |data| => Row(first + k, version, data[k]))
  }

  /** `createMany`, and what a loop of `create` calls amounts to. */
  function InsertAll<T>(t: Table<T>, version: Id, data: seq<T>): Table<T> {
    Table(t.rows + Numbered(t.next, version, data), t.next + |data|)
  }

  function Find<T>(rows: seq<Row<T>>, id: Id): Option<T> {
    if rows == [] then None else if rows[0].id == id then Some(rows[0].data) else Find(rows[1..], id)
  }

  ghost predicate HasId<T>(rows: seq<Row<T>>, id: Id) {
    exists i :: 0 <= i < |rows| && rows[i].id == id
  }

  /** The rows of one version, in any order. */
  ghost predicate IsRead<T(!new)>(rows: seq<Row<T>>, t: Table<T>, version: Id) {
    && DistinctIds(rows)
    && forall r :: r in rows <==> r in t.rows && r.version == version
  }

  /** The data of the rows of one version, in the order of the table */
  function DataFor<T>(rows: seq<Row<T>>, version: Id): seq<T> {
    if rows == [] then []
    else
      var last := rows[|rows| - 1];
      DataFor(rows[..|rows| - 1], version) + if last.version == version then [last.data] else []
  }

  /** What a version owns in a table, as often as it owns it */
  ghost function Owned<T(!new)>(t: Table<T>, version: Id): multiset<T> {
    multiset(DataFor(t.rows, version))
  }

  function DataOf<T>(rows: seq<Row<T>>): seq<T> {
    seq(|rows|, k requires 0 <= k < |rows| => rows[k].data)
  }

  lemma InsertKeepsTable<T>(t: Table<T>, version: Id, data: seq<T>)
    requires ValidTable(t)
    ensures ValidTable(InsertAll(t, version, data))
  {
  }

  // ---------------------------------------------------------------------------
  // Permutations
  // ---------------------------------------------------------------------------

  function Map<A, B>(s: seq<A>, f: A -> B): seq<B> {
    seq(|s|, i requires 0 <= i < |s| => f(s[i]))
  }

  function Keep<T>(s: seq<T>, p: T -> bool): seq<T> {
    if s == [] then [] else Keep(s[..|s| - 1], p) + if p(s[|s| - 1]) then [s[|s| - 1]] else []
  }

  lemma SameLength<A>(a: seq<A>, b: seq<A>)
    requires multiset(a) == multiset(b)
    ensures |a| == |b|
  {
    assert |multiset(a)| == |a| && |multiset(b)| == |b|;
  }

  lemma Without<A>(a: seq<A>, i: nat)
    requires i < |a|
    ensures multiset(a) == multiset(a[..i] + a[i + 1..]) + multiset{a[i]}
  {
    assert a == a[..i] + [a[i]] + a[i + 1..];
  }

  lemma MapWithout<A, B>(a: seq<A>, f: A -> B, i: nat)
    requires i < |a|
    ensures multiset(Map(a, f)) == multiset(Map(a[..i] + a[i + 1..], f)) + multiset{f(a[i])}
  {
    Without(Map(a, f), i);
    assert Map(a, f)[..i] + Map(a, f)[i + 1..] == Map(a[..i] + a[i + 1..], f);
  }

  lemma CancelOne<A>(x: multiset<A>, y: multiset<A>, e: A)
    requires x + multiset{e} == y + multiset{e}
    ensures x == y
  {
    assert x == (x + multiset{e}) - multiset{e};
    assert y == (y + multiset{e}) - multiset{e};
  }

  /** Reordering a list reorders its images. */
  lemma {:induction false} MapPermutes<A, B>(a: seq<A>, b: seq<A>, f: A -> B)
    requires multiset(a) == multiset(b)
    ensures multiset(Map(a, f)) == multiset(Map(b, f))
    decreases |a|
  {
    SameLength(a, b);
    if a != [] {
      assert a[0] in multiset(b);
      var i :| 0 <= i < |b| && b[i] == a[0];
      Without(a, 0);
      Without(b, i);
      CancelOne(multiset(a[..0] + a[1..]), multiset(b[..i] + b[i + 1..]), a[0]);
      MapPermutes(a[..0] + a[1..], b[..i] + b[i + 1..], f);
      MapWithout(a, f, 0);
      MapWithout(b, f, i);
    }
  }

  lemma {:induction false} KeepCounts<T(!new)>(s: seq<T>, p: T -> bool, x: T)
    ensures multiset(Keep(s, p))[x] == if p(x) then multiset(s)[x] else 0
  {
    if s != [] {
      KeepCounts(s[..|s| - 1], p, x);
      assert s == s[..|s| - 1] + [s[|s| - 1]];
    }
  }

  lemma KeepPermutes<T(!new)>(a: seq<T>, b: seq<T>, p: T -> bool)
    requires multiset(a) == multiset(b)
    ensures multiset(Keep(a, p)) == multiset(Keep(b, p))
  {
    forall x
      ensures multiset(Keep(a, p))[x] == multiset(Keep(b, p))[x]
    {
      KeepCounts(a, p, x);
      KeepCounts(b, p, x);
    }
  }

  // ---------------------------------------------------------------------------
  // What a version owns
  // ---------------------------------------------------------------------------

  lemma {:induction false} DataForAppend<T>(a: seq<Row<T>>, b: seq<Row<T>>, w: Id)
    ensures DataFor(a + b, w) == DataFor(a, w) + DataFor(b, w)
  {
    if b == [] {
      assert a + b == a;
    } else {
      DataForAppend(a, b[..|b| - 1], w);
      assert (a + b)[..|a + b| - 1] == a + b[..|b| - 1];
    }
  }

  lemma {:induction false} DataForNumbered<T>(first: Id, version: Id, data: seq<T>, w: Id)
    ensures DataFor(Numbered(first, version, data), w) == if w == version then data else []
  {
    var added := Numbered(first, version, data);
    if data != [] {
      var n := |data| - 1;
      DataForNumbered(first, version, data[..n], w);
      assert added[..n] == Numbered(first, version, data[..n]);
      assert data == data[..n] + [data[n]];
    }
  }

  /** Rows added to one version are seen by that version alone. */
  lemma InsertedData<T>(t: Table<T>, version: Id, data: seq<T>, w: Id)
    ensures DataFor(InsertAll(t, version, data).rows, w)
         == if w == version then DataFor(t.rows, w) + data else DataFor(t.rows, w)
  {
    DataForAppend(t.rows, Numbered(t.next, version, data), w);
    DataForNumbered(t.next, version, data, w);
  }

  lemma InsertedOwned<T(!new)>(t: Table<T>, version: Id, data: seq<T>, w: Id)
    ensures Owned(InsertAll(t, version, data), w)
         == if w == version then Owned(t, w) + multiset(data) else Owned(t, w)
  {
    InsertedData(t, version, data, w);
  }

  lemma {:induction false} DataForIsKept<T>(rows: seq<Row<T>>, version: Id)
    ensures DataFor(rows, version) == Map(Keep(rows, (r: Row<T>) => r.version == version), (r: Row<T>) => r.data)
  {
    if rows != [] {
      DataForIsKept(rows[..|rows| - 1], version);
    }
  }

  lemma {:induction false} CountedOnce<T>(rows: seq<Row<T>>, r: Row<T>)
    requires DistinctIds(rows)
    ensures multiset(rows)[r] == if r in rows then 1 else 0
  {
    if rows != [] {
      var n := |rows| - 1;
      CountedOnce(rows[..n], r);
      assert rows == rows[..n] + [rows[n]];
    }
  }

  /** A read lists what the version owns, each row once, in whatever order. */
  lemma ReadOwned<T(!new)>(rows: seq<Row<T>>, t: Table<T>, version: Id)
    requires IsRead(rows, t, version) && ValidTable(t)
    ensures multiset(DataOf(rows)) == Owned(t, version)
  {
    var kept := Keep(t.rows, (r: Row<T>) => r.version == version);
    forall r: Row<T>
      ensures multiset(rows)[r] == multiset(kept)[r]
    {
      CountedOnce(rows, r);
      CountedOnce(t.rows, r);
      KeepCounts(t.rows, (r: Row<T>) => r.version == version, r);
    }
    assert multiset(rows) == multiset(kept);
    MapPermutes(rows, kept, (r: Row<T>) => r.data);
    DataForIsKept(t.rows, version);
    assert DataOf(rows) == Map(rows, (r: Row<T>) => r.data);
  }

  lemma DataRow<T>(rows: seq<Row<T>>, version: Id, d: T)
    requires d in DataFor(rows, version)
    ensures exists r :: r in rows && r.version == version && r.data == d
  {
    if d in DataFor(rows[..|rows| - 1], version) {
      DataRow(rows[..|rows| - 1], version, d);
    } else {
      assert rows[|rows| - 1] in rows;
    }
  }

  lemma {:induction false} FindExactly<T>(rows: seq<Row<T>>, k: nat)
    requires DistinctIds(rows) && k < |rows|
    ensures Find(rows, rows[k].id) == Some(rows[k].data)
  {
    if k > 0 {
      FindExactly(rows[1..], k - 1);
    }
  }

  lemma HasIdTail<T>(rows: seq<Row<T>>, id: Id)
    requires rows != []
    ensures HasId(rows, id) <==> rows[0].id == id || HasId(rows[1..], id)
  {
    if rows[0].id != id && HasId(rows, id) {
      var i :| 0 <= i < |rows| && rows[i].id == id;
      assert rows[1..][i - 1].id == id;
    }
    assert forall i | 0 <= i < |rows| - 1 :: rows[1..][i] == rows[i + 1];
  }

  lemma {:induction false} FindPast<T>(rows: seq<Row<T>>, more: seq<Row<T>>, id: Id)
    ensures !HasId(rows, id) ==> Find(rows + more, id) == Find(more, id)
    ensures !HasId(more, id) ==> Find(rows + more, id) == Find(rows, id)
  {
    if rows == [] {
      assert rows + more == more;
      if !HasId(more, id) {
        FindNothing(more, id);
      }
    } else {
      FindPast(rows[1..], more, id);
      assert (rows + more)[1..] == rows[1..] + more;
      HasIdTail(rows, id);
    }
  }

  lemma {:induction false} FindNothing<T>(rows: seq<Row<T>>, id: Id)
    requires !HasId(rows, id)
    ensures Find(rows, id) == None
  {
    if rows != [] {
      HasIdTail(rows, id);
      FindNothing(rows[1..], id);
    }
  }

  /** After an insertion, old ids resolve as before and each new id to the row it was given to. */
  lemma FindAfterInsert<T>(t: Table<T>, version: Id, data: seq<T>, id: Id)
    requires ValidTable(t)
    ensures id < t.next ==> Find(InsertAll(t, version, data).rows, id) == Find(t.rows, id)
    ensures t.next <= id < t.next + |data| ==> Find(InsertAll(t, version, data).rows, id) == Some(data[id - t.next])
  {
    var added := Numbered(t.next, version, data);
    FindPast(t.rows, added, id);
    if t.next <= id < t.next + |data| {
      FindExactly(added, id - t.next);
      assert added[id - t.next].id == id;
    }
  }

  // ---------------------------------------------------------------------------
  // What the reader shows of a version
  // ---------------------------------------------------------------------------

  datatype BoundCondition = BoundCondition(code: Option<string>, order: int, expected: bool)

  datatype BoundCode = BoundCode(code: Option<string>, order: int)

  datatype NodeView = NodeView(
    body: Node, conditions: multiset<BoundCondition>, actions: multiset<BoundCode>, calls: multiset<FieldUse>)

  datatype EdgeView = EdgeView(
    body: Edge, fromKey: Option<string>, toKey: Option<string>, conditions: multiset<BoundCode>)

  /**
   Lists are multisets: the reader sorts nodes, edges and bindings by what they hold and leaves ties, and the
   other lists, open.
   */
  datatype View = View(
    dependencies: multiset<Dependency>, intermediates: multiset<Intermediate>, outputs: multiset<OutputField>,
    scripts: multiset<Script>, conditions: multiset<Condition>, actions: multiset<Action>,
    nodes: multiset<NodeView>, edges: multiset<EdgeView>)

  function ConditionCode(t: Tables, id: Id): Option<string> {
    var c := Find(t.conditions.rows, id);
    if c.Some? then Some(c.value.code) else None
  }

  function ActionCode(t: Tables, id: Id): Option<string> {
    var a := Find(t.actions.rows, id);
    if a.Some? then Some(a.value.code) else None
  }

  function NodeKey(t: Tables, id: Id): Option<string> {
    var n := Find(t.nodes.rows, id);
    if n.Some? then Some(n.value.key) else None
  }

  function BoundConditions(t: Tables, bindings: seq<ConditionBinding>): seq<BoundCondition> {
    seq(|bindings|, k requires 0 <= k < |bindings| =>
      BoundCondition(ConditionCode(t, bindings[k].condition), bindings[k].order, bindings[k].expected))
  }

  function BoundActions(t: Tables, bindings: seq<ActionBinding>): seq<BoundCode> {
    seq(|bindings|, k requires 0 <= k < |bindings| => BoundCode(ActionCode(t, bindings[k].action), bindings[k].order))
  }

  function BoundOnEdge(t: Tables, bindings: seq<EdgeBinding>): seq<BoundCode> {
    seq(|bindings|, k requires 0 <= k < |bindings| => BoundCode(ConditionCode(t, bindings[k].condition), bindings[k].order))
  }

  function NodeBody(n: Node): Node {
    n.(conditions := [], actions := [])
  }

  function EdgeBody(e: Edge): Edge {
    e.(from := 0, to := 0, conditions := [])
  }

  ghost function ViewNode(t: Tables, version: Id, n: Node): NodeView {
    NodeView(
      NodeBody(n), multiset(BoundConditions(t, n.conditions)), multiset(BoundActions(t, n.actions)),
      multiset(Keep(DataFor(t.uses.rows, version), (u: FieldUse) => u.nodeKey == n.key)))
  }

  ghost function ViewEdge(t: Tables, e: Edge): EdgeView {
    EdgeView(EdgeBody(e), NodeKey(t, e.from), NodeKey(t, e.to), multiset(BoundOnEdge(t, e.conditions)))
  }

  ghost function ViewNodes(t: Tables, version: Id): multiset<NodeView> {
    multiset(Map(DataFor(t.nodes.rows, version), n => ViewNode(t, version, n)))
  }

  ghost function ViewEdges(t: Tables, version: Id): multiset<EdgeView> {
    multiset(Map(DataFor(t.edges.rows, version), e => ViewEdge(t, e)))
  }

  ghost function ViewOf(t: Tables, version: Id): View {
    View(
      Owned(t.dependencies, version), Owned(t.intermediates, version), Owned(t.outputs, version),
      Owned(t.scripts, version), Owned(t.conditions, version), Owned(t.actions, version),
      ViewNodes(t, version), ViewEdges(t, version))
  }
}
