/**
 The layout of a seeded graph: one column per level, two barycentre sweeps over the columns, and a place on the
 canvas for every row.
 */
module TreeLayout {
  import opened TreeLevels
  import opened QueueRuns
  import opened RunLevels
  import opened LongestPaths
  import opened RankedSort
  import opened TreeGeometry

  type Columns = map<nat, seq<Key>>

  // ---------------------------------------------------------------------------
  // Columns
  // ---------------------------------------------------------------------------

  /** Every node stands once, in the column of its level, and no column is empty. */
  ghost predicate Arranged(keys: seq<Key>, levels: map<Key, nat>, columns: Columns)
    requires forall k :: k in levels <==> k in keys
  {
    && (forall l | l in columns :: columns[l] != [] && Distinct(columns[l]))
    && (forall l, k | l in columns && k in columns[l] :: k in levels && levels[k] == l)
    && (forall k | k in keys :: levels[k] in columns && k in columns[levels[k]])
  }

  /** The keys of a level, in the order of the nodes */
  function AtLevel(keys: seq<Key>, levels: map<Key, nat>, level: nat): seq<Key> {
    if keys == [] then []
    else
      var n := |keys| - 1;
      AtLevel(keys[..n], levels, level) + if keys[n] in levels && levels[keys[n]] == level then [keys[n]] else []
  }

  /** Each column holds the keys of its level in the order of the nodes. */
  ghost predicate InNodeOrder(keys: seq<Key>, levels: map<Key, nat>, columns: Columns) {
    && (forall l | l in columns :: columns[l] == AtLevel(keys, levels, l))
    && (forall l | l !in columns :: AtLevel(keys, levels, l) == [])
  }

  lemma InNodeOrderStep(keys: seq<Key>, levels: map<Key, nat>, columns: Columns, key: Key)
    requires InNodeOrder(keys, levels, columns) && key in levels
    ensures var column := if levels[key] in columns then columns[levels[key]] else [];
            InNodeOrder(keys + [key], levels, columns[levels[key] := column + [key]])
  {
    assert (keys + [key])[..|keys|] == keys;
    forall l
      ensures AtLevel(keys + [key], levels, l) == AtLevel(keys, levels, l) + if levels[key] == l then [key] else []
    {
    }
  }

  method BuildColumns(keys: seq<Key>, levels: map<Key, nat>) returns (columns: Columns)
    requires Distinct(keys) && forall k :: k in levels <==> k in keys
    ensures Arranged(keys, levels, columns)
    ensures InNodeOrder(keys, levels, columns)
  {
    hide AtLevel, InNodeOrder;
    columns := map[];
    NoColumns(levels);
    for i := 0 to |keys|
      invariant forall l | l in columns :: columns[l] != [] && Distinct(columns[l])
      invariant forall l, k | l in columns && k in columns[l] :: k in keys[..i] && levels[k] == l
      invariant forall k | k in keys[..i] :: levels[k] in columns && k in columns[levels[k]]
      invariant InNodeOrder(keys[..i], levels, columns)
    {
      assert keys[..i + 1] == keys[..i] + [keys[i]];
      var level := levels[keys[i]];
      var column := if level in columns then columns[level] else [];
      assert keys[i] !in column;
      InNodeOrderStep(keys[..i], levels, columns, keys[i]);
      columns := columns[level := column + [keys[i]]];
    }
    assert keys[..|keys|] == keys;
  }

  lemma NoColumns(levels: map<Key, nat>)
    ensures forall keys: seq<Key> | keys == [] :: InNodeOrder(keys, levels, map[])
  {
  }

  // ---------------------------------------------------------------------------
  // The sweeps
  // ---------------------------------------------------------------------------

  function IndexOf(column: seq<Key>, key: Key): nat {
    if column == [] || column[0] == key then 0 else 1 + IndexOf(column[1..], key)
  }

  /** `rowIndex` */
  function RowOf(columns: Columns, levels: map<Key, nat>, key: Key): nat {
    if key in levels && levels[key] in columns && key in columns[levels[key]] then IndexOf(columns[levels[key]], key) else 0
  }

  function RowsAway(columns: Columns, levels: map<Key, nat>, level: nat, neighbours: seq<Key>): seq<nat> {
    if neighbours == [] then []
    else
      var rest := RowsAway(columns, levels, level, neighbours[1..]);
      if neighbours[0] in levels && levels[neighbours[0]] == level then rest
      else [RowOf(columns, levels, neighbours[0])] + rest
  }

  function Sum(rows: seq<nat>): nat {
    if rows == [] then 0 else rows[0] + Sum(rows[1..])
  }

  /** The mean row of the neighbours in other columns, or the node's own row without any */
  function Barycentre(columns: Columns, levels: map<Key, nat>, level: nat, neighbours: seq<Key>, row: nat): real {
    var rows := RowsAway(columns, levels, level, neighbours);
    if rows == [] then row as real else Sum(rows) as real / |rows| as real
  }

  function Barycentres(columns: Columns, levels: map<Key, nat>, level: nat, neighbours: map<Key, seq<Key>>): (rank: Rank)
    requires level in columns && forall k | k in columns[level] :: k in neighbours
    ensures Ranked(columns[level], rank)
  {
    map k | k in columns[level] ::
      Barycentre(columns, levels, level, neighbours[k], IndexOf(columns[level], k))
  }

  /** One column of a sweep, sorted by the barycentres the other columns give it. */
  method SortColumn(ghost keys: seq<Key>, columns: Columns, levels: map<Key, nat>, level: nat, neighbours: map<Key, seq<Key>>)
    returns (after: Columns)
    requires (forall k :: k in levels <==> k in keys) && Arranged(keys, levels, columns)
    requires level in columns && forall k | k in keys :: k in neighbours
    ensures Arranged(keys, levels, after) && after.Keys == columns.Keys
    ensures forall l | l in columns && l != level :: after[l] == columns[l]
    ensures (forall k | k in columns[level] :: k in neighbours)
         && OrderedBy(columns[level], after[level], Barycentres(columns, levels, level, neighbours))
    ensures |after[level]| == |columns[level]|
  {
    hide Barycentre, Barycentres, Arranged, OrderedBy;
    assert forall k | k in columns[level] :: k in neighbours by { ColumnKeys(keys, levels, columns, level); }
    var rank := Barycentres(columns, levels, level, neighbours);
    var column := StableSort(columns[level], rank);
    StableSortOrders(columns[level], rank);
    PermutationArranges(keys, levels, columns, level, column);
    after := columns[level := column];
  }

  lemma ColumnKeys(keys: seq<Key>, levels: map<Key, nat>, columns: Columns, level: nat)
    requires (forall k :: k in levels <==> k in keys) && Arranged(keys, levels, columns) && level in columns
    ensures forall k | k in columns[level] :: k in keys
  {
  }

  /** Reordering one column leaves every node in the column of its level. */
  lemma PermutationArranges(keys: seq<Key>, levels: map<Key, nat>, columns: Columns, level: nat, column: seq<Key>)
    requires (forall k :: k in levels <==> k in keys) && Arranged(keys, levels, columns) && level in columns
    requires multiset(column) == multiset(columns[level])
    ensures Arranged(keys, levels, columns[level := column]) && |column| == |columns[level]|
  {
    PermutationKeeps(columns[level], column);
  }

  lemma PermutationKeeps(a: seq<Key>, b: seq<Key>)
    requires multiset(a) == multiset(b) && Distinct(a)
    ensures |a| == |b| && Distinct(b) && forall k :: k in b <==> k in a
  {
    assert |a| == |multiset(a)| && |b| == |multiset(b)|;
    SameMembers(b, a);
    forall k | k in b
      ensures multiset(b)[k] == 1
    {
      DistinctOnce(a, k);
    }
    OnceDistinct(b);
  }

  lemma {:induction false} DistinctOnce(a: seq<Key>, k: Key)
    requires Distinct(a)
    ensures multiset(a)[k] == if k in a then 1 else 0
  {
    if a != [] {
      var n := |a| - 1;
      DistinctOnce(a[..n], k);
      assert a == a[..n] + [a[n]];
    }
  }

  lemma {:induction false} OnceDistinct(b: seq<Key>)
    requires forall k | k in b :: multiset(b)[k] == 1
    ensures Distinct(b)
  {
    forall i, k | 0 <= i < k < |b|
      ensures b[i] != b[k]
    {
      TwiceCounts(b, i, k);
    }
  }

  lemma TwiceCounts(b: seq<Key>, i: nat, k: nat)
    requires i < k < |b|
    ensures b[i] == b[k] ==> multiset(b)[b[i]] >= 2
  {
    assert b == b[..i] + [b[i]] + b[i + 1..k] + [b[k]] + b[k + 1..];
  }

  /** The columns a sweep works with when it comes to a level: those it has passed are ordered, the others not yet. */
  function Mixed(before: Columns, after: Columns, passed: set<nat>): (mixed: Columns)
    requires before.Keys == after.Keys
    ensures mixed.Keys == before.Keys
  {
    map l | l in before :: if l in passed then after[l] else before[l]
  }

  /** The column is ordered by the rows its neighbours have when the sweep comes to it. */
  ghost predicate SweptColumn(before: Columns, after: Columns, levels: map<Key, nat>, passed: set<nat>, level: nat,
                              neighbours: map<Key, seq<Key>>)
    requires before.Keys == after.Keys && level in before
  {
    var mixed := Mixed(before, after, passed);
    && (forall k | k in before[level] :: k in neighbours)
    && mixed[level] == before[level]
    && OrderedBy(before[level], after[level], Barycentres(mixed, levels, level, neighbours))
  }

  function LevelSet(order: seq<nat>): set<nat> {
    set l | l in order
  }

  /** Every level in turn */
  ghost predicate Swept(before: Columns, after: Columns, levels: map<Key, nat>, order: seq<nat>, neighbours: map<Key, seq<Key>>) {
    before.Keys == after.Keys
    && forall i | 0 <= i < |order| ::
         order[i] in before && SweptColumn(before, after, levels, LevelSet(order[..i]), order[i], neighbours)
  }

  lemma SweptEarlier(before: Columns, now: Columns, after: Columns, levels: map<Key, nat>, passed: set<nat>, level: nat,
                     neighbours: map<Key, seq<Key>>)
    requires before.Keys == now.Keys == after.Keys && level in before
    requires SweptColumn(before, now, levels, passed, level, neighbours)
    requires after[level] == now[level] && forall l | l in passed && l in before :: after[l] == now[l]
    ensures SweptColumn(before, after, levels, passed, level, neighbours)
  {
    assert Mixed(before, after, passed) == Mixed(before, now, passed);
  }

  lemma SweptLast(before: Columns, now: Columns, after: Columns, levels: map<Key, nat>, passed: set<nat>, level: nat,
                  neighbours: map<Key, seq<Key>>)
    requires before.Keys == now.Keys == after.Keys && level in before && level !in passed
    requires forall l | l in before && l !in passed :: now[l] == before[l]
    requires forall l | l in before && l != level :: after[l] == now[l]
    requires (forall k | k in now[level] :: k in neighbours)
          && OrderedBy(now[level], after[level], Barycentres(now, levels, level, neighbours))
    ensures SweptColumn(before, after, levels, passed, level, neighbours)
  {
    hide OrderedBy, Barycentres;
    assert Mixed(before, after, passed) == now;
  }

  lemma SweptStep(before: Columns, now: Columns, after: Columns, levels: map<Key, nat>, order: seq<nat>, i: nat,
                  neighbours: map<Key, seq<Key>>)
    requires i < |order| && order[i] !in order[..i] && order[i] in before
    requires Swept(before, now, levels, order[..i], neighbours) && after.Keys == now.Keys
    requires forall l | l in before && l !in order[..i] :: now[l] == before[l]
    requires forall l | l in now && l != order[i] :: after[l] == now[l]
    requires (forall k | k in now[order[i]] :: k in neighbours)
          && OrderedBy(now[order[i]], after[order[i]], Barycentres(now, levels, order[i], neighbours))
    ensures Swept(before, after, levels, order[..i + 1], neighbours)
  {
    hide OrderedBy, Barycentres, SweptColumn;
    var longer := order[..i + 1];
    forall j | 0 <= j < |longer|
      ensures longer[j] in before && SweptColumn(before, after, levels, LevelSet(longer[..j]), longer[j], neighbours)
    {
      assert longer[..j] == order[..j];
      if j < i {
        assert order[..i][..j] == order[..j] && order[..i][j] == order[j];
        assert forall l | l in order[..j] :: l in order[..i];
        SweptEarlier(before, now, after, levels, LevelSet(order[..j]), order[j], neighbours);
      } else {
        SweptLast(before, now, after, levels, LevelSet(order[..i]), order[i], neighbours);
      }
    }
  }

  /** `sweep`: the columns of the given levels, one after the other */
  method Sweep(ghost keys: seq<Key>, columns: Columns, levels: map<Key, nat>, order: seq<nat>, neighbours: map<Key, seq<Key>>)
    returns (after: Columns)
    requires (forall k :: k in levels <==> k in keys) && Arranged(keys, levels, columns)
    requires (forall l | l in order :: l in columns) && forall k | k in keys :: k in neighbours
    requires forall i, j | 0 <= i < j < |order| :: order[i] != order[j]
    ensures Arranged(keys, levels, after) && after.Keys == columns.Keys
    ensures forall l | l in columns :: |after[l]| == |columns[l]|
    ensures Swept(columns, after, levels, order, neighbours)
  {
    hide Arranged, Barycentres, OrderedBy, SweptColumn;
    after := columns;
    for i := 0 to |order|
      invariant Arranged(keys, levels, after) && after.Keys == columns.Keys
      invariant forall l | l in columns :: |after[l]| == |columns[l]|
      invariant forall l | l in columns && l !in order[..i] :: after[l] == columns[l]
      invariant Swept(columns, after, levels, order[..i], neighbours)
    {
      ghost var now := after;
      after := SortColumn(keys, after, levels, order[i], neighbours);
      assert order[i] !in order[..i];
      SweptStep(columns, now, after, levels, order, i, neighbours);
      assert order[..i + 1] == order[..i] + [order[i]];
    }
    assert order[..|order|] == order;
  }

  /** The levels in use, ascending */
  method SortedLevels(columns: Columns, bound: nat) returns (order: seq<nat>)
    requires forall l | l in columns :: l < bound
    ensures forall l :: l in order <==> l in columns
    ensures forall i, k | 0 <= i < k < |order| :: order[i] < order[k]
  {
    order := [];
    for l := 0 to bound
      invariant forall m :: m in order <==> m in columns && m < l
      invariant forall i, k | 0 <= i < k < |order| :: order[i] < order[k]
    {
      if l in columns {
        forall i | 0 <= i < |order|
          ensures order[i] < l
        {
          assert order[i] in order;
        }
        order := order + [l];
      }
    }
  }

  function Reversed(order: seq<nat>): (reversed: seq<nat>)
    ensures |reversed| == |order|
  {
    if order == [] then [] else [order[|order| - 1]] + Reversed(order[..|order| - 1])
  }

  lemma {:induction false} ReversedAt(order: seq<nat>, i: nat)
    requires i < |order|
    ensures Reversed(order)[i] == order[|order| - 1 - i]
  {
    if i > 0 {
      ReversedAt(order[..|order| - 1], i - 1);
    }
  }

  lemma ReversedDescends(order: seq<nat>)
    requires forall i, k | 0 <= i < k < |order| :: order[i] < order[k]
    ensures forall i, k | 0 <= i < k < |order| :: Reversed(order)[i] > Reversed(order)[k]
    ensures forall l :: l in Reversed(order) <==> l in order
  {
    forall i | 0 <= i < |order|
      ensures Reversed(order)[i] == order[|order| - 1 - i]
    {
      ReversedAt(order, i);
    }
    forall l | l in order
      ensures l in Reversed(order)
    {
      var i :| 0 <= i < |order| && order[i] == l;
      assert Reversed(order)[|order| - 1 - i] == l;
    }
  }

  function Below(columns: Columns, level: nat): set<nat> {
    set l | l in columns && l < level
  }

  function Above(columns: Columns, level: nat): set<nat> {
    set l | l in columns && l > level
  }

  lemma PassedBelow(columns: Columns, order: seq<nat>, i: nat)
    requires (forall l :: l in order <==> l in columns) && i < |order|
    requires forall i, k | 0 <= i < k < |order| :: order[i] < order[k]
    ensures LevelSet(order[..i]) == Below(columns, order[i])
  {
  }

  lemma PassedAbove(columns: Columns, order: seq<nat>, i: nat)
    requires (forall l :: l in order <==> l in columns) && i < |order|
    requires forall i, k | 0 <= i < k < |order| :: order[i] > order[k]
    ensures LevelSet(order[..i]) == Above(columns, order[i])
  {
  }

  /**
   `orderRowsByBarycentre`. The first sweep, to `half`, orders each column by the rows of predecessors, those
   in earlier columns being final for it; the second one orders each by successors, final in later columns.
   */
  method OrderRows(ghost keys: seq<Key>, columns: Columns, levels: map<Key, nat>, bound: nat,
                   incoming: map<Key, seq<Key>>, outgoing: map<Key, seq<Key>>)
    returns (after: Columns, ghost half: Columns)
    requires (forall k :: k in levels <==> k in keys) && Arranged(keys, levels, columns)
    requires forall l | l in columns :: l < bound
    requires forall k | k in keys :: k in incoming && k in outgoing
    ensures Arranged(keys, levels, after) && after.Keys == half.Keys == columns.Keys
    ensures forall l | l in columns :: |after[l]| == |columns[l]|
    ensures forall l | l in columns :: SweptColumn(columns, half, levels, Below(columns, l), l, incoming)
    ensures forall l | l in columns :: SweptColumn(half, after, levels, Above(columns, l), l, outgoing)
  {
    hide Arranged, Swept, SweptColumn, Reversed;
    var order := SortedLevels(columns, bound);
    var first := Sweep(keys, columns, levels, order, incoming);
    half := first;
    ReversedDescends(order);
    after := Sweep(keys, first, levels, Reversed(order), outgoing);
    SweptUp(columns, half, levels, order, incoming);
    SweptDown(half, after, levels, Reversed(order), outgoing);
    assert forall l :: Above(half, l) == Above(columns, l);
  }

  lemma SweptUp(before: Columns, after: Columns, levels: map<Key, nat>, order: seq<nat>, neighbours: map<Key, seq<Key>>)
    requires Swept(before, after, levels, order, neighbours)
    requires forall l :: l in order <==> l in before
    requires forall i, k | 0 <= i < k < |order| :: order[i] < order[k]
    ensures before.Keys == after.Keys
    ensures forall l | l in before :: SweptColumn(before, after, levels, Below(before, l), l, neighbours)
  {
    hide SweptColumn;
    forall l | l in before
      ensures SweptColumn(before, after, levels, Below(before, l), l, neighbours)
    {
      var i :| 0 <= i < |order| && order[i] == l;
      PassedBelow(before, order, i);
    }
  }

  lemma SweptDown(before: Columns, after: Columns, levels: map<Key, nat>, order: seq<nat>, neighbours: map<Key, seq<Key>>)
    requires Swept(before, after, levels, order, neighbours)
    requires forall l :: l in order <==> l in before
    requires forall i, k | 0 <= i < k < |order| :: order[i] > order[k]
    ensures before.Keys == after.Keys
    ensures forall l | l in before :: SweptColumn(before, after, levels, Above(before, l), l, neighbours)
  {
    hide SweptColumn;
    forall l | l in before
      ensures SweptColumn(before, after, levels, Above(before, l), l, neighbours)
    {
      var i :| 0 <= i < |order| && order[i] == l;
      PassedAbove(before, order, i);
    }
  }

  // ---------------------------------------------------------------------------
  // What the last sweep leaves
  // ---------------------------------------------------------------------------

  /** The neighbours in other columns are all in columns a sweep has passed. */
  ghost predicate AllPassed(levels: map<Key, nat>, passed: set<nat>, level: nat, neighbours: seq<Key>) {
    forall n | n in neighbours && n in levels && levels[n] != level :: levels[n] in passed
  }

  lemma {:induction false} PassedRowsAreFinal(before: Columns, after: Columns, levels: map<Key, nat>, passed: set<nat>, level: nat,
                                              neighbours: seq<Key>)
    requires before.Keys == after.Keys && AllPassed(levels, passed, level, neighbours)
    ensures RowsAway(Mixed(before, after, passed), levels, level, neighbours) == RowsAway(after, levels, level, neighbours)
  {
    if neighbours != [] {
      assert neighbours == [neighbours[0]] + neighbours[1..];
      PassedRowsAreFinal(before, after, levels, passed, level, neighbours[1..]);
    }
  }

  /**
   Two nodes of a column whose neighbours in other columns are all in passed ones, as all successors are when
   edges go right: the lower one has a mean row of final neighbours at least as great, and equal means keep
   the order of the sweep before.
   */
  lemma RowsFollowNeighbours(before: Columns, after: Columns, levels: map<Key, nat>, passed: set<nat>, level: nat,
                             neighbours: map<Key, seq<Key>>, i: nat, k: nat)
    requires before.Keys == after.Keys && level in before && SweptColumn(before, after, levels, passed, level, neighbours)
    requires i < k < |after[level]| && after[level][i] in neighbours && after[level][k] in neighbours
    requires AllPassed(levels, passed, level, neighbours[after[level][i]])
    requires AllPassed(levels, passed, level, neighbours[after[level][k]])
    requires RowsAway(after, levels, level, neighbours[after[level][i]]) != []
    requires RowsAway(after, levels, level, neighbours[after[level][k]]) != []
    ensures Barycentre(after, levels, level, neighbours[after[level][i]], i)
         <= Barycentre(after, levels, level, neighbours[after[level][k]], k)
  {
    hide OfRank, RowsAway, AllPassed;
    var a, b, mixed := after[level][i], after[level][k], Mixed(before, after, passed);
    var rank := Barycentres(mixed, levels, level, neighbours);
    PassedRowsAreFinal(before, after, levels, passed, level, neighbours[a]);
    PassedRowsAreFinal(before, after, levels, passed, level, neighbours[b]);
    assert a in after[level] && b in after[level];
    assert rank[a] <= rank[b];
  }

  /** All edges out of the node climb, and there are some. */
  ghost predicate Climbs(edges: seq<Edge>, levels: map<Key, nat>, u: Key) {
    Up(edges, levels, u) && Targets(edges, u) != []
  }

  /** Down each column the mean rows of the successors of such nodes never fall. */
  ghost predicate RowsOrdered(edges: seq<Edge>, levels: map<Key, nat>, columns: Columns) {
    forall l, i, k | l in columns && 0 <= i < k < |columns[l]| ::
      RowsInOrder(edges, levels, columns, l, columns[l][i], columns[l][k])
  }

  /** The rows of some nodes, added up */
  function RowTotal(columns: Columns, levels: map<Key, nat>, nodes: seq<Key>): nat {
    if nodes == [] then 0 else RowTotal(columns, levels, nodes[..|nodes| - 1]) + RowOf(columns, levels, nodes[|nodes| - 1])
  }

  /** The mean row of the successors of a is at most that of b. */
  ghost predicate RowsInOrder(edges: seq<Edge>, levels: map<Key, nat>, columns: Columns, l: nat, a: Key, b: Key) {
    Climbs(edges, levels, a) && Climbs(edges, levels, b) ==>
      var above, below := Targets(edges, a), Targets(edges, b);
      RowTotal(columns, levels, above) * |below| <= RowTotal(columns, levels, below) * |above|
  }

  lemma {:induction false} SumAppend(rows: seq<nat>, row: nat)
    ensures Sum(rows + [row]) == Sum(rows) + row
  {
    if rows != [] {
      assert (rows + [row])[1..] == rows[1..] + [row];
      SumAppend(rows[1..], row);
    }
  }

  lemma {:induction false} RowsAwayAppend(columns: Columns, levels: map<Key, nat>, level: nat, neighbours: seq<Key>, key: Key)
    ensures RowsAway(columns, levels, level, neighbours + [key])
         == RowsAway(columns, levels, level, neighbours)
            + if key in levels && levels[key] == level then [] else [RowOf(columns, levels, key)]
  {
    hide RowOf;
    if neighbours == [] {
      assert (neighbours + [key])[1..] == [];
    } else {
      assert (neighbours + [key])[1..] == neighbours[1..] + [key];
      RowsAwayAppend(columns, levels, level, neighbours[1..], key);
    }
  }

  /** The neighbours in other columns, in order */
  function Away(levels: map<Key, nat>, level: nat, neighbours: seq<Key>): seq<Key> {
    if neighbours == [] then []
    else
      var n := |neighbours| - 1;
      Away(levels, level, neighbours[..n])
      + if neighbours[n] !in levels || levels[neighbours[n]] != level then [neighbours[n]] else []
  }

  lemma AwayStep(levels: map<Key, nat>, level: nat, neighbours: seq<Key>, key: Key)
    ensures Away(levels, level, neighbours + [key])
         == Away(levels, level, neighbours) + if key !in levels || levels[key] != level then [key] else []
  {
    assert (neighbours + [key])[..|neighbours|] == neighbours;
  }

  lemma RowTotalStep(columns: Columns, levels: map<Key, nat>, nodes: seq<Key>, key: Key)
    ensures RowTotal(columns, levels, nodes + [key]) == RowTotal(columns, levels, nodes) + RowOf(columns, levels, key)
  {
    hide RowOf;
    assert (nodes + [key])[..|nodes|] == nodes;
  }

  lemma NothingAway(columns: Columns, levels: map<Key, nat>, level: nat)
    ensures RowsAway(columns, levels, level, []) == [] && Away(levels, level, []) == []
    ensures Sum([]) == 0 && RowTotal(columns, levels, []) == 0
  {
  }

  lemma {:induction false} RowsAwayTotal(columns: Columns, levels: map<Key, nat>, level: nat, neighbours: seq<Key>)
    ensures |RowsAway(columns, levels, level, neighbours)| == |Away(levels, level, neighbours)|
    ensures Sum(RowsAway(columns, levels, level, neighbours)) == RowTotal(columns, levels, Away(levels, level, neighbours))
  {
    hide RowOf, RowsAway, Away, Sum, RowTotal;
    if neighbours == [] {
      NothingAway(columns, levels, level);
    } else {
      var init, last := neighbours[..|neighbours| - 1], neighbours[|neighbours| - 1];
      var rows, away := RowsAway(columns, levels, level, init), Away(levels, level, init);
      assert neighbours == init + [last];
      RowsAwayTotal(columns, levels, level, init);
      RowsAwayAppend(columns, levels, level, init, last);
      AwayStep(levels, level, init, last);
      SumAppend(rows, RowOf(columns, levels, last));
      RowTotalStep(columns, levels, away, last);
      assert rows + [] == rows && away + [] == away;
    }
  }

  /** What a sweep sorts by: the mean row of the neighbours in other columns, or the own row if there are none */
  lemma BarycentreExactly(columns: Columns, levels: map<Key, nat>, level: nat, neighbours: seq<Key>, row: nat)
    ensures var away := Away(levels, level, neighbours);
            var barycentre := Barycentre(columns, levels, level, neighbours, row);
            if away == [] then barycentre == row as real
            else barycentre * |away| as real == RowTotal(columns, levels, away) as real
  {
    hide Away, RowTotal, RowsAway, Sum;
    RowsAwayTotal(columns, levels, level, neighbours);
  }

  /** The rank of the node in a row of a column: the mean row of its neighbours in other columns, or that row */
  lemma RankExactly(columns: Columns, levels: map<Key, nat>, level: nat, neighbours: map<Key, seq<Key>>, row: nat)
    requires level in columns && (forall k | k in columns[level] :: k in neighbours)
    requires Distinct(columns[level]) && row < |columns[level]|
    ensures var key := columns[level][row];
            var rank, away := Barycentres(columns, levels, level, neighbours), Away(levels, level, neighbours[key]);
            && rank.Keys == (set k | k in columns[level])
            && if away == [] then rank[key] == row as real
               else rank[key] * |away| as real == RowTotal(columns, levels, away) as real
  {
    hide Away, RowTotal, Barycentre, IndexOf, Distinct;
    var key := columns[level][row];
    assert key in columns[level];
    IndexOfRow(columns[level], row);
    BarycentreExactly(columns, levels, level, neighbours[key], row);
  }

  /** The row of a node is its place in its column. */
  lemma RowIsThePlace(keys: seq<Key>, levels: map<Key, nat>, columns: Columns, key: Key)
    requires (forall k :: k in levels <==> k in keys) && Arranged(keys, levels, columns) && key in keys
    ensures RowOf(columns, levels, key) < |columns[levels[key]]| && columns[levels[key]][RowOf(columns, levels, key)] == key
  {
    IndexOfFinds(columns[levels[key]], key);
  }

  lemma {:induction false} AllAway(levels: map<Key, nat>, level: nat, neighbours: seq<Key>)
    requires forall n | n in neighbours :: n in levels && levels[n] != level
    ensures Away(levels, level, neighbours) == neighbours
  {
    if neighbours != [] {
      var n := |neighbours| - 1;
      AllAway(levels, level, neighbours[..n]);
      assert neighbours == neighbours[..n] + [neighbours[n]];
    }
  }

  /** Comparing two means without dividing */
  lemma MeansCompare(x: real, m: nat, sumX: nat, y: real, n: nat, sumY: nat)
    requires m > 0 && n > 0 && x * m as real == sumX as real && y * n as real == sumY as real && x <= y
    ensures sumX * n <= sumY * m
  {
    var mm, nn := m as real, n as real;
    assert (y - x) * (mm * nn) >= 0.0;
    assert (y - x) * (mm * nn) == (y * nn) * mm - (x * mm) * nn;
    assert (sumX * n) as real == (x * mm) * nn && (sumY * m) as real == (y * nn) * mm;
  }

  lemma ClimbsPast(keys: seq<Key>, edges: seq<Edge>, levels: map<Key, nat>, columns: Columns, u: Key)
    requires (forall k :: k in levels <==> k in keys) && Arranged(keys, levels, columns) && Climbs(edges, levels, u)
    ensures u in levels && AllPassed(levels, Above(columns, levels[u]), levels[u], Targets(edges, u))
    ensures RowsAway(columns, levels, levels[u], Targets(edges, u)) != []
    ensures Away(levels, levels[u], Targets(edges, u)) == Targets(edges, u)
  {
    hide Targets;
    forall v | v in Targets(edges, u)
      ensures v in levels && levels[v] > levels[u]
    {
      TargetsAreEdges(edges, u, v);
      assert Edge(u, v).from == u;
    }
    assert Targets(edges, u)[0] in Targets(edges, u);
    AllAway(levels, levels[u], Targets(edges, u));
  }

  lemma SweptRowsOrdered(keys: seq<Key>, edges: seq<Edge>, levels: map<Key, nat>, half: Columns, columns: Columns,
                         outgoing: map<Key, seq<Key>>)
    requires (forall k :: k in levels <==> k in keys) && Arranged(keys, levels, columns) && half.Keys == columns.Keys
    requires forall k | k in keys :: k in outgoing && outgoing[k] == Targets(edges, k)
    requires forall l | l in columns :: SweptColumn(half, columns, levels, Above(columns, l), l, outgoing)
    ensures RowsOrdered(edges, levels, columns)
  {
    hide SweptColumn, RowsInOrder, Above;
    forall l, i, k | l in columns && 0 <= i < k < |columns[l]|
      ensures RowsInOrder(edges, levels, columns, l, columns[l][i], columns[l][k])
    {
      PairInOrder(keys, edges, levels, half, columns, outgoing, l, i, k);
    }
  }

  /** Comparing barycentres of nodes whose neighbours are all in other columns */
  lemma MeansInOrder(columns: Columns, levels: map<Key, nat>, l: nat, above: seq<Key>, i: nat, below: seq<Key>, k: nat)
    requires Away(levels, l, above) == above != [] && Away(levels, l, below) == below != []
    requires Barycentre(columns, levels, l, above, i) <= Barycentre(columns, levels, l, below, k)
    ensures RowTotal(columns, levels, above) * |below| <= RowTotal(columns, levels, below) * |above|
  {
    BarycentreExactly(columns, levels, l, above, i);
    BarycentreExactly(columns, levels, l, below, k);
    hide Barycentre, Away, RowTotal;
    MeansCompare(Barycentre(columns, levels, l, above, i), |above|, RowTotal(columns, levels, above),
                 Barycentre(columns, levels, l, below, k), |below|, RowTotal(columns, levels, below));
  }

  lemma PairInOrder(keys: seq<Key>, edges: seq<Edge>, levels: map<Key, nat>, half: Columns, columns: Columns,
                    outgoing: map<Key, seq<Key>>, l: nat, i: nat, k: nat)
    requires (forall k :: k in levels <==> k in keys) && Arranged(keys, levels, columns) && half.Keys == columns.Keys
    requires forall k | k in keys :: k in outgoing && outgoing[k] == Targets(edges, k)
    requires l in columns && i < k < |columns[l]| && SweptColumn(half, columns, levels, Above(columns, l), l, outgoing)
    ensures RowsInOrder(edges, levels, columns, l, columns[l][i], columns[l][k])
  {
    hide SweptColumn, Barycentre, RowsAway, AllPassed, Targets, Above, Away, RowTotal, Up;
    var a, b := columns[l][i], columns[l][k];
    assert a in columns[l] && b in columns[l];
    if Climbs(edges, levels, a) && Climbs(edges, levels, b) {
      ClimbsPast(keys, edges, levels, columns, a);
      ClimbsPast(keys, edges, levels, columns, b);
      RowsFollowNeighbours(half, columns, levels, Above(columns, l), l, outgoing, i, k);
      MeansInOrder(columns, levels, l, Targets(edges, a), i, Targets(edges, b), k);
    }
  }

  // ---------------------------------------------------------------------------
  // The layout
  // ---------------------------------------------------------------------------

  function PositionOf(columns: Columns, levels: map<Key, nat>, maxLevel: nat, maxRows: nat, key: Key): Position
    requires key in levels && levels[key] in columns
  {
    var column := columns[levels[key]];
    Position(Rounded(X(levels[key], maxLevel)), Rounded(Y(IndexOf(column, key), |column|, maxRows)))
  }

  predicate Bounds(columns: Columns, maxLevel: nat, maxRows: nat) {
    forall l | l in columns :: l <= maxLevel && |columns[l]| <= maxRows
  }

  lemma {:induction false} IndexOfFinds(column: seq<Key>, key: Key)
    ensures key in column ==> IndexOf(column, key) < |column| && column[IndexOf(column, key)] == key
  {
    if column != [] {
      IndexOfFinds(column[1..], key);
      assert column == [column[0]] + column[1..];
    }
  }

  predicate OnCanvas(p: Position) {
    4.0 <= p.x <= 88.0 && 8.0 <= p.y <= 88.0
  }

  lemma PlacedOnCanvas(keys: seq<Key>, levels: map<Key, nat>, columns: Columns, maxLevel: nat, maxRows: nat, key: Key)
    requires (forall k :: k in levels <==> k in keys) && Arranged(keys, levels, columns) && key in keys
    requires Bounds(columns, maxLevel, maxRows)
    ensures OnCanvas(PositionOf(columns, levels, maxLevel, maxRows, key))
  {
    hide X, Y, Rounded;
    var column := columns[levels[key]];
    IndexOfFinds(column, key);
    XFits(levels[key], maxLevel);
    YFits(IndexOf(column, key), |column|, maxRows);
    RoundedBetween(X(levels[key], maxLevel), 4, 88);
    RoundedBetween(Y(IndexOf(column, key), |column|, maxRows), 8, 88);
  }

  lemma PlacedRight(columns: Columns, levels: map<Key, nat>, maxLevel: nat, maxRows: nat, a: Key, b: Key)
    requires a in levels && b in levels && levels[a] in columns && levels[b] in columns
    requires levels[a] < levels[b] <= maxLevel <= 8400
    ensures PositionOf(columns, levels, maxLevel, maxRows, a).x < PositionOf(columns, levels, maxLevel, maxRows, b).x
  {
    hide X, Y, Rounded;
    XSeparates(levels[a], levels[b], maxLevel);
    RoundedSeparates(X(levels[a], maxLevel), X(levels[b], maxLevel));
  }

  /** The later of two nodes of a column stands lower. */
  lemma PlacedLower(keys: seq<Key>, levels: map<Key, nat>, columns: Columns, maxLevel: nat, maxRows: nat, a: Key, b: Key)
    requires (forall k :: k in levels <==> k in keys) && Arranged(keys, levels, columns) && a in keys && b in keys
    requires levels[a] == levels[b] && IndexOf(columns[levels[a]], a) < IndexOf(columns[levels[a]], b)
    requires Bounds(columns, maxLevel, maxRows) && maxRows <= 8001
    ensures PositionOf(columns, levels, maxLevel, maxRows, a).y < PositionOf(columns, levels, maxLevel, maxRows, b).y
    ensures PositionOf(columns, levels, maxLevel, maxRows, a).x == PositionOf(columns, levels, maxLevel, maxRows, b).x
  {
    hide X, Y, Rounded;
    var column := columns[levels[a]];
    IndexOfFinds(column, a);
    IndexOfFinds(column, b);
    var i, k := IndexOf(column, a), IndexOf(column, b);
    YSeparates(i, k, |column|, maxRows);
    RoundedSeparates(Y(i, |column|, maxRows), Y(k, |column|, maxRows));
  }

  /** The greatest level and the greatest number of rows, which is one at least */
  ghost predicate Extents(columns: Columns, maxLevel: nat, maxRows: nat) {
    && Bounds(columns, maxLevel, maxRows) && maxRows >= 1
    && (maxLevel == 0 || maxLevel in columns)
    && (maxRows == 1 || exists l :: l in columns && |columns[l]| == maxRows)
  }

  method Extent(columns: Columns, order: seq<nat>) returns (maxLevel: nat, maxRows: nat)
    requires forall l :: l in order <==> l in columns
    ensures Extents(columns, maxLevel, maxRows)
  {
    maxLevel, maxRows := 0, 1;
    for i := 0 to |order|
      invariant maxRows >= 1
      invariant forall l | l in order[..i] :: l <= maxLevel && |columns[l]| <= maxRows
      invariant maxLevel == 0 || maxLevel in columns
      invariant maxRows == 1 || exists l :: l in columns && |columns[l]| == maxRows
    {
      assert order[..i + 1] == order[..i] + [order[i]];
      assert order[i] in order;
      if order[i] > maxLevel {
        maxLevel := order[i];
      }
      if |columns[order[i]]| > maxRows {
        maxRows := |columns[order[i]]|;
      }
    }
    assert order[..|order|] == order;
  }

  lemma {:induction false} IndexOfRow(column: seq<Key>, row: nat)
    requires Distinct(column) && row < |column|
    ensures IndexOf(column, column[row]) == row
  {
    IndexOfFinds(column, column[row]);
  }

  /** The rows of one column */
  method PlaceColumn(before: map<Key, Position>, level: nat, column: seq<Key>, maxLevel: nat, maxRows: nat)
    returns (after: map<Key, Position>)
    requires Distinct(column)
    ensures forall k :: k in after <==> k in before || k in column
    ensures forall k | k in after && k !in column :: after[k] == before[k]
    ensures forall k | k in column ::
              after[k] == Position(Rounded(X(level, maxLevel)), Rounded(Y(IndexOf(column, k), |column|, maxRows)))
  {
    hide X, Y, Rounded, IndexOf;
    after := before;
    for row := 0 to |column|
      invariant forall k :: k in after <==> k in before || k in column[..row]
      invariant forall k | k in after && k !in column[..row] :: after[k] == before[k]
      invariant forall k | k in column[..row] ::
        after[k] == Position(Rounded(X(level, maxLevel)), Rounded(Y(IndexOf(column, k), |column|, maxRows)))
    {
      assert column[..row + 1] == column[..row] + [column[row]];
      IndexOfRow(column, row);
      after := after[column[row] := Position(Rounded(X(level, maxLevel)), Rounded(Y(row, |column|, maxRows)))];
    }
    assert column[..|column|] == column;
  }

  /** Every column in turn */
  method PlaceAll(ghost keys: seq<Key>, levels: map<Key, nat>, columns: Columns, order: seq<nat>, maxLevel: nat, maxRows: nat)
    returns (positions: map<Key, Position>)
    requires (forall k :: k in levels <==> k in keys) && Arranged(keys, levels, columns)
    requires forall l :: l in order <==> l in columns
    ensures forall k :: k in positions <==> k in keys
    ensures forall k | k in keys :: positions[k] == PositionOf(columns, levels, maxLevel, maxRows, k)
  {
    hide X, Y, Rounded, IndexOf;
    positions := map[];
    for i := 0 to |order|
      invariant forall k :: k in positions <==> k in keys && levels[k] in order[..i]
      invariant forall k | k in positions :: positions[k] == PositionOf(columns, levels, maxLevel, maxRows, k)
    {
      assert order[..i + 1] == order[..i] + [order[i]];
      assert order[i] in order;
      positions := PlaceColumn(positions, order[i], columns[order[i]], maxLevel, maxRows);
    }
    assert order[..|order|] == order;
  }

  lemma ColumnsFit(keys: seq<Key>, levels: map<Key, nat>, columns: Columns, l: nat)
    requires (forall k :: k in levels <==> k in keys) && Arranged(keys, levels, columns) && l in columns
    ensures 1 <= |columns[l]| <= |keys|
  {
    KeySetSize(keys);
    DistinctFits(columns[l], KeySet(keys));
  }

  /** Every node is at the place of its level and of its row in that column. */
  ghost predicate PlacedExactly(levels: map<Key, nat>, columns: Columns, maxLevel: nat, maxRows: nat, positions: map<Key, Position>) {
    && Extents(columns, maxLevel, maxRows)
    && forall k | k in positions ::
         && k in levels && levels[k] in columns
         && positions[k] == PositionOf(columns, levels, maxLevel, maxRows, k)
  }

  /** The columns are those of the nodes in order, swept to the right by predecessors and back by successors. */
  ghost predicate SweptTwice(keys: seq<Key>, edges: seq<Edge>, levels: map<Key, nat>, first: Columns, half: Columns, columns: Columns) {
    && InNodeOrder(keys, levels, first) && first.Keys == half.Keys == columns.Keys
    && (forall l | l in first :: SweptColumn(first, half, levels, Below(first, l), l, map k | k in keys :: Sources(edges, k)))
    && (forall l | l in first :: SweptColumn(half, columns, levels, Above(first, l), l, map k | k in keys :: Targets(edges, k)))
  }

  /** The places of two nodes differ, columns stand in the order of the levels, rows in the order of the columns. */
  ghost predicate PlacedInOrder(levels: map<Key, nat>, columns: Columns, positions: map<Key, Position>, a: Key, b: Key)
    requires a in positions && b in positions && a in levels && b in levels && levels[a] in columns && levels[b] in columns
  {
    && (positions[a] == positions[b] ==> a == b)
    && (positions[a].x < positions[b].x <==> levels[a] < levels[b])
    && (levels[a] == levels[b] ==>
          (positions[a].y < positions[b].y <==> IndexOf(columns[levels[a]], a) < IndexOf(columns[levels[b]], b)))
  }

  /**
   `layoutSeedNodes`, for the graphs on which the level queue ends. Every node is on the canvas, at the place of
   its level and row; up to 8000 of them never share a place, and x and y are in the order of levels that are
   longest paths and of columns ordered by successors. `popped` lists the nodes the level queue pops.
   */
  method LayoutSeedNodes(nodes: seq<Node>, edges: seq<Edge>)
    returns (positions: map<Key, Position>, ghost levels: map<Key, nat>, ghost popped: seq<Key>,
             ghost first: Columns, ghost half: Columns, ghost columns: Columns, ghost maxLevel: nat, ghost maxRows: nat)
    requires Distinct(KeysOf(nodes)) && QueueEnds(nodes, KeptEdges(KeysOf(nodes), edges))
    ensures forall k :: k in positions <==> k in KeysOf(nodes)
    ensures forall k | k in positions :: OnCanvas(positions[k])
    ensures LongestLevels(nodes, KeptEdges(KeysOf(nodes), edges), levels, popped)
    ensures (forall k :: k in levels <==> k in KeysOf(nodes)) && Arranged(KeysOf(nodes), levels, columns)
    ensures SweptTwice(KeysOf(nodes), KeptEdges(KeysOf(nodes), edges), levels, first, half, columns)
    ensures PlacedExactly(levels, columns, maxLevel, maxRows, positions)
    ensures RowsOrdered(KeptEdges(KeysOf(nodes), edges), levels, columns)
    ensures |nodes| <= 8000 ==> forall a, b | a in positions && b in positions :: PlacedInOrder(levels, columns, positions, a, b)
  {
    hide KeptEdges, LongestLevels, Arranged, OnCanvas, PositionOf, RowsOrdered, SweptColumn, PlacedInOrder, QueueEnds;
    hide InNodeOrder, SweptTwice, PlacedExactly;
    var keys := KeysOf(nodes);
    ghost var kept := KeptEdges(keys, edges);
    KeptEdgesAreUsable(keys, edges);
    var incoming, outgoing := BuildNeighbours(keys, edges);
    var levelOf;
    levelOf, popped := LongestPathLevels(nodes, incoming, outgoing, kept);
    levels := levelOf;
    LevelsOfNodes(nodes, kept, levels, popped);
    var table := BuildColumns(keys, levelOf);
    first := table;
    LevelsBounded(keys, levels, table, |nodes|);
    table, half := OrderRows(keys, table, levelOf, |nodes|, incoming, outgoing);
    columns := table;
    assert forall l :: Above(half, l) == Above(columns, l);
    SweptBoth(keys, kept, levels, first, half, columns, incoming, outgoing);
    SweptRowsOrdered(keys, kept, levels, half, columns, outgoing);
    LevelsBounded(keys, levels, columns, |nodes|);
    var order := SortedLevels(table, |nodes|);
    var lastLevel, mostRows := Extent(table, order);
    maxLevel, maxRows := lastLevel, mostRows;
    positions := PlaceAll(keys, levelOf, table, order, lastLevel, mostRows);
    PlacedFacts(keys, levels, columns, maxLevel, maxRows, positions);
    PlacedAll(keys, levels, columns, maxLevel, maxRows, positions);
  }

  lemma SweptBoth(keys: seq<Key>, edges: seq<Edge>, levels: map<Key, nat>, first: Columns, half: Columns, columns: Columns,
                  incoming: map<Key, seq<Key>>, outgoing: map<Key, seq<Key>>)
    requires AreNeighbours(keys, edges, incoming, outgoing) && InNodeOrder(keys, levels, first)
    requires first.Keys == half.Keys == columns.Keys
    requires forall l | l in first :: SweptColumn(first, half, levels, Below(first, l), l, incoming)
    requires forall l | l in first :: SweptColumn(half, columns, levels, Above(first, l), l, outgoing)
    ensures SweptTwice(keys, edges, levels, first, half, columns)
  {
    hide SweptColumn, InNodeOrder, Sources, Targets;
    assert incoming == map k | k in keys :: Sources(edges, k);
    assert outgoing == map k | k in keys :: Targets(edges, k);
  }

  lemma PlacedAll(keys: seq<Key>, levels: map<Key, nat>, columns: Columns, maxLevel: nat, maxRows: nat,
                  positions: map<Key, Position>)
    requires (forall k :: k in levels <==> k in keys) && Arranged(keys, levels, columns)
    requires Extents(columns, maxLevel, maxRows)
    requires forall k :: k in positions <==> k in keys
    requires forall k | k in keys :: positions[k] == PositionOf(columns, levels, maxLevel, maxRows, k)
    ensures PlacedExactly(levels, columns, maxLevel, maxRows, positions)
  {
    hide PositionOf;
  }

  lemma LevelsOfNodes(nodes: seq<Node>, edges: seq<Edge>, levels: map<Key, nat>, order: seq<Key>)
    requires LongestLevels(nodes, edges, levels, order)
    ensures forall v :: v in levels <==> v in KeysOf(nodes)
    ensures forall v | v in levels :: levels[v] < |nodes|
  {
    hide HasEndlessPaths, IsLongest, Blocked, Up, HasSourceIn, LevelFits, BehindAllReached, StartIsSource, Acyclic, StartKey;
  }

  lemma LevelsBounded(keys: seq<Key>, levels: map<Key, nat>, columns: Columns, bound: nat)
    requires (forall k :: k in levels <==> k in keys) && Arranged(keys, levels, columns)
    requires forall k | k in levels :: levels[k] < bound
    ensures forall l | l in columns :: l < bound
  {
    forall l | l in columns
      ensures l < bound
    {
      var k := columns[l][0];
      assert l in columns && k in columns[l];
      assert levels[k] == l;
    }
  }

  lemma PlacedFacts(keys: seq<Key>, levels: map<Key, nat>, columns: Columns, maxLevel: nat, maxRows: nat,
                    positions: map<Key, Position>)
    requires (forall k :: k in levels <==> k in keys) && Arranged(keys, levels, columns)
    requires Bounds(columns, maxLevel, maxRows)
    requires maxLevel == 0 || maxLevel in columns
    requires maxRows == 1 || exists l :: l in columns && |columns[l]| == maxRows
    requires forall k | k in levels :: levels[k] < |keys|
    requires forall k :: k in positions <==> k in keys
    requires forall k | k in keys :: positions[k] == PositionOf(columns, levels, maxLevel, maxRows, k)
    ensures forall k | k in positions :: OnCanvas(positions[k])
    ensures |keys| <= 8000 ==> forall a, b | a in positions && b in positions :: PlacedInOrder(levels, columns, positions, a, b)
  {
    hide OnCanvas, PositionOf, PlacedInOrder;
    forall k | k in positions
      ensures OnCanvas(positions[k])
    {
      PlacedOnCanvas(keys, levels, columns, maxLevel, maxRows, k);
    }
    if |keys| <= 8000 {
      ExtentFits(keys, levels, columns, maxLevel, maxRows);
      forall a, b | a in positions && b in positions
        ensures PlacedInOrder(levels, columns, positions, a, b)
      {
        PlacedOrder(keys, levels, columns, maxLevel, maxRows, positions, a, b);
      }
    }
  }

  lemma PlacedOrder(keys: seq<Key>, levels: map<Key, nat>, columns: Columns, maxLevel: nat, maxRows: nat,
                    positions: map<Key, Position>, a: Key, b: Key)
    requires (forall k :: k in levels <==> k in keys) && Arranged(keys, levels, columns) && a in keys && b in keys
    requires Bounds(columns, maxLevel, maxRows) && maxLevel <= 8400 && maxRows <= 8001
    requires forall k :: k in positions <==> k in keys
    requires forall k | k in keys :: positions[k] == PositionOf(columns, levels, maxLevel, maxRows, k)
    ensures PlacedInOrder(levels, columns, positions, a, b)
  {
    hide X, Y, Rounded;
    if levels[a] < levels[b] {
      PlacedRight(columns, levels, maxLevel, maxRows, a, b);
    } else if levels[b] < levels[a] {
      PlacedRight(columns, levels, maxLevel, maxRows, b, a);
    } else if a != b {
      IndexOfFinds(columns[levels[a]], a);
      IndexOfFinds(columns[levels[a]], b);
      if IndexOf(columns[levels[a]], a) < IndexOf(columns[levels[a]], b) {
        PlacedLower(keys, levels, columns, maxLevel, maxRows, a, b);
      } else {
        PlacedLower(keys, levels, columns, maxLevel, maxRows, b, a);
      }
    }
  }

  lemma ExtentFits(keys: seq<Key>, levels: map<Key, nat>, columns: Columns, maxLevel: nat, maxRows: nat)
    requires (forall k :: k in levels <==> k in keys) && Arranged(keys, levels, columns)
    requires maxLevel == 0 || maxLevel in columns
    requires maxRows == 1 || exists l :: l in columns && |columns[l]| == maxRows
    requires forall k | k in levels :: levels[k] < |keys|
    ensures maxLevel <= |keys| && (maxRows == 1 || maxRows <= |keys|)
  {
    LevelsBounded(keys, levels, columns, |keys|);
    if maxRows != 1 {
      var l :| l in columns && |columns[l]| == maxRows;
      ColumnsFit(keys, levels, columns, l);
    }
  }
}
