/**
 The difference between two versions, list by list: what was added, removed or changed, by key. Items
 carry their database id, and they are compared whole.
 */
module VersionDiff {

  /** One entry of a snapshot list; `rest` is the JSON text of everything but the id and the key. */
  datatype Item = Item(id: nat, key: string, rest: string)

  datatype Change = Change(before: Item, after: Item)

  datatype Diff = Diff(added: seq<Item>, removed: seq<Item>, changed: seq<Change>)

  /** Of several items with one key the last counts. */
  function ByKey(items: seq<Item>): (m: map<string, Item>)
    ensures forall k | k in m :: m[k].key == k
  {
    if items == [] then map[]
    else
      var last := items[|items| - 1];
      ByKey(items[..|items| - 1])[last.key := last]
  }

  ghost predicate IsDiff(a: map<string, Item>, b: map<string, Item>, d: Diff) {
    && (forall x :: x in d.added <==> x.key in b && b[x.key] == x && x.key !in a)
    && (forall x :: x in d.removed <==> x.key in a && a[x.key] == x && x.key !in b)
    && (forall c :: c in d.changed <==>
          c.before.key in a && c.before.key in b && c == Change(a[c.before.key], b[c.before.key]) && c.before != c.after)
  }

  // ---------------------------------------------------------------------------
  // The order of the lists
  // ---------------------------------------------------------------------------

  function KeysOf(items: seq<Item>): (keys: seq<string>)
    ensures |keys| == |items| && forall i | 0 <= i < |items| :: keys[i] == items[i].key
  {
    seq(|items|, i requires 0 <= i < |items| => items[i].key)
  }

  function ChangedKeys(changed: seq<Change>): (keys: seq<string>)
    ensures |keys| == |changed| && forall i | 0 <= i < |changed| :: keys[i] == changed[i].before.key
  {
    seq(|changed|, i requires 0 <= i < |changed| => changed[i].before.key)
  }

  /** The first place of a key */
  function IndexIn(keys: seq<string>, key: string): nat {
    if keys == [] || keys[0] == key then 0 else 1 + IndexIn(keys[1..], key)
  }

  /** Distinct keys in the order in which they first stand in the list */
  ghost predicate Rising(keys: seq<string>, list: seq<string>) {
    forall i, k | 0 <= i < k < |keys| :: IndexIn(list, keys[i]) < IndexIn(list, keys[k])
  }

  /** Additions in the order of the right side, the others in the order of the left one, each key once */
  ghost predicate InOrder(left: seq<Item>, right: seq<Item>, d: Diff) {
    && Rising(KeysOf(d.added), KeysOf(right))
    && Rising(KeysOf(d.removed), KeysOf(left))
    && Rising(ChangedKeys(d.changed), KeysOf(left))
  }

  lemma {:induction false} IndexInFinds(keys: seq<string>, key: string)
    ensures key in keys <==> IndexIn(keys, key) < |keys|
    ensures key in keys ==> keys[IndexIn(keys, key)] == key
    ensures forall i | 0 <= i < |keys| && keys[i] == key :: IndexIn(keys, key) <= i
  {
    if keys != [] {
      IndexInFinds(keys[1..], key);
      assert keys == [keys[0]] + keys[1..];
    }
  }

  lemma {:induction false} IndexInAppend(a: seq<string>, b: seq<string>, key: string)
    ensures IndexIn(a + b, key) == if key in a then IndexIn(a, key) else |a| + IndexIn(b, key)
  {
    if a == [] {
      assert a + b == b;
    } else {
      assert (a + b)[1..] == a[1..] + b;
      IndexInAppend(a[1..], b, key);
    }
  }

  lemma IndexOfNew(keys: seq<string>, i: nat)
    requires i < |keys| && keys[i] !in keys[..i]
    ensures IndexIn(keys, keys[i]) == i
  {
    IndexInFinds(keys, keys[i]);
    FirstKeys(keys, i);
  }

  lemma FirstKeys(keys: seq<string>, n: nat)
    requires n <= |keys|
    ensures forall i | 0 <= i < n :: keys[i] in keys[..n]
    ensures keys != [] ==> keys[0] in keys
  {
    assert forall i | 0 <= i < n :: keys[..n][i] == keys[i];
  }

  /** What stands behind everything so far may follow it. */
  lemma RisingAppend(keys: seq<string>, list: seq<string>, key: string)
    requires Rising(keys, list) && forall i | 0 <= i < |keys| :: IndexIn(list, keys[i]) < IndexIn(list, key)
    ensures Rising(keys + [key], list)
  {
  }

  /** One order lists the same keys in one way only. */
  lemma {:induction false} RisingUnique(a: seq<string>, b: seq<string>, list: seq<string>)
    requires Rising(a, list) && Rising(b, list) && forall k :: k in a <==> k in b
    ensures a == b
  {
    if a == [] {
      FirstKeys(b, 0);
    } else {
      var n := |a| - 1;
      assert a[n] in a && b != [] by { assert a[n] in b; }
      var m := |b| - 1;
      assert b[m] in b;
      SameLast(a, b, list);
      forall k
        ensures k in a[..n] <==> k in b[..m]
      {
        InitMembers(a, list, k);
        InitMembers(b, list, k);
      }
      RisingUnique(a[..n], b[..m], list);
      assert a == a[..n] + [a[n]] && b == b[..m] + [b[m]];
    }
  }

  lemma SameLast(a: seq<string>, b: seq<string>, list: seq<string>)
    requires a != [] && b != [] && Rising(a, list) && Rising(b, list) && forall k :: k in a <==> k in b
    ensures a[|a| - 1] == b[|b| - 1]
  {
    assert a[|a| - 1] in a && b[|b| - 1] in b;
    var i :| 0 <= i < |b| && b[i] == a[|a| - 1];
    var k :| 0 <= k < |a| && a[k] == b[|b| - 1];
  }

  lemma InitMembers(keys: seq<string>, list: seq<string>, key: string)
    requires keys != [] && Rising(keys, list)
    ensures key in keys[..|keys| - 1] <==> key in keys && key != keys[|keys| - 1]
  {
    var n := |keys| - 1;
    assert keys == keys[..n] + [keys[n]];
    forall i | 0 <= i < n
      ensures keys[..n][i] != keys[n]
    {
    }
  }

  method Index(items: seq<Item>) returns (m: map<string, Item>, keys: seq<string>)
    ensures m == ByKey(items)
    ensures forall k :: k in keys <==> k in m
    ensures Rising(keys, KeysOf(items))
  {
    hide Rising, IndexIn;
    m, keys := map[], [];
    ghost var list := KeysOf(items);
    NothingRises(list);
    for i := 0 to |items|
      invariant m == ByKey(items[..i])
      invariant forall k :: k in keys <==> k in m
      invariant forall k :: k in m <==> k in list[..i]
      invariant Rising(keys, list) && forall k | k in keys :: IndexIn(list, k) < i
    {
      assert items[..i + 1][..i] == items[..i];
      assert list[..i + 1] == list[..i] + [list[i]];
      if items[i].key !in m {
        IndexOfNew(list, i);
        assert forall j | 0 <= j < |keys| :: keys[j] in keys;
        RisingAppend(keys, list, items[i].key);
        keys := keys + [items[i].key];
      }
      m := m[items[i].key := items[i]];
    }
    assert items[..|items|] == items;
  }

  lemma NothingRises(list: seq<string>)
    ensures Rising([], list)
  {
  }

  /** What one key contributes */
  function Extend(a: map<string, Item>, b: map<string, Item>, d: Diff, key: string): Diff {
    if key !in a && key in b then d.(added := d.added + [b[key]])
    else if key in a && key !in b then d.(removed := d.removed + [a[key]])
    else if key in a && key in b && a[key] != b[key] then d.(changed := d.changed + [Change(a[key], b[key])])
    else d
  }

  /** The difference as far as the keys in `seen` go */
  ghost predicate IsDiffOn(a: map<string, Item>, b: map<string, Item>, d: Diff, seen: seq<string>) {
    && (forall x :: x in d.added <==> x.key in seen && x.key in b && b[x.key] == x && x.key !in a)
    && (forall x :: x in d.removed <==> x.key in seen && x.key in a && a[x.key] == x && x.key !in b)
    && (forall c :: c in d.changed <==>
          && c.before.key in seen && c.before.key in a && c.before.key in b
          && c == Change(a[c.before.key], b[c.before.key]) && c.before != c.after)
  }

  ghost predicate Keyed(m: map<string, Item>) {
    forall k | k in m :: m[k].key == k
  }

  lemma ExtendStep(a: map<string, Item>, b: map<string, Item>, d: Diff, seen: seq<string>, key: string)
    requires Keyed(a) && Keyed(b) && IsDiffOn(a, b, d, seen)
    ensures IsDiffOn(a, b, Extend(a, b, d, key), seen + [key])
  {
  }

  /** The lists as far as the first i keys go, in the order of all of them */
  ghost predicate OrderedOn(keys: seq<string>, i: nat, d: Diff) {
    && Rising(KeysOf(d.added), keys) && Rising(KeysOf(d.removed), keys) && Rising(ChangedKeys(d.changed), keys)
    && (forall k | k in KeysOf(d.added) + KeysOf(d.removed) + ChangedKeys(d.changed) :: IndexIn(keys, k) < i)
  }

  lemma OrderedStep(a: map<string, Item>, b: map<string, Item>, d: Diff, keys: seq<string>, i: nat)
    requires Keyed(a) && Keyed(b) && i < |keys| && keys[i] !in keys[..i] && OrderedOn(keys, i, d)
    ensures OrderedOn(keys, i + 1, Extend(a, b, d, keys[i]))
  {
    hide Rising, IndexIn;
    var key, after := keys[i], Extend(a, b, d, keys[i]);
    IndexOfNew(keys, i);
    var added, removed, changed := KeysOf(d.added), KeysOf(d.removed), ChangedKeys(d.changed);
    assert KeysOf(after.added) == if key !in a && key in b then added + [key] else added;
    assert KeysOf(after.removed) == if key in a && key !in b then removed + [key] else removed;
    assert ChangedKeys(after.changed) == if key in a && key in b && a[key] != b[key] then changed + [key] else changed;
    assert forall j | 0 <= j < |added| :: added[j] in added + removed + changed;
    assert forall j | 0 <= j < |removed| :: removed[j] in added + removed + changed;
    assert forall j | 0 <= j < |changed| :: changed[j] in added + removed + changed;
    if key !in a && key in b {
      RisingAppend(added, keys, key);
    } else if key in a && key !in b {
      RisingAppend(removed, keys, key);
    } else if key in a && key in b {
      RisingAppend(changed, keys, key);
    }
  }

  /** Keys in the order of two lists, of which they are all in the first or none is. */
  lemma RisingIn(keys: seq<string>, first: seq<string>, second: seq<string>, list: seq<string>)
    requires Rising(keys, first + second)
    requires (forall k | k in keys :: k in first) || (forall k | k in keys :: k !in first && k in second)
    requires Rising(if forall k | k in keys :: k in first then first else second, list)
    ensures Rising(keys, list)
  {
    hide IndexIn;
    var part := if forall k | k in keys :: k in first then first else second;
    forall i, k | 0 <= i < k < |keys|
      ensures IndexIn(list, keys[i]) < IndexIn(list, keys[k])
    {
      assert keys[i] in keys && keys[k] in keys;
      IndexInAppend(first, second, keys[i]);
      IndexInAppend(first, second, keys[k]);
      IndexInFinds(part, keys[i]);
      IndexInFinds(part, keys[k]);
    }
  }

  lemma OrderOfLists(left: seq<Item>, right: seq<Item>, leftKeys: seq<string>, rightKeys: seq<string>, d: Diff)
    requires IsDiff(ByKey(left), ByKey(right), d) && OrderedOn(leftKeys + rightKeys, |leftKeys + rightKeys|, d)
    requires (forall k :: k in leftKeys <==> k in ByKey(left)) && (forall k :: k in rightKeys <==> k in ByKey(right))
    requires Rising(leftKeys, KeysOf(left)) && Rising(rightKeys, KeysOf(right))
    ensures InOrder(left, right, d)
  {
    hide Rising, IndexIn, ByKey;
    forall k | k in KeysOf(d.added)
      ensures k !in leftKeys && k in rightKeys
    {
      var i :| 0 <= i < |d.added| && d.added[i].key == k;
      assert d.added[i] in d.added;
    }
    forall k | k in KeysOf(d.removed)
      ensures k in leftKeys
    {
      var i :| 0 <= i < |d.removed| && d.removed[i].key == k;
      assert d.removed[i] in d.removed;
    }
    forall k | k in ChangedKeys(d.changed)
      ensures k in leftKeys
    {
      var i :| 0 <= i < |d.changed| && d.changed[i].before.key == k;
      assert d.changed[i] in d.changed;
    }
    if d.added != [] {
      assert KeysOf(d.added)[0] in KeysOf(d.added);
      RisingIn(KeysOf(d.added), leftKeys, rightKeys, KeysOf(right));
    } else {
      NothingRises(KeysOf(right));
      assert KeysOf(d.added) == [];
    }
    RisingIn(KeysOf(d.removed), leftKeys, rightKeys, KeysOf(left));
    RisingIn(ChangedKeys(d.changed), leftKeys, rightKeys, KeysOf(left));
  }

  /** `diffByKey` */
  method DiffByKey(left: seq<Item>, right: seq<Item>) returns (d: Diff)
    ensures IsDiff(ByKey(left), ByKey(right), d)
    ensures InOrder(left, right, d)
  {
    hide IsDiff, IsDiffOn, Extend, ByKey, OrderedOn, InOrder, Rising, IndexIn;
    var a, leftKeys := Index(left);
    var b, rightKeys := Index(right);
    var keys := leftKeys + rightKeys;
    d := Diff([], [], []);
    NothingSeen(a, b);
    NothingOrdered(keys);
    for i := 0 to |keys|
      invariant IsDiffOn(a, b, d, keys[..i])
      invariant OrderedOn(keys, i, d)
    {
      ExtendStep(a, b, d, keys[..i], keys[i]);
      assert keys[..i + 1] == keys[..i] + [keys[i]];
      if keys[i] !in keys[..i] {
        OrderedStep(a, b, d, keys, i);
        d := Extend(a, b, d, keys[i]);
      } else {
        SeenAgain(a, b, d, keys[..i], keys[i]);
        OrderedLater(keys, i, d);
      }
    }
    assert keys[..|keys|] == keys;
    AllSeen(a, b, d, keys);
    OrderOfLists(left, right, leftKeys, rightKeys, d);
  }

  lemma NothingOrdered(keys: seq<string>)
    ensures OrderedOn(keys, 0, Diff([], [], []))
  {
  }

  lemma OrderedLater(keys: seq<string>, i: nat, d: Diff)
    requires OrderedOn(keys, i, d)
    ensures OrderedOn(keys, i + 1, d)
  {
    hide Rising, IndexIn;
  }

  /** Contents and order leave nothing open: two lists have one difference. */
  lemma DiffIsUnique(left: seq<Item>, right: seq<Item>, d: Diff, e: Diff)
    requires IsDiff(ByKey(left), ByKey(right), d) && InOrder(left, right, d)
    requires IsDiff(ByKey(left), ByKey(right), e) && InOrder(left, right, e)
    ensures d == e
  {
    hide ByKey, Rising;
    SameItems(d.added, e.added, KeysOf(right));
    SameItems(d.removed, e.removed, KeysOf(left));
    SameChanges(ByKey(left), ByKey(right), d, e, KeysOf(left));
  }

  lemma SameItems(xs: seq<Item>, ys: seq<Item>, list: seq<string>)
    requires Rising(KeysOf(xs), list) && Rising(KeysOf(ys), list)
    requires (forall x :: x in xs <==> x in ys) && forall x, y | x in xs && y in ys && x.key == y.key :: x == y
    ensures xs == ys
  {
    hide Rising;
    forall k
      ensures k in KeysOf(xs) <==> k in KeysOf(ys)
    {
      KeyOfMember(xs, ys, k);
      KeyOfMember(ys, xs, k);
    }
    RisingUnique(KeysOf(xs), KeysOf(ys), list);
    forall i | 0 <= i < |xs|
      ensures xs[i] == ys[i]
    {
      assert xs[i] in xs && ys[i] in ys;
      assert KeysOf(xs)[i] == KeysOf(ys)[i];
    }
  }

  lemma KeyOfMember(xs: seq<Item>, ys: seq<Item>, k: string)
    requires forall x :: x in xs <==> x in ys
    ensures k in KeysOf(xs) ==> k in KeysOf(ys)
  {
    if k in KeysOf(xs) {
      var i :| 0 <= i < |xs| && xs[i].key == k;
      assert xs[i] in ys;
      var j :| 0 <= j < |ys| && ys[j] == xs[i];
      assert KeysOf(ys)[j] == k;
    }
  }

  lemma SameChanges(a: map<string, Item>, b: map<string, Item>, d: Diff, e: Diff, list: seq<string>)
    requires IsDiff(a, b, d) && IsDiff(a, b, e)
    requires Rising(ChangedKeys(d.changed), list) && Rising(ChangedKeys(e.changed), list)
    ensures d.changed == e.changed
  {
    hide Rising;
    forall k
      ensures k in ChangedKeys(d.changed) <==> k in ChangedKeys(e.changed)
    {
      KeyOfChange(d.changed, e.changed, k);
      KeyOfChange(e.changed, d.changed, k);
    }
    RisingUnique(ChangedKeys(d.changed), ChangedKeys(e.changed), list);
    forall i | 0 <= i < |d.changed|
      ensures d.changed[i] == e.changed[i]
    {
      assert d.changed[i] in d.changed && e.changed[i] in e.changed;
      assert ChangedKeys(d.changed)[i] == ChangedKeys(e.changed)[i];
    }
  }

  lemma KeyOfChange(xs: seq<Change>, ys: seq<Change>, k: string)
    requires forall x :: x in xs <==> x in ys
    ensures k in ChangedKeys(xs) ==> k in ChangedKeys(ys)
  {
    if k in ChangedKeys(xs) {
      var i :| 0 <= i < |xs| && xs[i].before.key == k;
      assert xs[i] in ys;
      var j :| 0 <= j < |ys| && ys[j] == xs[i];
      assert ChangedKeys(ys)[j] == k;
    }
  }

  lemma NothingSeen(a: map<string, Item>, b: map<string, Item>)
    ensures IsDiffOn(a, b, Diff([], [], []), [])
  {
  }

  lemma AllSeen(a: map<string, Item>, b: map<string, Item>, d: Diff, keys: seq<string>)
    requires IsDiffOn(a, b, d, keys) && forall k | k in a || k in b :: k in keys
    ensures IsDiff(a, b, d)
  {
  }

  /** The keys form a set: a repeated one contributes nothing. */
  lemma SeenAgain(a: map<string, Item>, b: map<string, Item>, d: Diff, seen: seq<string>, key: string)
    requires IsDiffOn(a, b, d, seen) && key in seen
    ensures IsDiffOn(a, b, d, seen + [key])
  {
  }

  // ---------------------------------------------------------------------------
  // What a difference says
  // ---------------------------------------------------------------------------

  /** A difference loses nothing: with the left side it determines the right one. */
  lemma DiffDeterminesRight(a: map<string, Item>, b: map<string, Item>, c: map<string, Item>, d: Diff)
    requires Keyed(a) && Keyed(b) && Keyed(c) && IsDiff(a, b, d) && IsDiff(a, c, d)
    ensures b == c
  {
    assert forall k | k in b :: k in c && b[k] == c[k] by { ContainedBy(a, b, c, d); }
    assert forall k | k in c :: k in b by { ContainedBy(a, c, b, d); }
  }

  lemma ContainedBy(a: map<string, Item>, b: map<string, Item>, c: map<string, Item>, d: Diff)
    requires Keyed(a) && Keyed(b) && Keyed(c) && IsDiff(a, b, d) && IsDiff(a, c, d)
    ensures forall k | k in b :: k in c && b[k] == c[k]
  {
    forall k | k in b
      ensures k in c && b[k] == c[k]
    {
      if k !in a {
        assert b[k] in d.added;
      } else if a[k] != b[k] {
        assert Change(a[k], b[k]) in d.changed;
      } else {
        UnchangedStays(a, b, c, d, k);
      }
    }
  }

  lemma UnchangedStays(a: map<string, Item>, b: map<string, Item>, c: map<string, Item>, d: Diff, k: string)
    requires Keyed(a) && Keyed(b) && Keyed(c) && IsDiff(a, b, d) && IsDiff(a, c, d)
    requires k in a && k in b && a[k] == b[k]
    ensures k in c && c[k] == a[k]
  {
    assert a[k] in d.removed <==> k !in c;
    assert a[k] in d.removed <==> k !in b;
    assert k in c ==> (Change(a[k], c[k]) in d.changed <==> a[k] != c[k]);
    assert k in c ==> (Change(a[k], c[k]) in d.changed <==> Change(a[k], c[k]) == Change(a[k], b[k]) && a[k] != c[k]);
  }

  function Swapped(changed: seq<Change>): seq<Change> {
    seq(|changed|, i requires 0 <= i < |changed| => Change(changed[i].after, changed[i].before))
  }

  lemma SwappedMembers(changed: seq<Change>, c: Change)
    ensures c in Swapped(changed) <==> Change(c.after, c.before) in changed
  {
    if Change(c.after, c.before) in changed {
      var i :| 0 <= i < |changed| && changed[i] == Change(c.after, c.before);
      assert Swapped(changed)[i] == c;
    }
  }

  /** Comparing the other way round exchanges additions with removals and turns every change about. */
  lemma DiffMirrors(a: map<string, Item>, b: map<string, Item>, d: Diff)
    requires Keyed(a) && Keyed(b) && IsDiff(a, b, d)
    ensures IsDiff(b, a, Diff(d.removed, d.added, Swapped(d.changed)))
  {
    forall c: Change
      ensures c in Swapped(d.changed) <==>
                && c.before.key in b && c.before.key in a
                && c == Change(b[c.before.key], a[c.before.key]) && c.before != c.after
    {
      SwappedMembers(d.changed, c);
    }
  }

  /** No row of one version is a row of the other. */
  ghost predicate DistinctRows(a: map<string, Item>, b: map<string, Item>) {
    forall k, l | k in a && l in b :: a[k].id != b[l].id
  }

  /**
   Between two different versions every common key counts as changed, however equal the contents: the ids
   differ. A clone differs from its source in all it inherited.
   */
  lemma CommonKeysAlwaysChange(a: map<string, Item>, b: map<string, Item>, d: Diff)
    requires Keyed(a) && Keyed(b) && IsDiff(a, b, d) && DistinctRows(a, b)
    ensures forall k | k in a && k in b :: Change(a[k], b[k]) in d.changed
    ensures a.Keys == b.Keys ==>
              (forall x :: x !in d.added && x !in d.removed) && forall k | k in a :: Change(a[k], b[k]) in d.changed
  {
    forall k | k in a && k in b
      ensures Change(a[k], b[k]) in d.changed
    {
      assert a[k].id != b[k].id;
    }
  }

  // ---------------------------------------------------------------------------
  // When only real changes are reported
  // ---------------------------------------------------------------------------

  /** Every reported change is one of content. */
  ghost predicate OnlyRealChanges(d: Diff) {
    forall c | c in d.changed :: c.before.rest != c.after.rest
  }

  /** For all lists: a comparison reports only changes of content exactly when items of equal content are one row. */
  lemma OnlyRealChangesExactly(a: map<string, Item>, b: map<string, Item>, d: Diff)
    requires Keyed(a) && Keyed(b) && IsDiff(a, b, d)
    ensures OnlyRealChanges(d) <==> forall k | k in a && k in b && a[k].rest == b[k].rest :: a[k].id == b[k].id
  {
    forall k | k in a && k in b
      ensures Change(a[k], b[k]) in d.changed <==> a[k].id != b[k].id || a[k].rest != b[k].rest
    {
      assert a[k].key == k && b[k].key == k;
    }
  }

  ghost predicate SameContents(left: seq<Item>, right: seq<Item>) {
    |left| == |right|
    && forall i | 0 <= i < |left| :: left[i].key == right[i].key && left[i].rest == right[i].rest
  }

  /** The same list under new row ids, as a clone has it */
  ghost predicate Renumbered(left: seq<Item>, right: seq<Item>) {
    SameContents(left, right) && forall x, y | x in left && y in right :: x.id != y.id
  }

  lemma {:induction false} ByKeySameContents(left: seq<Item>, right: seq<Item>)
    requires SameContents(left, right)
    ensures ByKey(left).Keys == ByKey(right).Keys
    ensures forall k | k in ByKey(left) :: ByKey(left)[k].rest == ByKey(right)[k].rest
  {
    if left != [] {
      ByKeySameContents(left[..|left| - 1], right[..|right| - 1]);
    }
  }

  lemma {:induction false} ByKeyPicks(items: seq<Item>)
    ensures forall k | k in ByKey(items) :: ByKey(items)[k] in items
    ensures items != [] ==> items[|items| - 1].key in ByKey(items)
  {
    if items != [] {
      var n := |items| - 1;
      ByKeyPicks(items[..n]);
      assert items == items[..n] + [items[n]];
    }
  }

  /** A key stands for the last item that has it. */
  lemma {:induction false} ByKeyExactly(items: seq<Item>, key: string)
    ensures key in ByKey(items) <==> exists i :: 0 <= i < |items| && items[i].key == key
    ensures forall i | 0 <= i < |items| && items[i].key == key && (forall k | i < k < |items| :: items[k].key != key) ::
              ByKey(items)[key] == items[i]
  {
    if items != [] {
      var n := |items| - 1;
      ByKeyExactly(items[..n], key);
      forall i | 0 <= i < n
        ensures items[..n][i] == items[i]
      {
      }
      if key in ByKey(items[..n]) {
        var i :| 0 <= i < n && items[..n][i].key == key;
        assert items[i].key == key;
      }
      assert items[n].key == key ==> exists i :: 0 <= i < |items| && items[i].key == key;
    }
  }

  lemma HeadIsMember(items: seq<Item>)
    ensures items != [] ==> items[0] in items
  {
  }

  /** A clone that was not touched: nothing is added or removed, and every item is reported although no content changed. */
  lemma UntouchedCloneIsAllChanged(left: seq<Item>, right: seq<Item>, d: Diff)
    requires Renumbered(left, right) && IsDiff(ByKey(left), ByKey(right), d)
    ensures d.added == [] && d.removed == []
    ensures forall k | k in ByKey(left) :: Change(ByKey(left)[k], ByKey(right)[k]) in d.changed
    ensures forall c | c in d.changed :: c.before.rest == c.after.rest
    ensures left != [] ==> !OnlyRealChanges(d)
  {
    hide ByKey;
    var a, b := ByKey(left), ByKey(right);
    ByKeySameContents(left, right);
    ByKeyPicks(left);
    ByKeyPicks(right);
    CommonKeysAlwaysChange(a, b, d);
    HeadIsMember(d.added);
    HeadIsMember(d.removed);
    if left != [] {
      var k := left[|left| - 1].key;
      assert Change(a[k], b[k]) in d.changed;
    }
  }
}
