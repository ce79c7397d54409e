/** The stable sort of a column by rank. */
module RankedSort {
  import opened TreeLevels

  type Rank = map<Key, real>

  predicate Ranked(column: seq<Key>, rank: Rank) {
    forall k | k in column :: k in rank
  }

  /** Behind every key that does not come after it */
  function InsertRanked(sorted: seq<Key>, key: Key, rank: Rank): seq<Key>
    requires Ranked(sorted, rank) && key in rank
  {
    if sorted == [] then [key]
    else
      var n := |sorted| - 1;
      if rank[sorted[n]] <= rank[key] then sorted + [key]
      else InsertRanked(sorted[..n], key, rank) + [sorted[n]]
  }

  /** `Array.prototype.sort`, which is stable */
  function StableSort(column: seq<Key>, rank: Rank): (sorted: seq<Key>)
    requires Ranked(column, rank)
    ensures Ranked(sorted, rank)
  {
    if column == [] then []
    else
      var n := |column| - 1;
      var sorted := InsertRanked(StableSort(column[..n], rank), column[n], rank);
      InsertKeeps(StableSort(column[..n], rank), column[n], rank);
      sorted
  }

  predicate Sorted(column: seq<Key>, rank: Rank)
    requires Ranked(column, rank)
  {
    forall i, k | 0 <= i < k < |column| :: rank[column[i]] <= rank[column[k]]
  }

  lemma {:induction false} InsertKeeps(sorted: seq<Key>, key: Key, rank: Rank)
    requires Ranked(sorted, rank) && key in rank
    ensures multiset(InsertRanked(sorted, key, rank)) == multiset(sorted + [key])
    ensures Ranked(InsertRanked(sorted, key, rank), rank)
  {
    if sorted != [] && rank[sorted[|sorted| - 1]] > rank[key] {
      var n := |sorted| - 1;
      InsertKeeps(sorted[..n], key, rank);
      assert sorted == sorted[..n] + [sorted[n]];
      SameMembers(InsertRanked(sorted, key, rank), sorted + [key]);
    } else {
      SameMembers(InsertRanked(sorted, key, rank), sorted + [key]);
    }
  }

  lemma SameMembers(a: seq<Key>, b: seq<Key>)
    requires multiset(a) == multiset(b)
    ensures forall k :: k in a <==> k in b
  {
    assert forall k :: k in a <==> k in multiset(a);
    assert forall k :: k in b <==> k in multiset(b);
  }

  lemma SortedSnoc(init: seq<Key>, last: Key, rank: Rank)
    requires Ranked(init, rank) && last in rank && Sorted(init, rank)
    requires forall k | k in init :: rank[k] <= rank[last]
    ensures Ranked(init + [last], rank) && Sorted(init + [last], rank)
  {
    forall i | 0 <= i < |init|
      ensures rank[init[i]] <= rank[last]
    {
      assert init[i] in init;
    }
  }

  lemma InsertMembers(sorted: seq<Key>, key: Key, rank: Rank)
    requires Ranked(sorted, rank) && key in rank
    ensures forall k :: k in InsertRanked(sorted, key, rank) <==> k == key || k in sorted
  {
    InsertKeeps(sorted, key, rank);
    SameMembers(InsertRanked(sorted, key, rank), sorted + [key]);
  }

  lemma {:induction false} InsertSorts(sorted: seq<Key>, key: Key, rank: Rank)
    requires Ranked(sorted, rank) && key in rank && Sorted(sorted, rank)
    ensures Ranked(InsertRanked(sorted, key, rank), rank) && Sorted(InsertRanked(sorted, key, rank), rank)
  {
    InsertMembers(sorted, key, rank);
    if sorted != [] {
      var n := |sorted| - 1;
      if rank[sorted[n]] <= rank[key] {
        SortedSnoc(sorted, key, rank);
      } else {
        InsertSorts(sorted[..n], key, rank);
        InsertMembers(sorted[..n], key, rank);
        SortedSnoc(InsertRanked(sorted[..n], key, rank), sorted[n], rank);
      }
    }
  }

  lemma {:induction false} StableSortSorts(column: seq<Key>, rank: Rank)
    requires Ranked(column, rank)
    ensures Sorted(StableSort(column, rank), rank) && multiset(StableSort(column, rank)) == multiset(column)
  {
    if column != [] {
      var n := |column| - 1;
      StableSortSorts(column[..n], rank);
      InsertSorts(StableSort(column[..n], rank), column[n], rank);
      InsertKeeps(StableSort(column[..n], rank), column[n], rank);
      assert column == column[..n] + [column[n]];
    }
  }

  /** The keys of one rank, in order */
  function OfRank(column: seq<Key>, rank: Rank, r: real): seq<Key>
    requires Ranked(column, rank)
  {
    if column == [] then []
    else
      var n := |column| - 1;
      OfRank(column[..n], rank, r) + if rank[column[n]] == r then [column[n]] else []
  }

  lemma {:induction false} InsertIsStable(sorted: seq<Key>, key: Key, rank: Rank, r: real)
    requires Ranked(sorted, rank) && key in rank
    ensures Ranked(InsertRanked(sorted, key, rank), rank)
    ensures OfRank(InsertRanked(sorted, key, rank), rank, r) == OfRank(sorted, rank, r) + if rank[key] == r then [key] else []
  {
    InsertKeeps(sorted, key, rank);
    if sorted == [] {
      assert [key][..0] == [];
    } else {
      var n := |sorted| - 1;
      if rank[sorted[n]] <= rank[key] {
        assert (sorted + [key])[..n + 1] == sorted;
      } else {
        InsertIsStable(sorted[..n], key, rank, r);
        var init := InsertRanked(sorted[..n], key, rank);
        assert (init + [sorted[n]])[..|init|] == init;
        assert rank[sorted[n]] == r ==> rank[key] != r;
      }
    }
  }

  /** Keys of equal rank keep their order. */
  lemma {:induction false} StableSortIsStable(column: seq<Key>, rank: Rank, r: real)
    requires Ranked(column, rank)
    ensures OfRank(StableSort(column, rank), rank, r) == OfRank(column, rank, r)
  {
    if column != [] {
      var n := |column| - 1;
      StableSortIsStable(column[..n], rank, r);
      InsertIsStable(StableSort(column[..n], rank), column[n], rank, r);
    }
  }

  /** The same keys by rank, those of equal rank in the order they had */
  ghost predicate OrderedBy(column: seq<Key>, sorted: seq<Key>, rank: Rank) {
    && multiset(sorted) == multiset(column) && Ranked(column, rank) && Ranked(sorted, rank)
    && Sorted(sorted, rank) && forall r :: OfRank(sorted, rank, r) == OfRank(column, rank, r)
  }

  lemma StableSortOrders(column: seq<Key>, rank: Rank)
    requires Ranked(column, rank)
    ensures OrderedBy(column, StableSort(column, rank), rank)
  {
    StableSortSorts(column, rank);
    forall r
      ensures OfRank(StableSort(column, rank), rank, r) == OfRank(column, rank, r)
    {
      StableSortIsStable(column, rank, r);
    }
  }
}
