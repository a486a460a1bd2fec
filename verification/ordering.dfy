/** Ordering a bracket table by threshold, as the C# calculator does before
    walking it (a stable sort on the threshold key). */
module Ordering {
  import opened Brackets

  /** Thresholds never decrease from one row to the next. */
  predicate SortedByThreshold(bs: seq<Bracket>)
  {
    forall i :: 0 <= i < |bs| - 1 ==> bs[i].threshold <= bs[i + 1].threshold
  }

  /** Inserts `b` into `sorted` ahead of every bracket with the same or a
      larger threshold. */
  function Insert(b: Bracket, sorted: seq<Bracket>): (r: seq<Bracket>)
    requires SortedByThreshold(sorted)
    ensures SortedByThreshold(r)
    ensures |r| == |sorted| + 1
    ensures r[0] == b || (|sorted| > 0 && r[0] == sorted[0])
  {
    if |sorted| == 0 then [b]
    else if b.threshold <= sorted[0].threshold then [b] + sorted
    else [sorted[0]] + Insert(b, sorted[1..])
  }

  /** Insertion adds `b` and keeps every other row. */
  lemma {:induction false} InsertPermutes(b: Bracket, sorted: seq<Bracket>)
    requires SortedByThreshold(sorted)
    ensures multiset(Insert(b, sorted)) == multiset(sorted) + multiset{b}
  {
    if |sorted| > 0 && sorted[0].threshold < b.threshold {
      InsertPermutes(b, sorted[1..]);
      assert sorted == [sorted[0]] + sorted[1..];
    }
  }

  /** The table in ascending threshold order; brackets with equal thresholds
      keep their input order. */
  function SortByThreshold(bs: seq<Bracket>): (r: seq<Bracket>)
    ensures SortedByThreshold(r)
    ensures |r| == |bs|
  {
    if |bs| == 0 then [] else Insert(bs[0], SortByThreshold(bs[1..]))
  }

  /** Sorting only reorders the rows. */
  lemma {:induction false} SortPermutes(bs: seq<Bracket>)
    ensures multiset(SortByThreshold(bs)) == multiset(bs)
  {
    if |bs| > 0 {
      SortPermutes(bs[1..]);
      InsertPermutes(bs[0], SortByThreshold(bs[1..]));
      assert bs == [bs[0]] + bs[1..];
    }
  }

  /** A table already in threshold order is walked as given. */
  lemma {:induction false} SortedUnchanged(bs: seq<Bracket>)
    requires SortedByThreshold(bs)
    ensures SortByThreshold(bs) == bs
  {
    if |bs| > 0 {
      SortedUnchanged(bs[1..]);
      assert [bs[0]] + bs[1..] == bs;
    }
  }

  /** Sorting only reorders the rows, so every rate still lies in [0, TopRate]. */
  lemma SortKeepsRates(bs: seq<Bracket>)
    requires ValidRates(bs)
    ensures ValidRates(SortByThreshold(bs))
  {
    var r := SortByThreshold(bs);
    SortPermutes(bs);
    forall i | 0 <= i < |r|
      ensures 0.0 <= r[i].rate <= TopRate
    {
      assert r[i] in multiset(r);
      assert r[i] in bs;
    }
  }

  /** The shipped table is already in threshold order. */
  lemma SarsTableInOrder()
    ensures SortedByThreshold(SarsTable)
  {
  }

  /** Ordering the shipped table changes nothing. */
  lemma SarsTableSorted()
    ensures SortByThreshold(SarsTable) == SarsTable
  {
    SarsTableInOrder();
    SortedUnchanged(SarsTable);
  }
}
