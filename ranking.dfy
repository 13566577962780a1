/** The recommendation list of the graphical controller: every book gets a
    score from its shelf copies and its borrow count, the books are sorted
    by score, and the available ones are offered before the others. */
module Ranking {
  import opened Util
  import opened Books

  /** Ten points per copy on the shelf, five per recorded borrow (a book
      with no record counts 0) and twenty more when a copy is available. */
  function Score(b: BookRecord, counts: map<int, int>): (r: int)
    ensures b.IsAvailable() ==> r >= 30 + CountOf(counts, b.id) * 5
    ensures !b.IsAvailable() ==> r <= CountOf(counts, b.id) * 5
  {
    b.availableCopies * 10 + CountOf(counts, b.id) * 5 + (if b.IsAvailable() then 20 else 0)
  }

  /** The score as the sort key. */
  function ScoreKey(counts: map<int, int>): BookRecord -> int {
    b => Score(b, counts)
  }

  // ---------------------------------------------------------------------
  // Sorting by a key, descending

  /** Keys never increase along the sequence. */
  predicate SortedBy<T>(s: seq<T>, key: T -> int) {
    forall i, j :: 0 <= i < j < |s| ==> key(s[i]) >= key(s[j])
  }

  /** Places `x` before the first element with a lower key. */
  function InsertBy<T>(x: T, s: seq<T>, key: T -> int): (r: seq<T>)
    ensures |r| == |s| + 1 && multiset(r) == multiset(s) + multiset{x}
  {
    if s == [] then [x]
    else if key(s[0]) < key(x) then [x] + s
    else
      assert s == [s[0]] + s[1..];
      [s[0]] + InsertBy(x, s[1..], key)
  }

  /** The `std::sort` by descending score. Which of several books with equal
      scores comes first is not promised (the library sort is not stable). */
  function SortBy<T>(s: seq<T>, key: T -> int): (r: seq<T>)
    ensures |r| == |s| && multiset(r) == multiset(s)
  {
    if s == [] then []
    else
      assert s == [s[0]] + s[1..];
      InsertBy(s[0], SortBy(s[1..], key), key)
  }

  /** An element whose key is at least every key of a sorted sequence may
      go in front of it. */
  lemma ConsSorted<T>(x: T, s: seq<T>, key: T -> int)
    requires SortedBy(s, key)
    requires forall y :: y in s ==> key(x) >= key(y)
    ensures SortedBy([x] + s, key)
  {
    var r := [x] + s;
    forall i, j | 0 <= i < j < |r| ensures key(r[i]) >= key(r[j]) {
      assert r[j] == s[j - 1] && r[j] in s;
      if i > 0 {
        assert r[i] == s[i - 1];
      }
    }
  }

  lemma {:induction false} InsertBySorted<T>(x: T, s: seq<T>, key: T -> int)
    requires SortedBy(s, key)
    ensures SortedBy(InsertBy(x, s, key), key)
  {
    if s == [] {
    } else if key(s[0]) < key(x) {
      forall y | y in s ensures key(x) >= key(y) {
        var k :| 0 <= k < |s| && s[k] == y;
      }
      ConsSorted(x, s, key);
    } else {
      var tail := InsertBy(x, s[1..], key);
      InsertBySorted(x, s[1..], key);
      assert SortedBy(s[1..], key);
      forall y | y in tail ensures key(s[0]) >= key(y) {
        assert y in multiset(tail);
        if y != x {
          var j :| 0 <= j < |s[1..]| && s[1..][j] == y;
          assert s[j + 1] == y;
        }
      }
      ConsSorted(s[0], tail, key);
    }
  }

  /** The sort leaves the keys in descending order. */
  lemma {:induction false} SortBySorted<T>(s: seq<T>, key: T -> int)
    ensures SortedBy(SortBy(s, key), key)
  {
    if s != [] {
      SortBySorted(s[1..], key);
      InsertBySorted(s[0], SortBy(s[1..], key), key);
    }
  }

  // ---------------------------------------------------------------------
  // Available books first

  /** The books of the sequence that are (or are not) available, in order. */
  function Select(bs: seq<BookRecord>, available: bool): (r: seq<BookRecord>)
    ensures |r| <= |bs|
  {
    if bs == [] then []
    else
      var prev := Select(bs[..|bs| - 1], available);
      if bs[|bs| - 1].IsAvailable() == available then prev + [bs[|bs| - 1]] else prev
  }

  /** The two selections together hold every book exactly once. */
  lemma {:induction false} SelectSplits(bs: seq<BookRecord>)
    ensures multiset(Select(bs, true)) + multiset(Select(bs, false)) == multiset(bs)
  {
    if bs != [] {
      var init := bs[..|bs| - 1];
      SelectSplits(init);
      assert bs == init + [bs[|bs| - 1]];
    }
  }

  /** Every selected book is a book of the sequence, with the flag asked for. */
  lemma {:induction false} SelectFrom(bs: seq<BookRecord>, available: bool)
    ensures forall b :: b in Select(bs, available) ==> b in bs && b.IsAvailable() == available
  {
    if bs != [] {
      var init := bs[..|bs| - 1];
      SelectFrom(init, available);
      assert forall b :: b in init ==> b in bs;
    }
  }

  /** The books of one group, with scores that never increase. */
  predicate Group(bs: seq<BookRecord>, available: bool, counts: map<int, int>) {
    && (forall b :: b in bs ==> b.IsAvailable() == available)
    && SortedBy(bs, ScoreKey(counts))
  }

  /** An element whose key is at most every key of a sorted sequence may
      go after it. */
  lemma AppendSorted<T>(s: seq<T>, x: T, key: T -> int)
    requires SortedBy(s, key)
    requires forall y :: y in s ==> key(y) >= key(x)
    ensures SortedBy(s + [x], key)
  {
    var r := s + [x];
    forall i, j | 0 <= i < j < |r| ensures key(r[i]) >= key(r[j]) {
      assert r[i] == s[i] && r[i] in s;
      if j < |s| {
        assert r[j] == s[j];
      }
    }
  }

  /** Selecting from books sorted by score gives a group. */
  lemma {:induction false} SelectGroup(bs: seq<BookRecord>, available: bool, counts: map<int, int>)
    requires SortedBy(bs, ScoreKey(counts))
    ensures Group(Select(bs, available), available, counts)
  {
    SelectFrom(bs, available);
    if bs != [] {
      var n := |bs| - 1;
      var init := bs[..n];
      assert SortedBy(init, ScoreKey(counts));
      SelectGroup(init, available, counts);
      if bs[n].IsAvailable() == available {
        var prev := Select(init, available);
        forall b | b in prev ensures Score(b, counts) >= Score(bs[n], counts) {
          SelectFrom(init, available);
          var k :| 0 <= k < n && init[k] == b;
          assert bs[k] == b;
        }
        AppendSorted(prev, bs[n], ScoreKey(counts));
      }
    }
  }

  // ---------------------------------------------------------------------
  // The recommendation list

  /** Where `a` may stand before `b` in a recommendation list: an available
      book before an unavailable one, and within the same group a score at
      least as high. */
  predicate Ahead(a: BookRecord, b: BookRecord, counts: map<int, int>) {
    (a.IsAvailable() && !b.IsAvailable()) ||
    (a.IsAvailable() == b.IsAvailable() && Score(a, counts) >= Score(b, counts))
  }

  /** Every book may stand before every later one. */
  predicate Ranked(bs: seq<BookRecord>, counts: map<int, int>) {
    forall i, j :: 0 <= i < j < |bs| ==> Ahead(bs[i], bs[j], counts)
  }

  /** The available group followed by the unavailable one is ranked. */
  lemma GroupsRanked(avail: seq<BookRecord>, others: seq<BookRecord>, counts: map<int, int>)
    requires Group(avail, true, counts) && Group(others, false, counts)
    ensures Ranked(avail + others, counts)
  {
    var r := avail + others;
    forall i, j | 0 <= i < j < |r| ensures Ahead(r[i], r[j], counts) {
      if j < |avail| {
        assert r[i] == avail[i] && r[j] == avail[j];
      } else if i < |avail| {
        assert r[i] == avail[i] && r[j] == others[j - |avail|];
      } else {
        assert r[i] == others[i - |avail|] && r[j] == others[j - |avail|];
      }
    }
  }

  /** A prefix of a ranked ordering of the catalog takes each entry at most
      once, is ranked, and stands ahead of every entry it leaves out. */
  lemma RankedPrefix(ordered: seq<BookRecord>, books: seq<BookRecord>, n: nat, counts: map<int, int>)
    requires Ranked(ordered, counts) && multiset(ordered) == multiset(books) && n <= |ordered|
    ensures multiset(ordered[..n]) <= multiset(books)
    ensures Ranked(ordered[..n], counts)
    ensures forall b, i :: b in multiset(books) - multiset(ordered[..n]) && 0 <= i < n ==>
      Ahead(ordered[..n][i], b, counts)
  {
    assert ordered == ordered[..n] + ordered[n..];
    assert multiset(books) - multiset(ordered[..n]) == multiset(ordered[n..]);
    forall b, i | b in multiset(books) - multiset(ordered[..n]) && 0 <= i < n
      ensures Ahead(ordered[..n][i], b, counts)
    {
      assert b in ordered[n..];
      var p :| 0 <= p < |ordered[n..]| && ordered[n..][p] == b;
      assert ordered[n + p] == b;
    }
  }

  /** The catalog sorted by score and split into the available books and
      the others, put back together: the same books, ranked. */
  lemma {:induction false} OrderedCatalog(books: seq<BookRecord>, counts: map<int, int>)
    ensures var sorted := SortBy(books, ScoreKey(counts));
      && multiset(Select(sorted, true) + Select(sorted, false)) == multiset(books)
      && Ranked(Select(sorted, true) + Select(sorted, false), counts)
  {
    var sorted := SortBy(books, ScoreKey(counts));
    SortBySorted(books, ScoreKey(counts));
    SelectGroup(sorted, true, counts);
    SelectGroup(sorted, false, counts);
    SelectSplits(sorted);
    GroupsRanked(Select(sorted, true), Select(sorted, false), counts);
  }

  /** `recommendBooks(limit)` with the per-book borrow counts given: at most
      `limit` books, available ones first, each group by descending score,
      and no book left out ranks ahead of a book offered. */
  method RecommendBooks(books: seq<BookRecord>, borrowCounts: map<int, int>, limit: int) returns (recs: seq<BookRecord>)
    ensures |recs| == if limit <= 0 then 0 else Min(limit, |books|)
    ensures multiset(recs) <= multiset(books)
    ensures Ranked(recs, borrowCounts)
    ensures forall b, i :: b in multiset(books) - multiset(recs) && 0 <= i < |recs| ==> Ahead(recs[i], b, borrowCounts)
  {
    recs := [];
    if |books| == 0 {
      return;
    }
    var sorted := SortBy(books, ScoreKey(borrowCounts));
    var avail, others := Partition(sorted);
    var count;
    recs, count := TakeUpTo(avail, others, limit);
    OrderedCatalog(books, borrowCounts);
    assert |avail + others| == |books| by {
      assert |multiset(avail + others)| == |multiset(books)|;
    }
    RankedPrefix(avail + others, books, count, borrowCounts);
  }

  /** The two loops that copy books into the list until `limit` is reached,
      first from the available books and then from the others. */
  method TakeUpTo(avail: seq<BookRecord>, others: seq<BookRecord>, limit: int) returns (recs: seq<BookRecord>, count: nat)
    ensures count == if limit <= 0 then 0 else Min(limit, |avail| + |others|)
    ensures recs == (avail + others)[..count]
  {
    recs, count := [], 0;
    var i := 0;
    while i < |avail| && count < limit
      invariant 0 <= i <= |avail| && count == i && recs == avail[..i]
      invariant count <= if limit <= 0 then 0 else limit
    {
      recs := recs + [avail[i]];
      count := count + 1;
      i := i + 1;
    }
    var j := 0;
    while j < |others| && count < limit
      invariant 0 <= j <= |others| && count == i + j && recs == avail[..i] + others[..j]
      invariant j > 0 ==> i == |avail|
      invariant i == |avail| || count >= limit
      invariant count <= if limit <= 0 then 0 else limit
    {
      recs := recs + [others[j]];
      count := count + 1;
      j := j + 1;
    }
    assert recs == (avail + others)[..count];
  }

  /** The loop that splits the sorted books into the available ones and
      the others, keeping the order of each. */
  method Partition(sorted: seq<BookRecord>) returns (avail: seq<BookRecord>, others: seq<BookRecord>)
    ensures avail == Select(sorted, true) && others == Select(sorted, false)
  {
    avail, others := [], [];
    for i := 0 to |sorted|
      invariant avail == Select(sorted[..i], true) && others == Select(sorted[..i], false)
    {
      assert sorted[..i + 1][..i] == sorted[..i];
      if sorted[i].IsAvailable() {
        avail := avail + [sorted[i]];
      } else {
        others := others + [sorted[i]];
      }
    }
    assert sorted[..|sorted|] == sorted;
  }
}
