/** The command-line recommendation service: a per-book borrow frequency
    table, the list of borrowed ids of every category, and the most
    borrowed books. */
module Recommendation {
  import opened Util

  /** The frequency table after one more borrow of `id`. */
  function Bump(freq: map<int, int>, id: int): (r: map<int, int>)
    ensures r.Keys == freq.Keys + {id}
    ensures CountOf(r, id) == CountOf(freq, id) + 1
    ensures forall k :: k != id ==> CountOf(r, k) == CountOf(freq, k)
  {
    freq[id := CountOf(freq, id) + 1]
  }

  /** The category table after `id` was borrowed from `category`. */
  function AppendTo(lists: map<string, seq<int>>, category: string, id: int): (r: map<string, seq<int>>)
    ensures r.Keys == lists.Keys + {category}
    ensures category in lists ==> r[category] == lists[category] + [id]
    ensures category !in lists ==> r[category] == [id]
    ensures forall c :: c in lists && c != category ==> c in r && r[c] == lists[c]
  {
    lists[category := (if category in lists then lists[category] else []) + [id]]
  }

  /** A `(count, id)` pair of `popularBooks`. */
  datatype Entry = Entry(count: int, id: int)

  /** The pair's `operator<`: by count, then by id. */
  predicate Less(a: Entry, b: Entry) {
    a.count < b.count || (a.count == b.count && a.id < b.id)
  }

  /** The pair recorded for an id of the table. */
  function EntryOf(freq: map<int, int>, id: int): Entry
    requires id in freq
  {
    Entry(freq[id], id)
  }

  /** Every pair is greater than every later one. */
  predicate Descending(es: seq<Entry>) {
    forall i, j :: 0 <= i < j < |es| ==> Less(es[j], es[i])
  }

  /** Places `e` before the first pair that is less than it. */
  function Insert(e: Entry, es: seq<Entry>): (r: seq<Entry>)
    ensures |r| == |es| + 1 && multiset(r) == multiset(es) + multiset{e}
  {
    if es == [] then [e]
    else if Less(es[0], e) then [e] + es
    else
      assert es == [es[0]] + es[1..];
      [es[0]] + Insert(e, es[1..])
  }

  /** `std::sort(freq.rbegin(), freq.rend())`: the pairs in descending order. */
  function SortDescending(es: seq<Entry>): (r: seq<Entry>)
    ensures |r| == |es| && multiset(r) == multiset(es)
  {
    if es == [] then []
    else
      assert es == [es[0]] + es[1..];
      Insert(es[0], SortDescending(es[1..]))
  }

  /** A pair greater than every pair of a descending sequence may go in
      front of it. */
  lemma ConsDescending(e: Entry, es: seq<Entry>)
    requires Descending(es)
    requires forall x :: x in es ==> Less(x, e)
    ensures Descending([e] + es)
  {
    var r := [e] + es;
    forall i, j | 0 <= i < j < |r| ensures Less(r[j], r[i]) {
      assert r[j] == es[j - 1] && r[j] in es;
      if i > 0 {
        assert r[i] == es[i - 1];
      }
    }
  }

  lemma {:induction false} InsertDescending(e: Entry, es: seq<Entry>)
    requires Descending(es) && e !in es
    ensures Descending(Insert(e, es))
  {
    if es == [] {
    } else if Less(es[0], e) {
      forall x | x in es ensures Less(x, e) {
        var k :| 0 <= k < |es| && es[k] == x;
      }
      ConsDescending(e, es);
    } else {
      var tail := Insert(e, es[1..]);
      InsertDescending(e, es[1..]);
      forall x | x in tail ensures Less(x, es[0]) {
        assert x in multiset(tail);
        if x != e {
          var j :| 0 <= j < |es[1..]| && es[1..][j] == x;
          assert es[j + 1] == x;
        }
      }
      ConsDescending(es[0], tail);
    }
  }

  /** Sorting pairs that are all different gives a strictly descending
      sequence of the same pairs. */
  lemma {:induction false} SortIsDescending(es: seq<Entry>)
    requires NoDuplicates(es)
    ensures Descending(SortDescending(es))
  {
    if es != [] {
      var rest := es[1..];
      assert NoDuplicates(rest) by {
        forall i, j | 0 <= i < j < |rest| ensures rest[i] != rest[j] {
          assert rest[i] == es[i + 1] && rest[j] == es[j + 1];
        }
      }
      SortIsDescending(rest);
      assert es[0] !in multiset(SortDescending(rest));
      InsertDescending(es[0], SortDescending(rest));
    }
  }

  /** The ids of the pairs, in order. */
  function Ids(es: seq<Entry>): seq<int> {
    Project(es, (e: Entry) => e.id)
  }

  /** The default of `popularBooks`' argument. */
  const DefaultTopN: nat := 3

  class BookRecommendationService {
    var categoryBookMap: map<string, seq<int>>
    var borrowFrequency: map<int, int>

    constructor ()
      ensures categoryBookMap == map[] && borrowFrequency == map[]
    {
      categoryBookMap, borrowFrequency := map[], map[];
    }

    /** One more borrow of `bookId`, and the id appended to its category. */
    method RecordBorrow(bookId: int, category: string)
      modifies this
      ensures borrowFrequency == Bump(old(borrowFrequency), bookId)
      ensures categoryBookMap == AppendTo(old(categoryBookMap), category, bookId)
    {
      borrowFrequency := borrowFrequency[bookId := CountOf(borrowFrequency, bookId) + 1];
      var list := if category in categoryBookMap then categoryBookMap[category] else [];
      categoryBookMap := categoryBookMap[category := list + [bookId]];
    }

    /** The `topN` most borrowed ids: by count, ties to the larger id. The
        method has no `modifies` clause, so the tables stay as they are. */
    method PopularBooks(topN: nat) returns (result: seq<int>)
      ensures IsPopular(borrowFrequency, topN, result)
    {
      var freq := borrowFrequency;
      var entries := CollectEntries(freq);
      var sorted := SortDescending(entries);
      var n := Min(topN, |sorted|);
      result := [];
      for i := 0 to n
        invariant result == Ids(sorted[..i])
      {
        result := result + [sorted[i].id];
      }
      PopularProperties(freq, entries, topN, result);
    }
  }

  /** A set that is not empty has an element. */
  lemma HasElement(s: set<int>)
    requires s != {}
    ensures exists x :: x in s
  {
    if forall x :: x !in s {
      assert false;
    }
  }

  /** The loop that turns every entry of the table into a `(count, id)`
      pair. The order in which a `std::map` is visited is not modelled: any
      order gives the same sorted pairs. */
  method CollectEntries(freq: map<int, int>) returns (entries: seq<Entry>)
    ensures |entries| == |freq.Keys| && NoDuplicates(entries)
    ensures forall e :: e in entries ==> e.id in freq && e == EntryOf(freq, e.id)
    ensures forall k :: k in freq ==> EntryOf(freq, k) in entries
  {
    entries := [];
    var rest := freq.Keys;
    while rest != {}
      invariant rest <= freq.Keys
      invariant forall e :: e in entries ==> e.id in freq && e.id !in rest && e == EntryOf(freq, e.id)
      invariant forall k :: k in freq && k !in rest ==> EntryOf(freq, k) in entries
      invariant |entries| + |rest| == |freq.Keys|
      invariant NoDuplicates(entries)
      decreases rest
    {
      HasElement(rest);
      var k :| k in rest;
      entries := entries + [EntryOf(freq, k)];
      rest := rest - {k};
    }
  }

  /** What `popularBooks(topN)` promises for a table: `min(topN, size)`
      distinct recorded ids, each pair greater than the pairs after it (so
      counts never increase and equal counts go to the larger id first), and
      every recorded id left out ranked below every id returned. */
  predicate IsPopular(freq: map<int, int>, topN: nat, result: seq<int>) {
    && |result| == Min(topN, |freq.Keys|)
    && (forall i :: 0 <= i < |result| ==> result[i] in freq)
    && NoDuplicates(result)
    && (forall i, j :: 0 <= i < j < |result| ==>
          result[i] in freq && result[j] in freq && Less(EntryOf(freq, result[j]), EntryOf(freq, result[i])))
    && (forall id, i :: id in freq && id !in result && 0 <= i < |result| ==>
          result[i] in freq && Less(EntryOf(freq, id), EntryOf(freq, result[i])))
  }

  /** Sorting the pairs of the table and copying out the first ids gives
      what `popularBooks` promises. */
  lemma PopularProperties(freq: map<int, int>, entries: seq<Entry>, topN: nat, result: seq<int>)
    requires |entries| == |freq.Keys| && NoDuplicates(entries)
    requires forall e :: e in entries ==> e.id in freq && e == EntryOf(freq, e.id)
    requires forall k :: k in freq ==> EntryOf(freq, k) in entries
    requires result == Ids(SortDescending(entries)[..Min(topN, |entries|)])
    ensures IsPopular(freq, topN, result)
  {
    SortedTable(freq, entries);
    CopyOut(freq, SortDescending(entries), topN, result);
  }

  /** The sorted pairs of the table are its pairs, strictly descending. */
  lemma SortedTable(freq: map<int, int>, entries: seq<Entry>)
    requires NoDuplicates(entries)
    requires forall e :: e in entries ==> e.id in freq && e == EntryOf(freq, e.id)
    requires forall k :: k in freq ==> EntryOf(freq, k) in entries
    ensures Descending(SortDescending(entries))
    ensures forall e :: e in SortDescending(entries) ==> e.id in freq && e == EntryOf(freq, e.id)
    ensures forall k :: k in freq ==> EntryOf(freq, k) in SortDescending(entries)
  {
    var sorted := SortDescending(entries);
    SortIsDescending(entries);
    forall e ensures e in sorted <==> e in entries {
      assert e in sorted <==> e in multiset(sorted);
    }
  }

  /** Copying out the first ids of the sorted pairs of a table. */
  lemma CopyOut(freq: map<int, int>, sorted: seq<Entry>, topN: nat, result: seq<int>)
    requires Descending(sorted) && |sorted| == |freq.Keys|
    requires forall e :: e in sorted ==> e.id in freq && e == EntryOf(freq, e.id)
    requires forall k :: k in freq ==> EntryOf(freq, k) in sorted
    requires result == Ids(sorted[..Min(topN, |sorted|)])
    ensures IsPopular(freq, topN, result)
  {
    var n := Min(topN, |sorted|);
    assert forall i :: 0 <= i < n ==> result[i] == sorted[i].id && sorted[i] in sorted;
    forall id, i | id in freq && id !in result && 0 <= i < |result|
      ensures Less(EntryOf(freq, id), EntryOf(freq, result[i]))
    {
      var p :| 0 <= p < |sorted| && sorted[p] == EntryOf(freq, id);
    }
  }
}
