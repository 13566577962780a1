/** Small sequence helpers shared by the catalog, the borrower and the codec:
    the `std::find` / `vector::erase` idiom on sequences, and an Option type
    standing for a null pointer or a failed parse. */
module Util {

  datatype Option<T> = None | Some(value: T)

  /** What `std::map::operator[]` reads for a key: its value, or 0 when the
      key is absent (the lookup inserts it with that value). */
  function CountOf(freq: map<int, int>, id: int): (n: int)
    ensures id !in freq ==> n == 0
    ensures id in freq ==> n == freq[id]
  {
    if id in freq then freq[id] else 0
  }

  /** `std::min` on integers. */
  function Min(a: int, b: int): int { if a < b then a else b }

  function Max(a: int, b: int): int { if a < b then b else a }

  /** The image of every element under `f`, in order: the column of a
      table that lookups by key search. */
  function Project<T, K>(xs: seq<T>, f: T -> K): (ks: seq<K>)
    ensures |ks| == |xs| && forall i :: 0 <= i < |xs| ==> ks[i] == f(xs[i])
  {
    seq(|xs|, i requires 0 <= i < |xs| => f(xs[i]))
  }

  /** No element occurs twice. */
  predicate NoDuplicates<T(==)>(s: seq<T>) {
    forall i, j :: 0 <= i < j < |s| ==> s[i] != s[j]
  }

  /** Position of the first occurrence of `x`, or `|s|` when absent
      (what `std::find` returns as an iterator). */
  function IndexOf<T(==)>(s: seq<T>, x: T): (k: nat)
    ensures k <= |s|
    ensures k < |s| ==> s[k] == x
    ensures forall j :: 0 <= j < k ==> s[j] != x
    ensures k == |s| <==> x !in s
  {
    if |s| == 0 then 0
    else if s[0] == x then 0
    else 1 + IndexOf(s[1..], x)
  }

  lemma AppendAssoc<T>(a: seq<T>, b: seq<T>, c: seq<T>)
    ensures (a + b) + c == a + (b + c)
  {
  }

  /** `erase(find(s, x))`: drops the first occurrence of `x`, if any. */
  function RemoveFirst<T(==)>(s: seq<T>, x: T): (r: seq<T>)
    ensures x in s ==> |r| == |s| - 1
    ensures x !in s ==> r == s
    ensures multiset(r) == multiset(s) - multiset{x}
  {
    var k := IndexOf(s, x);
    if k == |s| then s
    else
      assert s == s[..k] + [s[k]] + s[k + 1..];
      s[..k] + s[k + 1..]
  }

  /** Appending an absent element and then removing it gives back the sequence. */
  lemma {:induction false} RemoveFirstOfAppended<T>(s: seq<T>, x: T)
    requires x !in s
    ensures RemoveFirst(s + [x], x) == s
  {
    var k := IndexOf(s + [x], x);
    assert k == |s| by {
      forall j | 0 <= j < |s| ensures (s + [x])[j] != x { assert (s + [x])[j] == s[j]; }
    }
    assert (s + [x])[..k] == s;
  }

  /** Removing an element from a duplicate-free sequence keeps it duplicate-free
      and leaves no occurrence of that element. */
  lemma RemoveFirstNoDuplicates<T>(s: seq<T>, x: T)
    requires NoDuplicates(s)
    ensures NoDuplicates(RemoveFirst(s, x))
    ensures x !in RemoveFirst(s, x)
  {
    var k := IndexOf(s, x);
    if k < |s| {
      var r := RemoveFirst(s, x);
      assert r == s[..k] + s[k + 1..];
      assert forall i :: 0 <= i < |r| ==> r[i] == s[if i < k then i else i + 1];
      forall i, j | 0 <= i < j < |r| ensures r[i] != r[j] {
      }
      forall i | 0 <= i < |r| ensures r[i] != x {
      }
    }
  }

  /** The values of the lines that `parse` accepts, in order: a loader's loop
      that reads a file line by line and skips what it cannot read. */
  function ParseAll<T>(parse: string -> Option<T>, lines: seq<string>): (xs: seq<T>)
    ensures |xs| <= |lines|
  {
    if lines == [] then []
    else
      var prev := ParseAll(parse, lines[..|lines| - 1]);
      match parse(lines[|lines| - 1])
      case Some(x) => prev + [x]
      case None => prev
  }

  /** When every line parses, the values are exactly those of the lines. */
  lemma {:induction false} ParseAllOfParsed<T>(parse: string -> Option<T>, lines: seq<string>, xs: seq<T>)
    requires |lines| == |xs|
    requires forall i :: 0 <= i < |lines| ==> parse(lines[i]) == Some(xs[i])
    ensures ParseAll(parse, lines) == xs
  {
    if lines != [] {
      var n := |lines| - 1;
      ParseAllOfParsed(parse, lines[..n], xs[..n]);
      assert xs == xs[..n] + [xs[n]];
    }
  }

  /** Every value comes from some line. */
  lemma {:induction false} ParseAllFrom<T>(parse: string -> Option<T>, lines: seq<string>, x: T)
    requires x in ParseAll(parse, lines)
    ensures exists i :: 0 <= i < |lines| && parse(lines[i]) == Some(x)
  {
    var n := |lines| - 1;
    var prev := ParseAll(parse, lines[..n]);
    if x in prev {
      ParseAllFrom(parse, lines[..n], x);
      var i :| 0 <= i < n && parse(lines[..n][i]) == Some(x);
      assert lines[..n][i] == lines[i];
    } else {
      assert parse(lines[n]) == Some(x);
    }
  }

  /** One more line: its value, if it parses, comes after the others. */
  lemma ParseAllStep<T>(parse: string -> Option<T>, lines: seq<string>, i: nat)
    requires i < |lines|
    ensures ParseAll(parse, lines[..i + 1]) ==
      ParseAll(parse, lines[..i]) + (if parse(lines[i]).Some? then [parse(lines[i]).value] else [])
  {
    assert lines[..i + 1][..i] == lines[..i];
  }
}
