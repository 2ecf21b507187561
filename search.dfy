/** The artist search engine of the `search` application: a fixed list of artist
    records and a search that keeps, in their original order, the records whose
    age is strictly below an optional upper bound. */
module Search {
  import opened Wrappers

  /** One artist entry: its age, its identifier, and whatever other fields the
      loaded document carried, which the engine passes through untouched. */
  datatype Record = Record(age: int, uuid: string, others: map<string, string>)

  /** The keyword arguments of a search call. `min` is read by the source and
      then never used; `max` is the upper age bound. */
  datatype Query = Query(min: Option<int>, max: Option<int>)

  /** Python truthiness of an optional integer bound: `None` (or an absent
      keyword) and `0` are falsy. */
  predicate Truthy(b: Option<int>) {
    b.Some? && b.value != 0
  }

  /** The list comprehension of the filtered branch: the records of `s` whose
      age is strictly below `max`, in input order. */
  function AgeBelow(s: seq<Record>, max: int): (r: seq<Record>)
    ensures |r| <= |s|
    ensures forall i :: 0 <= i < |r| ==> r[i].age < max && r[i] in s
    ensures forall i :: 0 <= i < |s| && s[i].age < max ==> s[i] in r
  {
    if s == [] then []
    else if s[0].age < max then [s[0]] + AgeBelow(s[1..], max)
    else AgeBelow(s[1..], max)
  }

  /** A search engine over one dataset. The dataset is given once, to the
      constructor, and no operation ever replaces or changes it. */
  class SearchEngine {
    const data: seq<Record>

    constructor (data: seq<Record>)
      ensures this.data == data
    {
      this.data := data;
    }

    /** Search with the given keyword arguments. When `max` is falsy the whole
        dataset comes back as it is; otherwise exactly the records younger than
        `max` come back. `min` plays no part. */
    function Search(q: Query): (r: seq<Record>)
      ensures !Truthy(q.max) ==> r == data
      ensures Truthy(q.max) ==> forall x :: x in r <==> x in data && x.age < q.max.value
      ensures |r| <= |data|
    {
      if Truthy(q.max) then AgeBelow(data, q.max.value) else data
    }
  }

  /** `r` is `s` read at the strictly increasing positions `idx`, and the listed
      positions are exactly those of `s` holding a record younger than `max`:
      the order-preserving selection of the matching records, nothing invented,
      repeated, reordered or dropped. */
  ghost predicate Selection(r: seq<Record>, s: seq<Record>, idx: seq<int>, max: int) {
    && |idx| == |r|
    && (forall k :: 0 <= k < |idx| ==> 0 <= idx[k] < |s| && r[k] == s[idx[k]])
    && StrictlyIncreasing(idx)
    && (forall i :: 0 <= i < |s| ==> (s[i].age < max <==> i in idx))
  }

  ghost predicate StrictlyIncreasing(p: seq<int>) {
    forall k, l :: 0 <= k < l < |p| ==> p[k] < p[l]
  }

  /** The positions, from `from` on, of the records of `s` younger than `max`. */
  ghost function PositionsFrom(s: seq<Record>, max: int, from: nat): seq<int>
    requires from <= |s|
    decreases |s| - from
  {
    if from == |s| then []
    else if s[from].age < max then [from] + PositionsFrom(s, max, from + 1)
    else PositionsFrom(s, max, from + 1)
  }

  /** `PositionsFrom(s, max, from)` lists, in increasing order, exactly the
      positions from `from` on that hold a record younger than `max`. */
  lemma {:induction false} PositionsFromExact(s: seq<Record>, max: int, from: nat)
    requires from <= |s|
    ensures var idx := PositionsFrom(s, max, from);
      && StrictlyIncreasing(idx)
      && (forall k :: 0 <= k < |idx| ==> from <= idx[k] < |s|)
      && (forall i :: from <= i < |s| ==> (s[i].age < max <==> i in idx))
    decreases |s| - from
  {
    if from < |s| {
      PositionsFromExact(s, max, from + 1);
    }
  }

  /** The filter of the suffix `s[from..]` reads `s` at `PositionsFrom(s, max, from)`. */
  lemma {:induction false} AgeBelowReadsPositions(s: seq<Record>, max: int, from: nat)
    requires from <= |s|
    ensures var r, idx := AgeBelow(s[from..], max), PositionsFrom(s, max, from);
      && |idx| == |r|
      && (forall k :: 0 <= k < |idx| ==> 0 <= idx[k] < |s| && r[k] == s[idx[k]])
    decreases |s| - from
  {
    if from < |s| {
      AgeBelowReadsPositions(s, max, from + 1);
      var rest, restIdx := AgeBelow(s[from + 1..], max), PositionsFrom(s, max, from + 1);
      assert s[from..][1..] == s[from + 1..];
      if s[from].age < max {
        var r, idx := [s[from]] + rest, [from] + restIdx;
        assert AgeBelow(s[from..], max) == r;
        assert PositionsFrom(s, max, from) == idx;
        forall k | 0 <= k < |idx|
          ensures 0 <= idx[k] < |s| && r[k] == s[idx[k]]
        {
          if k > 0 {
            assert idx[k] == restIdx[k - 1] && r[k] == rest[k - 1];
          }
        }
      } else {
        assert AgeBelow(s[from..], max) == rest;
        assert PositionsFrom(s, max, from) == restIdx;
      }
    }
  }

  /** The filter is an order-preserving selection of exactly the matching records. */
  lemma AgeBelowIsSelection(s: seq<Record>, max: int)
    ensures Selection(AgeBelow(s, max), s, PositionsFrom(s, max, 0), max)
  {
    PositionsFromExact(s, max, 0);
    AgeBelowReadsPositions(s, max, 0);
    assert s[0..] == s;
  }

  /** The first element of a strictly increasing sequence is its least. */
  lemma HeadIsLeast(p: seq<int>, x: int)
    requires StrictlyIncreasing(p) && x in p
    ensures p[0] <= x
  {
    var k :| 0 <= k < |p| && p[k] == x;
    if k > 0 {
      assert p[0] < p[k];
    }
  }

  lemma HeadIsMember(p: seq<int>)
    ensures p != [] ==> p[0] in p
  {
  }

  /** Two strictly increasing sequences holding the same values are equal. */
  lemma {:induction false} IncreasingUnique(a: seq<int>, b: seq<int>)
    requires StrictlyIncreasing(a) && StrictlyIncreasing(b)
    requires forall i :: i in a <==> i in b
    ensures a == b
  {
    if a == [] || b == [] {
      // a member of either would be a member of the other
      HeadIsMember(a);
      HeadIsMember(b);
    } else {
      assert a[0] in a && b[0] in b;
      HeadIsLeast(a, b[0]);
      HeadIsLeast(b, a[0]);
      forall i
        ensures i in a[1..] <==> i in b[1..]
      {
        if i in a[1..] {
          var m :| 1 <= m < |a| && a[m] == i;
          assert a[0] < a[m];
          assert i in b && i != b[0];
          var n :| 0 <= n < |b| && b[n] == i;
        }
        if i in b[1..] {
          var m :| 1 <= m < |b| && b[m] == i;
          assert b[0] < b[m];
          assert i in a && i != a[0];
          var n :| 0 <= n < |a| && a[n] == i;
        }
      }
      IncreasingUnique(a[1..], b[1..]);
      assert a == [a[0]] + a[1..] && b == [b[0]] + b[1..];
    }
  }

  /** A selection is determined by the dataset and the bound alone. */
  lemma SelectionUnique(r1: seq<Record>, r2: seq<Record>, s: seq<Record>, idx1: seq<int>, idx2: seq<int>, max: int)
    requires Selection(r1, s, idx1, max) && Selection(r2, s, idx2, max)
    ensures r1 == r2
  {
    forall i
      ensures i in idx1 <==> i in idx2
    {
      if i in idx1 {
        var k :| 0 <= k < |idx1| && idx1[k] == i;
        assert 0 <= i < |s|;
      }
      if i in idx2 {
        var k :| 0 <= k < |idx2| && idx2[k] == i;
        assert 0 <= i < |s|;
      }
    }
    IncreasingUnique(idx1, idx2);
  }

  /** With a truthy `max`, the search result is the order-preserving selection
      of the matching records, and any such selection equals it. */
  lemma SearchIsTheSelection(e: SearchEngine, q: Query, r: seq<Record>, idx: seq<int>)
    requires Truthy(q.max)
    ensures Selection(e.Search(q), e.data, PositionsFrom(e.data, q.max.value, 0), q.max.value)
    ensures Selection(r, e.data, idx, q.max.value) ==> r == e.Search(q)
  {
    AgeBelowIsSelection(e.data, q.max.value);
    if Selection(r, e.data, idx, q.max.value) {
      SelectionUnique(r, e.Search(q), e.data, idx, PositionsFrom(e.data, q.max.value, 0), q.max.value);
    }
  }

  /** Filtering an already filtered list by the same bound changes nothing. */
  lemma {:induction false} AgeBelowIdempotent(s: seq<Record>, max: int)
    ensures AgeBelow(AgeBelow(s, max), max) == AgeBelow(s, max)
  {
    if s != [] {
      AgeBelowIdempotent(s[1..], max);
      if s[0].age < max {
        assert ([s[0]] + AgeBelow(s[1..], max))[1..] == AgeBelow(s[1..], max);
      }
    }
  }

  /** Searching the result of a search again, with the same arguments, returns
      it unchanged. */
  lemma SearchIdempotent(e: SearchEngine, f: SearchEngine, q: Query)
    requires f.data == e.Search(q)
    ensures f.Search(q) == e.Search(q)
  {
    if Truthy(q.max) {
      AgeBelowIdempotent(e.data, q.max.value);
    }
  }

  /** The filter keeps every record exactly when every age is below the bound. */
  lemma {:induction false} AgeBelowKeepsAll(s: seq<Record>, max: int)
    ensures |AgeBelow(s, max)| == |s| <==> forall i :: 0 <= i < |s| ==> s[i].age < max
  {
    if s != [] {
      AgeBelowKeepsAll(s[1..], max);
      if s[0].age < max {
        assert forall i :: 1 <= i < |s| ==> s[i] == s[1..][i - 1];
      }
    }
  }

  /** The search never lengthens the dataset, and returns all of it exactly when
      the bound is disabled or every record is younger than the bound. */
  lemma SearchLength(e: SearchEngine, q: Query)
    ensures |e.Search(q)| <= |e.data|
    ensures |e.Search(q)| == |e.data| <==>
      !Truthy(q.max) || forall i :: 0 <= i < |e.data| ==> e.data[i].age < q.max.value
  {
    if Truthy(q.max) {
      AgeBelowKeepsAll(e.data, q.max.value);
    }
  }

  /** The `min` keyword has no effect on the result. */
  lemma MinIgnored(e: SearchEngine, q: Query, min: Option<int>)
    ensures e.Search(Query(min, q.max)) == e.Search(q)
  {
  }

  /** Three artists aged 10, 20 and 30, searched with a few bounds. The bound
      is strict, `min` changes nothing, and `max=0` filters nothing. */
  lemma ThreeArtists(e: SearchEngine)
    requires e.data == [Record(10, "id1", map[]), Record(20, "id2", map[]), Record(30, "id3", map[])]
    ensures e.Search(Query(None, Some(11))) == [e.data[0]]
    ensures e.Search(Query(Some(11), Some(21))) == [e.data[0], e.data[1]]
    ensures e.Search(Query(None, Some(20))) == [e.data[0]]
    ensures e.Search(Query(None, Some(0))) == e.data
    ensures e.Search(Query(Some(31), Some(21))) == [e.data[0], e.data[1]]
  {
    var d := e.data;
    assert d[1..][1..] == d[2..] == [d[2]] && [d[2]][1..] == [];
    assert AgeBelow(d[2..], 21) == [];
    assert AgeBelow(d[1..], 21) == [d[1]];
    assert AgeBelow(d[2..], 20) == [] && AgeBelow(d[1..], 20) == [];
  }
}
