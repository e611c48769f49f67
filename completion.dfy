/**
 * `FSTCompletion.Completion`: one suggestion, holding its own copy of the
 * matched bytes and the bucket it came from, ordered by bytes alone.
 */
module Completions {
  import opened Bytes

  /**
   * A suggestion. Its bytes are a value, so each completion is independent
   * of the output buffer it was copied from (`BytesRef.deepCopyOf`).
   */
  datatype Completion = Completion(utf8: seq<Byte>, bucket: int)

  /** `Completion.compareTo`: the byte order of the two texts; buckets are ignored. */
  function CompareTo(c: Completion, o: Completion): (r: int)
    ensures r == 0 <==> c.utf8 == o.utf8
    ensures r < 0 <==> CompareBytes(o.utf8, c.utf8) > 0
  {
    CompareBytesZero(c.utf8, o.utf8);
    CompareBytesFlip(c.utf8, o.utf8);
    CompareBytes(c.utf8, o.utf8)
  }

  /** Non-descending under `compareTo`. */
  ghost predicate SortedByBytes(s: seq<Completion>)
  {
    forall i, j :: 0 <= i < j < |s| ==> CompareTo(s[i], s[j]) <= 0
  }

  /** Strictly ascending under `compareTo`; in particular no text occurs twice. */
  ghost predicate StrictlySortedByBytes(s: seq<Completion>)
  {
    forall i, j :: 0 <= i < j < |s| ==> CompareBytes(s[i].utf8, s[j].utf8) < 0
  }

  /** Inserts `x` after every element that does not sort after it. */
  function InsertByBytes(x: Completion, s: seq<Completion>): (r: seq<Completion>)
    requires SortedByBytes(s)
    ensures SortedByBytes(r)
    ensures multiset(r) == multiset(s) + multiset{x}
    ensures |r| == |s| + 1
    decreases |s|
  {
    if s == [] then [x]
    else if CompareTo(s[0], x) <= 0 then
      HeadBelowTail(s);
      var rest := InsertByBytes(x, s[1..]);
      KeepHead(x, s, rest);
      [s[0]] + rest
    else
      LeadSorted(x, s);
      [x] + s
  }

  /** Putting `h` in front keeps the order when `h` is below every element. */
  lemma ConsSorted(h: Completion, rest: seq<Completion>, m: multiset<Completion>)
    requires SortedByBytes(rest) && multiset(rest) == m
    requires forall y | y in m :: CompareTo(h, y) <= 0
    ensures SortedByBytes([h] + rest)
  {
    forall j | 0 <= j < |rest| ensures CompareTo(h, rest[j]) <= 0 {
      assert rest[j] in multiset(rest);
    }
  }

  /** The head of a sorted sequence is below every element of its tail. */
  lemma HeadBelowTail(s: seq<Completion>)
    requires SortedByBytes(s) && s != []
    ensures SortedByBytes(s[1..])
    ensures forall y | y in multiset(s[1..]) :: CompareTo(s[0], y) <= 0
  {
    var t := s[1..];
    forall i, j | 0 <= i < j < |t| ensures CompareTo(t[i], t[j]) <= 0 {
      assert t[i] == s[i + 1] && t[j] == s[j + 1];
    }
    forall y | y in multiset(t) ensures CompareTo(s[0], y) <= 0 {
      assert y in t;
      var j :| 0 <= j < |t| && t[j] == y;
      assert y == s[j + 1];
    }
  }

  /**
   * When `x` does not sort before the head of `s`, the head stays in front
   * of `rest`, the tail with `x` inserted.
   */
  lemma KeepHead(x: Completion, s: seq<Completion>, rest: seq<Completion>)
    requires SortedByBytes(s) && s != [] && CompareTo(s[0], x) <= 0
    requires SortedByBytes(rest) && multiset(rest) == multiset(s[1..]) + multiset{x}
    ensures SortedByBytes([s[0]] + rest)
    ensures multiset([s[0]] + rest) == multiset(s) + multiset{x}
  {
    assert s == [s[0]] + s[1..];
    HeadBelowTail(s);
    ConsSorted(s[0], rest, multiset(s[1..]) + multiset{x});
  }

  /** An element sorting before the head of a sorted sequence can lead it. */
  lemma LeadSorted(x: Completion, s: seq<Completion>)
    requires SortedByBytes(s) && s != [] && CompareTo(s[0], x) > 0
    ensures SortedByBytes([x] + s)
  {
    forall j | 0 <= j < |s| ensures CompareTo(x, s[j]) <= 0 {
      CompareBytesFlip(s[0].utf8, x.utf8);
      if j > 0 {
        CompareBytesTransitive(x.utf8, s[0].utf8, s[j].utf8);
      }
    }
    var r := [x] + s;
    forall i, j | 0 <= i < j < |r| ensures CompareTo(r[i], r[j]) <= 0 {
      if i > 0 {
        assert r[i] == s[i - 1] && r[j] == s[j - 1];
      }
    }
  }

  /**
   * `Collections.sort(res)` over `compareTo`: an insertion sort; its order
   * among completions with equal texts is not part of its contract.
   */
  function SortByBytes(s: seq<Completion>): (r: seq<Completion>)
    ensures SortedByBytes(r)
    ensures multiset(r) == multiset(s)
    ensures |r| == |s|
    decreases |s|
  {
    if s == [] then []
    else
      assert s == s[..|s| - 1] + [s[|s| - 1]];
      InsertByBytes(s[|s| - 1], SortByBytes(s[..|s| - 1]))
  }
}
