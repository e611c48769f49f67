/**
 * The specification of `FSTCompletion`'s lookups as functions of the
 * cached root arcs, the key and the cap `num`: which completions each
 * bucket offers, how the weight-first scan takes them, the exact-match
 * search and promotion, and the alphabetical variant.
 */
module LookupSpec {
  import opened Wrappers
  import opened Bytes
  import opened Fst
  import opened Descent
  import opened Completions
  import opened Enumeration

  /** The exceptions a lookup can end in. */
  datatype Error =
    | NegativeCapacity   // `new ArrayList(Math.min(10, num))` with num < 0
    | IndexOutOfBounds   // `res.remove(res.size() - 1)` on an empty list
    | NullAutomaton      // `automaton.getBytesReader(0)` with no automaton

  /** `s` back to front (`Collections.reverse`). */
  function Reversed<T>(s: seq<T>): (r: seq<T>)
    ensures |r| == |s|
    decreases |s|
  {
    if s == [] then [] else [s[|s| - 1]] + Reversed(s[..|s| - 1])
  }

  /** Every cached arc heads a bucket: a byte label over a well-formed subtree. */
  ghost predicate BucketArcs(arcs: seq<Arc>)
  {
    forall j :: 0 <= j < |arcs| ==> ByteArc(arcs[j])
  }

  /** Strictly descending labels: the highest bucket first. */
  ghost predicate LabelsDescending(arcs: seq<Arc>)
  {
    forall i, j :: 0 <= i < j < |arcs| ==> arcs[i].lbl > arcs[j].lbl
  }

  /**
   * What bucket `a` offers for `key`: if the descent along the key
   * succeeds, every completion below the arc reached, tagged with the
   * bucket's label; otherwise none.
   */
  function BucketMatches(a: Arc, key: seq<Byte>): seq<Completion>
  {
    match Descend(a, key)
    case None => []
    case Some(d) => NodeCompletions(key, d.target, 0, a.lbl)
  }

  /** The matches of the buckets `arcs[i..]`, bucket after bucket. */
  function AllMatches(arcs: seq<Arc>, i: nat, key: seq<Byte>): seq<Completion>
    decreases |arcs| - i
  {
    if i >= |arcs| then [] else BucketMatches(arcs[i], key) + AllMatches(arcs, i + 1, key)
  }

  /**
   * The root-arc loop of `lookupSortedByWeight` from arc `i` on, with the
   * list `res` collected so far. Each bucket's matches are emitted until
   * the cap; unless `collectAll`, the first bucket that reaches the cap
   * ends the scan, and its index is returned.
   */
  function ScanFrom(arcs: seq<Arc>, i: nat, key: seq<Byte>, num: int, res: seq<Completion>, collectAll: bool)
    : (r: (seq<Completion>, Option<nat>))
    ensures |res| <= |r.0| && r.0[..|res|] == res
    ensures r.1.Some? ==> !collectAll && i <= r.1.value < |arcs|
    decreases |arcs| - i
  {
    if i >= |arcs| then (res, None)
    else
      EmitUntilFullFacts(res, num, BucketMatches(arcs[i], key));
      var (r1, full) := EmitUntilFull(res, num, BucketMatches(arcs[i], key));
      if full && !collectAll then (r1, Some(i))
      else
        var r := ScanFrom(arcs, i + 1, key, num, r1, collectAll);
        assert r.0[..|res|] == r.0[..|r1|][..|res|];
        r
  }

  /**
   * `getExactMatchStartingFromRootArc`: the label of the first bucket from
   * `i` on whose descent along the key reaches a node whose first arc is
   * the final arc, or -1.
   */
  function ExactBucketFrom(arcs: seq<Arc>, i: nat, key: seq<Byte>): (b: int)
    ensures b == -1 || exists j :: i <= j < |arcs| && arcs[j].lbl == b
    decreases |arcs| - i
  {
    if i >= |arcs| then -1
    else
      match Descend(arcs[i], key)
      case Some(d) =>
        if |d.target.arcs| > 0 && d.target.arcs[0].lbl == END_LABEL then arcs[i].lbl
        else ExactBucketFrom(arcs, i + 1, key)
      case None => ExactBucketFrom(arcs, i + 1, key)
  }

  /** The index of the last completion whose text is `key`, the one a backwards search finds first. */
  function LastIndexOf(list: seq<Completion>, key: seq<Byte>): (r: Option<nat>)
    ensures r.None? <==> forall j :: 0 <= j < |list| ==> list[j].utf8 != key
    ensures r.Some? ==> && r.value < |list| && list[r.value].utf8 == key
                        && forall j :: r.value < j < |list| ==> list[j].utf8 != key
    decreases |list|
  {
    if list == [] then None
    else if list[|list| - 1].utf8 == key then Some(|list| - 1)
    else LastIndexOf(list[..|list| - 1], key)
  }

  /** `list.add(0, list.remove(i))`. */
  function MoveToFront(list: seq<Completion>, i: nat): (r: seq<Completion>)
    requires i < |list|
    ensures |r| == |list| && r[0] == list[i]
  {
    [list[i]] + list[..i] + list[i + 1..]
  }

  /** `checkExistingAndReorder`: the reordered list if `key` occurs in it, None otherwise. */
  function Reorder(list: seq<Completion>, key: seq<Byte>): (r: Option<seq<Completion>>)
    ensures r.Some? <==> exists j :: 0 <= j < |list| && list[j].utf8 == key
    ensures r.Some? ==> |r.value| == |list| && r.value[0].utf8 == key
  {
    match LastIndexOf(list, key)
    case None => None
    case Some(i) => Some(MoveToFront(list, i))
  }

  /**
   * `while (res.size() >= num) res.remove(res.size() - 1)`: drops the tail
   * until fewer than `num` remain; with num <= 0 the loop empties the list
   * and then fails on `remove(-1)`.
   */
  function TrimBelow(res: seq<Completion>, num: int): (r: Option<seq<Completion>>)
    ensures r.Some? <==> num > 0
    ensures r.Some? ==> |r.value| < num && |r.value| <= |res| && r.value == res[..|r.value|]
    ensures r.Some? && |res| < num ==> r.value == res
  {
    if num <= 0 then None
    else if |res| < num then Some(res)
    else Some(res[..num - 1])
  }

  /** The exact-first step after the scan stopped at bucket `stop`. */
  function Promote(arcs: seq<Arc>, key: seq<Byte>, num: int, res: seq<Completion>, stop: nat)
    : (r: Result<seq<Completion>, Error>)
    ensures r.Failure? ==> r.error == IndexOutOfBounds && num <= 0
    ensures r.Success? && |res| <= num ==> |r.value| <= num
    ensures r.Success? && (Reorder(res, key).Some? || ExactBucketFrom(arcs, stop, key) != -1)
            ==> r.value != [] && r.value[0].utf8 == key
  {
    match Reorder(res, key)
    case Some(r) => Success(r)
    case None =>
      var b := ExactBucketFrom(arcs, stop, key);
      if b == -1 then Success(res)
      else
        match TrimBelow(res, num)
        case None => Failure(IndexOutOfBounds)
        case Some(t) => Success([Completion(key, b)] + t)
  }

  /** `lookupSortedByWeight(key, num, collectAll)`, with the instance's `exactFirst`. */
  function LookupByWeight(arcs: seq<Arc>, key: seq<Byte>, num: int, collectAll: bool, exactFirst: bool)
    : (r: Result<seq<Completion>, Error>)
    ensures r == Failure(NegativeCapacity) <==> num < 0
  {
    if num < 0 then Failure(NegativeCapacity)
    else
      var (res, stop) := ScanFrom(arcs, 0, key, num, [], collectAll);
      if stop.Some? && exactFirst then Promote(arcs, key, num, res, stop.value) else Success(res)
  }

  /** The first `num` of `s` (`subList(0, num)` when longer). */
  function Truncate(s: seq<Completion>, num: nat): (r: seq<Completion>)
    ensures |r| <= num && |r| <= |s| && r == s[..|r|]
    ensures |s| <= num ==> r == s
  {
    if |s| > num then s[..num] else s
  }

  /** `lookupSortedAlphabetically`: collect from every bucket, sort by bytes, trim. */
  function Alphabetical(arcs: seq<Arc>, key: seq<Byte>, num: int): (r: Result<seq<Completion>, Error>)
    ensures r.Failure? <==> num < 0
    ensures r.Failure? ==> r.error == NegativeCapacity
    ensures r.Success? ==> |r.value| <= num
  {
    match LookupByWeight(arcs, key, num, true, false)
    case Failure(e) => Failure(e)
    case Success(all) => Success(Truncate(SortByBytes(all), num as nat))
  }

  /** `lookup`: the empty key or a missing automaton give no suggestions, then the mode is chosen. */
  function Lookup(hasAutomaton: bool, arcs: seq<Arc>, higherWeightsFirst: bool, exactFirst: bool,
                  key: seq<Byte>, num: int): (r: Result<seq<Completion>, Error>)
    ensures r == Failure(NegativeCapacity) <==> key != [] && hasAutomaton && num < 0
    ensures r == Failure(IndexOutOfBounds) ==> exactFirst && num == 0
  {
    if key == [] || !hasAutomaton then Success([])
    else if !higherWeightsFirst && |arcs| > 1 then Alphabetical(arcs, key, num)
    else LookupByWeight(arcs, key, num, false, exactFirst)
  }
}
