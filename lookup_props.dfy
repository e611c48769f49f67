/**
 * What the lookups promise, proved about their specification: the root
 * cache order, which completions a bucket offers, soundness, bounds,
 * completeness below the cap, the weight-then-bytes order, the exact-match
 * search and promotion, and the alphabetical mode.
 */
module LookupProps {
  import opened Wrappers
  import opened Bytes
  import opened Fst
  import opened Descent
  import opened Completions
  import opened Enumeration
  import opened LookupSpec

  /** `c` is a term stored in the bucket it names. */
  ghost predicate Stored(arcs: seq<Arc>, c: Completion)
  {
    exists j :: 0 <= j < |arcs| && arcs[j].lbl == c.bucket && IsTerm(arcs[j].target, c.utf8)
  }

  /** The documented result order: bucket descending, then bytes ascending. */
  ghost predicate WeightOrdered(s: seq<Completion>)
  {
    forall i, j :: 0 <= i < j < |s| ==>
      || s[i].bucket > s[j].bucket
      || (s[i].bucket == s[j].bucket && CompareBytes(s[i].utf8, s[j].utf8) < 0)
  }

  // ----- The root arc cache -----

  /** `Reversed` mirrors the indices. */
  lemma {:induction false} ReversedAt<T>(s: seq<T>, i: nat)
    requires i < |s|
    ensures Reversed(s)[i] == s[|s| - 1 - i]
    decreases |s|
  {
    if i > 0 {
      ReversedAt(s[..|s| - 1], i - 1);
    }
  }

  /**
   * The cache holds exactly the root's arcs, highest label (bucket) first,
   * and each heads a well-formed bucket subtree.
   */
  lemma CachedRootArcs(root: Node)
    requires WellFormedRoot(root)
    ensures LabelsDescending(Reversed(root.arcs))
    ensures BucketArcs(Reversed(root.arcs))
    ensures forall a :: a in Reversed(root.arcs) <==> a in root.arcs
  {
    var r, n := Reversed(root.arcs), |root.arcs|;
    forall i | 0 <= i < n ensures r[i] == root.arcs[n - 1 - i] && ByteArc(r[i]) {
      ReversedAt(root.arcs, i);
      RootArcIsByteArc(root, n - 1 - i);
    }
    forall a | a in root.arcs ensures a in r {
      var k :| 0 <= k < n && root.arcs[k] == a;
      assert r[n - 1 - k] == a;
    }
  }

  // ----- What a bucket offers -----

  /** Bucket `a` offers exactly its stored terms that extend the key, tagged with its label. */
  lemma BucketMatchesMembers(a: Arc, key: seq<Byte>, c: Completion)
    requires ByteArc(a)
    ensures c in BucketMatches(a, key) <==>
            c.bucket == a.lbl && IsPrefix(key, c.utf8) && IsTerm(a.target, c.utf8)
  {
    if IsPrefix(key, c.utf8) {
      var rest := c.utf8[|key|..];
      assert c.utf8 == key + rest;
      DescendIsTerm(a, key, rest);
    }
    match Descend(a, key)
    case None =>
    case Some(d) => CompletionsAreTerms(key, d.target, a.lbl, c);
  }

  /** A bucket offers its matches in strictly ascending byte order. */
  lemma BucketMatchesSorted(a: Arc, key: seq<Byte>)
    requires ByteArc(a)
    ensures StrictlySortedByBytes(BucketMatches(a, key))
  {
    DescendStaysOnByteArcs(a, key);
    match Descend(a, key)
    case None =>
    case Some(d) => NodeCompletionsSorted(key, d.target, 0, a.lbl);
  }

  /** A match of bucket `j` is among the concatenated matches from any `i <= j`. */
  lemma {:induction false} BucketInAll(arcs: seq<Arc>, i: nat, j: nat, key: seq<Byte>, c: Completion)
    requires i <= j < |arcs| && c in BucketMatches(arcs[j], key)
    ensures c in AllMatches(arcs, i, key)
    decreases j - i
  {
    assert AllMatches(arcs, i, key) == BucketMatches(arcs[i], key) + AllMatches(arcs, i + 1, key);
    if i < j {
      BucketInAll(arcs, i + 1, j, key, c);
    }
  }

  /** Each of the concatenated matches comes from one bucket, which is returned. */
  lemma {:induction false} AllInBucket(arcs: seq<Arc>, i: nat, key: seq<Byte>, c: Completion) returns (j: nat)
    requires c in AllMatches(arcs, i, key)
    ensures i <= j < |arcs| && c in BucketMatches(arcs[j], key)
    decreases |arcs| - i
  {
    assert AllMatches(arcs, i, key) == BucketMatches(arcs[i], key) + AllMatches(arcs, i + 1, key);
    if c in BucketMatches(arcs[i], key) {
      j := i;
    } else {
      j := AllInBucket(arcs, i + 1, key, c);
    }
  }

  /** Soundness and completeness of the matches: the stored terms extending the key, in any bucket. */
  lemma AllMatchesAreStored(arcs: seq<Arc>, key: seq<Byte>, c: Completion)
    requires BucketArcs(arcs)
    ensures c in AllMatches(arcs, 0, key) <==> IsPrefix(key, c.utf8) && Stored(arcs, c)
  {
    if c in AllMatches(arcs, 0, key) {
      var j := AllInBucket(arcs, 0, key, c);
      BucketMatchesMembers(arcs[j], key, c);
    }
    if IsPrefix(key, c.utf8) && Stored(arcs, c) {
      var j :| 0 <= j < |arcs| && arcs[j].lbl == c.bucket && IsTerm(arcs[j].target, c.utf8);
      BucketMatchesMembers(arcs[j], key, c);
      BucketInAll(arcs, 0, j, key, c);
    }
  }

  // ----- The weight-first scan -----

  /**
   * Scanning bucket by bucket and stopping at the first bucket that reaches
   * the cap is emitting the concatenated matches under the cap: the same
   * list, and a stop exactly when the cap is reached.
   */
  lemma {:induction false} ScanIsEmit(arcs: seq<Arc>, i: nat, key: seq<Byte>, num: int, res: seq<Completion>)
    ensures ScanFrom(arcs, i, key, num, res, false).0 == EmitUntilFull(res, num, AllMatches(arcs, i, key)).0
    ensures ScanFrom(arcs, i, key, num, res, false).1.Some? == EmitUntilFull(res, num, AllMatches(arcs, i, key)).1
    decreases |arcs| - i
  {
    if i < |arcs| {
      EmitUntilFullConcat(res, num, BucketMatches(arcs[i], key), AllMatches(arcs, i + 1, key));
      var (r1, full1) := EmitUntilFull(res, num, BucketMatches(arcs[i], key));
      if !full1 {
        ScanIsEmit(arcs, i + 1, key, num, r1);
      }
    } else {
      assert res + [] == res;
    }
  }

  /** Every bucket before the one that stopped the scan was emitted in full. */
  lemma {:induction false} ScanCoversBefore(arcs: seq<Arc>, i: nat, key: seq<Byte>, num: int,
                                             res: seq<Completion>, j: nat, c: Completion)
    requires ScanFrom(arcs, i, key, num, res, false).1.Some?
    requires i <= j < ScanFrom(arcs, i, key, num, res, false).1.value
    requires c in BucketMatches(arcs[j], key)
    ensures c in ScanFrom(arcs, i, key, num, res, false).0
    decreases |arcs| - i
  {
    var cs := BucketMatches(arcs[i], key);
    EmitUntilFullFacts(res, num, cs);
    var (r1, full) := EmitUntilFull(res, num, cs);
    assert !full;
    var r := ScanFrom(arcs, i + 1, key, num, r1, false);
    if j == i {
      assert r1 == res + cs;
      assert c in r.0[..|r1|];
    } else {
      ScanCoversBefore(arcs, i + 1, key, num, r1, j, c);
    }
  }

  // ----- The exact-match search -----

  /**
   * `getExactMatchStartingFromRootArc` returns the label of the first
   * bucket from `i` on that stores the key as a complete term, and -1
   * exactly when no such bucket exists.
   */
  lemma ExactBucketFromFinds(arcs: seq<Arc>, i: nat, key: seq<Byte>)
    requires BucketArcs(arcs)
    ensures ExactBucketFrom(arcs, i, key) == -1 <==> forall j :: i <= j < |arcs| ==> !IsTerm(arcs[j].target, key)
    ensures ExactBucketFrom(arcs, i, key) != -1 ==>
            exists j :: && i <= j < |arcs| && arcs[j].lbl == ExactBucketFrom(arcs, i, key)
                        && IsTerm(arcs[j].target, key)
                        && forall k :: i <= k < j ==> !IsTerm(arcs[k].target, key)
  {
    ExactBucketNone(arcs, i, key);
    ExactBucketFound(arcs, i, key);
  }

  /** The search gives -1 exactly when no bucket from `i` on stores the key. */
  lemma {:induction false} ExactBucketNone(arcs: seq<Arc>, i: nat, key: seq<Byte>)
    requires BucketArcs(arcs)
    ensures ExactBucketFrom(arcs, i, key) == -1 <==> forall j :: i <= j < |arcs| ==> !IsTerm(arcs[j].target, key)
    decreases |arcs| - i
  {
    if i < |arcs| {
      ExactBucketStep(arcs, i, key);
      ExactBucketNone(arcs, i + 1, key);
      assert ByteArc(arcs[i]);
      if !IsTerm(arcs[i].target, key) {
        assert (forall j :: i <= j < |arcs| ==> !IsTerm(arcs[j].target, key))
               <==> (forall j :: i + 1 <= j < |arcs| ==> !IsTerm(arcs[j].target, key));
      }
    }
  }

  /** A result other than -1 is the label of the first bucket from `i` on that stores the key. */
  lemma {:induction false} ExactBucketFound(arcs: seq<Arc>, i: nat, key: seq<Byte>)
    requires BucketArcs(arcs)
    ensures ExactBucketFrom(arcs, i, key) != -1 ==>
            exists j :: && i <= j < |arcs| && arcs[j].lbl == ExactBucketFrom(arcs, i, key)
                        && IsTerm(arcs[j].target, key)
                        && forall k :: i <= k < j ==> !IsTerm(arcs[k].target, key)
    decreases |arcs| - i
  {
    if i < |arcs| {
      ExactBucketStep(arcs, i, key);
      if !IsTerm(arcs[i].target, key) {
        ExactBucketFound(arcs, i + 1, key);
        if ExactBucketFrom(arcs, i + 1, key) != -1 {
          var j :| && i + 1 <= j < |arcs| && arcs[j].lbl == ExactBucketFrom(arcs, i + 1, key)
                   && IsTerm(arcs[j].target, key)
                   && forall k :: i + 1 <= k < j ==> !IsTerm(arcs[k].target, key);
          assert forall k :: i <= k < j ==> !IsTerm(arcs[k].target, key);
        }
      }
    }
  }

  /** One step of the search: a bucket that stores the key ends it, any other is passed over. */
  lemma ExactBucketStep(arcs: seq<Arc>, i: nat, key: seq<Byte>)
    requires BucketArcs(arcs) && i < |arcs|
    ensures IsTerm(arcs[i].target, key) ==> ExactBucketFrom(arcs, i, key) == arcs[i].lbl
    ensures !IsTerm(arcs[i].target, key) ==> ExactBucketFrom(arcs, i, key) == ExactBucketFrom(arcs, i + 1, key)
  {
    ExactMatchTest(arcs[i], key);
  }

  /** Buckets that do not store the key can be skipped by the search. */
  lemma {:induction false} ExactSearchSkips(arcs: seq<Arc>, i: nat, s: nat, key: seq<Byte>)
    requires BucketArcs(arcs) && i <= s <= |arcs|
    requires forall j :: i <= j < s ==> !IsTerm(arcs[j].target, key)
    ensures ExactBucketFrom(arcs, i, key) == ExactBucketFrom(arcs, s, key)
    decreases s - i
  {
    if i < s {
      ExactMatchTest(arcs[i], key);
      ExactSearchSkips(arcs, i + 1, s, key);
    }
  }

  /**
   * When the key is not among the collected results, searching from the
   * bucket that stopped the scan (as `lookupSortedByWeight` does) finds the
   * same bucket as `getBucket`, which searches from the first one.
   */
  lemma ExactSearchFromStop(arcs: seq<Arc>, key: seq<Byte>, num: int)
    requires BucketArcs(arcs)
    requires ScanFrom(arcs, 0, key, num, [], false).1.Some?
    requires LastIndexOf(ScanFrom(arcs, 0, key, num, [], false).0, key).None?
    ensures ExactBucketFrom(arcs, ScanFrom(arcs, 0, key, num, [], false).1.value, key) == ExactBucketFrom(arcs, 0, key)
  {
    var (res, stop) := ScanFrom(arcs, 0, key, num, [], false);
    forall j | 0 <= j < stop.value ensures !IsTerm(arcs[j].target, key) {
      var c := Completion(key, arcs[j].lbl);
      assert c.utf8[..|key|] == key;
      BucketMatchesMembers(arcs[j], key, c);
      if c in BucketMatches(arcs[j], key) {
        ScanCoversBefore(arcs, 0, key, num, [], j, c);
      }
    }
    ExactSearchSkips(arcs, 0, stop.value, key);
  }

  // ----- The weight-first lookup -----

  /** The scan's list is the leading part of the concatenated matches, at most `num` long when num >= 1. */
  lemma ScanIsLeadingMatches(arcs: seq<Arc>, key: seq<Byte>, num: int)
    ensures var res := ScanFrom(arcs, 0, key, num, [], false).0;
            var all := AllMatches(arcs, 0, key);
            && |res| <= |all| && res == all[..|res|]
            && (num >= 1 ==> |res| == (if |all| <= num then |all| else num))
            && (ScanFrom(arcs, 0, key, num, [], false).1.Some? <==> all != [] && |all| >= num)
  {
    ScanIsEmit(arcs, 0, key, num, []);
    EmitUntilFullFacts([], num, AllMatches(arcs, 0, key));
  }

  /** Moving an element to the front keeps the elements and the length. */
  lemma MoveToFrontFacts(list: seq<Completion>, i: nat)
    requires i < |list|
    ensures |MoveToFront(list, i)| == |list| && MoveToFront(list, i)[0] == list[i]
    ensures multiset(MoveToFront(list, i)) == multiset(list)
    ensures MoveToFront(list, i)[1..] == list[..i] + list[i + 1..]
  {
    assert list == list[..i] + [list[i]] + list[i + 1..];
  }

  /**
   * With num >= 1 the weight-first lookup succeeds with at most `num`
   * completions, with or without the exact-first promotion.
   */
  lemma WeightFirstBound(arcs: seq<Arc>, key: seq<Byte>, num: int, exactFirst: bool)
    requires num >= 1
    ensures LookupByWeight(arcs, key, num, false, exactFirst).Success?
    ensures |LookupByWeight(arcs, key, num, false, exactFirst).value| <= num
  {
    var (res, stop) := ScanFrom(arcs, 0, key, num, [], false);
    ScanIsLeadingMatches(arcs, key, num);
    if stop.Some? && exactFirst {
      match LastIndexOf(res, key)
      case Some(i) => MoveToFrontFacts(res, i);
      case None =>
    }
  }

  /**
   * Without exact-first, the weight-first lookup returns the first `num`
   * matches of the buckets in cache order, or all of them if fewer.
   */
  lemma WeightFirstTakesLeading(arcs: seq<Arc>, key: seq<Byte>, num: int)
    requires num >= 1
    ensures var all := AllMatches(arcs, 0, key);
            LookupByWeight(arcs, key, num, false, false) == Success(if |all| <= num then all else all[..num])
  {
    ScanIsLeadingMatches(arcs, key, num);
    var all := AllMatches(arcs, 0, key);
    if |all| <= num {
      assert all[..|all|] == all;
    }
  }

  /**
   * Below the cap nothing is dropped and nothing is promoted: the result is
   * every match, also with exact-first on.
   */
  lemma WeightFirstComplete(arcs: seq<Arc>, key: seq<Byte>, num: int, exactFirst: bool)
    requires |AllMatches(arcs, 0, key)| < num
    ensures LookupByWeight(arcs, key, num, false, exactFirst) == Success(AllMatches(arcs, 0, key))
  {
    ScanIsLeadingMatches(arcs, key, num);
    assert AllMatches(arcs, 0, key)[..|AllMatches(arcs, 0, key)|] == AllMatches(arcs, 0, key);
  }

  /**
   * A cap of zero: the weight-first lookup without exact-first still
   * returns the first match, because `collect` adds before it checks the
   * cap; the alphabetical lookup trims its sorted list back to nothing.
   */
  lemma ZeroCap(arcs: seq<Arc>, key: seq<Byte>)
    ensures var all := AllMatches(arcs, 0, key);
            LookupByWeight(arcs, key, 0, false, false) == Success(if all == [] then [] else [all[0]])
    ensures Alphabetical(arcs, key, 0) == Success([])
  {
    ScanIsEmit(arcs, 0, key, 0, []);
    var all := AllMatches(arcs, 0, key);
    if all != [] {
      assert [] + all[..1] == [all[0]];
    }
  }

  /**
   * Every completion the weight-first lookup returns extends the key and
   * is a term stored in the bucket it names (the promoted exact match too).
   */
  lemma WeightFirstSound(arcs: seq<Arc>, key: seq<Byte>, num: int, exactFirst: bool)
    requires BucketArcs(arcs)
    ensures var r := LookupByWeight(arcs, key, num, false, exactFirst);
            r.Success? ==> forall c | c in r.value :: IsPrefix(key, c.utf8) && Stored(arcs, c)
  {
    if num >= 0 {
      var (res, stop) := ScanFrom(arcs, 0, key, num, [], false);
      ScanIsLeadingMatches(arcs, key, num);
      var all := AllMatches(arcs, 0, key);
      forall c | c in res ensures IsPrefix(key, c.utf8) && Stored(arcs, c) {
        assert c in all;
        AllMatchesAreStored(arcs, key, c);
      }
      if stop.Some? && exactFirst {
        match LastIndexOf(res, key)
        case Some(i) => MoveToFrontFacts(res, i);
          assert forall c | c in MoveToFront(res, i) :: c in multiset(res);
        case None =>
          var b := ExactBucketFrom(arcs, stop.value, key);
          ExactBucketFromFinds(arcs, stop.value, key);
          if b != -1 && num > 0 {
            var t := TrimBelow(res, num).value;
            assert key[..|key|] == key;
            assert forall c | c in t :: c in res;
          }
      }
    }
  }

  /** Ordered parts whose buckets are ordered across stay ordered when joined. */
  lemma JoinWeightOrdered(a: seq<Completion>, b: seq<Completion>)
    requires WeightOrdered(a) && WeightOrdered(b)
    requires forall x, y | x in a && y in b :: x.bucket > y.bucket
    ensures WeightOrdered(a + b)
  {
  }

  /** Leaving one element out keeps the order. */
  lemma RemoveWeightOrdered(s: seq<Completion>, k: nat)
    requires WeightOrdered(s) && k < |s|
    ensures WeightOrdered(s[..k] + s[k + 1..])
  {
  }

  /**
   * With root labels descending, the concatenated matches are in the
   * documented order: by bucket, highest first, then by bytes.
   */
  lemma {:induction false} AllMatchesOrdered(arcs: seq<Arc>, i: nat, key: seq<Byte>)
    requires BucketArcs(arcs) && LabelsDescending(arcs)
    ensures WeightOrdered(AllMatches(arcs, i, key))
    decreases |arcs| - i
  {
    if i < |arcs| {
      AllMatchesOrdered(arcs, i + 1, key);
      var here, later := BucketMatches(arcs[i], key), AllMatches(arcs, i + 1, key);
      BucketMatchesSorted(arcs[i], key);
      forall x | x in here ensures x.bucket == arcs[i].lbl {
        BucketMatchesMembers(arcs[i], key, x);
      }
      assert WeightOrdered(here) by {
        forall p, q | 0 <= p < q < |here| ensures here[p].bucket == here[q].bucket {
          assert here[p] in here && here[q] in here;
        }
      }
      forall y | y in later ensures y.bucket < arcs[i].lbl {
        var j := AllInBucket(arcs, i + 1, key, y);
        BucketMatchesMembers(arcs[j], key, y);
      }
      JoinWeightOrdered(here, later);
    }
  }

  /** A leading part of an ordered list is ordered. */
  lemma PrefixWeightOrdered(s: seq<Completion>, n: nat)
    requires WeightOrdered(s) && n <= |s|
    ensures WeightOrdered(s[..n])
  {
  }

  /** The exact-first step keeps an ordered list ordered behind the exact match it puts first. */
  lemma PromoteOrdered(arcs: seq<Arc>, key: seq<Byte>, num: int, res: seq<Completion>, stop: nat)
    requires WeightOrdered(res)
    ensures var r := Promote(arcs, key, num, res, stop);
            r.Success? ==>
              || WeightOrdered(r.value)
              || (r.value != [] && r.value[0].utf8 == key && WeightOrdered(r.value[1..]))
  {
    match LastIndexOf(res, key)
    case Some(i) =>
      MoveToFrontFacts(res, i);
      RemoveWeightOrdered(res, i);
    case None =>
      match TrimBelow(res, num)
      case None =>
      case Some(t) =>
        PrefixWeightOrdered(res, |t|);
        var r := [Completion(key, ExactBucketFrom(arcs, stop, key))] + t;
        assert r[1..] == t;
  }

  /**
   * The weight-first result is in the documented order, except that an
   * exact match of the key may have been put in front of the rest.
   */
  lemma WeightFirstOrdered(arcs: seq<Arc>, key: seq<Byte>, num: int, exactFirst: bool)
    requires BucketArcs(arcs) && LabelsDescending(arcs)
    ensures var r := LookupByWeight(arcs, key, num, false, exactFirst);
            r.Success? ==>
              || WeightOrdered(r.value)
              || (r.value != [] && r.value[0].utf8 == key && WeightOrdered(r.value[1..]))
  {
    if num >= 0 {
      var (res, stop) := ScanFrom(arcs, 0, key, num, [], false);
      ScanIsLeadingMatches(arcs, key, num);
      AllMatchesOrdered(arcs, 0, key);
      PrefixWeightOrdered(AllMatches(arcs, 0, key), |res|);
      if stop.Some? && exactFirst {
        PromoteOrdered(arcs, key, num, res, stop.value);
      }
    }
  }

  /**
   * Exact-first: once the cap is reached, a key stored as a complete term
   * in any bucket is the first result, either moved up from the collected
   * results or inserted from the first bucket that stores it.
   */
  lemma ExactFirstPromotes(arcs: seq<Arc>, key: seq<Byte>, num: int)
    requires BucketArcs(arcs) && num >= 1
    requires |AllMatches(arcs, 0, key)| >= num
    requires exists j :: 0 <= j < |arcs| && IsTerm(arcs[j].target, key)
    ensures LookupByWeight(arcs, key, num, false, true).Success?
    ensures LookupByWeight(arcs, key, num, false, true).value != []
    ensures LookupByWeight(arcs, key, num, false, true).value[0].utf8 == key
  {
    var (res, stop) := ScanFrom(arcs, 0, key, num, [], false);
    ScanIsLeadingMatches(arcs, key, num);
    match LastIndexOf(res, key)
    case Some(i) => MoveToFrontFacts(res, i);
    case None =>
      ExactSearchFromStop(arcs, key, num);
      ExactBucketFromFinds(arcs, 0, key);
  }

  /** Exact-first changes nothing when no bucket stores the key as a complete term. */
  lemma ExactFirstNoMatch(arcs: seq<Arc>, key: seq<Byte>, num: int)
    requires BucketArcs(arcs)
    requires forall j :: 0 <= j < |arcs| ==> !IsTerm(arcs[j].target, key)
    ensures LookupByWeight(arcs, key, num, false, true) == LookupByWeight(arcs, key, num, false, false)
  {
    if num >= 0 {
      var (res, stop) := ScanFrom(arcs, 0, key, num, [], false);
      ScanIsLeadingMatches(arcs, key, num);
      forall k | 0 <= k < |res| ensures res[k].utf8 != key {
        assert res[k] in AllMatches(arcs, 0, key);
        AllMatchesAreStored(arcs, key, res[k]);
      }
      if stop.Some? {
        ExactBucketFromFinds(arcs, stop.value, key);
      }
    }
  }

  // ----- The alphabetical lookup -----

  /** The first match of each bucket from `i` on that has one. */
  function FirstMatches(arcs: seq<Arc>, i: nat, key: seq<Byte>): seq<Completion>
    decreases |arcs| - i
  {
    if i >= |arcs| then []
    else
      var b := BucketMatches(arcs[i], key);
      (if b == [] then [] else [b[0]]) + FirstMatches(arcs, i + 1, key)
  }

  /** Collecting from every bucket only adds matches. */
  lemma {:induction false} ScanAllSubset(arcs: seq<Arc>, i: nat, key: seq<Byte>, num: int, res: seq<Completion>)
    ensures forall c | c in ScanFrom(arcs, i, key, num, res, true).0 :: c in res || c in AllMatches(arcs, i, key)
    decreases |arcs| - i
  {
    if i < |arcs| {
      var b := BucketMatches(arcs[i], key);
      EmitUntilFullFacts(res, num, b);
      var r1 := EmitUntilFull(res, num, b).0;
      ScanAllSubset(arcs, i + 1, key, num, r1);
      assert AllMatches(arcs, i, key) == b + AllMatches(arcs, i + 1, key);
      forall c | c in r1 ensures c in res || c in b {
        assert c in res + b[..|r1| - |res|];
      }
    }
  }

  /** While the total stays within the cap, collecting from every bucket takes every match. */
  lemma {:induction false} ScanAllBelowCap(arcs: seq<Arc>, i: nat, key: seq<Byte>, num: int, res: seq<Completion>)
    requires |res| + |AllMatches(arcs, i, key)| <= num
    ensures ScanFrom(arcs, i, key, num, res, true).0 == res + AllMatches(arcs, i, key)
    decreases |arcs| - i
  {
    if i < |arcs| {
      var b := BucketMatches(arcs[i], key);
      var later := AllMatches(arcs, i + 1, key);
      assert AllMatches(arcs, i, key) == b + later;
      EmitUntilFullFacts(res, num, b);
      var r1 := EmitUntilFull(res, num, b).0;
      assert b[..|b|] == b;
      assert r1 == res + b;
      ScanAllBelowCap(arcs, i + 1, key, num, r1);
      assert res + (b + later) == (res + b) + later;
    } else {
      assert res + [] == res;
    }
  }

  /**
   * Once the cap is reached, each further bucket with a match adds exactly
   * one completion, its first, rather than `num` of them.
   */
  lemma {:induction false} ScanAllAfterCap(arcs: seq<Arc>, i: nat, key: seq<Byte>, num: int, res: seq<Completion>)
    requires |res| >= num
    ensures ScanFrom(arcs, i, key, num, res, true).0 == res + FirstMatches(arcs, i, key)
    decreases |arcs| - i
  {
    if i < |arcs| {
      var b := BucketMatches(arcs[i], key);
      var r1 := EmitUntilFull(res, num, b).0;
      var first := if b == [] then [] else [b[0]];
      assert r1 == res + first by {
        if b == [] {
          assert res + b == res + first;
        } else {
          assert b[..1] == first;
        }
      }
      assert ScanFrom(arcs, i, key, num, res, true) == ScanFrom(arcs, i + 1, key, num, r1, true);
      ScanAllAfterCap(arcs, i + 1, key, num, r1);
      assert FirstMatches(arcs, i, key) == first + FirstMatches(arcs, i + 1, key);
      assert (res + first) + FirstMatches(arcs, i + 1, key) == res + (first + FirstMatches(arcs, i + 1, key));
    } else {
      assert res + [] == res;
    }
  }

  /** Collecting from every bucket takes at least the first match of every bucket. */
  lemma {:induction false} ScanAllTakesFromEveryBucket(arcs: seq<Arc>, i: nat, key: seq<Byte>, num: int,
                                                        res: seq<Completion>, j: nat)
    requires i <= j < |arcs| && BucketMatches(arcs[j], key) != []
    ensures BucketMatches(arcs[j], key)[0] in ScanFrom(arcs, i, key, num, res, true).0
    decreases |arcs| - i
  {
    var b := BucketMatches(arcs[i], key);
    EmitUntilFullFacts(res, num, b);
    var r1 := EmitUntilFull(res, num, b).0;
    var r := ScanFrom(arcs, i + 1, key, num, r1, true).0;
    if j == i {
      assert r1[|res|] == b[0];
      assert r1[|res|] == r[..|r1|][|res|];
    } else {
      ScanAllTakesFromEveryBucket(arcs, i + 1, key, num, r1, j);
    }
  }

  /** A leading part of a byte-sorted list is byte-sorted. */
  lemma PrefixSortedByBytes(s: seq<Completion>, n: nat)
    requires SortedByBytes(s) && n <= |s|
    ensures SortedByBytes(s[..n])
  {
  }

  /**
   * The alphabetical lookup fails exactly for a negative `num`; otherwise it
   * returns at most `num` byte-sorted completions, each extending the key
   * and stored in the bucket it names.
   */
  lemma AlphabeticalSound(arcs: seq<Arc>, key: seq<Byte>, num: int)
    requires BucketArcs(arcs)
    ensures Alphabetical(arcs, key, num).Failure? <==> num < 0
    ensures var r := Alphabetical(arcs, key, num);
            r.Success? ==> && SortedByBytes(r.value) && |r.value| <= num
                           && forall c | c in r.value :: IsPrefix(key, c.utf8) && Stored(arcs, c)
  {
    if num >= 0 {
      var all := ScanFrom(arcs, 0, key, num, [], true).0;
      ScanAllSubset(arcs, 0, key, num, []);
      var sorted := SortByBytes(all);
      var r := Truncate(sorted, num);
      PrefixSortedByBytes(sorted, |r|);
      forall c | c in r ensures IsPrefix(key, c.utf8) && Stored(arcs, c) {
        assert c in sorted;
        assert c in multiset(all);
        AllMatchesAreStored(arcs, key, c);
      }
    }
  }

  /** Within the cap, the alphabetical lookup returns every match, sorted by bytes. */
  lemma AlphabeticalComplete(arcs: seq<Arc>, key: seq<Byte>, num: int)
    requires 0 <= num && |AllMatches(arcs, 0, key)| <= num
    ensures Alphabetical(arcs, key, num) == Success(SortByBytes(AllMatches(arcs, 0, key)))
  {
    ScanAllBelowCap(arcs, 0, key, num, []);
    assert [] + AllMatches(arcs, 0, key) == AllMatches(arcs, 0, key);
  }
}
