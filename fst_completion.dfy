/**
 * `FSTCompletion`: autocomplete over a weighted automaton. The automaton's
 * root arcs are the weight buckets (the arc label is the bucket number);
 * below each, the stored terms of that bucket. Each operation is proved
 * equal to its specification in `LookupSpec`, whose properties are proved
 * in `LookupProps`.
 */
module FstCompletion {
  import opened Wrappers
  import opened Bytes
  import opened Fst
  import opened Descent
  import opened Completions
  import opened Enumeration
  import opened LookupSpec
  import opened LookupProps

  class FSTCompletion {
    /** The automaton, or None where Lucene holds `null`. */
    const automaton: Option<Node>
    /** The root's arcs, cached highest bucket first. */
    const rootArcs: seq<Arc>
    const higherWeightsFirst: bool
    const exactFirst: bool

    /** The cache is the automaton's root arcs in reverse; no automaton, no buckets. */
    ghost predicate Valid()
    {
      match automaton
      case None => rootArcs == []
      case Some(root) => WellFormedRoot(root) && rootArcs == Reversed(root.arcs)
    }

    /** `FSTCompletion(automaton, higherWeightsFirst, exactFirst)`. */
    constructor(automaton: Option<Node>, higherWeightsFirst: bool, exactFirst: bool)
      requires automaton.Some? ==> WellFormedRoot(automaton.value)
      ensures Valid()
      ensures this.automaton == automaton
      ensures this.higherWeightsFirst == higherWeightsFirst && this.exactFirst == exactFirst
    {
      this.automaton := automaton;
      var arcs: seq<Arc> := [];
      if automaton.Some? {
        arcs := CacheRootArcs(automaton.value);
      }
      this.rootArcs := arcs;
      this.higherWeightsFirst := higherWeightsFirst;
      this.exactFirst := exactFirst;
    }

    /** `FSTCompletion(automaton)`: higher weights first and exact first. */
    constructor Default(automaton: Option<Node>)
      requires automaton.Some? ==> WellFormedRoot(automaton.value)
      ensures Valid()
      ensures this.automaton == automaton && this.higherWeightsFirst && this.exactFirst
    {
      this.automaton := automaton;
      var arcs: seq<Arc> := [];
      if automaton.Some? {
        arcs := CacheRootArcs(automaton.value);
      }
      this.rootArcs := arcs;
      this.higherWeightsFirst := true;
      this.exactFirst := true;
    }

    /**
     * `cacheRootArcs`: collects the root's arcs in their stored order, then
     * reverses the list so that the highest bucket comes first.
     */
    static method CacheRootArcs(root: Node) returns (arcs: seq<Arc>)
      requires WellFormedRoot(root)
      ensures arcs == Reversed(root.arcs)
      ensures LabelsDescending(arcs) && BucketArcs(arcs)
      ensures forall a :: a in arcs <==> a in root.arcs
    {
      var list: seq<Arc> := [];
      var i := 0;
      while i < |root.arcs|
        invariant 0 <= i <= |root.arcs| && list == root.arcs[..i]
      {
        list := list + [root.arcs[i]];
        i := i + 1;
      }
      assert list == root.arcs;
      arcs := [];
      var j := 0;
      while j < |list|
        invariant 0 <= j <= |list| && arcs == Reversed(list[..j])
      {
        assert list[..j + 1][..j] == list[..j];
        arcs := [list[j]] + arcs;
        j := j + 1;
      }
      assert list[..j] == list;
      CachedRootArcs(root);
    }

    /** `getBucketCount`: the number of cached root arcs. */
    function BucketCount(): (n: nat)
      requires Valid()
      ensures n == if automaton.None? then 0 else |automaton.value.arcs|
    {
      |rootArcs|
    }

    /**
     * `descendWithPrefix`: follows the key one byte at a time from `arc`,
     * returning false at the first byte without a matching child and the
     * arc reached on the key's last byte otherwise.
     */
    method DescendWithPrefix(arc: Arc, key: seq<Byte>) returns (found: bool, last: Arc)
      ensures found <==> Descend(arc, key).Some?
      ensures found ==> last == Descend(arc, key).value
    {
      last := arc;
      var i := 0;
      while i < |key|
        invariant 0 <= i <= |key|
        invariant Descend(arc, key) == Descend(last, key[i..])
      {
        assert key[i..][0] == key[i] && key[i..][1..] == key[i + 1..];
        match FindTargetArc(key[i] as int, last.target.arcs)
        case None =>
          return false, last;
        case Some(next) =>
          last := next;
          i := i + 1;
      }
      assert key[i..] == [];
      found := true;
    }

    /**
     * `collect`: pushes the arc's label onto the output buffer, then visits
     * the target's arcs in order. A final arc adds the buffer as a
     * completion and stops everything once the list reaches `num`; a byte
     * arc recurses and, unless that stopped, restores the buffer's length.
     */
    method Collect(res: seq<Completion>, num: int, bucket: int, output: seq<Byte>, arc: Arc)
      returns (res': seq<Completion>, output': seq<Byte>, stop: bool)
      requires ByteArc(arc)
      ensures (res', stop) == EmitUntilFull(res, num, NodeCompletions(output + [arc.lbl as Byte], arc.target, 0, bucket))
      ensures IsPrefix(output + [arc.lbl as Byte], output')
      ensures !stop ==> output' == output + [arc.lbl as Byte]
      decreases arc
    {
      output' := output + [arc.lbl as Byte];
      var n := arc.target;
      ghost var all := NodeCompletions(output', n, 0, bucket);
      res' := res;
      var i := 0;
      while i < |n.arcs|
        invariant 0 <= i <= |n.arcs|
        invariant output' == output + [arc.lbl as Byte]
        invariant EmitUntilFull(res, num, all) == EmitUntilFull(res', num, NodeCompletions(output', n, i, bucket))
      {
        var child := n.arcs[i];
        EmitUntilFullConcat(res', num, ChildCompletions(output', n, i, bucket), NodeCompletions(output', n, i + 1, bucket));
        if child.lbl == END_LABEL {
          res' := res' + [Completion(output', bucket)];
          if |res'| >= num {
            stop := true;
            return;
          }
        } else {
          var save := |output'|;
          ChildOfWellFormed(n, i);
          var out;
          res', out, stop := Collect(res', num, bucket, output', child);
          if stop {
            assert out[..|output'|] == out[..|output' + [child.lbl as Byte]|][..|output'|];
            output' := out;
            return;
          }
          output' := out[..save];
        }
        i := i + 1;
      }
      assert res' + [] == res';
      stop := false;
    }

    /**
     * `checkExistingAndReorder`: searches the list from its end for the
     * key; if found, moves that completion to the front.
     */
    method CheckExistingAndReorder(list: seq<Completion>, key: seq<Byte>) returns (found: bool, list': seq<Completion>)
      ensures found <==> Reorder(list, key).Some?
      ensures found ==> list' == Reorder(list, key).value
      ensures !found ==> list' == list
    {
      var i := |list|;
      while i > 0
        invariant 0 <= i <= |list|
        invariant forall j :: i <= j < |list| ==> list[j].utf8 != key
      {
        i := i - 1;
        if key == list[i].utf8 {
          var moved := list[i];
          var rest := list[..i] + list[i + 1..];
          list' := [moved] + rest;
          assert list' == MoveToFront(list, i);
          return true, list';
        }
      }
      return false, list;
    }

    /**
     * `getExactMatchStartingFromRootArc`: the label of the first cached
     * bucket from `rootArcIndex` on whose descent along the key ends on a
     * node whose first arc is final, or -1.
     */
    method GetExactMatchStartingFromRootArc(rootArcIndex: nat, key: seq<Byte>) returns (b: int)
      ensures b == ExactBucketFrom(rootArcs, rootArcIndex, key)
    {
      var i := rootArcIndex;
      while i < |rootArcs|
        invariant rootArcIndex <= i
        invariant ExactBucketFrom(rootArcs, rootArcIndex, key) == ExactBucketFrom(rootArcs, i, key)
      {
        var rootArc := rootArcs[i];
        var found, arc := DescendWithPrefix(rootArc, key);
        if found {
          if |arc.target.arcs| > 0 && arc.target.arcs[0].lbl == END_LABEL {
            return rootArc.lbl;
          }
        }
        i := i + 1;
      }
      return -1;
    }

    /** `while (res.size() >= num) res.remove(res.size() - 1)`, failing on `remove(-1)`. */
    static method TrimTail(res: seq<Completion>, num: int) returns (r: Option<seq<Completion>>)
      ensures r == TrimBelow(res, num)
    {
      var list := res;
      while |list| >= num
        invariant |list| <= |res| && list == res[..|list|]
        invariant |res| >= num ==> |list| >= num - 1
        invariant |res| < num ==> list == res
        decreases |list|
      {
        if |list| == 0 {
          return None;
        }
        list := list[..|list| - 1];
      }
      return Some(list);
    }

    /**
     * One iteration of `lookupSortedByWeight`'s root-arc loop: descends
     * bucket `i` along the key and, if that succeeds, collects its
     * completions behind the key (the buffer is cut back to the key minus
     * its last byte, which the descended arc's label restores).
     */
    method CollectBucket(i: nat, key: seq<Byte>, num: int, res: seq<Completion>, output: seq<Byte>)
      returns (res': seq<Completion>, output': seq<Byte>, full: bool)
      requires Valid() && automaton.Some? && key != [] && i < |rootArcs|
      requires |output| >= |key| - 1 && output[..|key| - 1] == key[..|key| - 1]
      ensures (res', full) == EmitUntilFull(res, num, BucketMatches(rootArcs[i], key))
      ensures |output'| >= |key| - 1 && output'[..|key| - 1] == key[..|key| - 1]
    {
      CachedRootArcs(automaton.value);
      var rootArc := rootArcs[i];
      var found, arc := DescendWithPrefix(rootArc, key);
      if found {
        var prefix := output[..|key| - 1];
        DescendStaysOnByteArcs(rootArc, key);
        assert prefix + [arc.lbl as Byte] == key;
        res', output', full := Collect(res, num, rootArc.lbl, prefix, arc);
        assert output'[..|key|][..|key| - 1] == output'[..|key| - 1];
      } else {
        assert res + [] == res;
        res', output', full := res, output, false;
      }
    }

    /**
     * The exact-first step of `lookupSortedByWeight` once bucket `i` reached
     * the cap: move the key up if it was collected, else look for it from
     * bucket `i` on and insert it in front of the first `num - 1`.
     */
    method PromoteExactMatch(res: seq<Completion>, key: seq<Byte>, num: int, i: nat)
      returns (r: Result<seq<Completion>, Error>)
      ensures r == Promote(rootArcs, key, num, res, i)
    {
      var existing, reordered := CheckExistingAndReorder(res, key);
      if existing {
        return Success(reordered);
      }
      var b := GetExactMatchStartingFromRootArc(i, key);
      if b == -1 {
        return Success(res);
      }
      var trimmed := TrimTail(res, num);
      if trimmed.None? {
        return Failure(IndexOutOfBounds);
      }
      return Success([Completion(key, b)] + trimmed.value);
    }

    /**
     * `lookupSortedByWeight`: scans the cached buckets in order, collecting
     * from each; unless `collectAll`, the first bucket that reaches `num`
     * ends the scan, after the exact-first step if enabled.
     */
    method LookupSortedByWeight(key: seq<Byte>, num: int, collectAll: bool) returns (r: Result<seq<Completion>, Error>)
      requires Valid() && automaton.Some? && key != []
      ensures r == LookupByWeight(rootArcs, key, num, collectAll, exactFirst)
    {
      if num < 0 {
        return Failure(NegativeCapacity);
      }
      var res: seq<Completion> := [];
      var output := key;
      var i := 0;
      while i < |rootArcs|
        invariant 0 <= i <= |rootArcs|
        invariant ScanFrom(rootArcs, 0, key, num, [], collectAll) == ScanFrom(rootArcs, i, key, num, res, collectAll)
        invariant |output| >= |key| - 1 && output[..|key| - 1] == key[..|key| - 1]
      {
        var full;
        res, output, full := CollectBucket(i, key, num, res, output);
        if full && !collectAll {
          if exactFirst {
            r := PromoteExactMatch(res, key, num, i);
            return;
          }
          return Success(res);
        }
        i := i + 1;
      }
      return Success(res);
    }

    /**
     * `lookupSortedAlphabetically`: collects from every bucket, sorts the
     * completions by their bytes and keeps the first `num`.
     */
    method LookupSortedAlphabetically(key: seq<Byte>, num: int) returns (r: Result<seq<Completion>, Error>)
      requires Valid() && automaton.Some? && key != []
      ensures r == Alphabetical(rootArcs, key, num)
    {
      var collected := LookupSortedByWeight(key, num, true);
      if collected.Failure? {
        return Failure(collected.error);
      }
      var res := SortByBytes(collected.value);
      if |res| > num {
        res := res[..num];
      }
      return Success(res);
    }

    /**
     * `lookup`: no suggestions for the empty key or without an automaton;
     * alphabetical order when weights are not wanted first and there is
     * more than one bucket; weight order otherwise. Every suggestion
     * extends the key and is a term stored in the bucket it names, and
     * with num >= 1 there are at most `num` of them.
     */
    method Lookup(key: seq<Byte>, num: int) returns (r: Result<seq<Completion>, Error>)
      requires Valid()
      ensures r == LookupSpec.Lookup(automaton.Some?, rootArcs, higherWeightsFirst, exactFirst, key, num)
      ensures r.Success? ==> forall c | c in r.value :: IsPrefix(key, c.utf8) && Stored(rootArcs, c)
      ensures num >= 1 ==> r.Success? && |r.value| <= num
      ensures r == Failure(NegativeCapacity) <==> key != [] && automaton.Some? && num < 0
      ensures r.Failure? ==> num <= 0
    {
      if key == [] || automaton.None? {
        return Success([]);
      }
      CachedRootArcs(automaton.value);
      if !higherWeightsFirst && |rootArcs| > 1 {
        r := LookupSortedAlphabetically(key, num);
        AlphabeticalSound(rootArcs, key, num);
      } else {
        r := LookupSortedByWeight(key, num, false);
        WeightFirstSound(rootArcs, key, num, exactFirst);
        if num >= 1 {
          WeightFirstBound(rootArcs, key, num, exactFirst);
        }
      }
    }

    /**
     * `getBucket`: the bucket of the first cached root arc under which the
     * key is a complete term, or -1 when no bucket stores it; with no
     * automaton the reader lookup fails.
     */
    method GetBucket(key: seq<Byte>) returns (r: Result<int, Error>)
      requires Valid()
      ensures automaton.None? <==> r == Failure(NullAutomaton)
      ensures automaton.Some? ==> r == Success(ExactBucketFrom(rootArcs, 0, key))
      ensures r.Success? ==>
                (r.value == -1 <==> forall j :: 0 <= j < |rootArcs| ==> !IsTerm(rootArcs[j].target, key))
      ensures r.Success? && r.value != -1 ==>
                exists j :: 0 <= j < |rootArcs| && rootArcs[j].lbl == r.value && IsTerm(rootArcs[j].target, key)
    {
      if automaton.None? {
        return Failure(NullAutomaton);
      }
      CachedRootArcs(automaton.value);
      var b := GetExactMatchStartingFromRootArc(0, key);
      ExactBucketFromFinds(rootArcs, 0, key);
      return Success(b);
    }
  }
}
