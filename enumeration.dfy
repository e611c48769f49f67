/**
 * The specification of `collect`: the completions a depth-first walk of a
 * node emits, in the order it emits them, and how many of them are taken
 * before the result cap stops the walk.
 */
module Enumeration {
  import opened Bytes
  import opened Fst
  import opened Completions

  /**
   * The completions below `n` from child `from` on, each text being
   * `prefix` followed by the labels of a path to a final arc. Children are
   * taken in their stored (ascending) order, so a final arc comes first.
   */
  function NodeCompletions(prefix: seq<Byte>, n: Node, from: nat, bucket: int): seq<Completion>
    decreases n, |n.arcs| - from, 1
  {
    if from >= |n.arcs| then []
    else ChildCompletions(prefix, n, from, bucket) + NodeCompletions(prefix, n, from + 1, bucket)
  }

  /** The completions contributed by child `i` of `n`. */
  function ChildCompletions(prefix: seq<Byte>, n: Node, i: nat, bucket: int): seq<Completion>
    requires i < |n.arcs|
    decreases n, |n.arcs| - i, 0
  {
    var a := n.arcs[i];
    if a.lbl == END_LABEL then [Completion(prefix, bucket)]
    else if 0 <= a.lbl < 256 then NodeCompletions(prefix + [a.lbl as Byte], a.target, 0, bucket)
    else []
  }

  /** `p` is a prefix of `s`. */
  ghost predicate IsPrefix(p: seq<Byte>, s: seq<Byte>)
  {
    |p| <= |s| && s[..|p|] == p
  }

  /** What child `i` contributes: the texts `prefix + r` for which child `i` stores `r`. */
  lemma {:induction false} ChildCompletionsMembers(prefix: seq<Byte>, n: Node, i: nat, bucket: int, c: Completion)
    requires i < |n.arcs|
    ensures c in ChildCompletions(prefix, n, i, bucket) <==>
            c.bucket == bucket && IsPrefix(prefix, c.utf8) && TermVia(n, i, c.utf8[|prefix|..])
    decreases n, |n.arcs| - i, 0
  {
    var a := n.arcs[i];
    if a.lbl == END_LABEL {
      if IsPrefix(prefix, c.utf8) && c.utf8[|prefix|..] == [] {
        assert c.utf8 == c.utf8[..|prefix|];
      }
    } else if 0 <= a.lbl < 256 {
      var p' := prefix + [a.lbl as Byte];
      NodeCompletionsMembers(p', a.target, 0, bucket, c);
      if IsPrefix(p', c.utf8) {
        assert c.utf8[..|prefix|] == c.utf8[..|p'|][..|prefix|];
        var rest := c.utf8[|prefix|..];
        assert rest[0] == c.utf8[..|p'|][|prefix|];
        assert rest[1..] == c.utf8[|p'|..];
        assert IsTerm(a.target, rest[1..]) <==>
               exists j :: 0 <= j < |a.target.arcs| && TermVia(a.target, j, c.utf8[|p'|..]);
      }
      if IsPrefix(prefix, c.utf8) && TermVia(n, i, c.utf8[|prefix|..]) {
        var rest := c.utf8[|prefix|..];
        assert rest != [] && rest[0] as int == a.lbl;
        assert c.utf8[..|p'|] == c.utf8[..|prefix|] + [rest[0]];
        assert rest[1..] == c.utf8[|p'|..];
        assert IsTerm(a.target, rest[1..]);
        assert exists j :: 0 <= j < |a.target.arcs| && TermVia(a.target, j, c.utf8[|p'|..]);
      }
    }
  }

  /** The completions from child `from` on are those of the children from `from` on. */
  lemma {:induction false} NodeCompletionsMembers(prefix: seq<Byte>, n: Node, from: nat, bucket: int, c: Completion)
    ensures c in NodeCompletions(prefix, n, from, bucket) <==>
            && c.bucket == bucket && IsPrefix(prefix, c.utf8)
            && exists i :: from <= i < |n.arcs| && TermVia(n, i, c.utf8[|prefix|..])
    decreases n, |n.arcs| - from, 1
  {
    if from < |n.arcs| {
      ChildCompletionsMembers(prefix, n, from, bucket, c);
      NodeCompletionsMembers(prefix, n, from + 1, bucket, c);
    }
  }

  /**
   * The walk below `n` emits exactly the stored terms below `n`, each
   * after `prefix` and tagged with `bucket`: nothing else, and none missed.
   */
  lemma CompletionsAreTerms(prefix: seq<Byte>, n: Node, bucket: int, c: Completion)
    ensures c in NodeCompletions(prefix, n, 0, bucket) <==>
            c.bucket == bucket && IsPrefix(prefix, c.utf8) && IsTerm(n, c.utf8[|prefix|..])
  {
    NodeCompletionsMembers(prefix, n, 0, bucket, c);
    if IsPrefix(prefix, c.utf8) {
      var rest := c.utf8[|prefix|..];
      if IsTerm(n, rest) {
        IsTermWitness(n, rest);
      }
      if exists i :: 0 <= i < |n.arcs| && TermVia(n, i, rest) {
        var i :| 0 <= i < |n.arcs| && TermVia(n, i, rest);
        TermViaIsTerm(n, i, rest);
      }
    }
  }

  /** Sorted parts whose elements are ordered across stay sorted when joined. */
  lemma JoinStrictlySorted(a: seq<Completion>, b: seq<Completion>)
    requires StrictlySortedByBytes(a) && StrictlySortedByBytes(b)
    requires forall x, y | x in a && y in b :: CompareBytes(x.utf8, y.utf8) < 0
    ensures StrictlySortedByBytes(a + b)
  {
  }

  /** Any text emitted by child `i` sorts before any text emitted by a later sibling. */
  lemma EarlierChildSortsFirst(prefix: seq<Byte>, n: Node, i: nat, j: nat, bucket: int, x: Completion, y: Completion)
    requires WellFormed(n) && i < j < |n.arcs|
    requires x in ChildCompletions(prefix, n, i, bucket) && y in ChildCompletions(prefix, n, j, bucket)
    ensures CompareBytes(x.utf8, y.utf8) < 0
  {
    ChildCompletionsMembers(prefix, n, i, bucket, x);
    ChildCompletionsMembers(prefix, n, j, bucket, y);
    var rx, ry := x.utf8[|prefix|..], y.utf8[|prefix|..];
    assert x.utf8 == prefix + rx && y.utf8 == prefix + ry;
    assert n.arcs[i].lbl < n.arcs[j].lbl;
    if rx == [] {
      ProperPrefixIsLess(prefix, ry);
      assert prefix + rx == prefix;
    } else {
      FirstDifferenceDecides(prefix, rx, ry);
    }
  }

  /** In a well-formed node the walk emits strictly ascending texts (so no duplicates). */
  lemma {:induction false} NodeCompletionsSorted(prefix: seq<Byte>, n: Node, from: nat, bucket: int)
    requires WellFormed(n)
    ensures StrictlySortedByBytes(NodeCompletions(prefix, n, from, bucket))
    decreases n, |n.arcs| - from
  {
    if from < |n.arcs| {
      var a := n.arcs[from];
      if a.lbl != END_LABEL {
        NodeCompletionsSorted(prefix + [a.lbl as Byte], a.target, 0, bucket);
      }
      NodeCompletionsSorted(prefix, n, from + 1, bucket);
      forall x, y | x in ChildCompletions(prefix, n, from, bucket) && y in NodeCompletions(prefix, n, from + 1, bucket)
        ensures CompareBytes(x.utf8, y.utf8) < 0
      {
        NodeCompletionsMembers(prefix, n, from + 1, bucket, y);
        var j :| from + 1 <= j < |n.arcs| && TermVia(n, j, y.utf8[|prefix|..]);
        ChildCompletionsMembers(prefix, n, j, bucket, y);
        EarlierChildSortsFirst(prefix, n, from, j, bucket, x, y);
      }
      JoinStrictlySorted(ChildCompletions(prefix, n, from, bucket), NodeCompletions(prefix, n, from + 1, bucket));
    }
  }

  /** Every completion of a walk carries the walk's bucket. */
  lemma CompletionsCarryBucket(prefix: seq<Byte>, n: Node, bucket: int)
    ensures forall c | c in NodeCompletions(prefix, n, 0, bucket) :: c.bucket == bucket && IsPrefix(prefix, c.utf8)
  {
    forall c | c in NodeCompletions(prefix, n, 0, bucket) ensures c.bucket == bucket && IsPrefix(prefix, c.utf8) {
      CompletionsAreTerms(prefix, n, bucket, c);
    }
  }

  /**
   * `collect`'s cap: completions are added one at a time and the walk stops
   * right after an addition that brings the list to `num` or more. So at
   * least one is added when any exists, even with `num <= |res|`.
   * Returns the new list and whether the cap stopped the walk.
   */
  function EmitUntilFull(res: seq<Completion>, num: int, cs: seq<Completion>): (seq<Completion>, bool)
  {
    var k := if num - |res| >= 1 then num - |res| else 1;
    if k <= |cs| then (res + cs[..k], true) else (res + cs, false)
  }

  /**
   * The list grows by a prefix of the candidates; the walk stops iff some
   * candidate exists and the list reaches the cap; below the cap at the
   * start, the list never exceeds the cap and is exactly at it on a stop.
   */
  lemma EmitUntilFullFacts(res: seq<Completion>, num: int, cs: seq<Completion>)
    ensures var (r, full) := EmitUntilFull(res, num, cs);
      && |res| <= |r| <= |res| + |cs|
      && r == res + cs[..|r| - |res|]
      && (full <==> cs != [] && |res| + |cs| >= num)
      && (!full ==> r == res + cs)
      && (|res| < num ==> |r| <= num)
      && (full && |res| < num ==> |r| == num)
      && (full && |res| >= num ==> |r| == |res| + 1)
  {
  }

  /**
   * Emitting `xs` then `ys` with the cap checked after every addition is
   * emitting `xs + ys`: a stop inside `xs` ends it, otherwise `ys` continues
   * from the list `xs` produced.
   */
  lemma EmitUntilFullConcat(res: seq<Completion>, num: int, xs: seq<Completion>, ys: seq<Completion>)
    ensures EmitUntilFull(res, num, xs + ys) ==
            var (r1, full1) := EmitUntilFull(res, num, xs);
            if full1 then (r1, true) else EmitUntilFull(r1, num, ys)
  {
    var k := if num - |res| >= 1 then num - |res| else 1;
    if k <= |xs| {
      assert (xs + ys)[..k] == xs[..k];
    } else {
      var r1 := res + xs;
      var k2 := if num - |r1| >= 1 then num - |r1| else 1;
      if xs != [] {
        assert k2 == k - |xs|;
      } else {
        assert xs + ys == ys && r1 == res;
      }
      assert k == k2 + |xs|;
      if k2 <= |ys| {
        assert (xs + ys)[..k] == xs + ys[..k2];
        assert res + (xs + ys)[..k] == r1 + ys[..k2];
      } else {
        assert res + (xs + ys) == r1 + ys;
      }
    }
  }
}
