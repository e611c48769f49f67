/**
 * The automaton of the three terms "four", "fourier" and "fourty", all of
 * weight bucket 0, as `FSTTest` loads them, and the suggestions the model
 * gives for them.
 */
module Examples {
  import opened Wrappers
  import opened Bytes
  import opened Fst
  import opened Completions
  import opened LookupSpec
  import opened FstCompletion


  /** A final node's arc. */
  function End(): Arc
  {
    Arc(END_LABEL, Node([]))
  }

  /** A chain of byte arcs spelling `s`, ending in a final node. */
  function Spell(s: seq<Byte>): (n: Node)
    ensures WellFormed(n) && |n.arcs| > 0
    decreases |s|
  {
    if s == [] then Node([End()]) else Node([Arc(s[0] as int, Spell(s[1..]))])
  }

  function Four(): seq<Byte> { [102, 111, 117, 114] }
  function Fourier(): seq<Byte> { [102, 111, 117, 114, 105, 101, 114] }
  function Fourty(): seq<Byte> { [102, 111, 117, 114, 116, 121] }
  function Fouri(): seq<Byte> { [102, 111, 117, 114, 105] }

  /** The node after "four": final, then 'i' (105) towards "er", then 't' (116) towards "y". */
  function AfterFour(): Node
  {
    Node([End(), Arc(105, Spell([101, 114])), Arc(116, Spell([121]))])
  }

  /** The trie of "four" and its extensions, below the bucket arc. */
  function Stem(): Node
  {
    Node([Arc(102, Node([Arc(111, Node([Arc(117, Node([Arc(114, AfterFour())]))]))]))])
  }

  /** The root: one bucket arc, label 0, over the trie of "four". */
  function Root(): Node
  {
    Node([Arc(0, Stem())])
  }

  /** A node with one byte arc over a well-formed, non-empty node is well formed. */
  lemma SingleArcWellFormed(lbl: int, n: Node)
    requires 0 <= lbl < 256 && |n.arcs| > 0 && WellFormed(n)
    ensures WellFormed(Node([Arc(lbl, n)]))
  {
  }

  /** The example automaton meets the constructor's requirement. */
  lemma RootIsWellFormed()
    ensures WellFormedRoot(Root())
  {
    var n := AfterFour();
    assert LabelsAscending(n);
    assert WellFormed(n);
    SingleArcWellFormed(114, n);
    SingleArcWellFormed(117, Node([Arc(114, n)]));
    SingleArcWellFormed(111, Node([Arc(117, Node([Arc(114, n)]))]));
    SingleArcWellFormed(102, Node([Arc(111, Node([Arc(117, Node([Arc(114, n)]))]))]));
    SingleArcWellFormed(0, Stem());
  }

  /** Following "fouri" from the bucket arc reaches the 'i' arc after "four". */
  lemma DescendFouri()
    ensures Descent.Descend(Arc(0, Stem()), Fouri()) == Some(Arc(105, Spell([101, 114])))
  {
    var n := AfterFour();
    assert FindTargetArc(105, n.arcs) == Some(n.arcs[1]);
    assert Descent.Descend(n.arcs[1], []) == Some(n.arcs[1]);
    assert Descent.Descend(Arc(114, n), [105]) == Some(n.arcs[1]);
    assert Descent.Descend(Arc(117, Node([Arc(114, n)])), [114, 105]) == Some(n.arcs[1]);
    var o := Node([Arc(111, Node([Arc(117, Node([Arc(114, n)]))]))]);
    assert Descent.Descend(o.arcs[0], [117, 114, 105]) == Some(n.arcs[1]);
    assert Descent.Descend(Stem().arcs[0], [111, 117, 114, 105]) == Some(n.arcs[1]);
    assert Fouri()[1..] == [111, 117, 114, 105];
  }

  /** Below the 'i' arc there is one term: "er". */
  lemma BelowFouri()
    ensures Enumeration.NodeCompletions(Fouri(), Spell([101, 114]), 0, 0) == [Completion(Fourier(), 0)]
  {
    OneBranch(Fouri() + [101], 114, Spell([]), 0);
    assert Spell([114]) == Node([Arc(114, Spell([]))]);
    OneBranch(Fouri(), 101, Spell([114]), 0);
    assert Spell([101, 114]) == Node([Arc(101, Spell([114]))]);
    var stop := Node([End()]);
    assert Enumeration.NodeCompletions(Fouri() + [101] + [114], stop, 1, 0) == [];
    assert Enumeration.NodeCompletions(Fouri() + [101] + [114], stop, 0, 0)
        == [Completion(Fouri() + [101] + [114], 0)];
    assert Fouri() + [101] + [114] == Fourier();
  }

  /** A node with a single byte arc offers exactly the completions below that arc. */
  lemma OneBranch(prefix: seq<Byte>, lbl: Byte, n: Node, bucket: int)
    ensures Enumeration.NodeCompletions(prefix, Node([Arc(lbl as int, n)]), 0, bucket)
         == Enumeration.NodeCompletions(prefix + [lbl], n, 0, bucket)
  {
    var m := Node([Arc(lbl as int, n)]);
    assert Enumeration.NodeCompletions(prefix, m, 1, bucket) == [];
    assert Enumeration.ChildCompletions(prefix, m, 0, bucket)
        == Enumeration.NodeCompletions(prefix + [lbl], n, 0, bucket);
  }

  /**
   * `lookup("fouri", 5)` on the default instance (higher weights first,
   * exact first) suggests "fourier" alone, in bucket 0.
   */
  method FouriSuggestsFourier() returns (r: Result<seq<Completion>, Error>)
    ensures r == Success([Completion(Fourier(), 0)])
  {
    RootIsWellFormed();
    var c := new FSTCompletion.Default(Some(Root()));
    r := c.Lookup(Fouri(), 5);
    assert c.rootArcs == [Arc(0, Stem())];
    DescendFouri();
    BelowFouri();
    assert AllMatches(c.rootArcs, 1, Fouri()) == [];
    assert AllMatches(c.rootArcs, 0, Fouri()) == [Completion(Fourier(), 0)];
    LookupProps.WeightFirstComplete(c.rootArcs, Fouri(), 5, true);
  }

  /** Two final leaves below one node: the terms `x` and `y` after the prefix. */
  function Leaves(x: Byte, y: Byte): Node
  {
    Node([Arc(x as int, Spell([])), Arc(y as int, Spell([]))])
  }

  /** Bucket 0 holds "aa" and "ab", bucket 1 holds "ay" and "az". */
  function TwoBuckets(): Node
  {
    Node([Arc(0, Node([Arc(97, Leaves(97, 98))])), Arc(1, Node([Arc(97, Leaves(121, 122))]))])
  }

  lemma TwoBucketsWellFormed()
    ensures WellFormedRoot(TwoBuckets())
  {
    var l0, l1 := Leaves(97, 98), Leaves(121, 122);
    assert WellFormed(l0) && WellFormed(l1);
    SingleArcWellFormed(97, l0);
    SingleArcWellFormed(97, l1);
  }

  /** The completions below two leaves, in label order. */
  lemma BelowLeaves(prefix: seq<Byte>, x: Byte, y: Byte, bucket: int)
    ensures Enumeration.NodeCompletions(prefix, Leaves(x, y), 0, bucket)
         == [Completion(prefix + [x], bucket), Completion(prefix + [y], bucket)]
  {
    var n := Leaves(x, y);
    var stop := Node([End()]);
    assert Enumeration.NodeCompletions(prefix + [x], stop, 0, bucket) == [Completion(prefix + [x], bucket)];
    assert Enumeration.NodeCompletions(prefix + [y], stop, 0, bucket) == [Completion(prefix + [y], bucket)];
    assert Enumeration.NodeCompletions(prefix, n, 2, bucket) == [];
    assert Enumeration.NodeCompletions(prefix, n, 1, bucket) == [Completion(prefix + [y], bucket)];
  }

  /** What the bucket arc `Arc(bucket, Node([Arc(97, Leaves(x, y))]))` offers for "a". */
  lemma BucketOfA(bucket: int, x: Byte, y: Byte)
    ensures BucketMatches(Arc(bucket, Node([Arc(97, Leaves(x, y))])), [97])
         == [Completion([97, x], bucket), Completion([97, y], bucket)]
  {
    var a := Arc(bucket, Node([Arc(97, Leaves(x, y))]));
    assert FindTargetArc(97, a.target.arcs) == Some(a.target.arcs[0]);
    assert Descent.Descend(a.target.arcs[0], []) == Some(a.target.arcs[0]);
    assert Descent.Descend(a, [97]) == Some(a.target.arcs[0]);
    BelowLeaves([97], x, y, bucket);
    assert [97] + [x] == [97, x] && [97] + [y] == [97, y];
  }

  function AA(): Completion { Completion([97, 97], 0) }
  function AB(): Completion { Completion([97, 98], 0) }
  function AY(): Completion { Completion([97, 121], 1) }
  function AZ(): Completion { Completion([97, 122], 1) }

  /** The cached root arcs of `TwoBuckets`: bucket 1 first. */
  function TwoBucketsCached(): seq<Arc>
  {
    [TwoBuckets().arcs[1], TwoBuckets().arcs[0]]
  }

  /** Both buckets match "a": "ay", "az" from bucket 1, then "aa", "ab" from bucket 0. */
  lemma TwoBucketsMatches()
    ensures AllMatches(TwoBucketsCached(), 0, [97]) == [AY(), AZ(), AA(), AB()]
  {
    var arcs := TwoBucketsCached();
    BucketOfA(1, 121, 122);
    BucketOfA(0, 97, 98);
    assert AllMatches(arcs, 2, [97]) == [];
    assert AllMatches(arcs, 1, [97]) == [AA(), AB()];
  }

  /** Collecting from every bucket under a shared cap of 2 keeps "ay", "az" and "aa". */
  lemma TwoBucketsCollectAll()
    ensures LookupByWeight(TwoBucketsCached(), [97], 2, true, false) == Success([AY(), AZ(), AA()])
  {
    var arcs := TwoBucketsCached();
    BucketOfA(1, 121, 122);
    BucketOfA(0, 97, 98);
    assert [] + [AY(), AZ()][..2] == [AY(), AZ()];
    assert Enumeration.EmitUntilFull([], 2, [AY(), AZ()]) == ([AY(), AZ()], true);
    assert [AY(), AZ()] + [AA(), AB()][..1] == [AY(), AZ(), AA()];
    assert Enumeration.EmitUntilFull([AY(), AZ()], 2, [AA(), AB()]) == ([AY(), AZ(), AA()], true);
    assert ScanFrom(arcs, 2, [97], 2, [AY(), AZ(), AA()], true) == ([AY(), AZ(), AA()], None);
    assert ScanFrom(arcs, 1, [97], 2, [AY(), AZ()], true) == ([AY(), AZ(), AA()], None);
  }

  /** A pair already in byte order is left as it is. */
  lemma SortPair(y: Completion, x: Completion)
    requires CompareTo(y, x) <= 0
    ensures SortByBytes([y, x]) == [y, x]
  {
    assert [y, x][..1] == [y] && [y][..0] == [];
    assert [y][1..] == [];
    assert InsertByBytes(x, [y]) == [y] + InsertByBytes(x, []);
  }

  lemma SortTwo()
    ensures SortByBytes([AY(), AZ()]) == [AY(), AZ()]
  {
    assert CompareBytes(AY().utf8, AZ().utf8) == -1;
    SortPair(AY(), AZ());
  }

  lemma InsertBeforeBoth()
    ensures InsertByBytes(AA(), [AY(), AZ()]) == [AA(), AY(), AZ()]
  {
    assert CompareBytes([97, 121], [97, 97]) == CompareBytes([121], [97]);
    assert CompareTo(AY(), AA()) > 0;
  }

  lemma SortLast()
    ensures SortByBytes([AY(), AZ(), AA()]) == InsertByBytes(AA(), SortByBytes([AY(), AZ()]))
  {
    assert [AY(), AZ(), AA()][..2] == [AY(), AZ()];
  }

  /** `Collections.sort` on the collected list. */
  lemma SortThree()
    ensures SortByBytes([AY(), AZ(), AA()]) == [AA(), AY(), AZ()]
  {
    SortLast();
    SortTwo();
    InsertBeforeBoth();
  }

  /** The cached root arcs are the root's arcs reversed. */
  lemma TwoBucketsReversed()
    ensures Reversed(TwoBuckets().arcs) == TwoBucketsCached()
  {
    var a := TwoBuckets().arcs;
    assert a[..1] == [a[0]] && [a[0]][..0] == [];
  }

  lemma TruncateThree(x: Completion, y: Completion, z: Completion)
    ensures Truncate([x, y, z], 2) == [x, y]
  {
    assert [x, y, z][..2] == [x, y];
  }

  /** Collect from every bucket, sort, keep two: "aa" and "ay". */
  lemma TwoBucketsAlphabetical(arcs: seq<Arc>, key: seq<Byte>, num: int)
    requires arcs == TwoBucketsCached() && key == [97] && num == 2
    ensures Alphabetical(arcs, key, num) == Success([AA(), AY()])
  {
    var all := [AY(), AZ(), AA()];
    assert LookupByWeight(arcs, key, num, true, false) == Success(all) by {
      TwoBucketsCollectAll();
    }
    var sorted := SortByBytes(all);
    assert sorted == [AA(), AY(), AZ()] by {
      SortThree();
    }
    TruncateThree(AA(), AY(), AZ());
  }

  /**
   * The alphabetical mode shares one cap across buckets: with a cap of 2,
   * bucket 1 fills the list with "ay" and "az", bucket 0 then adds only its
   * first completion "aa", and after sorting and trimming the result is
   * "aa", "ay".
   */
  method AlphabeticalSharesTheCap() returns (r: Result<seq<Completion>, Error>)
    ensures r == Success([AA(), AY()])
  {
    TwoBucketsWellFormed();
    var c := new FSTCompletion(Some(TwoBuckets()), false, false);
    r := c.Lookup([97], 2);
    TwoBucketsReversed();
    TwoBucketsAlphabetical(c.rootArcs, [97], 2);
  }

  /** "ab" matches "a" and sorts before "ay", yet the alphabetical result above leaves it out. */
  lemma AlphabeticalMissesAb()
    ensures AB() in AllMatches(TwoBucketsCached(), 0, [97])
    ensures AB() !in [AA(), AY()] && CompareBytes(AB().utf8, AY().utf8) < 0
  {
    TwoBucketsMatches();
    FirstDifferenceDecides([97], [98], [121]);
    assert [97] + [98] == AB().utf8 && [97] + [121] == AY().utf8;
  }

}

/** Sorting a two-element `BytesRefList` with the byte order of `BytesRef.compareTo`. */
module ListExamples {
  import opened Bytes
  import opened BytesRefLists

  /** Two ordinals of two elements whose first element sorts after its second come out reversed. */
  lemma ReversedPair(e: seq<seq<Byte>>, o: seq<int>)
    requires |e| == 2 && |o| == 2 && multiset(o) == multiset(Iota(2))
    requires OrdinalsIn(o, 2) && OrdinalsSorted(CompareBytes, e, o)
    requires CompareBytes(e[0], e[1]) > 0
    ensures o == [1, 0]
  {
    assert NotAfter(CompareBytes, e, o, 0, 1);
    assert Iota(2) == [0, 1];
    assert o == [o[0], o[1]];
  }

  /**
   * `sort` with the byte order (which `CompareBytesIsComparator` shows meets
   * the comparator laws) on the list "b", "a" returns the ordinals 1, 0.
   */
  method SortTwoByBytes() returns (ords: array<int>)
    ensures ords[..] == [1, 0]
  {
    var list := new BytesRefList();
    var n := list.Append([98]);
    n := list.Append([97]);
    assert IsComparator(CompareBytes) by { CompareBytesIsComparator(); }
    ords := list.Sort(CompareBytes);
    assert list.elements == [[98], [97]];
    assert CompareBytes([98], [97]) > 0;
    ReversedPair(list.elements, ords[..]);
  }
}
