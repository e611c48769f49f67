/**
 * `BytesRefList`: an append-only list of byte sequences. All bytes live
 * one after another in a pool (Lucene's `ByteBlockPool`, here a flat
 * sequence); `offsets[i]` is where element `i` starts, and the element
 * ends where the next one starts, or at `currentOffset` for the last.
 */
module BytesRefLists {
  import opened Wrappers
  import opened Bytes

  /** The exceptions `get` can throw. */
  datatype ListError =
    | ArrayIndexOutOfBounds   // `offsets[ord]` with ord < 0
    | IndexOutOfBounds        // ord >= size()

  /** The elements laid end to end, as the pool holds them. */
  function Concat(elements: seq<seq<Byte>>): seq<Byte>
    decreases |elements|
  {
    if elements == [] then [] else Concat(elements[..|elements| - 1]) + elements[|elements| - 1]
  }

  /** The sum of the element lengths. */
  function TotalLength(elements: seq<seq<Byte>>): nat
    decreases |elements|
  {
    if elements == [] then 0 else TotalLength(elements[..|elements| - 1]) + |elements[|elements| - 1]|
  }

  /** 0, 1, ..., n - 1: the ordinals in append order. */
  function Iota(n: nat): (r: seq<int>)
    ensures |r| == n
    ensures forall k :: 0 <= k < n ==> r[k] == k
  {
    if n == 0 then [] else Iota(n - 1) + [n - 1]
  }

  /** The pool holds exactly the appended bytes. */
  lemma {:induction false} ConcatLength(elements: seq<seq<Byte>>)
    ensures |Concat(elements)| == TotalLength(elements)
    decreases |elements|
  {
    if elements != [] {
      ConcatLength(elements[..|elements| - 1]);
    }
  }

  /** The pool of the first `k` elements is a prefix of the whole pool. */
  lemma {:induction false} ConcatPrefix(elements: seq<seq<Byte>>, k: nat)
    requires k <= |elements|
    ensures |Concat(elements[..k])| <= |Concat(elements)|
    ensures Concat(elements)[..|Concat(elements[..k])|] == Concat(elements[..k])
    decreases |elements|
  {
    if k < |elements| {
      var init := elements[..|elements| - 1];
      assert init[..k] == elements[..k];
      ConcatPrefix(init, k);
      var c, ci, ck := Concat(elements), Concat(init), Concat(elements[..k]);
      assert c == ci + elements[|elements| - 1];
      assert c[..|ck|] == ci[..|ck|];
    } else {
      assert elements[..k] == elements;
    }
  }

  /** Element `k` sits in the pool between its start and the next element's start. */
  lemma ConcatSlice(elements: seq<seq<Byte>>, k: nat)
    requires k < |elements|
    ensures |Concat(elements[..k + 1])| == |Concat(elements[..k])| + |elements[k]|
    ensures |Concat(elements[..k + 1])| <= |Concat(elements)|
    ensures Concat(elements)[|Concat(elements[..k])|..|Concat(elements[..k + 1])|] == elements[k]
  {
    var pre := elements[..k + 1];
    assert pre[..k] == elements[..k] && pre[k] == elements[k];
    assert Concat(pre) == Concat(elements[..k]) + elements[k];
    ConcatPrefix(elements, k + 1);
    var a, b := |Concat(elements[..k])|, |Concat(pre)|;
    assert Concat(elements)[a..b] == Concat(elements)[..b][a..b];
  }

  /** A `Comparator<BytesRef>` over the bytes. */
  type Comparator = (seq<Byte>, seq<Byte>) -> int

  /** What the iterator's `next` makes of a `get`: the element, or the exception passed on. */
  function AsNext(r: Result<seq<Byte>, ListError>): Result<Option<seq<Byte>>, ListError>
  {
    match r
    case Success(b) => Success(Some(b))
    case Failure(e) => Failure(e)
  }

  /** Every ordinal in `o` names one of the `n` elements. */
  ghost predicate OrdinalsIn(o: seq<int>, n: int)
  {
    forall k :: 0 <= k < |o| ==> 0 <= o[k] < n
  }

  /** Under `comp`, the element named at position `a` of `o` is not after the one at `b`. */
  ghost predicate NotAfter(comp: Comparator, e: seq<seq<Byte>>, o: seq<int>, a: int, b: int)
    requires OrdinalsIn(o, |e|) && 0 <= a < |o| && 0 <= b < |o|
  {
    comp(e[o[a]], e[o[b]]) <= 0
  }

  /** The elements named by `o` ascend under `comp`. */
  ghost predicate OrdinalsSorted(comp: Comparator, e: seq<seq<Byte>>, o: seq<int>)
    requires OrdinalsIn(o, |e|)
  {
    forall a, b :: 0 <= a < b < |o| ==> NotAfter(comp, e, o, a, b)
  }

  /**
   * After `i` selection steps: the first `i` positions ascend, and none of
   * them comes after any later position.
   */
  ghost predicate SelectedUpTo(comp: Comparator, e: seq<seq<Byte>>, o: seq<int>, i: nat)
    requires OrdinalsIn(o, |e|) && i <= |o|
  {
    && (forall a, b :: 0 <= a < b < i ==> NotAfter(comp, e, o, a, b))
    && (forall a, b :: 0 <= a < i <= b < |o| ==> NotAfter(comp, e, o, a, b))
  }

  /** A comparator puts every element level with itself. */
  lemma ComparatorReflexive(comp: Comparator, x: seq<Byte>)
    requires IsComparator(comp)
    ensures comp(x, x) == 0
  {
    assert ComparesConsistently(comp, x, x);
  }

  /**
   * Swapping a smallest element of `o[i..]` into position `i` extends the
   * selected prefix by one and keeps the ordinals.
   */
  lemma SwapSelects(comp: Comparator, e: seq<seq<Byte>>, o: seq<int>, i: nat, m: nat)
    requires OrdinalsIn(o, |e|) && i <= m < |o| && SelectedUpTo(comp, e, o, i)
    requires forall b :: i <= b < |o| ==> NotAfter(comp, e, o, m, b)
    ensures OrdinalsIn(o[i := o[m]][m := o[i]], |e|)
    ensures multiset(o[i := o[m]][m := o[i]]) == multiset(o)
    ensures SelectedUpTo(comp, e, o[i := o[m]][m := o[i]], i + 1)
  {
    var o' := o[i := o[m]][m := o[i]];
    assert OrdinalsIn(o', |e|);
    forall a, b | 0 <= a < b < i + 1 ensures NotAfter(comp, e, o', a, b) {
      if b == i {
        assert NotAfter(comp, e, o, a, m);
      } else {
        assert NotAfter(comp, e, o, a, b);
      }
    }
    forall a, b | 0 <= a < i + 1 <= b < |o'| ensures NotAfter(comp, e, o', a, b) {
      if a == i {
        if b == m {
          assert NotAfter(comp, e, o, m, i);
        } else {
          assert NotAfter(comp, e, o, m, b);
        }
      } else if b == m {
        assert NotAfter(comp, e, o, a, i);
      } else {
        assert NotAfter(comp, e, o, a, b);
      }
    }
  }

  class BytesRefList {
    /** The byte pool: every appended sequence, end to end. */
    var pool: seq<Byte>
    /** `offsets[i]` is the start of element `i` in the pool. */
    var offsets: array<int>
    /** The number of elements. */
    var lastElement: int
    /** The end of the pool's used part, where the next element starts. */
    var currentOffset: int
    /** The appended sequences, in order. */
    ghost var elements: seq<seq<Byte>>

    ghost predicate Valid()
      reads this, offsets
    {
      && 0 <= lastElement == |elements| <= offsets.Length
      && pool == Concat(elements)
      && currentOffset == |pool|
      && forall i :: 0 <= i < lastElement ==> offsets[i] == |Concat(elements[..i])|
    }

    /** `BytesRefList()`: empty, with room for one offset. */
    constructor()
      ensures Valid() && elements == [] && fresh(offsets) && offsets.Length == 1
    {
      pool := [];
      offsets := new int[1];
      lastElement := 0;
      currentOffset := 0;
      elements := [];
    }

    /** `size()` */
    function Size(): (n: int)
      requires Valid()
      reads this, offsets
      ensures n == |elements|
    {
      lastElement
    }

    /** What `get` yields for `ord`: the `ord`-th appended sequence, or the exception. */
    ghost function ElementAt(ord: int): Result<seq<Byte>, ListError>
      reads this
    {
      if ord < 0 then Failure(ArrayIndexOutOfBounds)
      else if ord < |elements| then Success(elements[ord])
      else Failure(IndexOutOfBounds)
    }

    /**
     * `clear`: no elements, `currentOffset` back to 0, every offset zeroed
     * and the pool emptied; the offsets array keeps its length.
     */
    method Clear()
      requires Valid()
      modifies this, offsets
      ensures Valid() && elements == [] && offsets == old(offsets)
      ensures lastElement == 0 && currentOffset == 0
      ensures forall i :: 0 <= i < offsets.Length ==> offsets[i] == 0
    {
      lastElement := 0;
      currentOffset := 0;
      var a := offsets;
      var i := 0;
      while i < a.Length
        invariant 0 <= i <= a.Length
        invariant forall k :: 0 <= k < i ==> a[k] == 0
        modifies a
      {
        a[i] := 0;
        i := i + 1;
      }
      pool := [];
      elements := [];
    }

    /**
     * `ArrayUtil.grow(array, minSize)`: the same array if it is long enough,
     * otherwise a longer copy whose extra slots are zero.
     */
    static method Grow(a: array<int>, minSize: int) returns (b: array<int>)
      ensures b.Length >= minSize && b.Length >= a.Length
      ensures b[..a.Length] == old(a[..])
      ensures b == a || fresh(b)
      ensures b != a ==> forall k :: a.Length <= k < b.Length ==> b[k] == 0
      ensures unchanged(a)
    {
      if a.Length >= minSize {
        return a;
      }
      var extra := if minSize / 8 < 3 then 3 else minSize / 8;
      b := new int[minSize + extra](_ => 0);
      var i := 0;
      while i < a.Length
        invariant 0 <= i <= a.Length
        invariant forall k :: 0 <= k < i ==> b[k] == a[k]
        invariant forall k :: a.Length <= k < b.Length ==> b[k] == 0
        modifies b
      {
        b[i] := a[i];
        i := i + 1;
      }
    }

    /**
     * `append`: copies the bytes to the end of the pool and records where
     * they start, growing `offsets` when it is full. Returns the new size,
     * which is one more than the new element's ordinal.
     */
    method Append(bytes: seq<Byte>) returns (n: int)
      requires Valid()
      modifies this, offsets
      ensures Valid()
      ensures elements == old(elements) + [bytes]
      ensures n == |elements| == old(|elements|) + 1
      ensures offsets == old(offsets) || fresh(offsets)
    {
      if lastElement >= offsets.Length {
        offsets := Grow(offsets, offsets.Length + 1);
      }
      assert forall i :: 0 <= i < lastElement ==> offsets[i] == |Concat(elements[..i])|;
      pool := pool + bytes;
      offsets[lastElement] := currentOffset;
      lastElement := lastElement + 1;
      currentOffset := currentOffset + |bytes|;
      ghost var before := elements;
      elements := elements + [bytes];
      assert elements[..|before|] == before;
      forall i | 0 <= i < |before| ensures elements[..i] == before[..i] {
      }
      return lastElement;
    }

    /**
     * `get`: the bytes of the `ord`-th append, sliced from the pool between
     * `offsets[ord]` and the next start (or `currentOffset` for the last).
     */
    method Get(ord: int) returns (r: Result<seq<Byte>, ListError>)
      requires Valid()
      ensures r == ElementAt(ord)
      ensures r.Success? <==> 0 <= ord < |elements|
      ensures r.Success? ==> r.value == elements[ord]
    {
      if lastElement > ord {
        if ord < 0 {
          return Failure(ArrayIndexOutOfBounds);
        }
        var offset := offsets[ord];
        ConcatSlice(elements, ord);
        var length := if ord == lastElement - 1 then currentOffset - offset else offsets[ord + 1] - offset;
        if ord == lastElement - 1 {
          assert elements[..ord + 1] == elements;
        }
        return Success(pool[offset..offset + length]);
      }
      return Failure(IndexOutOfBounds);
    }

    /** Element starts never decrease. */
    lemma OffsetsNondecreasing()
      requires Valid()
      ensures forall i, j :: 0 <= i <= j < lastElement ==> offsets[i] <= offsets[j]
      ensures forall i :: 0 <= i < lastElement ==> offsets[i] <= currentOffset
    {
      forall i, j | 0 <= i <= j < lastElement ensures offsets[i] <= offsets[j] {
        assert elements[..j][..i] == elements[..i];
        ConcatPrefix(elements[..j], i);
      }
      forall i | 0 <= i < lastElement ensures offsets[i] <= currentOffset {
        ConcatPrefix(elements, i);
      }
    }

    /** `currentOffset` is the total length of everything appended. */
    lemma CurrentOffsetIsTotal()
      requires Valid()
      ensures currentOffset == TotalLength(elements)
    {
      ConcatLength(elements);
    }

    /**
     * The position, from `i` on, of an ordinal whose element no other from
     * `i` on precedes under `comp`: one selection step, comparing through `get`.
     */
    method SelectSmallest(ords: array<int>, i: nat, comp: Comparator) returns (m: nat)
      requires Valid() && IsComparator(comp)
      requires i < ords.Length && OrdinalsIn(ords[..], |elements|)
      ensures i <= m < ords.Length
      ensures forall b :: i <= b < ords.Length ==> NotAfter(comp, elements, ords[..], m, b)
    {
      ghost var e, o := elements, ords[..];
      m := i;
      ComparatorReflexive(comp, e[o[i]]);
      var j := i + 1;
      while j < ords.Length
        invariant i <= m < j <= ords.Length
        invariant forall b :: i <= b < j ==> NotAfter(comp, e, o, m, b)
      {
        var x := Get(ords[j]);
        var y := Get(ords[m]);
        assert x.value == e[o[j]] && y.value == e[o[m]];
        if comp(x.value, y.value) < 0 {
          forall b | i <= b < j + 1 ensures NotAfter(comp, e, o, j, b) {
            if b == j {
              ComparatorReflexive(comp, e[o[j]]);
            } else {
              assert NotAfter(comp, e, o, m, b);
              assert ChainsTransitively(comp, e[o[j]], e[o[m]], e[o[b]]);
            }
          }
          m := j;
        } else {
          assert ComparesConsistently(comp, e[o[j]], e[o[m]]);
        }
        j := j + 1;
      }
    }

    /**
     * `sort`: the ordinals 0 .. size-1 rearranged so that the elements they
     * name ascend under `comp`; the list itself is not changed.
     */
    method Sort(comp: Comparator) returns (ords: array<int>)
      requires Valid() && IsComparator(comp)
      ensures fresh(ords) && ords.Length == |elements|
      ensures multiset(ords[..]) == multiset(Iota(|elements|))
      ensures OrdinalsIn(ords[..], |elements|)
      ensures OrdinalsSorted(comp, elements, ords[..])
    {
      var n := lastElement;
      ords := new int[n];
      var i := 0;
      while i < n
        invariant 0 <= i <= n && ords[..i] == Iota(i)
        modifies ords
      {
        ords[i] := i;
        assert ords[..i + 1] == ords[..i] + [i];
        i := i + 1;
      }
      assert ords[..] == Iota(n);
      i := 0;
      while i < n
        invariant 0 <= i <= n
        invariant OrdinalsIn(ords[..], n)
        invariant multiset(ords[..]) == multiset(Iota(n))
        invariant SelectedUpTo(comp, elements, ords[..], i)
        modifies ords
      {
        var m := SelectSmallest(ords, i, comp);
        ghost var o := ords[..];
        SwapSelects(comp, elements, o, i, m);
        ords[i], ords[m] := ords[m], ords[i];
        assert ords[..] == o[i := o[m]][m := o[i]];
        i := i + 1;
      }
    }

    /**
     * `iterator(comp)`: a point-in-time iterator over the elements appended
     * so far, in append order without a comparator and in the comparator's
     * order with one.
     */
    method Iterator(comp: Option<Comparator>) returns (it: BytesRefListIterator)
      requires Valid() && (comp.Some? ==> IsComparator(comp.value))
      ensures fresh(it) && it.Valid() && it.list == this && it.pos == 0 && it.size == |elements|
      ensures comp.None? ==> it.order == Iota(|elements|)
      ensures comp.Some? ==> multiset(it.order) == multiset(Iota(|elements|))
      ensures comp.Some? ==> OrdinalsIn(it.order, |elements|) && OrdinalsSorted(comp.value, elements, it.order)
    {
      var size := lastElement;
      var ords: array?<int> := null;
      if comp.Some? {
        ords := Sort(comp.value);
      }
      it := new BytesRefListIterator(this, size, ords);
    }

    /** `iterator()`: in append order. */
    method IteratorInAppendOrder() returns (it: BytesRefListIterator)
      requires Valid()
      ensures fresh(it) && it.Valid() && it.list == this && it.pos == 0 && it.size == |elements|
      ensures it.order == Iota(|elements|)
    {
      it := Iterator(None);
    }
  }

  /** The iterator `iterator(comp)` returns. */
  class BytesRefListIterator {
    const list: BytesRefList
    /** The list's size when the iterator was made. */
    const size: int
    /** The sorted ordinals, or null for append order. */
    const ords: array?<int>
    /** The number of elements already returned. */
    var pos: int
    /** The ordinals in the order they are visited. */
    ghost const order: seq<int>

    ghost predicate Valid()
      reads this, ords
    {
      && 0 <= pos <= size == |order|
      && (ords == null ==> order == Iota(size))
      && (ords != null ==> ords[..] == order)
      && forall k :: 0 <= k < size ==> 0 <= order[k] < size
    }

    constructor(list: BytesRefList, size: nat, ords: array?<int>)
      requires ords != null ==> ords.Length == size && forall k :: 0 <= k < size ==> 0 <= ords[k] < size
      ensures Valid() && this.list == list && this.size == size && this.ords == ords && pos == 0
      ensures order == if ords == null then Iota(size) else ords[..]
    {
      this.list := list;
      this.size := size;
      this.ords := ords;
      this.order := if ords == null then Iota(size) else ords[..];
      pos := 0;
    }

    /**
     * `next`: the element at the next ordinal, read through `get`, or null
     * (None) once `size` elements have been returned. The list is not changed.
     */
    method Next() returns (r: Result<Option<seq<Byte>>, ListError>)
      requires Valid() && list.Valid()
      modifies this
      ensures Valid()
      ensures old(pos) < size ==> pos == old(pos) + 1 && r == AsNext(list.ElementAt(order[old(pos)]))
      ensures old(pos) < size <= |list.elements| ==> r == Success(Some(list.elements[order[old(pos)]]))
      ensures old(pos) >= size ==> pos == old(pos) && r == Success(None)
    {
      if pos < size {
        var ord := if ords == null then pos else ords[pos];
        pos := pos + 1;
        var e := list.Get(ord);
        r := AsNext(e);
      } else {
        r := Success(None);
      }
    }
  }
}
