/**
 * Unsigned bytes and the byte-wise order of Lucene's `BytesRef.compareTo`
 * (BytesRef itself is not part of this model): bytes are compared as
 * unsigned values up to the shorter length, then the shorter sequence wins.
 */
module Bytes {

  /** The unsigned value `b & 0xff` of a Java byte. */
  newtype Byte = x: int | 0 <= x < 256

  /** Byte-wise comparison: the difference of the first differing bytes, else the length difference. */
  function CompareBytes(a: seq<Byte>, b: seq<Byte>): int
    decreases |a|
  {
    if a == [] || b == [] then |a| - |b|
    else if a[0] != b[0] then a[0] as int - b[0] as int
    else CompareBytes(a[1..], b[1..])
  }

  /** `a` comes before `b` exactly when `b` comes after `a`. */
  ghost predicate ComparesConsistently(cmp: (seq<Byte>, seq<Byte>) -> int, a: seq<Byte>, b: seq<Byte>)
  {
    cmp(a, b) < 0 <==> cmp(b, a) > 0
  }

  /** "Not after" chains: a <= b and b <= c give a <= c. */
  ghost predicate ChainsTransitively(cmp: (seq<Byte>, seq<Byte>) -> int, a: seq<Byte>, b: seq<Byte>, c: seq<Byte>)
  {
    cmp(a, b) <= 0 && cmp(b, c) <= 0 ==> cmp(a, c) <= 0
  }

  /** The properties of a `Comparator<BytesRef>` that sorting relies on. */
  ghost predicate IsComparator(cmp: (seq<Byte>, seq<Byte>) -> int)
  {
    && (forall a, b :: ComparesConsistently(cmp, a, b))
    && (forall a, b, c :: ChainsTransitively(cmp, a, b, c))
  }

  /** The comparison is zero exactly on equal sequences. */
  lemma {:induction false} CompareBytesZero(a: seq<Byte>, b: seq<Byte>)
    ensures CompareBytes(a, b) == 0 <==> a == b
    decreases |a|
  {
    if a != [] && b != [] && a[0] == b[0] {
      CompareBytesZero(a[1..], b[1..]);
      assert a == [a[0]] + a[1..] && b == [b[0]] + b[1..];
    }
  }

  /** Swapping the arguments negates the comparison. */
  lemma {:induction false} CompareBytesFlip(a: seq<Byte>, b: seq<Byte>)
    ensures CompareBytes(b, a) == -CompareBytes(a, b)
    decreases |a|
  {
    if a != [] && b != [] && a[0] == b[0] {
      CompareBytesFlip(a[1..], b[1..]);
    }
  }

  /** The "less or equal" of the byte order is transitive. */
  lemma {:induction false} CompareBytesTransitive(a: seq<Byte>, b: seq<Byte>, c: seq<Byte>)
    requires CompareBytes(a, b) <= 0 && CompareBytes(b, c) <= 0
    ensures CompareBytes(a, c) <= 0
    decreases |a|
  {
    if a != [] && b != [] && c != [] && a[0] == b[0] && b[0] == c[0] {
      CompareBytesTransitive(a[1..], b[1..], c[1..]);
    }
  }

  /** Strict "less" of the byte order is transitive. */
  lemma CompareBytesStrictTransitive(a: seq<Byte>, b: seq<Byte>, c: seq<Byte>)
    requires CompareBytes(a, b) < 0 && CompareBytes(b, c) < 0
    ensures CompareBytes(a, c) < 0
  {
  }

  /** A common prefix does not change the comparison. */
  lemma {:induction false} CompareBytesCommonPrefix(p: seq<Byte>, a: seq<Byte>, b: seq<Byte>)
    ensures CompareBytes(p + a, p + b) == CompareBytes(a, b)
    decreases |p|
  {
    if p != [] {
      var pa, pb := p + a, p + b;
      assert pa[0] == p[0] == pb[0];
      assert pa[1..] == p[1..] + a;
      assert pb[1..] == p[1..] + b;
      assert CompareBytes(pa, pb) == CompareBytes(pa[1..], pb[1..]);
      CompareBytesCommonPrefix(p[1..], a, b);
    } else {
      assert p + a == a && p + b == b;
    }
  }

  /** A proper prefix sorts before its extensions. */
  lemma ProperPrefixIsLess(p: seq<Byte>, s: seq<Byte>)
    requires s != []
    ensures CompareBytes(p, p + s) < 0
  {
    CompareBytesCommonPrefix(p, [], s);
    assert p + [] == p;
  }

  /** After a common prefix, the first differing byte decides. */
  lemma FirstDifferenceDecides(p: seq<Byte>, a: seq<Byte>, b: seq<Byte>)
    requires a != [] && b != [] && a[0] < b[0]
    ensures CompareBytes(p + a, p + b) < 0
  {
    CompareBytesCommonPrefix(p, a, b);
  }

  /** The byte order of `BytesRef.compareTo` is a valid comparator. */
  lemma CompareBytesIsComparator()
    ensures IsComparator(CompareBytes)
  {
    forall a, b ensures ComparesConsistently(CompareBytes, a, b) {
      CompareBytesFlip(a, b);
    }
    forall a, b, c ensures ChainsTransitively(CompareBytes, a, b, c) {
      if CompareBytes(a, b) <= 0 && CompareBytes(b, c) <= 0 {
        CompareBytesTransitive(a, b, c);
      }
    }
  }
}
