/**
 * The specification of `descendWithPrefix`: follow the key byte by byte
 * from a starting arc, one child lookup per byte.
 */
module Descent {
  import opened Wrappers
  import opened Bytes
  import opened Fst

  /** The arc reached on the key's last byte, or None at the first byte without a matching child. */
  function Descend(arc: Arc, key: seq<Byte>): (r: Option<Arc>)
    ensures r.Some? && key != [] ==> r.value.lbl == key[|key| - 1] as int
    decreases |key|
  {
    if key == [] then Some(arc)
    else
      match FindTargetArc(key[0] as int, arc.target.arcs)
      case None => None
      case Some(next) => Descend(next, key[1..])
  }

  /** `path[i]` is a child, labelled `key[i]`, of the arc before it (of `start` for i = 0). */
  ghost predicate IsPath(start: Arc, key: seq<Byte>, path: seq<Arc>)
  {
    && |path| == |key|
    && (|key| > 0 ==> path[0] in start.target.arcs)
    && (forall i :: 0 < i < |key| ==> path[i] in path[i - 1].target.arcs)
    && (forall i :: 0 <= i < |key| ==> path[i].lbl == key[i] as int)
  }

  /** The arc a path ends on. */
  function PathEnd(start: Arc, path: seq<Arc>): Arc
  {
    if path == [] then start else path[|path| - 1]
  }

  /**
   * The descent succeeds iff the key spells a path of child arcs from
   * `start`, and then it stops on that path's last arc.
   */
  lemma DescendFollowsPath(start: Arc, key: seq<Byte>)
    requires WellFormed(start.target)
    ensures Descend(start, key).Some? <==> exists path :: IsPath(start, key, path)
    ensures forall path | IsPath(start, key, path) :: Descend(start, key) == Some(PathEnd(start, path))
  {
    if Descend(start, key).Some? {
      var path := DescentPath(start, key);
    }
    forall path | IsPath(start, key, path) ensures Descend(start, key) == Some(PathEnd(start, path)) {
      PathDescends(start, key, path);
    }
  }

  /** A successful descent yields the path it followed. */
  lemma {:induction false} DescentPath(start: Arc, key: seq<Byte>) returns (path: seq<Arc>)
    requires Descend(start, key).Some?
    ensures IsPath(start, key, path)
    decreases |key|
  {
    if key == [] {
      path := [];
    } else {
      var next := FindTargetArc(key[0] as int, start.target.arcs).value;
      var tail := DescentPath(next, key[1..]);
      path := [next] + tail;
      forall i | 0 < i < |key| ensures path[i] in path[i - 1].target.arcs {
        assert path[i] == tail[i - 1];
        if i > 1 {
          assert path[i - 1] == tail[i - 2];
        }
      }
      forall i | 0 < i < |key| ensures path[i].lbl == key[i] as int {
        assert path[i] == tail[i - 1] && key[i] == key[1..][i - 1];
      }
    }
  }

  /** Along a path of child arcs the descent succeeds and ends where the path ends. */
  lemma {:induction false} PathDescends(start: Arc, key: seq<Byte>, path: seq<Arc>)
    requires WellFormed(start.target) && IsPath(start, key, path)
    ensures Descend(start, key) == Some(PathEnd(start, path))
    decreases |key|
  {
    if key != [] {
      assert path[0] in start.target.arcs;
      var i :| 0 <= i < |start.target.arcs| && start.target.arcs[i] == path[0];
      FindTargetArcUnique(key[0] as int, start.target, i);
      ChildOfWellFormed(start.target, i);
      var tail := path[1..];
      forall j | 0 < j < |key| - 1 ensures tail[j] in tail[j - 1].target.arcs {
        assert tail[j] == path[j + 1] && tail[j - 1] == path[j];
      }
      forall j | 0 <= j < |key| - 1 ensures tail[j].lbl == key[1..][j] as int {
        assert tail[j] == path[j + 1];
      }
      PathDescends(path[0], key[1..], tail);
    }
  }

  /** Descending along `a + b` is descending along `a`, then along `b`. */
  lemma {:induction false} DescendConcat(start: Arc, a: seq<Byte>, b: seq<Byte>)
    ensures Descend(start, a + b) ==
            match Descend(start, a)
            case None => None
            case Some(mid) => Descend(mid, b)
    decreases |a|
  {
    if a == [] {
      assert a + b == b;
    } else {
      assert (a + b)[0] == a[0] && (a + b)[1..] == a[1..] + b;
      var found := FindTargetArc(a[0] as int, start.target.arcs);
      if found.Some? {
        DescendConcat(found.value, a[1..], b);
      }
    }
  }

  /**
   * The descent fails iff some key byte, reached by matching all bytes
   * before it, has no matching child.
   */
  lemma {:induction false} DescendFailsAtMismatch(start: Arc, key: seq<Byte>)
    ensures Descend(start, key).None? <==>
            exists i :: 0 <= i < |key| && Mismatch(start, key, i)
    decreases |key|
  {
    if key != [] {
      var found := FindTargetArc(key[0] as int, start.target.arcs);
      if found.None? {
        assert key[..0] == [];
        assert Mismatch(start, key, 0);
      } else {
        DescendFailsAtMismatch(found.value, key[1..]);
        forall i | 0 <= i < |key| - 1
          ensures Mismatch(found.value, key[1..], i) <==> Mismatch(start, key, i + 1)
        {
          assert key[..i + 1] == [key[0]] + key[1..][..i];
          DescendConcat(start, [key[0]], key[1..][..i]);
          assert [key[0]][1..] == [];
          assert key[1..][i] == key[i + 1];
        }
        if exists i :: 0 <= i < |key| && Mismatch(start, key, i) {
          var i :| 0 <= i < |key| && Mismatch(start, key, i);
          assert key[..0] == [];
          assert i != 0;
          assert Mismatch(found.value, key[1..], i - 1);
        }
      }
    }
  }

  /** Bytes `key[..i]` are matched, and byte `key[i]` has no matching child. */
  ghost predicate Mismatch(start: Arc, key: seq<Byte>, i: nat)
    requires i < |key|
  {
    match Descend(start, key[..i])
    case None => false
    case Some(at) => FindTargetArc(key[i] as int, at.target.arcs).None?
  }

  /**
   * `key + s` is stored below `start` iff the descent along `key` succeeds
   * and `s` is stored below the arc it reaches.
   */
  lemma DescendIsTerm(start: Arc, key: seq<Byte>, s: seq<Byte>)
    requires WellFormed(start.target)
    ensures IsTerm(start.target, key + s) <==>
            (Descend(start, key).Some? && IsTerm(Descend(start, key).value.target, s))
  {
    if IsTerm(start.target, key + s) {
      TermDescends(start, key, s);
    }
    if Descend(start, key).Some? && IsTerm(Descend(start, key).value.target, s) {
      DescentTerm(start, key, s);
    }
  }

  lemma {:induction false} TermDescends(start: Arc, key: seq<Byte>, s: seq<Byte>)
    requires WellFormed(start.target) && IsTerm(start.target, key + s)
    ensures Descend(start, key).Some? && IsTerm(Descend(start, key).value.target, s)
    decreases |key|
  {
    if key == [] {
      assert key + s == s;
    } else {
      var ks := key + s;
      assert ks[0] == key[0] && ks[1..] == key[1..] + s;
      var i :| 0 <= i < |start.target.arcs| && TermVia(start.target, i, ks);
      FindTargetArcUnique(key[0] as int, start.target, i);
      ChildOfWellFormed(start.target, i);
      TermDescends(start.target.arcs[i], key[1..], s);
    }
  }

  lemma {:induction false} DescentTerm(start: Arc, key: seq<Byte>, s: seq<Byte>)
    requires Descend(start, key).Some? && IsTerm(Descend(start, key).value.target, s)
    ensures IsTerm(start.target, key + s)
    decreases |key|
  {
    if key == [] {
      assert key + s == s;
    } else {
      var ks := key + s;
      assert ks[0] == key[0] && ks[1..] == key[1..] + s;
      var next := FindTargetArc(key[0] as int, start.target.arcs).value;
      var i :| 0 <= i < |start.target.arcs| && start.target.arcs[i] == next;
      DescentTerm(next, key[1..], s);
      assert TermVia(start.target, i, ks);
    }
  }

  /** Descending from a byte arc by byte labels stays on byte arcs. */
  lemma {:induction false} DescendStaysOnByteArcs(start: Arc, key: seq<Byte>)
    requires ByteArc(start)
    ensures Descend(start, key).Some? ==> ByteArc(Descend(start, key).value)
    decreases |key|
  {
    if key != [] {
      var found := FindTargetArc(key[0] as int, start.target.arcs);
      if found.Some? {
        var i :| 0 <= i < |start.target.arcs| && start.target.arcs[i] == found.value;
        ChildOfWellFormed(start.target, i);
        DescendStaysOnByteArcs(found.value, key[1..]);
      }
    }
  }

  /**
   * The exact-match test of `getExactMatchStartingFromRootArc`: the key is
   * a complete term below `root` iff the descent succeeds and the first arc
   * of the node reached is the END_LABEL arc.
   */
  lemma ExactMatchTest(root: Arc, key: seq<Byte>)
    requires ByteArc(root)
    ensures IsTerm(root.target, key) <==>
            (&& Descend(root, key).Some?
             && |Descend(root, key).value.target.arcs| > 0
             && Descend(root, key).value.target.arcs[0].lbl == END_LABEL)
  {
    assert key + [] == key;
    DescendIsTerm(root, key, []);
    DescendStaysOnByteArcs(root, key);
    if Descend(root, key).Some? {
      var at := Descend(root, key).value;
      EndArcComesFirst(at.target);
      if IsTerm(at.target, []) {
        var i :| 0 <= i < |at.target.arcs| && TermVia(at.target, i, []);
        assert at.target.arcs[i].lbl == END_LABEL;
      }
      if at.target.arcs[0].lbl == END_LABEL {
        assert TermVia(at.target, 0, []);
      }
    }
  }
}
