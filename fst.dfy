/**
 * The immutable weighted automaton that the completion engine reads, as a
 * trie value. A node holds its outgoing arcs in ascending label order; the
 * pseudo-arc labelled END_LABEL marks the node as final (a stored term ends
 * there) and, being smaller than every byte, comes first. Only the reading
 * contract of Lucene's FST is modelled: the compressed byte encoding and its
 * reader are not part of this model.
 */
module Fst {
  import opened Wrappers
  import opened Bytes

  /** Label of the pseudo-arc of a final node (Lucene's `FST.END_LABEL`). */
  const END_LABEL: int := -1

  /** An arc: its label (`Arc.label` in Lucene) and the node it leads to. */
  datatype Arc = Arc(lbl: int, target: Node)

  datatype Node = Node(arcs: seq<Arc>)

  /** Sibling labels are strictly ascending. */
  ghost predicate LabelsAscending(n: Node)
  {
    forall i, j :: 0 <= i < j < |n.arcs| ==> n.arcs[i].lbl < n.arcs[j].lbl
  }

  /**
   * The automaton's traversal contract: ascending siblings; a final arc has
   * no target; a byte arc leads to a node with at least one arc.
   */
  ghost predicate WellFormed(n: Node)
    decreases n
  {
    && LabelsAscending(n)
    && forall i :: 0 <= i < |n.arcs| ==>
         || (n.arcs[i].lbl == END_LABEL && n.arcs[i].target == Node([]))
         || (&& 0 <= n.arcs[i].lbl < 256
             && |n.arcs[i].target.arcs| > 0
             && WellFormed(n.arcs[i].target))
  }

  /** An arc labelled with a byte whose target is a well-formed, non-empty node. */
  ghost predicate ByteArc(a: Arc)
  {
    0 <= a.lbl < 256 && |a.target.arcs| > 0 && WellFormed(a.target)
  }

  /** The root of a completion automaton: every root arc heads one weight bucket. */
  ghost predicate WellFormedRoot(root: Node)
  {
    WellFormed(root) && forall i :: 0 <= i < |root.arcs| ==> root.arcs[i].lbl != END_LABEL
  }

  lemma ChildOfWellFormed(n: Node, i: nat)
    requires WellFormed(n) && i < |n.arcs| && n.arcs[i].lbl != END_LABEL
    ensures ByteArc(n.arcs[i])
  {
  }

  lemma RootArcIsByteArc(root: Node, i: nat)
    requires WellFormedRoot(root) && i < |root.arcs|
    ensures ByteArc(root.arcs[i])
  {
  }

  /** A final node has its END_LABEL arc first. */
  lemma EndArcComesFirst(n: Node)
    requires WellFormed(n) && |n.arcs| > 0
    ensures (exists i :: 0 <= i < |n.arcs| && n.arcs[i].lbl == END_LABEL) <==> n.arcs[0].lbl == END_LABEL
  {
  }

  /**
   * `findTargetArc`: the arc among `arcs` carrying `label`, if any. It
   * replaces the FST reader's search over a node's siblings.
   */
  function FindTargetArc(lbl: int, arcs: seq<Arc>): (r: Option<Arc>)
    ensures r.None? <==> forall i :: 0 <= i < |arcs| ==> arcs[i].lbl != lbl
    ensures r.Some? ==> r.value in arcs && r.value.lbl == lbl
  {
    if arcs == [] then None
    else if arcs[0].lbl == lbl then Some(arcs[0])
    else FindTargetArc(lbl, arcs[1..])
  }

  /** With unique labels the arc found is the one arc carrying the label. */
  lemma FindTargetArcUnique(lbl: int, n: Node, i: nat)
    requires LabelsAscending(n) && i < |n.arcs| && n.arcs[i].lbl == lbl
    ensures FindTargetArc(lbl, n.arcs) == Some(n.arcs[i])
  {
  }

  /** Child `i` of `n` accounts for the byte string `s` being stored below `n`. */
  ghost predicate TermVia(n: Node, i: nat, s: seq<Byte>)
    requires i < |n.arcs|
    decreases |s|, 1
  {
    if s == [] then n.arcs[i].lbl == END_LABEL
    else n.arcs[i].lbl == s[0] as int && IsTerm(n.arcs[i].target, s[1..])
  }

  /** `s` is a stored term below `n`: a path of byte arcs spelling `s` ends at a final node. */
  ghost predicate IsTerm(n: Node, s: seq<Byte>)
    decreases |s|, 2
  {
    exists i :: 0 <= i < |n.arcs| && TermVia(n, i, s)
  }

  /**
   * Unfolds IsTerm to the child that stores the term. Inside the mutual
   * recursion of IsTerm and TermVia the verifier unfolds IsTerm only one
   * level, so a caller that has already unfolded it once (as
   * `Enumeration.CompletionsAreTerms` does) gets the witness from here.
   */
  lemma IsTermWitness(n: Node, s: seq<Byte>)
    requires IsTerm(n, s)
    ensures exists i :: 0 <= i < |n.arcs| && TermVia(n, i, s)
  {
  }

  /** Folds a child that stores the term back into IsTerm; the converse bridge of IsTermWitness. */
  lemma TermViaIsTerm(n: Node, i: nat, s: seq<Byte>)
    requires i < |n.arcs| && TermVia(n, i, s)
    ensures IsTerm(n, s)
  {
  }
}
