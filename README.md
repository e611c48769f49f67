# FSTCompletion and BytesRefList in Dafny

This project models the two core classes of a Lucene-style prefix
suggester:

- `FSTCompletion` answers "which stored terms start with this key". The
  stored terms live in an immutable weighted automaton. Each arc leaving
  the root heads one *weight bucket*, with a higher label meaning a more
  popular bucket. A lookup follows the key's bytes inside each bucket and
  collects the terms below the node it reaches, highest bucket first.
  Two options change the result: `exactFirst` moves an exact match to the
  front, and `higherWeightsFirst = false` sorts the result by bytes.
- `BytesRefList` is an append-only list of byte strings. It stores them
  back to back in one pool and keeps an offset array. It also offers
  sorted iteration through an array of ordinals.

The automaton is modelled as a trie value (module `Fst`):
- A node's arcs have strictly ascending labels.
- The pseudo-label `END_LABEL = -1` marks a final node and comes first
  among its siblings.
- `IsTerm(n, s)` says that the byte string `s` is stored below `n`.

Specification functions state what each operation computes:
- `Descent.Descend` follows a key.
- `Enumeration.NodeCompletions` lists the completions below a node in depth-first order.
- `Enumeration.EmitUntilFull` adds completions until the cap is reached.
- The functions in `LookupSpec` cover the whole lookup: `ScanFrom`,
  `ExactBucketFrom`, `Reorder`, `TrimBelow`, `Promote`, `LookupByWeight`,
  `Alphabetical` and `Lookup`.

The class methods in `FstCompletion` have the source's loops and
recursion. Each is proved equal to the `LookupSpec`, `Enumeration` or
`Descent` function it implements. The methods of `BytesRefLists` are
specified against a ghost list of the appended elements, which `Valid()`
ties to the `pool` and `offsets` fields. The lemmas in `Bytes`, `Descent`, `Enumeration` and
`LookupProps` prove what the source promises about those functions:
- soundness: every suggestion starts with the key and is stored in the bucket it reports;
- the cap;
- completeness below the cap;
- weight-then-bytes order;
- exact-match promotion;
- the behaviour of the alphabetical mode.

`Examples` builds two concrete automata and proves what `Lookup` returns
on them through the class. The first holds the three terms "four", "fourier" and
"fourty", as the bundled test program loads them. The second holds two
buckets and shows how the alphabetical mode behaves. `ListExamples`
proves what `sort` returns for a two-element list under the byte order.

Where the code and its documentation disagree, the model follows the code:
- **A cap of zero still returns one suggestion in weight-first mode.** A
  completion is added before the list is checked against `num`. So in
  weight-first mode `lookup(key, 0)` returns one suggestion when any
  exists, not an empty list. With `exactFirst` on, and an exact match that
  is not already in the list, the trimming loop
  `while (res.size() >= num) res.remove(res.size() - 1)` empties the list.
  It then fails on `remove(-1)`. The model returns
  `Failure(IndexOutOfBounds)` in that case. The alphabetical mode (with
  `higherWeightsFirst = false` and more than one bucket) is different.
  It sorts the collected list and trims it back to `num` with
  `subList(0, num)`, so a cap of zero gives an empty list there. It cannot
  fail on `remove(-1)`, because it collects with `collectAll`, which skips
  the exact-match block. `LookupProps.ZeroCap` proves both results for a
  cap of zero. `LookupProps.AlphabeticalSound` shows that the alphabetical
  mode fails only for a negative cap.
- **A negative cap fails, after the early returns.** It is rejected by
  `new ArrayList(Math.min(10, num))`, giving
  `Failure(NegativeCapacity)`. This happens only after the empty-key and
  missing-automaton checks, which return an empty list.
- **The exact match moves to the front only when the cap is reached.**
  When fewer than `num` completions exist, they are returned in scan order,
  even if the exact match is not first.
- **The alphabetical mode shares one cap across all buckets.** The
  comment says it gets `num` results from each bucket. In the code, once
  the cap is reached, each later bucket adds exactly one completion: its
  first. `LookupProps.ScanAllAfterCap` proves this in general.
  `Examples.AlphabeticalSharesTheCap` shows a case: buckets {ay, az} and
  {aa, ab}, key "a" and cap 2 give [aa, ay], and "ab" is missing.
- **`append` returns the new size.** It returns `lastElement` after the
  increment, that is the new size. The javadoc says it returns the
  appended element's ordinal, which is one less.
- **`checkExistingAndReorder` moves the last occurrence of the key.**
  It searches backwards, so it finds the last one.
- **`getBucket` needs an automaton.** Without one it fails when it reads
  the automaton, which the model returns as `Failure(NullAutomaton)`.

## Model

| member | source | states |
|---|---|---|
| Completions.CompareTo | src/main/java/org/apache/lucene/search/suggest/fst/FSTCompletion.java:61-64 | zero exactly when the two texts are equal; negative exactly when the other text is byte-wise greater |
| Completions.SortByBytes | src/main/java/org/apache/lucene/search/suggest/fst/FSTCompletion.java:253 | `Collections.sort(res)`: the result ascends under `compareTo` and is a permutation of the input |
| Completions.InsertByBytes | src/main/java/org/apache/lucene/search/suggest/fst/FSTCompletion.java:253 | inserting into a sorted list keeps it sorted and adds exactly the one element |
| Bytes.CompareBytes | src/main/java/org/apache/lucene/search/suggest/fst/FSTCompletion.java:61-64 | the unsigned lexicographic byte order of `BytesRef.compareTo` that `Completion.compareTo` delegates to (no contract of its own; the `CompareBytes…` lemmas below state its laws) |
| Bytes.CompareBytesZero | src/main/java/org/apache/lucene/search/suggest/fst/FSTCompletion.java:61-64 | the byte order finds two texts equal exactly when they are the same bytes |
| Bytes.CompareBytesFlip | src/main/java/org/apache/lucene/search/suggest/fst/FSTCompletion.java:61-64 | swapping the arguments negates the comparison |
| Bytes.CompareBytesTransitive | src/main/java/org/apache/lucene/search/suggest/fst/FSTCompletion.java:61-64 | "not greater" is transitive |
| Bytes.CompareBytesStrictTransitive | src/main/java/org/apache/lucene/search/suggest/fst/FSTCompletion.java:61-64 | "less" is transitive |
| Bytes.CompareBytesCommonPrefix | src/main/java/org/apache/lucene/search/suggest/fst/FSTCompletion.java:61-64 | a shared prefix does not change the comparison |
| Bytes.ProperPrefixIsLess | src/main/java/org/apache/lucene/search/suggest/fst/FSTCompletion.java:61-64 | a text sorts before each of its proper extensions |
| Bytes.FirstDifferenceDecides | src/main/java/org/apache/lucene/search/suggest/fst/FSTCompletion.java:61-64 | after a common prefix, the smaller first differing byte sorts first |
| Bytes.CompareBytesIsComparator | src/main/java/org/apache/lucene/search/suggest/fst/FSTCompletion.java:61-64 | the byte order meets the comparator laws that `sort(comp)` relies on |
| Fst.FindTargetArc | src/main/java/org/apache/lucene/search/suggest/fst/FSTCompletion.java:353 | `findTargetArc`: returns an arc with the label, or none exactly when no sibling carries it |
| Fst.FindTargetArcUnique | src/main/java/org/apache/lucene/search/suggest/fst/FSTCompletion.java:353 | with ascending siblings, the arc found is the one carrying the label |
| Fst.EndArcComesFirst | src/main/java/org/apache/lucene/search/suggest/fst/FSTCompletion.java:193-194 | a node is final exactly when its first arc is the final arc, so reading the first target arc is enough |
| Fst.ChildOfWellFormed | src/main/java/org/apache/lucene/search/suggest/fst/FSTCompletion.java:377-388 | every byte arc of a well-formed node leads to a non-empty well-formed node |
| Fst.RootArcIsByteArc | src/main/java/org/apache/lucene/search/suggest/fst/FSTCompletion.java:151-155 | every root arc heads a bucket: a byte arc over a well-formed subtree |
| Descent.Descend | src/main/java/org/apache/lucene/search/suggest/fst/FSTCompletion.java:346-360 | the arc reached after a non-empty key carries the key's last byte |
| Descent.DescendFollowsPath | src/main/java/org/apache/lucene/search/suggest/fst/FSTCompletion.java:346-360 | the descent succeeds exactly when a path of arcs spells the key, and then it ends at that path's last arc |
| Descent.DescentPath | src/main/java/org/apache/lucene/search/suggest/fst/FSTCompletion.java:346-360 | a successful descent yields a path spelling the key |
| Descent.PathDescends | src/main/java/org/apache/lucene/search/suggest/fst/FSTCompletion.java:346-360 | a path spelling the key is what the descent follows |
| Descent.DescendConcat | src/main/java/org/apache/lucene/search/suggest/fst/FSTCompletion.java:352-358 | descending along `a + b` is descending along `a`, then along `b` |
| Descent.DescendFailsAtMismatch | src/main/java/org/apache/lucene/search/suggest/fst/FSTCompletion.java:353-356 | the descent fails exactly when some key byte has no matching arc after the bytes before it |
| Descent.DescendIsTerm | src/main/java/org/apache/lucene/search/suggest/fst/FSTCompletion.java:282-287 | `key + s` is stored below an arc exactly when the descent along `key` succeeds and `s` is stored below where it ends |
| Descent.TermDescends | src/main/java/org/apache/lucene/search/suggest/fst/FSTCompletion.java:282-287 | one direction of the above: a stored extension of the key makes the descent succeed |
| Descent.DescentTerm | src/main/java/org/apache/lucene/search/suggest/fst/FSTCompletion.java:282-287 | the other direction: a term below the arc reached extends the key to a stored term |
| Descent.DescendStaysOnByteArcs | src/main/java/org/apache/lucene/search/suggest/fst/FSTCompletion.java:346-360 | from a bucket arc, the descent only reaches byte arcs over well-formed, non-empty nodes |
| Descent.ExactMatchTest | src/main/java/org/apache/lucene/search/suggest/fst/FSTCompletion.java:192-197 | the key is stored in a bucket exactly when the descent succeeds and the node reached has the final arc first |
| Enumeration.ChildCompletionsMembers | src/main/java/org/apache/lucene/search/suggest/fst/FSTCompletion.java:379-388 | what one child contributes: the current text if the child is the final arc, else the completions below the byte child with its byte appended |
| Enumeration.NodeCompletions | src/main/java/org/apache/lucene/search/suggest/fst/FSTCompletion.java:377-394 | the completions `collect` visits below a node, child by child from `from` on, in depth-first order (no contract of its own; `NodeCompletionsMembers`, `NodeCompletionsSorted` and `CompletionsCarryBucket` state what it yields) |
| Enumeration.ChildCompletions | src/main/java/org/apache/lucene/search/suggest/fst/FSTCompletion.java:379-388 | one child's share: the prefix itself for a final arc, the recursive walk with the arc's byte appended otherwise (no contract of its own; `ChildCompletionsMembers` states what it yields) |
| Enumeration.NodeCompletionsMembers | src/main/java/org/apache/lucene/search/suggest/fst/FSTCompletion.java:377-394 | a completion is listed from child `from` on exactly when some child from there contributes it |
| Enumeration.CompletionsAreTerms | src/main/java/org/apache/lucene/search/suggest/fst/FSTCompletion.java:369-396 | the listed completions are exactly the stored extensions of the prefix below the node, tagged with the bucket |
| Enumeration.EarlierChildSortsFirst | src/main/java/org/apache/lucene/search/suggest/fst/FSTCompletion.java:378-394 | everything below an earlier sibling sorts before everything below a later one |
| Enumeration.JoinStrictlySorted | src/main/java/org/apache/lucene/search/suggest/fst/FSTCompletion.java:378-394 | joining two strictly sorted lists, all of the first below all of the second, stays strictly sorted |
| Enumeration.NodeCompletionsSorted | src/main/java/org/apache/lucene/search/suggest/fst/FSTCompletion.java:369-396 | the depth-first walk lists completions in strictly ascending byte order, with no duplicates |
| Enumeration.CompletionsCarryBucket | src/main/java/org/apache/lucene/search/suggest/fst/FSTCompletion.java:380 | every completion carries the bucket and extends the prefix |
| Enumeration.EmitUntilFull | src/main/java/org/apache/lucene/search/suggest/fst/FSTCompletion.java:380-381 | the add-then-check cap of `collect` over a list of candidates (no contract of its own; `EmitUntilFullFacts` and `EmitUntilFullConcat` state its behaviour) |
| Enumeration.EmitUntilFullFacts | src/main/java/org/apache/lucene/search/suggest/fst/FSTCompletion.java:380-381 | add-then-check: the list grows by a prefix of the candidates; it stops exactly when a candidate exists and the cap is reached; starting below the cap, it never exceeds the cap |
| Enumeration.EmitUntilFullConcat | src/main/java/org/apache/lucene/search/suggest/fst/FSTCompletion.java:378-395 | emitting two candidate runs one after the other is emitting their concatenation, stopping early if the first fills the list |
| LookupSpec.Reversed | src/main/java/org/apache/lucene/search/suggest/fst/FSTCompletion.java:157 | reversal keeps the length |
| LookupSpec.ScanFrom | src/main/java/org/apache/lucene/search/suggest/fst/FSTCompletion.java:277-306 | the root-arc loop only appends to the list; it stops early only when not collecting all, at a bucket index from the start on |
| LookupSpec.ExactBucketFrom | src/main/java/org/apache/lucene/search/suggest/fst/FSTCompletion.java:181-207 | the result is -1 or the label of a root arc from the start index on |
| LookupSpec.LastIndexOf | src/main/java/org/apache/lucene/search/suggest/fst/FSTCompletion.java:322-323 | none exactly when no entry has the key's text; otherwise an entry with the key's text, and none after it has it |
| LookupSpec.TrimBelow | src/main/java/org/apache/lucene/search/suggest/fst/FSTCompletion.java:296-298 | succeeds exactly when `num > 0`; then it keeps a prefix shorter than `num`, and the whole list when it is already shorter |
| LookupSpec.MoveToFront | src/main/java/org/apache/lucene/search/suggest/fst/FSTCompletion.java:327 | `list.add(0, list.remove(i))`: same length, the chosen entry first |
| LookupSpec.Reorder | src/main/java/org/apache/lucene/search/suggest/fst/FSTCompletion.java:320-332 | `checkExistingAndReorder`: a reordered list exactly when some entry has the key's text; then same length, with the key's text first |
| LookupSpec.Promote | src/main/java/org/apache/lucene/search/suggest/fst/FSTCompletion.java:291-301 | the exact-first block: it fails only with index-out-of-bounds and only for `num <= 0`; it keeps a list of at most `num` within `num`; when the key is in the list or stored in a bucket from the stop index on, the result starts with the key's text |
| LookupSpec.Alphabetical | src/main/java/org/apache/lucene/search/suggest/fst/FSTCompletion.java:247-258 | `lookupSortedAlphabetically`: fails exactly for a negative `num`, and then only with the negative-capacity error; otherwise at most `num` completions |
| LookupSpec.Lookup | src/main/java/org/apache/lucene/search/suggest/fst/FSTCompletion.java:219-240 | `lookup`: the negative-capacity error exactly for a non-empty key, an automaton and a negative `num`; index-out-of-bounds only with `exactFirst` and `num == 0` |
| LookupSpec.LookupByWeight | src/main/java/org/apache/lucene/search/suggest/fst/FSTCompletion.java:269-308 | fails with the negative-capacity error exactly when `num < 0` |
| LookupProps.ZeroCap | src/main/java/org/apache/lucene/search/suggest/fst/FSTCompletion.java:226-256 | with cap 0, the weight-first lookup without exact-first returns the first match (none if there is none), and the alphabetical lookup returns an empty list |
| LookupSpec.Truncate | src/main/java/org/apache/lucene/search/suggest/fst/FSTCompletion.java:254-256 | `subList(0, num)`: a prefix of at most `num`, the whole list when it fits |
| LookupProps.ReversedAt | src/main/java/org/apache/lucene/search/suggest/fst/FSTCompletion.java:157 | the i-th cached arc is the i-th arc from the end |
| LookupProps.CachedRootArcs | src/main/java/org/apache/lucene/search/suggest/fst/FSTCompletion.java:143-162 | the reversed root arcs have strictly descending labels (highest bucket first), are all bucket arcs, and are the same arcs |
| LookupProps.BucketMatchesMembers | src/main/java/org/apache/lucene/search/suggest/fst/FSTCompletion.java:282-287 | a bucket offers a completion exactly when it carries the bucket's label, extends the key and is stored in the bucket |
| LookupProps.BucketMatchesSorted | src/main/java/org/apache/lucene/search/suggest/fst/FSTCompletion.java:282-287 | one bucket's matches come in strictly ascending byte order |
| LookupProps.BucketInAll | src/main/java/org/apache/lucene/search/suggest/fst/FSTCompletion.java:277-306 | a match of any bucket from `i` on is among the matches of all buckets from `i` |
| LookupProps.AllInBucket | src/main/java/org/apache/lucene/search/suggest/fst/FSTCompletion.java:277-306 | every match of all buckets from `i` comes from one of them |
| LookupProps.AllMatchesAreStored | src/main/java/org/apache/lucene/search/suggest/fst/FSTCompletion.java:277-306 | the matches of all buckets are exactly the stored extensions of the key, each with its bucket |
| LookupProps.ScanIsEmit | src/main/java/org/apache/lucene/search/suggest/fst/FSTCompletion.java:277-306 | the bucket-by-bucket scan equals emitting all matches in bucket order, and it stops exactly when that emission fills the list |
| LookupProps.ScanCoversBefore | src/main/java/org/apache/lucene/search/suggest/fst/FSTCompletion.java:277-306 | a scan that stops at bucket `s` has kept every match of the buckets before `s` |
| LookupProps.ExactBucketFromFinds | src/main/java/org/apache/lucene/search/suggest/fst/FSTCompletion.java:181-207 | -1 exactly when no bucket from `i` on stores the key; otherwise the label of the first one that does |
| LookupProps.ExactSearchSkips | src/main/java/org/apache/lucene/search/suggest/fst/FSTCompletion.java:187-199 | buckets that do not store the key can be skipped without changing the answer |
| LookupProps.ExactSearchFromStop | src/main/java/org/apache/lucene/search/suggest/fst/FSTCompletion.java:291-294 | if the key is not in the collected list, searching from the stop bucket finds what a search from the first bucket finds |
| LookupProps.ScanIsLeadingMatches | src/main/java/org/apache/lucene/search/suggest/fst/FSTCompletion.java:277-306 | the weight-first scan keeps a leading part of all matches: all of them when at most `num` exist, otherwise exactly the first `num`; it stops exactly when `num` is reached |
| LookupProps.MoveToFrontFacts | src/main/java/org/apache/lucene/search/suggest/fst/FSTCompletion.java:327 | `add(0, remove(i))` keeps the elements and length, puts element i first and keeps the others in order |
| LookupProps.WeightFirstBound | src/main/java/org/apache/lucene/search/suggest/fst/FSTCompletion.java:214-215 | with `num >= 1` the weight-first lookup succeeds with at most `num` suggestions, exact-first or not |
| LookupProps.WeightFirstTakesLeading | src/main/java/org/apache/lucene/search/suggest/fst/FSTCompletion.java:269-308 | without exact-first the result is all matches, or their first `num`, in bucket order |
| LookupProps.WeightFirstComplete | src/main/java/org/apache/lucene/search/suggest/fst/FSTCompletion.java:269-308 | with fewer than `num` matches, every match is returned, in bucket order, exact-first or not |
| LookupProps.WeightFirstSound | src/main/java/org/apache/lucene/search/suggest/fst/FSTCompletion.java:269-308 | every suggestion extends the key and is stored in the bucket it names |
| LookupProps.JoinWeightOrdered | src/main/java/org/apache/lucene/search/suggest/fst/FSTCompletion.java:216-217 | joining ordered runs of higher, then lower, buckets keeps weight-then-bytes order |
| LookupProps.RemoveWeightOrdered | src/main/java/org/apache/lucene/search/suggest/fst/FSTCompletion.java:327 | removing one element keeps weight-then-bytes order |
| LookupProps.PrefixWeightOrdered | src/main/java/org/apache/lucene/search/suggest/fst/FSTCompletion.java:296-298 | truncating keeps weight-then-bytes order |
| LookupProps.AllMatchesOrdered | src/main/java/org/apache/lucene/search/suggest/fst/FSTCompletion.java:216-217 | all matches come by bucket descending, then bytes ascending |
| LookupProps.PromoteOrdered | src/main/java/org/apache/lucene/search/suggest/fst/FSTCompletion.java:291-301 | after promotion the list is still in weight-then-bytes order, or the exact match is first and the rest is in that order |
| LookupProps.WeightFirstOrdered | src/main/java/org/apache/lucene/search/suggest/fst/FSTCompletion.java:216-217 | a weight-first result is sorted by bucket descending then bytes, apart from a promoted exact match at its head |
| LookupProps.ExactFirstPromotes | src/main/java/org/apache/lucene/search/suggest/fst/FSTCompletion.java:291-301 | when the cap is reached and some bucket stores the key, the first suggestion is the key itself |
| LookupProps.ExactFirstNoMatch | src/main/java/org/apache/lucene/search/suggest/fst/FSTCompletion.java:291-301 | when no bucket stores the key, exact-first changes nothing |
| LookupProps.ScanAllSubset | src/main/java/org/apache/lucene/search/suggest/fst/FSTCompletion.java:250 | collecting from all buckets only adds matches |
| LookupProps.ScanAllBelowCap | src/main/java/org/apache/lucene/search/suggest/fst/FSTCompletion.java:250 | when the matches fit in the cap, collecting from all buckets keeps every match |
| LookupProps.ScanAllAfterCap | src/main/java/org/apache/lucene/search/suggest/fst/FSTCompletion.java:287 | once the list is at the cap, each further bucket adds exactly its first match |
| LookupProps.ScanAllTakesFromEveryBucket | src/main/java/org/apache/lucene/search/suggest/fst/FSTCompletion.java:250 | every bucket's first match makes it into the all-bucket scan |
| LookupProps.PrefixSortedByBytes | src/main/java/org/apache/lucene/search/suggest/fst/FSTCompletion.java:254-256 | a prefix of a sorted list is sorted |
| LookupProps.AlphabeticalSound | src/main/java/org/apache/lucene/search/suggest/fst/FSTCompletion.java:247-258 | fails exactly for `num < 0`; otherwise at most `num` suggestions, sorted by bytes, each extending the key and stored in its bucket |
| LookupProps.AlphabeticalComplete | src/main/java/org/apache/lucene/search/suggest/fst/FSTCompletion.java:247-258 | when all matches fit in `num`, the result is all of them, sorted by bytes |
| FstCompletion.FSTCompletion.constructor | src/main/java/org/apache/lucene/search/suggest/fst/FSTCompletion.java:118-127 | stores the automaton and flags; the cached root arcs are the root's arcs reversed, or none without an automaton |
| FstCompletion.FSTCompletion.Default | src/main/java/org/apache/lucene/search/suggest/fst/FSTCompletion.java:133-135 | as above with higher-weights-first and exact-first on |
| FstCompletion.FSTCompletion.CacheRootArcs | src/main/java/org/apache/lucene/search/suggest/fst/FSTCompletion.java:143-162 | returns the root arcs reversed: labels descending, all bucket arcs, the same arcs |
| FstCompletion.FSTCompletion.BucketCount | src/main/java/org/apache/lucene/search/suggest/fst/FSTCompletion.java:401-403 | the number of root arcs, 0 without an automaton |
| FstCompletion.FSTCompletion.DescendWithPrefix | src/main/java/org/apache/lucene/search/suggest/fst/FSTCompletion.java:346-360 | the byte-by-byte loop succeeds exactly when the key can be followed, and ends on the arc `Descend` gives |
| FstCompletion.FSTCompletion.Collect | src/main/java/org/apache/lucene/search/suggest/fst/FSTCompletion.java:369-396 | the recursive walk adds to the list what `EmitUntilFull` adds from the depth-first completions below the arc, and returns true exactly when the cap is hit |
| FstCompletion.FSTCompletion.CheckExistingAndReorder | src/main/java/org/apache/lucene/search/suggest/fst/FSTCompletion.java:320-332 | true exactly when the key's text is in the list; then its last occurrence moves to the front; otherwise the list is unchanged |
| FstCompletion.FSTCompletion.GetExactMatchStartingFromRootArc | src/main/java/org/apache/lucene/search/suggest/fst/FSTCompletion.java:181-207 | returns the label of the first bucket from the index on that stores the key, or -1 |
| FstCompletion.FSTCompletion.TrimTail | src/main/java/org/apache/lucene/search/suggest/fst/FSTCompletion.java:296-298 | the removal loop drops the tail until fewer than `num` remain, failing when `num <= 0` |
| FstCompletion.FSTCompletion.CollectBucket | src/main/java/org/apache/lucene/search/suggest/fst/FSTCompletion.java:278-287 | descending into one bucket and collecting adds what `EmitUntilFull` adds from that bucket's matches |
| FstCompletion.FSTCompletion.PromoteExactMatch | src/main/java/org/apache/lucene/search/suggest/fst/FSTCompletion.java:291-301 | reorders an existing exact match, or inserts the exact match from the first later bucket storing it after trimming, as `Promote` states |
| FstCompletion.FSTCompletion.LookupSortedByWeight | src/main/java/org/apache/lucene/search/suggest/fst/FSTCompletion.java:269-308 | the result is `LookupByWeight` of the cached arcs |
| FstCompletion.FSTCompletion.LookupSortedAlphabetically | src/main/java/org/apache/lucene/search/suggest/fst/FSTCompletion.java:247-258 | the result is `Alphabetical` of the cached arcs |
| FstCompletion.FSTCompletion.Lookup | src/main/java/org/apache/lucene/search/suggest/fst/FSTCompletion.java:219-240 | every suggestion extends the key and is stored in its bucket; with `num >= 1` it succeeds with at most `num`; it fails with the negative-capacity error exactly for a non-empty key and negative `num` with an automaton; any failure needs `num <= 0` |
| FstCompletion.FSTCompletion.GetBucket | src/main/java/org/apache/lucene/search/suggest/fst/FSTCompletion.java:409-411 | fails exactly without an automaton; otherwise -1 exactly when no bucket stores the key, else the label of a bucket storing it |
| BytesRefLists.Iota | src/main/java/org/apache/lucene/search/suggest/BytesRefList.java:139-142 | the ordinals 0 .. n-1 in order |
| BytesRefLists.ConcatLength | src/main/java/org/apache/lucene/search/suggest/BytesRefList.java:87-89 | the pool's length is the total length of the elements |
| BytesRefLists.ConcatPrefix | src/main/java/org/apache/lucene/search/suggest/BytesRefList.java:87-89 | the pool of the first k elements is a prefix of the whole pool |
| BytesRefLists.ConcatSlice | src/main/java/org/apache/lucene/search/suggest/BytesRefList.java:113-119 | element k lies in the pool between its offset and the next one |
| BytesRefLists.ComparatorReflexive | src/main/java/org/apache/lucene/search/suggest/BytesRefList.java:152-155 | a comparator finds every element equal to itself |
| BytesRefLists.SwapSelects | src/main/java/org/apache/lucene/search/suggest/BytesRefList.java:145-149 | swapping a smallest remaining ordinal into place keeps the ordinals and grows the sorted prefix by one |
| BytesRefLists.BytesRefList.constructor | src/main/java/org/apache/lucene/search/suggest/BytesRefList.java:53-59 | a new list is empty and valid |
| BytesRefLists.BytesRefList.Size | src/main/java/org/apache/lucene/search/suggest/BytesRefList.java:98-100 | the number of elements appended |
| BytesRefLists.BytesRefList.Clear | src/main/java/org/apache/lucene/search/suggest/BytesRefList.java:64-69 | the list is empty, the counters are zero, and every offset slot is zero in the same array |
| BytesRefLists.BytesRefList.Grow | src/main/java/org/apache/lucene/search/suggest/BytesRefList.java:82 | the array is at least the requested size and starts with the old contents; a new array's extra slots are zero |
| BytesRefLists.BytesRefList.Append | src/main/java/org/apache/lucene/search/suggest/BytesRefList.java:79-91 | the element list gains the bytes at its end, the layout invariant is kept, and the new size is returned |
| BytesRefLists.BytesRefList.Get | src/main/java/org/apache/lucene/search/suggest/BytesRefList.java:111-125 | succeeds exactly for `0 <= ord < size`, with exactly the bytes appended at that ordinal; a negative ordinal fails on the offsets array, an ordinal at or past the size with index-out-of-bounds |
| BytesRefLists.BytesRefList.OffsetsNondecreasing | src/main/java/org/apache/lucene/search/suggest/BytesRefList.java:88-89 | the stored offsets never pass the current offset |
| BytesRefLists.BytesRefList.CurrentOffsetIsTotal | src/main/java/org/apache/lucene/search/suggest/BytesRefList.java:89 | the current offset is the total length appended |
| BytesRefLists.BytesRefList.SelectSmallest | src/main/java/org/apache/lucene/search/suggest/BytesRefList.java:151-155 | finds a position from `i` on whose element no later one precedes, comparing through `get` |
| BytesRefLists.BytesRefList.Sort | src/main/java/org/apache/lucene/search/suggest/BytesRefList.java:138-173 | returns a fresh array holding a permutation of the ordinals 0 .. size-1 whose elements ascend under the comparator |
| BytesRefLists.BytesRefList.Iterator | src/main/java/org/apache/lucene/search/suggest/BytesRefList.java:198-218 | the iterator covers the current size; without a comparator in append order, with one in a sorted permutation |
| BytesRefLists.BytesRefList.IteratorInAppendOrder | src/main/java/org/apache/lucene/search/suggest/BytesRefList.java:179-181 | `iterator()` visits the ordinals in append order |
| BytesRefLists.BytesRefListIterator.constructor | src/main/java/org/apache/lucene/search/suggest/BytesRefList.java:199-203 | the iterator starts at position 0 over the given ordinals, or over append order without them |
| BytesRefLists.BytesRefListIterator.Next | src/main/java/org/apache/lucene/search/suggest/BytesRefList.java:206-211 | below the size it returns `get` of the next ordinal and advances; at the end it returns none and stays |
| Examples.RootIsWellFormed | src/main/java/org/apache/lucene/search/mytest/FSTTest.java:37-39 | the automaton of "four", "fourier", "fourty" in bucket 0 meets the class's requirement |
| Examples.FouriSuggestsFourier | src/main/java/org/apache/lucene/search/mytest/FSTTest.java:80-81 | `lookup("fouri", 5)` on that automaton returns exactly "fourier" in bucket 0 |
| Examples.AlphabeticalSharesTheCap | src/main/java/org/apache/lucene/search/suggest/fst/FSTCompletion.java:247-258 | with buckets {ay, az} and {aa, ab}, key "a" and cap 2, the alphabetical lookup returns [aa, ay] |
| Examples.AlphabeticalMissesAb | src/main/java/org/apache/lucene/search/suggest/fst/FSTCompletion.java:249-250 | "ab" matches and sorts before "ay" but is not returned |
| ListExamples.ReversedPair | src/main/java/org/apache/lucene/search/suggest/BytesRefList.java:138-173 | a sorted permutation of the ordinals 0, 1 over two elements, the first after the second, is [1, 0] |
| ListExamples.SortTwoByBytes | src/main/java/org/apache/lucene/search/suggest/BytesRefList.java:138-173 | `sort` under the byte order on the list "b", "a" returns the ordinals [1, 0] |

## Left out

- The FST's compressed byte encoding is not modelled. Neither are its `BytesReader`, `getFirstArc` and `readFirstTargetArc`/`readNextArc`, or the wrapping of `IOException` into `RuntimeException`. The automaton is a trie value, and reading an arc's siblings is indexing into its arc sequence.
- The automaton builder (`FSTCompletionBuilder`) is not part of this model. `FSTCompletion.constructor` and `FSTCompletion.Default` require the automaton to satisfy the builder's guarantee instead: ascending siblings, a final arc first, and byte-labelled root arcs.
- `cacheRootArcs` uses a `while (true)` loop that copies at least one arc. The model reads the root's arcs with a `while` loop, so a root with no arcs gives an empty cache instead of reading a missing arc.
- The conversion of the `CharSequence` key to UTF-8 is not modelled: keys are byte sequences. `Completion.toString` and `getFST` are left out as well.
- The `output` buffer's backing array and its `ArrayUtil.grow` are not modelled. The buffer is a byte sequence passed through `Collect`.
- `Arc` objects copied and mutated in place (`copyFrom`, the `scratch` arc) are modelled as values. Aliasing between them is not captured.
- `EMPTY_RESULT` is one shared mutable list. The model returns an empty sequence, so a caller that modifies the result is not modelled.
- `Collections.sort` is a stable sort. `SortByBytes` is an insertion sort whose order among equal texts (the same term in two buckets) is not stated.
- Java's 32-bit `int` arithmetic is not modelled. Sizes, offsets and the cap are unbounded integers, so overflow of `currentOffset` or `lastElement` is not captured.
- Thread safety is not modelled (each method builds its own readers).
- `ByteBlockPool` is only modelled as the concatenation of the appended elements. Its block layout, `nextBuffer`, `reset`, and copying in and out are not.
- `BytesRefLists.BytesRefList.Grow`: it does not follow `ArrayUtil.grow`'s exact oversize policy. It grows by at least 3 and by about an eighth.
- The `bytesUsed` counter and `bytesUsed()` are not modelled: they are memory accounting.
- `BytesRefLists.BytesRefList.Sort`: it uses selection sort instead of the `SorterTemplate` quicksort. The ascending order and the permutation are stated. The order the model picks among elements the comparator ties may differ from the quicksort's. The `pivot` and scratch buffers are not modelled.
- `BytesRefLists.BytesRefList.Get`: the source copies the element into the caller's `spare` BytesRef and returns it, so the next `get` with the same `spare` overwrites it. The model returns a fresh byte sequence, so that aliasing is not captured.
- `BytesRefLists.BytesRefListIterator.Next`: the source iterator reuses one `spare` BytesRef and returns it from every `next()`, so each call overwrites the bytes the previous one returned. The model returns a fresh byte sequence each time.
- `getComparator()` of the returned iterator is not modelled. It only returns its argument.
- The exact-match search tests whether the first arc of the node reached is the final arc. `LookupSpec.ExactBucketFrom` adds a guard for a node with no arcs, which a well-formed automaton never reaches.
- The test program's `main` and its random key conversion are not modelled. `Examples` only uses its terms and its query.
