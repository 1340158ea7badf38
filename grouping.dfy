/**
 * Non-redundant protein groups: proteins identified by exactly the same
 * peptides (and, when taxonomy is split, belonging to the same taxon) are
 * put into one group. Three versions exist in the library: two quadratic
 * scans that open a group at the first unassigned protein, and a sorted
 * version that orders the proteins by their concatenated peptide string
 * and cuts the order wherever that string changes.
 */
module NonredGroups {
  import opened Seqs
  import opened StringOrder
  import opened Text

  /** Separator between peptides and between the taxonomy id and the peptides. */
  const Separator: char := '|'

  /** The string a protein is grouped by: its peptides joined by '|', prefixed by "taxId|" when splitting by taxonomy. */
  function Signature(peptides: seq<string>, splitTaxonomy: bool, taxId: string): string
  {
    var joined := Join(peptides, Separator);
    if splitTaxonomy then taxId + [Separator] + joined else joined
  }

  /** The taxonomy id that takes part in grouping protein `i` (none unless splitting). */
  function GroupingTaxon(splitTaxonomy: bool, taxIds: seq<string>, i: nat): string
    requires splitTaxonomy ==> i < |taxIds|
  {
    if splitTaxonomy then taxIds[i] else ""
  }

  /** The signature of every protein. */
  function Signatures(peptideSeq: seq<seq<string>>, splitTaxonomy: bool, taxIds: seq<string>): (r: seq<string>)
    requires splitTaxonomy ==> |taxIds| >= |peptideSeq|
    ensures |r| == |peptideSeq|
  {
    seq(|peptideSeq|, i requires 0 <= i < |peptideSeq| =>
      Signature(peptideSeq[i], splitTaxonomy, GroupingTaxon(splitTaxonomy, taxIds, i)))
  }

  /** What the oldest version compares: the peptide list itself, and the taxonomy id when splitting. */
  function PeptideKeys(peptideSeq: seq<seq<string>>, splitTaxonomy: bool, taxIds: seq<string>, n: nat): (r: seq<(seq<string>, string)>)
    requires n <= |peptideSeq| && (splitTaxonomy ==> n <= |taxIds|)
    ensures |r| == n
  {
    seq(n, i requires 0 <= i < n => (peptideSeq[i], GroupingTaxon(splitTaxonomy, taxIds, i)))
  }

  // ---------------------------------------------------------------------
  // What a grouping is

  /** `groups` splits the indices `0..n-1` into non-empty, disjoint groups without repeats. */
  ghost predicate IsPartition(groups: seq<seq<nat>>, n: nat)
  {
    && (forall g :: 0 <= g < |groups| ==> groups[g] != [] && Distinct(groups[g]))
    && (forall g, a :: 0 <= g < |groups| && 0 <= a < |groups[g]| ==> groups[g][a] < n)
    && (forall g1, g2, x :: 0 <= g1 < g2 < |groups| && x in groups[g1] ==> x !in groups[g2])
    && (forall x :: 0 <= x < n ==> InSomeGroup(groups, x))
  }

  /** `x` belongs to one of the groups. */
  ghost predicate InSomeGroup(groups: seq<seq<nat>>, x: nat)
  {
    exists g :: 0 <= g < |groups| && x in groups[g]
  }

  /** Two indices share a group exactly when their keys are equal. */
  ghost predicate GroupedByKey<K>(groups: seq<seq<nat>>, keys: seq<K>)
  {
    forall g1, g2, x, y ::
      0 <= g1 < |groups| && 0 <= g2 < |groups| && x in groups[g1] && y in groups[g2] &&
      x < |keys| && y < |keys| ==>
        (keys[x] == keys[y] <==> g1 == g2)
  }

  /** `x` and `y` lie in a common group. */
  ghost predicate Together(groups: seq<seq<nat>>, x: nat, y: nat)
  {
    exists g :: 0 <= g < |groups| && x in groups[g] && y in groups[g]
  }

  /** In a partition grouped by key, being together means having equal keys. */
  lemma TogetherIffSameKey<K>(groups: seq<seq<nat>>, keys: seq<K>, x: nat, y: nat)
    requires IsPartition(groups, |keys|) && GroupedByKey(groups, keys)
    requires x < |keys| && y < |keys|
    ensures Together(groups, x, y) <==> keys[x] == keys[y]
  {
    assert InSomeGroup(groups, x) && InSomeGroup(groups, y);
    var gx :| 0 <= gx < |groups| && x in groups[gx];
    var gy :| 0 <= gy < |groups| && y in groups[gy];
    if keys[x] == keys[y] {
      assert gx == gy;
      assert Together(groups, x, y);
    }
  }

  /** Two partitions grouped by keys inducing the same equivalence put the same indices together. */
  lemma SamePartition<K, L>(g1: seq<seq<nat>>, keys1: seq<K>, g2: seq<seq<nat>>, keys2: seq<L>)
    requires |keys1| == |keys2|
    requires IsPartition(g1, |keys1|) && GroupedByKey(g1, keys1)
    requires IsPartition(g2, |keys2|) && GroupedByKey(g2, keys2)
    requires forall x, y :: 0 <= x < |keys1| && 0 <= y < |keys1| ==> (keys1[x] == keys1[y] <==> keys2[x] == keys2[y])
    ensures forall x, y :: 0 <= x < |keys1| && 0 <= y < |keys1| ==> (Together(g1, x, y) <==> Together(g2, x, y))
  {
    forall x, y | 0 <= x < |keys1| && 0 <= y < |keys1|
      ensures Together(g1, x, y) <==> Together(g2, x, y)
    {
      TogetherIffSameKey(g1, keys1, x, y);
      TogetherIffSameKey(g2, keys2, x, y);
    }
  }

  // ---------------------------------------------------------------------
  // Signatures

  /** A peptide or taxonomy id that can be told apart inside a signature. */
  predicate SeparatorFree(s: string)
  {
    Separator !in s
  }

  /** Peptide lists whose signatures are injective: non-empty, separator-free peptides. */
  predicate WellFormedPeptides(peptides: seq<string>)
  {
    forall k :: 0 <= k < |peptides| ==> peptides[k] != [] && SeparatorFree(peptides[k])
  }

  /** Peptide lists that are not empty and whose peptides contain no separator survive the join. */
  lemma JoinInjective(p1: seq<string>, p2: seq<string>)
    requires WellFormedPeptides(p1) && WellFormedPeptides(p2)
    requires Join(p1, Separator) == Join(p2, Separator)
    ensures p1 == p2
  {
    if p1 != [] && p2 != [] {
      SplitJoin(p1, Separator);
      SplitJoin(p2, Separator);
    }
  }

  /**
   * Under well-formed peptides and separator-free taxonomy ids, two
   * proteins have the same signature exactly when they have the same
   * peptides and, when splitting, the same taxonomy id.
   */
  lemma SignatureInjective(p1: seq<string>, p2: seq<string>, splitTaxonomy: bool, t1: string, t2: string)
    requires WellFormedPeptides(p1) && WellFormedPeptides(p2)
    requires splitTaxonomy ==> SeparatorFree(t1) && SeparatorFree(t2)
    ensures Signature(p1, splitTaxonomy, t1) == Signature(p2, splitTaxonomy, t2)
        <==> p1 == p2 && (splitTaxonomy ==> t1 == t2)
  {
    if Signature(p1, splitTaxonomy, t1) == Signature(p2, splitTaxonomy, t2) {
      var j1, j2 := Join(p1, Separator), Join(p2, Separator);
      if splitTaxonomy {
        HeadBeforeSeparator(t1, j1, t2, j2, Separator);
      }
      JoinInjective(p1, p2);
    }
  }

  /** Without the separator-free condition two different peptide lists can share a signature. */
  lemma SeparatorInPeptideCollides()
    ensures exists p1: seq<string>, p2: seq<string> ::
      p1 != p2 && Signature(p1, false, "") == Signature(p2, false, "")
  {
    var p1, p2 := ["a|b"], ["a", "b"];
    assert p1 != p2 by { assert |p1| != |p2|; }
    assert Signature(p1, false, "") == Signature(p2, false, "");
  }

  /** Without the non-empty condition, no peptides and one empty peptide share a signature. */
  lemma EmptyPeptideCollides()
    ensures exists p1: seq<string>, p2: seq<string> ::
      p1 != p2 && Signature(p1, false, "") == Signature(p2, false, "")
  {
    var p1: seq<string>, p2: seq<string> := [], [""];
    assert p1 != p2 by { assert |p1| != |p2|; }
    assert Signature(p1, false, "") == Signature(p2, false, "");
  }

  /** Signatures and peptide keys induce the same equality among well-formed proteins. */
  lemma SignaturesMatchPeptideKeys(peptideSeq: seq<seq<string>>, splitTaxonomy: bool, taxIds: seq<string>)
    requires splitTaxonomy ==> |taxIds| >= |peptideSeq|
    requires forall i :: 0 <= i < |peptideSeq| ==> WellFormedPeptides(peptideSeq[i])
    requires splitTaxonomy ==> forall i :: 0 <= i < |peptideSeq| ==> SeparatorFree(taxIds[i])
    ensures var sigs, keys := Signatures(peptideSeq, splitTaxonomy, taxIds), PeptideKeys(peptideSeq, splitTaxonomy, taxIds, |peptideSeq|);
      forall x, y :: 0 <= x < |peptideSeq| && 0 <= y < |peptideSeq| ==> (sigs[x] == sigs[y] <==> keys[x] == keys[y])
  {
    var sigs, keys := Signatures(peptideSeq, splitTaxonomy, taxIds), PeptideKeys(peptideSeq, splitTaxonomy, taxIds, |peptideSeq|);
    forall x, y | 0 <= x < |peptideSeq| && 0 <= y < |peptideSeq|
      ensures sigs[x] == sigs[y] <==> keys[x] == keys[y]
    {
      SignatureInjective(peptideSeq[x], peptideSeq[y], splitTaxonomy,
        GroupingTaxon(splitTaxonomy, taxIds, x), GroupingTaxon(splitTaxonomy, taxIds, y));
    }
  }

  // ---------------------------------------------------------------------
  // The three groupings

  /** The concatenation loop shared by the two signature-based versions. */
  method ConcatenatePeptides(peptideSeq: seq<seq<string>>, splitTaxonomy: bool, taxIds: seq<string>)
    returns (pepConcat: seq<string>)
    requires splitTaxonomy ==> |taxIds| >= |peptideSeq|
    ensures pepConcat == Signatures(peptideSeq, splitTaxonomy, taxIds)
  {
    pepConcat := [];
    for i := 0 to |peptideSeq|
      invariant pepConcat == Signatures(peptideSeq, splitTaxonomy, taxIds)[..i]
    {
      var s := Join(peptideSeq[i], Separator);
      if splitTaxonomy {
        s := taxIds[i] + [Separator] + s;
      }
      pepConcat := pepConcat + [s];
    }
  }

  /** Index `x` has the key of some group's first member. */
  ghost predicate KeyHasGroup<K>(groups: seq<seq<nat>>, keys: seq<K>, x: nat)
    requires x < |keys| && forall g :: 0 <= g < |groups| ==> groups[g] != [] && groups[g][0] < |keys|
  {
    exists g :: 0 <= g < |groups| && keys[x] == keys[groups[g][0]]
  }

  /**
   * The groups opened while scanning the indices `0..i-1`: each group is
   * the ascending list of all indices whose key equals that of its first
   * member, the first member is the first index with that key, and groups
   * are ordered by first member. Every key seen so far has its group.
   */
  ghost predicate FirstOccurrenceGroups<K>(groups: seq<seq<nat>>, keys: seq<K>, i: nat)
  {
    && i <= |keys|
    && (forall g :: 0 <= g < |groups| ==> groups[g] != [] && StrictlyIncreasing(groups[g]) && groups[g][0] < i)
    && (forall g, a :: 0 <= g < |groups| && 0 <= a < |groups[g]| ==> groups[g][a] < |keys|)
    && (forall g, x :: 0 <= g < |groups| && 0 <= x < |keys| ==> (x in groups[g] <==> keys[x] == keys[groups[g][0]]))
    && (forall g, y :: 0 <= g < |groups| && 0 <= y < groups[g][0] ==> keys[y] != keys[groups[g][0]])
    && (forall g1, g2 :: 0 <= g1 < g2 < |groups| ==> groups[g1][0] < groups[g2][0])
    && (forall x :: 0 <= x < i ==> KeyHasGroup(groups, keys, x))
  }

  /** An index whose key was seen before adds no group. */
  lemma SkipSeenKey<K>(groups: seq<seq<nat>>, keys: seq<K>, i: nat)
    requires FirstOccurrenceGroups(groups, keys, i) && i < |keys|
    requires keys[i] in keys[..i]
    ensures FirstOccurrenceGroups(groups, keys, i + 1)
  {
    var y :| 0 <= y < i && keys[..i][y] == keys[i];
    assert KeyHasGroup(groups, keys, y);
    var g :| 0 <= g < |groups| && keys[y] == keys[groups[g][0]];
    assert KeyHasGroup(groups, keys, i);
  }

  /** An index with a new key opens the group of all indices with that key. */
  lemma OpenGroup<K>(groups: seq<seq<nat>>, keys: seq<K>, i: nat, indices: seq<nat>)
    requires FirstOccurrenceGroups(groups, keys, i) && i < |keys|
    requires keys[i] !in keys[..i]
    requires indices != [] && indices[0] == i && StrictlyIncreasing(indices)
    requires forall a :: 0 <= a < |indices| ==> indices[a] < |keys|
    requires forall x :: 0 <= x < |keys| ==> (x in indices <==> i <= x && keys[x] == keys[i])
    ensures FirstOccurrenceGroups(groups + [indices], keys, i + 1)
  {
    var groups' := groups + [indices];
    forall y | 0 <= y < i ensures keys[y] != keys[i] {
      assert keys[..i][y] == keys[y];
    }
    forall x | 0 <= x < i + 1 ensures KeyHasGroup(groups', keys, x) {
      if x < i {
        assert KeyHasGroup(groups, keys, x);
        var g :| 0 <= g < |groups| && keys[x] == keys[groups[g][0]];
        assert groups'[g] == groups[g];
      } else {
        assert groups'[|groups|][0] == x;
      }
    }
  }

  /** Once every index is scanned the groups are a partition grouped by key. */
  lemma FirstOccurrenceGroupsPartition<K>(groups: seq<seq<nat>>, keys: seq<K>)
    requires FirstOccurrenceGroups(groups, keys, |keys|)
    ensures IsPartition(groups, |keys|) && GroupedByKey(groups, keys)
  {
    forall g1, g2, x | 0 <= g1 < g2 < |groups| && x in groups[g1] ensures x !in groups[g2] {
      assert keys[groups[g1][0]] != keys[groups[g2][0]];
    }
    forall g | 0 <= g < |groups| ensures Distinct(groups[g]) {
      assert StrictlyIncreasing(groups[g]);
    }
    forall x | 0 <= x < |keys| ensures InSomeGroup(groups, x) {
      assert KeyHasGroup(groups, keys, x);
      var g :| 0 <= g < |groups| && keys[x] == keys[groups[g][0]];
      assert x in groups[g];
    }
    forall g1, g2, x, y | 0 <= g1 < |groups| && 0 <= g2 < |groups| && x in groups[g1] && y in groups[g2] &&
        x < |keys| && y < |keys|
      ensures keys[x] == keys[y] <==> g1 == g2
    {
      if g1 < g2 {
        assert keys[groups[g1][0]] != keys[groups[g2][0]];
      } else if g2 < g1 {
        assert keys[groups[g2][0]] != keys[groups[g1][0]];
      }
    }
  }

  /**
   * The inner loop of the scan for an untaken index `i`: take `i` and every
   * later untaken index with an equal key, in ascending order.
   */
  method CollectEqual<K(==)>(keys: seq<K>, taken: array<bool>, i: nat) returns (indices: seq<nat>)
    requires taken.Length == |keys| && i < |keys| && !taken[i]
    requires forall x :: 0 <= x < |keys| ==> (taken[x] <==> keys[x] in keys[..i])
    modifies taken
    ensures indices != [] && indices[0] == i && StrictlyIncreasing(indices) && InBounds(indices, |keys|)
    ensures forall x :: 0 <= x < |keys| ==> (x in indices <==> i <= x && keys[x] == keys[i])
    ensures forall x :: 0 <= x < |keys| ==> (taken[x] <==> keys[x] in keys[..i + 1])
  {
    var n := |keys|;
    assert keys[..i + 1] == keys[..i] + [keys[i]];
    indices := [i];
    taken[i] := true;
    for j := i + 1 to n
      invariant indices != [] && indices[0] == i && StrictlyIncreasing(indices)
      invariant forall a :: 0 <= a < |indices| ==> indices[a] < j
      invariant forall x :: 0 <= x < n ==> (x in indices <==> i <= x < j && keys[x] == keys[i])
      invariant forall x :: 0 <= x < n ==>
        (taken[x] <==> keys[x] in keys[..i] || (i <= x < j && keys[x] == keys[i]))
    {
      if taken[j] {
        continue;
      }
      if keys[i] == keys[j] {
        indices := indices + [j];
        taken[j] := true;
      }
    }
    forall x | 0 <= x < n
      ensures keys[x] in keys[..i + 1] <==> keys[x] in keys[..i] || (i <= x && keys[x] == keys[i])
    {
      if i <= x && keys[x] == keys[i] {
        assert keys[..i + 1][i] == keys[x];
      }
    }
  }

  /**
   * The quadratic scan: walk the indices in order; an index not yet taken
   * opens a group holding it and every later untaken index with an equal
   * key. Groups come out ordered by their first member, members ascending.
   */
  method GroupEqualKeys<K(==)>(keys: seq<K>) returns (groupInd: seq<seq<nat>>)
    ensures IsPartition(groupInd, |keys|) && GroupedByKey(groupInd, keys)
    ensures forall g :: 0 <= g < |groupInd| ==> StrictlyIncreasing(groupInd[g])
    ensures forall g1, g2 :: 0 <= g1 < g2 < |groupInd| ==> groupInd[g1][0] < groupInd[g2][0]
  {
    var n := |keys|;
    var taken := new bool[n](_ => false);
    groupInd := [];
    for i := 0 to n
      invariant forall x :: 0 <= x < n ==> (taken[x] <==> keys[x] in keys[..i])
      invariant FirstOccurrenceGroups(groupInd, keys, i)
    {
      assert keys[..i + 1] == keys[..i] + [keys[i]];
      if taken[i] {
        SkipSeenKey(groupInd, keys, i);
        continue;
      }
      var indices := CollectEqual(keys, taken, i);
      OpenGroup(groupInd, keys, i, indices);
      groupInd := groupInd + [indices];
    }
    FirstOccurrenceGroupsPartition(groupInd, keys);
  }

  /**
   * The oldest version: proteins are grouped when their peptide lists are
   * equal and, when splitting by taxonomy, their taxonomy ids are equal.
   */
  method GetNonredGroupIndsOld(proteinIds: seq<string>, peptideSeq: seq<seq<string>>, splitTaxonomy: bool, taxIds: seq<string>)
    returns (groupInd: seq<seq<nat>>)
    requires |proteinIds| <= |peptideSeq|
    requires splitTaxonomy ==> |proteinIds| <= |taxIds|
    ensures var keys := PeptideKeys(peptideSeq, splitTaxonomy, taxIds, |proteinIds|);
      IsPartition(groupInd, |proteinIds|) && GroupedByKey(groupInd, keys)
    ensures forall g :: 0 <= g < |groupInd| ==> StrictlyIncreasing(groupInd[g])
    ensures forall g1, g2 :: 0 <= g1 < g2 < |groupInd| ==> groupInd[g1][0] < groupInd[g2][0]
  {
    groupInd := GroupEqualKeys(PeptideKeys(peptideSeq, splitTaxonomy, taxIds, |proteinIds|));
  }

  /** The same scan over signatures: proteins are grouped when their signatures are equal. */
  method GetNonredGroupInds(proteinIds: seq<string>, peptideSeq: seq<seq<string>>, splitTaxonomy: bool, taxIds: seq<string>)
    returns (groupInd: seq<seq<nat>>)
    requires |proteinIds| <= |peptideSeq|
    requires splitTaxonomy ==> |taxIds| >= |peptideSeq|
    ensures var sigs := Signatures(peptideSeq, splitTaxonomy, taxIds)[..|proteinIds|];
      IsPartition(groupInd, |proteinIds|) && GroupedByKey(groupInd, sigs)
    ensures forall g :: 0 <= g < |groupInd| ==> StrictlyIncreasing(groupInd[g])
    ensures forall g1, g2 :: 0 <= g1 < g2 < |groupInd| ==> groupInd[g1][0] < groupInd[g2][0]
  {
    var pepConcat := ConcatenatePeptides(peptideSeq, splitTaxonomy, taxIds);
    groupInd := GroupEqualKeys(pepConcat[..|proteinIds|]);
  }

  /** Elements below `n` in the concatenation are elements below `n` in every list. */
  lemma FlattenBelow(groups: seq<seq<nat>>, n: nat)
    requires forall k :: 0 <= k < |Flatten<nat>(groups)| ==> Flatten<nat>(groups)[k] < n
    ensures forall g, a :: 0 <= g < |groups| && 0 <= a < |groups[g]| ==> groups[g][a] < n
  {
    forall g, a | 0 <= g < |groups| && 0 <= a < |groups[g]| ensures groups[g][a] < n {
      var x := groups[g][a];
      assert x in groups[g];
      FlattenMember<nat>(groups, x);
      var k :| 0 <= k < |Flatten<nat>(groups)| && Flatten<nat>(groups)[k] == x;
    }
  }

  /** What the concatenation holds, some list holds. */
  lemma FlattenCovers(groups: seq<seq<nat>>, n: nat)
    requires forall x :: 0 <= x < n ==> x in Flatten<nat>(groups)
    ensures forall x :: 0 <= x < n ==> InSomeGroup(groups, x)
  {
    forall x | 0 <= x < n ensures InSomeGroup(groups, x) {
      FlattenMember<nat>(groups, x);
      var g :| 0 <= g < |groups| && x in groups[g];
    }
  }

  lemma NonEmptySnoc(groups: seq<seq<nat>>, current: seq<nat>)
    requires current != [] && forall g :: 0 <= g < |groups| ==> groups[g] != []
    ensures forall g :: 0 <= g < |groups + [current]| ==> (groups + [current])[g] != []
  {
  }

  /** A cut of an index permutation into consecutive non-empty pieces is a partition. */
  lemma FlattenPermutationPartition(groups: seq<seq<nat>>, o: seq<nat>, n: nat)
    requires Flatten<nat>(groups) == o && IsPermutation(o, n)
    requires forall g :: 0 <= g < |groups| ==> groups[g] != []
    ensures IsPartition(groups, n)
  {
    PermutationFacts(o, n);
    DistinctFlatten<nat>(groups);
    FlattenBelow(groups, n);
    FlattenCovers(groups, n);
  }

  /** Adding the next index of the order to the open group keeps the cut a cut of the order's prefix. */
  lemma CutJoin(groups: seq<seq<nat>>, current: seq<nat>, o: seq<nat>, i: nat)
    requires i < |o| && Flatten(groups) + current == o[..i]
    ensures Flatten(groups) + (current + [o[i]]) == o[..i + 1]
  {
    PrefixSnoc(o, i);
  }

  /** Closing the open group and opening one at the next index keeps the cut a cut of the order's prefix. */
  lemma CutOpen(groups: seq<seq<nat>>, current: seq<nat>, o: seq<nat>, i: nat)
    requires i < |o| && Flatten(groups) + current == o[..i]
    ensures Flatten(groups + [current]) + [o[i]] == o[..i + 1]
  {
    PrefixSnoc(o, i);
    FlattenAppend(groups, current);
  }

  /** Every index of `group` is valid and has key `k`. */
  ghost predicate SameKey(keys: seq<string>, group: seq<nat>, k: string)
  {
    forall a :: 0 <= a < |group| ==> group[a] < |keys| && keys[group[a]] == k
  }

  /**
   * The state of the sorted cut: closed groups each of one key, in
   * strictly ascending key order, all below the key `last` of the open
   * group `current`.
   */
  ghost predicate SortedCuts(groups: seq<seq<nat>>, current: seq<nat>, keys: seq<string>, last: string)
  {
    && current != [] && SameKey(keys, current, last)
    && (forall g :: 0 <= g < |groups| ==> groups[g] != [] && groups[g][0] < |keys| && SameKey(keys, groups[g], keys[groups[g][0]]))
    && (forall g1, g2 :: 0 <= g1 < g2 < |groups| ==> Less(keys[groups[g1][0]], keys[groups[g2][0]]))
    && (forall g :: 0 <= g < |groups| ==> Less(keys[groups[g][0]], last))
  }

  /** An index with the open group's key joins the open group. */
  lemma ExtendCut(groups: seq<seq<nat>>, current: seq<nat>, keys: seq<string>, last: string, x: nat)
    requires SortedCuts(groups, current, keys, last)
    requires x < |keys| && keys[x] == last
    ensures SortedCuts(groups, current + [x], keys, last)
  {
  }

  /** Closing the open group at a strictly greater key keeps the cut sorted. */
  lemma CloseCut(groups: seq<seq<nat>>, current: seq<nat>, keys: seq<string>, last: string, x: nat)
    requires SortedCuts(groups, current, keys, last)
    requires x < |keys| && Less(last, keys[x])
    ensures SortedCuts(groups + [current], [x], keys, keys[x])
  {
    var groups' := groups + [current];
    assert keys[current[0]] == last;
    forall g | 0 <= g < |groups'| ensures Less(keys[groups'[g][0]], keys[x]) {
      if g < |groups| {
        LessTransitive(keys[groups[g][0]], last, keys[x]);
      }
    }
  }

  /** Closing the last open group gives groups that are grouped by key and ascending. */
  lemma FinishCuts(groups: seq<seq<nat>>, current: seq<nat>, keys: seq<string>, last: string)
    requires SortedCuts(groups, current, keys, last)
    ensures var all := groups + [current];
      && GroupedByKey(all, keys)
      && (forall g1, g2 :: 0 <= g1 < g2 < |all| ==> Less(keys[all[g1][0]], keys[all[g2][0]]))
  {
    var all := groups + [current];
    assert keys[current[0]] == last;
    assert forall g :: 0 <= g < |all| ==> all[g] != [] && SameKey(keys, all[g], keys[all[g][0]]);
    forall g1, g2, x, y | 0 <= g1 < |all| && 0 <= g2 < |all| && x in all[g1] && y in all[g2] && x < |keys| && y < |keys|
      ensures keys[x] == keys[y] <==> g1 == g2
    {
      var a :| 0 <= a < |all[g1]| && all[g1][a] == x;
      var b :| 0 <= b < |all[g2]| && all[g2][b] == y;
      if g1 < g2 {
        LessIrreflexive(keys[all[g1][0]]);
      } else if g2 < g1 {
        LessIrreflexive(keys[all[g2][0]]);
      }
    }
  }

  /**
   * The scan of the sorted version: walk a stably sorted order of the
   * keys and cut it wherever the key changes from one entry to the next.
   */
  method CutAtKeyChanges(keys: seq<string>, o: seq<nat>) returns (groupInds: seq<seq<nat>>)
    requires |o| >= 1 && IsPermutation(o, |keys|) && InBounds(o, |keys|)
    requires SortedBy(keys, o)
    ensures IsPartition(groupInds, |keys|) && GroupedByKey(groupInds, keys)
    ensures forall g1, g2 :: 0 <= g1 < g2 < |groupInds| ==> Less(keys[groupInds[g1][0]], keys[groupInds[g2][0]])
  {
    var n := |o|;
    groupInds := [];
    var currentGroup := [o[0]];
    for i := 1 to n
      invariant Flatten<nat>(groupInds) + currentGroup == o[..i]
      invariant SortedCuts(groupInds, currentGroup, keys, keys[o[i - 1]])
    {
      if keys[o[i]] == keys[o[i - 1]] {
        CutJoin(groupInds, currentGroup, o, i);
        ExtendCut(groupInds, currentGroup, keys, keys[o[i - 1]], o[i]);
        currentGroup := currentGroup + [o[i]];
      } else {
        LessTotal(keys[o[i - 1]], keys[o[i]]);
        CloseCut(groupInds, currentGroup, keys, keys[o[i - 1]], o[i]);
        CutOpen(groupInds, currentGroup, o, i);
        groupInds := groupInds + [currentGroup];
        currentGroup := [o[i]];
      }
    }
    FinishCuts(groupInds, currentGroup, keys, keys[o[n - 1]]);
    FlattenAppend<nat>(groupInds, currentGroup);
    assert o[..n] == o;
    assert Flatten<nat>(groupInds + [currentGroup]) == o;
    assert forall g :: 0 <= g < |groupInds| ==> groupInds[g] != [];
    NonEmptySnoc(groupInds, currentGroup);
    groupInds := groupInds + [currentGroup];
    FlattenPermutationPartition(groupInds, o, |keys|);
  }

  /**
   * The sorted version: order the proteins by signature (stably), then
   * cut the order wherever the signature changes. Groups come out in
   * ascending signature order. The first element of the order is read
   * unconditionally, so at least one protein is required.
   */
  method GetNonredGroupInds2(proteinIds: seq<string>, peptideSeq: seq<seq<string>>, splitTaxonomy: bool, taxIds: seq<string>)
    returns (groupInds: seq<seq<nat>>)
    requires |peptideSeq| >= 1
    requires splitTaxonomy ==> |taxIds| >= |peptideSeq|
    ensures var sigs := Signatures(peptideSeq, splitTaxonomy, taxIds);
      IsPartition(groupInds, |peptideSeq|) && GroupedByKey(groupInds, sigs)
    ensures var sigs := Signatures(peptideSeq, splitTaxonomy, taxIds);
      forall g1, g2 :: 0 <= g1 < g2 < |groupInds| ==> Less(sigs[groupInds[g1][0]], sigs[groupInds[g2][0]])
  {
    var pepConcat := ConcatenatePeptides(peptideSeq, splitTaxonomy, taxIds);
    var o := Order(pepConcat);
    OrderSorts(pepConcat);
    groupInds := CutAtKeyChanges(pepConcat, o);
  }

  /**
   * With well-formed peptides and separator-free taxonomy ids, any result
   * of the oldest version and any result of the sorted version put the
   * same proteins together.
   */
  lemma OldAndSortedAgree(proteinIds: seq<string>, peptideSeq: seq<seq<string>>, splitTaxonomy: bool, taxIds: seq<string>,
                          oldGroups: seq<seq<nat>>, sortedGroups: seq<seq<nat>>)
    requires |proteinIds| == |peptideSeq|
    requires splitTaxonomy ==> |taxIds| >= |peptideSeq|
    requires forall i :: 0 <= i < |peptideSeq| ==> WellFormedPeptides(peptideSeq[i])
    requires splitTaxonomy ==> forall i :: 0 <= i < |peptideSeq| ==> SeparatorFree(taxIds[i])
    requires IsPartition(oldGroups, |proteinIds|) && GroupedByKey(oldGroups, PeptideKeys(peptideSeq, splitTaxonomy, taxIds, |proteinIds|))
    requires IsPartition(sortedGroups, |peptideSeq|) && GroupedByKey(sortedGroups, Signatures(peptideSeq, splitTaxonomy, taxIds))
    ensures forall x, y :: 0 <= x < |peptideSeq| && 0 <= y < |peptideSeq| ==>
      (Together(oldGroups, x, y) <==> Together(sortedGroups, x, y))
  {
    SignaturesMatchPeptideKeys(peptideSeq, splitTaxonomy, taxIds);
    SamePartition(oldGroups, PeptideKeys(peptideSeq, splitTaxonomy, taxIds, |proteinIds|),
                  sortedGroups, Signatures(peptideSeq, splitTaxonomy, taxIds));
  }
}
