/**
 * Pre-clustering of proteins (`CreateProteinAndPeptideLists*` in
 * MqUtil/Ms/Utils/PepUtils.cs): proteins with identical peptide sets (and, when
 * taxonomy is split, the same taxonomy id) are collapsed into one entry
 * holding all their names, the common sorted peptide list and, when
 * present, the per-peptide mutation flags.
 */
module ProteinLists {
  import opened Wrappers
  import opened Seqs
  import opened StringOrder
  import opened NonredGroups

  newtype byte = b: int | 0 <= b < 256

  // ---------------------------------------------------------------------
  // Taxonomy

  /**
   * The taxonomy id of a protein at the chosen rank. `taxonomy` holds the
   * proteins the protein set knows, already mapped to the rank; an unknown
   * protein gets "-1".
   */
  function TaxonomyIdOf(taxonomy: map<string, string>, proteinId: string): string
  {
    if proteinId in taxonomy then taxonomy[proteinId] else "-1"
  }

  /** The taxonomy id of every protein. */
  function TaxaOf(proteinIds: seq<string>, taxonomy: map<string, string>): (r: seq<string>)
    ensures |r| == |proteinIds|
  {
    seq(|proteinIds|, i requires 0 <= i < |proteinIds| => TaxonomyIdOf(taxonomy, proteinIds[i]))
  }

  /** The loop filling the taxonomy id array. */
  method TaxonomyIds(proteinIds: seq<string>, taxonomy: map<string, string>) returns (taxIds: seq<string>)
    ensures taxIds == TaxaOf(proteinIds, taxonomy)
  {
    taxIds := [];
    for i := 0 to |proteinIds|
      invariant taxIds == TaxaOf(proteinIds, taxonomy)[..i]
    {
      var t := if proteinIds[i] in taxonomy then taxonomy[proteinIds[i]] else "-1";
      taxIds := taxIds + [t];
    }
  }

  // ---------------------------------------------------------------------
  // Reordering groups

  /** A group reordered so that the names of its members ascend (stably). */
  function NameOrdered(proteinIds: seq<string>, group: seq<nat>): (r: seq<nat>)
    requires InBounds(group, |proteinIds|)
    ensures |r| == |group| && InBounds(r, |proteinIds|)
  {
    var o := Order(Select(proteinIds, group));
    SelectSelect(proteinIds, group, o);
    Select(group, o)
  }

  /** Reordering keeps a group's members and their distinctness, and makes the names ascend. */
  lemma NameOrderedFacts(proteinIds: seq<string>, group: seq<nat>)
    requires InBounds(group, |proteinIds|) && Distinct(group)
    ensures var r := NameOrdered(proteinIds, group);
      && (forall x :: x in r <==> x in group)
      && Distinct(r)
      && Select(proteinIds, r) == SortStrings(Select(proteinIds, group))
      && Ascending(Select(proteinIds, r))
  {
    var names := Select(proteinIds, group);
    var o := Order(names);
    SelectPermutationMembers(group, o);
    PermutationFacts(o, |group|);
    SelectSelect(proteinIds, group, o);
    SortStringsCorrect(names);
  }

  /** Reordering every group of a partition grouped by key keeps both properties. */
  lemma ReorderedGrouping<K>(groups: seq<seq<nat>>, reordered: seq<seq<nat>>, keys: seq<K>)
    requires IsPartition(groups, |keys|) && GroupedByKey(groups, keys)
    requires |reordered| == |groups|
    requires forall g :: 0 <= g < |groups| ==> Distinct(reordered[g]) && |reordered[g]| == |groups[g]|
    requires forall g, x :: 0 <= g < |groups| ==> (x in reordered[g] <==> x in groups[g])
    ensures IsPartition(reordered, |keys|) && GroupedByKey(reordered, keys)
  {
    forall g, a | 0 <= g < |reordered| && 0 <= a < |reordered[g]| ensures reordered[g][a] < |keys| {
      assert reordered[g][a] in groups[g];
    }
    forall x | 0 <= x < |keys| ensures InSomeGroup(reordered, x) {
      assert InSomeGroup(groups, x);
      var g :| 0 <= g < |groups| && x in groups[g];
      assert x in reordered[g];
    }
    forall g | 0 <= g < |reordered| ensures reordered[g] != [] {
      assert groups[g][0] in reordered[g];
    }
  }

  // ---------------------------------------------------------------------
  // The list builder on indices

  /** Loop 1: every group reordered so that its members' names ascend. */
  method OrderGroupsByName(proteinIds: seq<string>, groups: seq<seq<nat>>) returns (ordered: seq<seq<nat>>)
    requires forall g :: 0 <= g < |groups| ==> InBounds(groups[g], |proteinIds|)
    ensures |ordered| == |groups|
    ensures forall g :: 0 <= g < |groups| ==> ordered[g] == NameOrdered(proteinIds, groups[g])
  {
    ordered := groups;
    for i := 0 to |groups|
      invariant |ordered| == |groups|
      invariant forall g :: 0 <= g < i ==> ordered[g] == NameOrdered(proteinIds, groups[g])
      invariant forall g :: i <= g < |groups| ==> ordered[g] == groups[g]
    {
      var names := Select(proteinIds, ordered[i]);
      var o := Order(names);
      ordered := ordered[i := Select(ordered[i], o)];
    }
  }

  /** Loop 2: the sorted names of every group. */
  method GroupNames(proteinIds: seq<string>, groups: seq<seq<nat>>) returns (proteinNames: seq<seq<string>>)
    requires forall g :: 0 <= g < |groups| ==> InBounds(groups[g], |proteinIds|)
    ensures |proteinNames| == |groups|
    ensures forall g :: 0 <= g < |groups| ==> proteinNames[g] == SortStrings(Select(proteinIds, groups[g]))
  {
    proteinNames := [];
    for i := 0 to |groups|
      invariant |proteinNames| == i
      invariant forall g :: 0 <= g < i ==> proteinNames[g] == SortStrings(Select(proteinIds, groups[g]))
    {
      var names := Select(proteinIds, groups[i]);
      proteinNames := proteinNames + [Select(names, Order(names))];
    }
  }

  /** Loop 3: the peptides of every group's first member, sorted. */
  method FirstMemberPeptides(peptideSeq: seq<seq<string>>, groups: seq<seq<nat>>) returns (peptideSequences: seq<seq<string>>)
    requires forall g :: 0 <= g < |groups| ==> groups[g] != [] && groups[g][0] < |peptideSeq|
    ensures |peptideSequences| == |groups|
    ensures forall g :: 0 <= g < |groups| ==> peptideSequences[g] == SortStrings(peptideSeq[groups[g][0]])
  {
    peptideSequences := [];
    for i := 0 to |groups|
      invariant |peptideSequences| == i
      invariant forall g :: 0 <= g < i ==> peptideSequences[g] == SortStrings(peptideSeq[groups[g][0]])
    {
      var peps := peptideSeq[groups[i][0]];
      var o := Order(peps);
      peptideSequences := peptideSequences + [Select(peps, o)];
    }
  }

  /** Whether the flags of a group's first member can be read in the order of the group's peptides. */
  predicate FlagsCover(isMut: seq<seq<byte>>, groups: seq<seq<nat>>, peptideSequences: seq<seq<string>>)
  {
    && |peptideSequences| == |groups|
    && forall g :: 0 <= g < |groups| ==>
      groups[g] != [] && groups[g][0] < |isMut| && |isMut[groups[g][0]]| >= |peptideSequences[g]|
  }

  /** The flags of one group's first member, read in the order of the group's peptides. */
  function GroupFlags(isMut: seq<seq<byte>>, groups: seq<seq<nat>>, peptideSequences: seq<seq<string>>, g: nat): (r: seq<byte>)
    requires FlagsCover(isMut, groups, peptideSequences) && g < |groups|
    ensures |r| == |peptideSequences[g]|
  {
    var o := Order(peptideSequences[g]);
    assert InBounds(o, |isMut[groups[g][0]]|);
    Select(isMut[groups[g][0]], o)
  }

  /**
   * The group's peptides are already sorted, so their order is the
   * identity: the flags are the first member's own flags, in their
   * original order, cut to the number of peptides.
   */
  lemma GroupFlagsUnpermuted(isMut: seq<seq<byte>>, groups: seq<seq<nat>>, peptideSequences: seq<seq<string>>, g: nat)
    requires FlagsCover(isMut, groups, peptideSequences) && g < |groups|
    requires Ascending(peptideSequences[g])
    ensures GroupFlags(isMut, groups, peptideSequences, g) == isMut[groups[g][0]][..|peptideSequences[g]|]
  {
    var f := isMut[groups[g][0]];
    var n := |peptideSequences[g]|;
    OrderOfAscending(peptideSequences[g]);
    assert forall j :: 0 <= j < n ==> GroupFlags(isMut, groups, peptideSequences, g)[j] == f[..n][j];
  }

  /** Loop 4: the flags of every group's first member, read in the order of the group's peptides. */
  method FirstMemberFlags(isMut: seq<seq<byte>>, groups: seq<seq<nat>>, peptideSequences: seq<seq<string>>)
    returns (flags: seq<seq<byte>>)
    requires FlagsCover(isMut, groups, peptideSequences)
    ensures |flags| == |groups|
    ensures forall g :: 0 <= g < |groups| ==> flags[g] == GroupFlags(isMut, groups, peptideSequences, g)
  {
    flags := [];
    for i := 0 to |groups|
      invariant |flags| == i
      invariant forall g :: 0 <= g < i ==> flags[g] == GroupFlags(isMut, groups, peptideSequences, g)
    {
      var f := FirstMemberFlagsOf(isMut, groups, peptideSequences, i);
      flags := flags + [f];
    }
  }

  /** One pass of loop 4: the flags of group `i`'s first member in its peptides' order. */
  method FirstMemberFlagsOf(isMut: seq<seq<byte>>, groups: seq<seq<nat>>, peptideSequences: seq<seq<string>>, i: nat)
    returns (f: seq<byte>)
    requires FlagsCover(isMut, groups, peptideSequences) && i < |groups|
    ensures f == GroupFlags(isMut, groups, peptideSequences, i)
  {
    var o := Order(peptideSequences[i]);
    assert InBounds(o, |isMut[groups[i][0]]|);
    f := Select(isMut[groups[i][0]], o);
  }

  /** The name-ordered groups of a partition grouped by key: still such a partition, now with ascending names. */
  lemma NameOrderedGrouping<K>(proteinIds: seq<string>, groups: seq<seq<nat>>, ordered: seq<seq<nat>>, keys: seq<K>)
    requires |keys| == |proteinIds|
    requires IsPartition(groups, |keys|) && GroupedByKey(groups, keys)
    requires |ordered| == |groups|
    requires forall g :: 0 <= g < |groups| ==> InBounds(groups[g], |proteinIds|)
    requires forall g :: 0 <= g < |groups| ==> ordered[g] == NameOrdered(proteinIds, groups[g])
    ensures IsPartition(ordered, |keys|) && GroupedByKey(ordered, keys)
    ensures forall g :: 0 <= g < |ordered| ==>
      InBounds(ordered[g], |proteinIds|) && Ascending(Select(proteinIds, ordered[g])) &&
      SortStrings(Select(proteinIds, ordered[g])) == Select(proteinIds, ordered[g])
  {
    forall g | 0 <= g < |groups| ensures
      && (forall x :: x in ordered[g] <==> x in groups[g])
      && Distinct(ordered[g])
      && Ascending(Select(proteinIds, ordered[g]))
      && SortStrings(Select(proteinIds, ordered[g])) == Select(proteinIds, ordered[g])
    {
      NameOrderedFacts(proteinIds, groups[g]);
      SortStringsCorrect(Select(proteinIds, ordered[g]));
    }
    ReorderedGrouping(groups, ordered, keys);
  }

  /**
   * `CreateProteinAndPeptideLists2`: group the proteins by signature, put
   * each group's members in ascending name order, and give every group
   * its names, the sorted peptides of its first member and that member's
   * flags read in the same order. At least one protein is required (the
   * sorted grouping reads the first element of its order).
   */
  method CreateProteinAndPeptideLists2(proteinIds: seq<string>, peptideSeq: seq<seq<string>>, isMut: Option<seq<seq<byte>>>,
                                       splitTaxonomy: bool, taxonomy: map<string, string>)
    returns (proteinNames: seq<seq<string>>, peptideSequences: seq<seq<string>>, isMutated: Option<seq<seq<byte>>>,
             ghost groupIndices: seq<seq<nat>>)
    requires |proteinIds| >= 1 && |peptideSeq| == |proteinIds|
    requires isMut.Some? ==> (|isMut.value| == |proteinIds| &&
      forall i :: 0 <= i < |proteinIds| ==> |isMut.value[i]| >= |peptideSeq[i]|)
    ensures IsPartition(groupIndices, |proteinIds|)
    ensures GroupedByKey(groupIndices, Signatures(peptideSeq, splitTaxonomy, TaxaOf(proteinIds, taxonomy)))
    ensures |proteinNames| == |peptideSequences| == |groupIndices|
    ensures forall g :: 0 <= g < |groupIndices| ==>
      InBounds(groupIndices[g], |proteinIds|) &&
      proteinNames[g] == Select(proteinIds, groupIndices[g]) && Ascending(proteinNames[g])
    ensures forall g :: 0 <= g < |groupIndices| ==> peptideSequences[g] == SortStrings(peptideSeq[groupIndices[g][0]])
    ensures isMutated.Some? <==> isMut.Some?
    ensures isMutated.Some? ==> (FlagsCover(isMut.value, groupIndices, peptideSequences) &&
      |isMutated.value| == |groupIndices| &&
      forall g :: 0 <= g < |groupIndices| ==> isMutated.value[g] == GroupFlags(isMut.value, groupIndices, peptideSequences, g))
    ensures isMutated.Some? ==> forall g :: 0 <= g < |groupIndices| ==>
      isMutated.value[g] == isMut.value[groupIndices[g][0]][..|peptideSequences[g]|]
  {
    var taxIds: seq<string> := [];
    if splitTaxonomy {
      taxIds := TaxonomyIds(proteinIds, taxonomy);
    }
    ghost var keys := Signatures(peptideSeq, splitTaxonomy, TaxaOf(proteinIds, taxonomy));
    assert Signatures(peptideSeq, splitTaxonomy, taxIds) == keys;
    var groups := GetNonredGroupInds2(proteinIds, peptideSeq, splitTaxonomy, taxIds);
    var ordered := OrderGroupsByName(proteinIds, groups);
    NameOrderedGrouping(proteinIds, groups, ordered, keys);
    proteinNames := GroupNames(proteinIds, ordered);
    peptideSequences := FirstMemberPeptides(peptideSeq, ordered);
    isMutated := None;
    if isMut.Some? {
      var flags := FirstMemberFlags(isMut.value, ordered, peptideSequences);
      forall g | 0 <= g < |ordered|
        ensures flags[g] == isMut.value[ordered[g][0]][..|peptideSequences[g]|]
      {
        SortStringsCorrect(peptideSeq[ordered[g][0]]);
        GroupFlagsUnpermuted(isMut.value, ordered, peptideSequences, g);
      }
      isMutated := Some(flags);
    }
    groupIndices := ordered;
  }

  // ---------------------------------------------------------------------
  // What the builders promise about proteins, by name

  /** `p` is one of the names of some entry. */
  ghost predicate Named(proteinNames: seq<seq<string>>, p: string)
  {
    exists g :: 0 <= g < |proteinNames| && p in proteinNames[g]
  }

  /** The entries' names split the proteins: no empty entry, each name a protein, each protein named exactly once. */
  ghost predicate NamesPartitionProteins<V>(proteinNames: seq<seq<string>>, protein2Pep: map<string, V>)
  {
    && (forall g :: 0 <= g < |proteinNames| ==> proteinNames[g] != [] && StrictlyAscending(proteinNames[g]))
    && (forall g, a :: 0 <= g < |proteinNames| && 0 <= a < |proteinNames[g]| ==> proteinNames[g][a] in protein2Pep)
    && (forall p :: p in protein2Pep ==> Named(proteinNames, p))
    && (forall g1, g2, p :: 0 <= g1 < g2 < |proteinNames| && p in proteinNames[g1] ==> p !in proteinNames[g2])
  }

  /** Every entry carries, strictly ascending, the peptides of its first-named protein. */
  ghost predicate PeptidesOfFirstMember(proteinNames: seq<seq<string>>, peptideSequences: seq<seq<string>>,
                                        pepSets: map<string, set<string>>)
    requires |peptideSequences| == |proteinNames|
    requires forall g :: 0 <= g < |proteinNames| ==> proteinNames[g] != [] && proteinNames[g][0] in pepSets
  {
    forall g :: 0 <= g < |proteinNames| ==>
      && StrictlyAscending(peptideSequences[g])
      && (forall x :: x in peptideSequences[g] <==> x in pepSets[proteinNames[g][0]])
  }

  /** `p` in entry `g1` and `q` in entry `g2` have the same peptide set (and the same taxon when splitting). */
  ghost predicate SameSetNames(proteinNames: seq<seq<string>>, pepSets: map<string, set<string>>,
                               splitTaxonomy: bool, taxonomy: map<string, string>, g1: int, g2: int, p: string, q: string)
  {
    && 0 <= g1 < |proteinNames| && 0 <= g2 < |proteinNames| && p in proteinNames[g1] && q in proteinNames[g2]
    && p in pepSets && q in pepSets && pepSets[p] == pepSets[q]
    && (splitTaxonomy ==> TaxonomyIdOf(taxonomy, p) == TaxonomyIdOf(taxonomy, q))
  }

  /** Proteins with the same peptide set (and the same taxon when splitting) share an entry. */
  ghost predicate IdenticalSetsShareEntry(proteinNames: seq<seq<string>>, pepSets: map<string, set<string>>,
                                          splitTaxonomy: bool, taxonomy: map<string, string>)
  {
    forall g1, g2, p, q :: SameSetNames(proteinNames, pepSets, splitTaxonomy, taxonomy, g1, g2, p, q) ==> g1 == g2
  }

  /** Every member of an entry has the peptide set (and taxon, when splitting) of the entry's first member. */
  ghost predicate EntryMembersAgree(proteinNames: seq<seq<string>>, pepSets: map<string, set<string>>,
                                    splitTaxonomy: bool, taxonomy: map<string, string>)
  {
    forall g, p ::
      (0 <= g < |proteinNames| && p in proteinNames[g] && proteinNames[g] != [] &&
       p in pepSets && proteinNames[g][0] in pepSets) ==>
        pepSets[p] == pepSets[proteinNames[g][0]] &&
        (splitTaxonomy ==> TaxonomyIdOf(taxonomy, p) == TaxonomyIdOf(taxonomy, proteinNames[g][0]))
  }

  /** Peptide sets whose signatures identify them: non-empty peptides and taxon ids without the separator. */
  ghost predicate WellFormedSets(pepSets: map<string, set<string>>, splitTaxonomy: bool, taxonomy: map<string, string>)
  {
    forall p :: p in pepSets ==>
      (forall x :: x in pepSets[p] ==> x != [] && SeparatorFree(x)) &&
      (splitTaxonomy ==> SeparatorFree(TaxonomyIdOf(taxonomy, p)))
  }

  /** The peptide set of each protein of a dictionary from peptide to flag. */
  function PeptideSets(protein2Pep: map<string, map<string, byte>>): (r: map<string, set<string>>)
    ensures r.Keys == protein2Pep.Keys
    ensures forall p :: p in r ==> r[p] == protein2Pep[p].Keys
  {
    map p | p in protein2Pep :: protein2Pep[p].Keys
  }

  /** The keys of a map, in some order, each once. */
  method KeysOf<V>(m: map<string, V>) returns (keys: seq<string>)
    ensures Distinct(keys) && forall k :: k in keys <==> k in m
  {
    keys := [];
    var rest := m.Keys;
    while rest != {}
      invariant rest <= m.Keys && Distinct(keys)
      invariant forall k :: k in keys <==> k in m && k !in rest
      decreases |rest|
    {
      var k :| k in rest;
      keys := keys + [k];
      rest := rest - {k};
    }
  }

  /** The elements of a set, in some order, each once. */
  method ElementsOf(s: set<string>) returns (elems: seq<string>)
    ensures Distinct(elems) && forall x :: x in elems <==> x in s
  {
    elems := [];
    var rest := s;
    while rest != {}
      invariant rest <= s && Distinct(elems)
      invariant forall x :: x in elems <==> x in s && x !in rest
      decreases |rest|
    {
      var x :| x in rest;
      elems := elems + [x];
      rest := rest - {x};
    }
  }

  /** Sorting a duplicate-free list gives the unique strictly ascending list of its elements. */
  lemma SortDistinct(s: seq<string>)
    requires Distinct(s)
    ensures StrictlyAscending(SortStrings(s))
    ensures forall x :: x in SortStrings(s) <==> x in s
    ensures Order(SortStrings(s)) == Range(|s|)
  {
    SortStringsCorrect(s);
    PermutationFacts(Order(s), |s|);
    var r := SortStrings(s);
    assert Distinct(r);
    AscendingDistinct(r);
    OrderOfAscending(r);
  }

  /** `peps` lists the set `pepSet` strictly ascending. */
  ghost predicate ListsSet(peps: seq<string>, pepSet: set<string>)
  {
    StrictlyAscending(peps) && forall x :: x in peps <==> x in pepSet
  }

  /** `peps` lists the peptides of `pepFlags` strictly ascending and `flags` gives their flags in that order. */
  ghost predicate ListsFlags(peps: seq<string>, flags: seq<byte>, pepFlags: map<string, byte>)
  {
    && ListsSet(peps, pepFlags.Keys)
    && Order(peps) == Range(|peps|)
    && |flags| == |peps|
    && forall j :: 0 <= j < |peps| ==> peps[j] in pepFlags && flags[j] == pepFlags[peps[j]]
  }

  /**
   * What the index-level builder hands back, together with how its input
   * was made: distinct protein ids naming exactly the proteins, and for
   * each the strictly ascending list of its peptide set.
   */
  ghost predicate BuiltFrom(pepSets: map<string, set<string>>, splitTaxonomy: bool, taxonomy: map<string, string>,
                            proteinIds: seq<string>, peptideSeq: seq<seq<string>>, groupIndices: seq<seq<nat>>,
                            proteinNames: seq<seq<string>>, peptideSequences: seq<seq<string>>)
  {
    && Distinct(proteinIds) && (forall p :: p in proteinIds <==> p in pepSets)
    && |peptideSeq| == |proteinIds|
    && (forall i :: 0 <= i < |proteinIds| ==> ListsSet(peptideSeq[i], pepSets[proteinIds[i]]))
    && IsPartition(groupIndices, |proteinIds|)
    && GroupedByKey(groupIndices, Signatures(peptideSeq, splitTaxonomy, TaxaOf(proteinIds, taxonomy)))
    && |proteinNames| == |peptideSequences| == |groupIndices|
    && (forall g :: 0 <= g < |groupIndices| ==>
         InBounds(groupIndices[g], |proteinIds|) &&
         proteinNames[g] == Select(proteinIds, groupIndices[g]) && Ascending(proteinNames[g]))
    && (forall g :: 0 <= g < |groupIndices| ==> peptideSequences[g] == SortStrings(peptideSeq[groupIndices[g][0]]))
  }

  /** A name in an entry stands for the protein index at the same place of the group. */
  lemma NameAt(pepSets: map<string, set<string>>, splitTaxonomy: bool, taxonomy: map<string, string>,
               proteinIds: seq<string>, peptideSeq: seq<seq<string>>, groupIndices: seq<seq<nat>>,
               proteinNames: seq<seq<string>>, peptideSequences: seq<seq<string>>, g: nat, p: string)
    returns (x: nat)
    requires BuiltFrom(pepSets, splitTaxonomy, taxonomy, proteinIds, peptideSeq, groupIndices, proteinNames, peptideSequences)
    requires g < |proteinNames| && p in proteinNames[g]
    ensures x in groupIndices[g] && x < |proteinIds| && proteinIds[x] == p
  {
    var a :| 0 <= a < |proteinNames[g]| && proteinNames[g][a] == p;
    x := groupIndices[g][a];
  }

  /** The entries' names partition the proteins. */
  lemma ByNamePartition(pepSets: map<string, set<string>>, splitTaxonomy: bool, taxonomy: map<string, string>,
                        proteinIds: seq<string>, peptideSeq: seq<seq<string>>, groupIndices: seq<seq<nat>>,
                        proteinNames: seq<seq<string>>, peptideSequences: seq<seq<string>>)
    requires BuiltFrom(pepSets, splitTaxonomy, taxonomy, proteinIds, peptideSeq, groupIndices, proteinNames, peptideSequences)
    ensures NamesPartitionProteins(proteinNames, pepSets)
  {
    var n := |proteinIds|;
    forall g | 0 <= g < |proteinNames| ensures proteinNames[g] != [] && StrictlyAscending(proteinNames[g]) {
      forall a, b | 0 <= a < b < |proteinNames[g]| ensures proteinNames[g][a] != proteinNames[g][b] {
        assert groupIndices[g][a] != groupIndices[g][b];
      }
      AscendingDistinct(proteinNames[g]);
    }
    forall g, a | 0 <= g < |proteinNames| && 0 <= a < |proteinNames[g]| ensures proteinNames[g][a] in pepSets {
      assert proteinNames[g][a] == proteinIds[groupIndices[g][a]];
    }
    forall p | p in pepSets ensures Named(proteinNames, p) {
      var x :| 0 <= x < n && proteinIds[x] == p;
      assert InSomeGroup(groupIndices, x);
      var g :| 0 <= g < |groupIndices| && x in groupIndices[g];
      var a :| 0 <= a < |groupIndices[g]| && groupIndices[g][a] == x;
      assert proteinNames[g][a] == p;
    }
    forall g1, g2, p | 0 <= g1 < g2 < |proteinNames| && p in proteinNames[g1] ensures p !in proteinNames[g2] {
      var x := NameAt(pepSets, splitTaxonomy, taxonomy, proteinIds, peptideSeq, groupIndices, proteinNames, peptideSequences, g1, p);
      forall b | 0 <= b < |proteinNames[g2]| ensures proteinNames[g2][b] != p {
        var y := groupIndices[g2][b];
        assert y in groupIndices[g2];
        assert x != y;
      }
    }
  }

  /** Each entry carries its first member's peptides. */
  lemma ByNamePeptides(pepSets: map<string, set<string>>, splitTaxonomy: bool, taxonomy: map<string, string>,
                       proteinIds: seq<string>, peptideSeq: seq<seq<string>>, groupIndices: seq<seq<nat>>,
                       proteinNames: seq<seq<string>>, peptideSequences: seq<seq<string>>)
    requires BuiltFrom(pepSets, splitTaxonomy, taxonomy, proteinIds, peptideSeq, groupIndices, proteinNames, peptideSequences)
    requires NamesPartitionProteins(proteinNames, pepSets)
    ensures forall g :: 0 <= g < |groupIndices| ==>
      peptideSequences[g] == peptideSeq[groupIndices[g][0]] && proteinNames[g][0] == proteinIds[groupIndices[g][0]]
    ensures PeptidesOfFirstMember(proteinNames, peptideSequences, pepSets)
  {
    forall g | 0 <= g < |groupIndices| ensures peptideSequences[g] == peptideSeq[groupIndices[g][0]] {
      StrictlyAscendingIsAscending(peptideSeq[groupIndices[g][0]]);
      SortStringsCorrect(peptideSeq[groupIndices[g][0]]);
    }
  }

  /** Two named proteins with equal peptide sets (and taxa, when splitting) lie in the same entry. */
  lemma SameSetSameEntry(pepSets: map<string, set<string>>, splitTaxonomy: bool, taxonomy: map<string, string>,
                         proteinIds: seq<string>, peptideSeq: seq<seq<string>>, groupIndices: seq<seq<nat>>,
                         proteinNames: seq<seq<string>>, peptideSequences: seq<seq<string>>,
                         g1: nat, g2: nat, p: string, q: string)
    requires BuiltFrom(pepSets, splitTaxonomy, taxonomy, proteinIds, peptideSeq, groupIndices, proteinNames, peptideSequences)
    requires g1 < |proteinNames| && g2 < |proteinNames| && p in proteinNames[g1] && q in proteinNames[g2]
    requires p in pepSets && q in pepSets && pepSets[p] == pepSets[q]
    requires splitTaxonomy ==> TaxonomyIdOf(taxonomy, p) == TaxonomyIdOf(taxonomy, q)
    ensures g1 == g2
  {
    var sigs := Signatures(peptideSeq, splitTaxonomy, TaxaOf(proteinIds, taxonomy));
    var x := NameAt(pepSets, splitTaxonomy, taxonomy, proteinIds, peptideSeq, groupIndices, proteinNames, peptideSequences, g1, p);
    var y := NameAt(pepSets, splitTaxonomy, taxonomy, proteinIds, peptideSeq, groupIndices, proteinNames, peptideSequences, g2, q);
    assert ListsSet(peptideSeq[x], pepSets[p]) && ListsSet(peptideSeq[y], pepSets[q]);
    StrictlyAscendingUnique(peptideSeq[x], peptideSeq[y]);
    assert sigs[x] == sigs[y];
  }

  /** Identical peptide sets (and taxa, when splitting) share an entry. */
  lemma ByNameIdentical(pepSets: map<string, set<string>>, splitTaxonomy: bool, taxonomy: map<string, string>,
                        proteinIds: seq<string>, peptideSeq: seq<seq<string>>, groupIndices: seq<seq<nat>>,
                        proteinNames: seq<seq<string>>, peptideSequences: seq<seq<string>>)
    requires BuiltFrom(pepSets, splitTaxonomy, taxonomy, proteinIds, peptideSeq, groupIndices, proteinNames, peptideSequences)
    ensures IdenticalSetsShareEntry(proteinNames, pepSets, splitTaxonomy, taxonomy)
  {
    forall g1, g2, p, q | SameSetNames(proteinNames, pepSets, splitTaxonomy, taxonomy, g1, g2, p, q)
      ensures g1 == g2
    {
      SameSetSameEntry(pepSets, splitTaxonomy, taxonomy, proteinIds, peptideSeq, groupIndices, proteinNames, peptideSequences,
                       g1, g2, p, q);
    }
  }

  /** With well-formed sets, every member of an entry has the first member's set and taxon. */
  lemma ByNameAgree(pepSets: map<string, set<string>>, splitTaxonomy: bool, taxonomy: map<string, string>,
                    proteinIds: seq<string>, peptideSeq: seq<seq<string>>, groupIndices: seq<seq<nat>>,
                    proteinNames: seq<seq<string>>, peptideSequences: seq<seq<string>>)
    requires BuiltFrom(pepSets, splitTaxonomy, taxonomy, proteinIds, peptideSeq, groupIndices, proteinNames, peptideSequences)
    requires WellFormedSets(pepSets, splitTaxonomy, taxonomy)
    ensures EntryMembersAgree(proteinNames, pepSets, splitTaxonomy, taxonomy)
  {
    var taxa := TaxaOf(proteinIds, taxonomy);
    var sigs := Signatures(peptideSeq, splitTaxonomy, taxa);
    forall g, p | 0 <= g < |proteinNames| && p in proteinNames[g] && proteinNames[g] != [] &&
      p in pepSets && proteinNames[g][0] in pepSets
      ensures pepSets[p] == pepSets[proteinNames[g][0]]
      ensures splitTaxonomy ==> TaxonomyIdOf(taxonomy, p) == TaxonomyIdOf(taxonomy, proteinNames[g][0])
    {
      var x := NameAt(pepSets, splitTaxonomy, taxonomy, proteinIds, peptideSeq, groupIndices, proteinNames, peptideSequences, g, p);
      var y := groupIndices[g][0];
      assert proteinNames[g][0] == proteinIds[y];
      assert y in groupIndices[g];
      assert sigs[x] == sigs[y];
      assert ListsSet(peptideSeq[x], pepSets[p]) && ListsSet(peptideSeq[y], pepSets[proteinNames[g][0]]);
      assert WellFormedPeptides(peptideSeq[x]) by {
        forall k | 0 <= k < |peptideSeq[x]| ensures peptideSeq[x][k] != [] && SeparatorFree(peptideSeq[x][k]) {
          assert peptideSeq[x][k] in pepSets[p];
        }
      }
      assert WellFormedPeptides(peptideSeq[y]) by {
        forall k | 0 <= k < |peptideSeq[y]| ensures peptideSeq[y][k] != [] && SeparatorFree(peptideSeq[y][k]) {
          assert peptideSeq[y][k] in pepSets[proteinNames[g][0]];
        }
      }
      SignatureInjective(peptideSeq[x], peptideSeq[y], splitTaxonomy, GroupingTaxon(splitTaxonomy, taxa, x), GroupingTaxon(splitTaxonomy, taxa, y));
    }
  }

  /** All four readings at once. */
  lemma ByName(pepSets: map<string, set<string>>, splitTaxonomy: bool, taxonomy: map<string, string>,
               proteinIds: seq<string>, peptideSeq: seq<seq<string>>, groupIndices: seq<seq<nat>>,
               proteinNames: seq<seq<string>>, peptideSequences: seq<seq<string>>)
    requires BuiltFrom(pepSets, splitTaxonomy, taxonomy, proteinIds, peptideSeq, groupIndices, proteinNames, peptideSequences)
    ensures NamesPartitionProteins(proteinNames, pepSets)
    ensures forall g :: 0 <= g < |groupIndices| ==>
      peptideSequences[g] == peptideSeq[groupIndices[g][0]] && proteinNames[g][0] == proteinIds[groupIndices[g][0]]
    ensures PeptidesOfFirstMember(proteinNames, peptideSequences, pepSets)
    ensures IdenticalSetsShareEntry(proteinNames, pepSets, splitTaxonomy, taxonomy)
    ensures WellFormedSets(pepSets, splitTaxonomy, taxonomy) ==> EntryMembersAgree(proteinNames, pepSets, splitTaxonomy, taxonomy)
  {
    ByNamePartition(pepSets, splitTaxonomy, taxonomy, proteinIds, peptideSeq, groupIndices, proteinNames, peptideSequences);
    ByNamePeptides(pepSets, splitTaxonomy, taxonomy, proteinIds, peptideSeq, groupIndices, proteinNames, peptideSequences);
    ByNameIdentical(pepSets, splitTaxonomy, taxonomy, proteinIds, peptideSeq, groupIndices, proteinNames, peptideSequences);
    if WellFormedSets(pepSets, splitTaxonomy, taxonomy) {
      ByNameAgree(pepSets, splitTaxonomy, taxonomy, proteinIds, peptideSeq, groupIndices, proteinNames, peptideSequences);
    }
  }

  /** The peptides of one protein, sorted, with their flags in the same order. */
  method SortedPeptideFlags(pepFlags: map<string, byte>) returns (peps: seq<string>, flags: seq<byte>)
    ensures ListsFlags(peps, flags, pepFlags)
  {
    var keys := KeysOf(pepFlags);
    SortDistinct(keys);
    peps := SortStrings(keys);
    flags := FlagsOf(peps, pepFlags);
  }

  /** The flag of every listed peptide, in list order. */
  method FlagsOf(peps: seq<string>, pepFlags: map<string, byte>) returns (flags: seq<byte>)
    requires forall j :: 0 <= j < |peps| ==> peps[j] in pepFlags
    ensures |flags| == |peps| && forall j :: 0 <= j < |peps| ==> flags[j] == pepFlags[peps[j]]
  {
    flags := [];
    for j := 0 to |peps|
      invariant |flags| == j
      invariant forall k :: 0 <= k < j ==> flags[k] == pepFlags[peps[k]]
    {
      flags := flags + [pepFlags[peps[j]]];
    }
  }

  /** The peptide list of every protein: its peptides sorted, with their flags in the same order. */
  method SortedPeptidesAndFlags(protein2Pep: map<string, map<string, byte>>, proteinIds: seq<string>)
    returns (peptideSeq: seq<seq<string>>, isMut: seq<seq<byte>>)
    requires forall i :: 0 <= i < |proteinIds| ==> proteinIds[i] in protein2Pep
    ensures |peptideSeq| == |isMut| == |proteinIds|
    ensures forall k :: 0 <= k < |proteinIds| ==> ListsFlags(peptideSeq[k], isMut[k], protein2Pep[proteinIds[k]])
  {
    peptideSeq := [];
    isMut := [];
    for i := 0 to |proteinIds|
      invariant |peptideSeq| == |isMut| == i
      invariant forall k :: 0 <= k < i ==> ListsFlags(peptideSeq[k], isMut[k], protein2Pep[proteinIds[k]])
    {
      var peps, flags := SortedPeptideFlags(protein2Pep[proteinIds[i]]);
      peptideSeq := peptideSeq + [peps];
      isMut := isMut + [flags];
    }
  }

  /**
   * `CreateProteinAndPeptideLists` for a dictionary from protein to
   * (peptide to mutation flag): list the proteins, sort each protein's
   * peptides, read the flags in that order, and build the entries. The
   * dictionary must not be empty.
   */
  method CreateProteinAndPeptideLists(protein2Pep: map<string, map<string, byte>>, splitTaxonomy: bool, taxonomy: map<string, string>)
    returns (proteinNames: seq<seq<string>>, peptideSequences: seq<seq<string>>, isMutated: seq<seq<byte>>)
    requires protein2Pep != map[]
    ensures NamesPartitionProteins(proteinNames, protein2Pep)
    ensures |peptideSequences| == |isMutated| == |proteinNames|
    ensures PeptidesOfFirstMember(proteinNames, peptideSequences, PeptideSets(protein2Pep))
    ensures forall g :: 0 <= g < |proteinNames| ==>
      |isMutated[g]| == |peptideSequences[g]| &&
      forall j :: 0 <= j < |peptideSequences[g]| ==>
        peptideSequences[g][j] in protein2Pep[proteinNames[g][0]] &&
        isMutated[g][j] == protein2Pep[proteinNames[g][0]][peptideSequences[g][j]]
    ensures IdenticalSetsShareEntry(proteinNames, PeptideSets(protein2Pep), splitTaxonomy, taxonomy)
    ensures WellFormedSets(PeptideSets(protein2Pep), splitTaxonomy, taxonomy) ==>
      EntryMembersAgree(proteinNames, PeptideSets(protein2Pep), splitTaxonomy, taxonomy)
  {
    var pepSets := PeptideSets(protein2Pep);
    var proteinIds := KeysOf(protein2Pep);
    var p0 :| p0 in protein2Pep;
    assert p0 in proteinIds;
    var peptideSeq, isMut := SortedPeptidesAndFlags(protein2Pep, proteinIds);
    var flagsOut: Option<seq<seq<byte>>>;
    ghost var groupIndices: seq<seq<nat>>;
    proteinNames, peptideSequences, flagsOut, groupIndices :=
      CreateProteinAndPeptideLists2(proteinIds, peptideSeq, Some(isMut), splitTaxonomy, taxonomy);
    forall i | 0 <= i < |proteinIds| ensures ListsSet(peptideSeq[i], pepSets[proteinIds[i]]) {
      assert ListsFlags(peptideSeq[i], isMut[i], protein2Pep[proteinIds[i]]);
    }
    ByName(pepSets, splitTaxonomy, taxonomy, proteinIds, peptideSeq, groupIndices, proteinNames, peptideSequences);
    isMutated := flagsOut.value;
    forall g | 0 <= g < |proteinNames|
      ensures |isMutated[g]| == |peptideSequences[g]|
      ensures forall j :: 0 <= j < |peptideSequences[g]| ==>
        peptideSequences[g][j] in protein2Pep[proteinNames[g][0]] &&
        isMutated[g][j] == protein2Pep[proteinNames[g][0]][peptideSequences[g][j]]
    {
      var x := groupIndices[g][0];
      assert ListsFlags(peptideSeq[x], isMut[x], protein2Pep[proteinIds[x]]);
      SelectRange(isMut[x]);
      assert isMutated[g] == isMut[x];
    }
  }

  /**
   * `CreateProteinAndPeptideLists` for a dictionary from protein to a set
   * of peptides (the `HashSet` and `ISet` overloads are the same code):
   * no mutation flags. The dictionary must not be empty.
   */
  method CreateProteinAndPeptideListsFromSets(protein2Pep: map<string, set<string>>, splitTaxonomy: bool, taxonomy: map<string, string>)
    returns (proteinNames: seq<seq<string>>, peptideSequences: seq<seq<string>>)
    requires protein2Pep != map[]
    ensures NamesPartitionProteins(proteinNames, protein2Pep)
    ensures |peptideSequences| == |proteinNames|
    ensures PeptidesOfFirstMember(proteinNames, peptideSequences, protein2Pep)
    ensures IdenticalSetsShareEntry(proteinNames, protein2Pep, splitTaxonomy, taxonomy)
    ensures WellFormedSets(protein2Pep, splitTaxonomy, taxonomy) ==>
      EntryMembersAgree(proteinNames, protein2Pep, splitTaxonomy, taxonomy)
  {
    var proteinIds := KeysOf(protein2Pep);
    var p0 :| p0 in protein2Pep;
    assert p0 in proteinIds;
    var peptideSeq: seq<seq<string>> := [];
    for i := 0 to |proteinIds|
      invariant |peptideSeq| == i
      invariant forall k :: 0 <= k < i ==> ListsSet(peptideSeq[k], protein2Pep[proteinIds[k]])
    {
      var peps := ElementsOf(protein2Pep[proteinIds[i]]);
      SortDistinct(peps);
      peptideSeq := peptideSeq + [SortStrings(peps)];
    }
    var flagsOut: Option<seq<seq<byte>>>;
    ghost var groupIndices: seq<seq<nat>>;
    proteinNames, peptideSequences, flagsOut, groupIndices :=
      CreateProteinAndPeptideLists2(proteinIds, peptideSeq, None, splitTaxonomy, taxonomy);
    ByName(protein2Pep, splitTaxonomy, taxonomy, proteinIds, peptideSeq, groupIndices, proteinNames, peptideSequences);
  }
}
