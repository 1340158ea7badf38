# Protein grouping and Perseus column utilities, in Dafny

This project models the protein-grouping core of MaxQuant's `PepUtils` and
proves what it promises. Proteins identified by exactly the same peptides
(and, when taxonomy is split, belonging to the same taxon) are collapsed into
one entry. An entry whose peptides all occur in another entry of the same
taxon is then absorbed by that entry, until no containment is left.

The absorption loop works on a sparse boolean matrix, `IndexedBitMatrix`.
It is modelled as a class whose rows are allocated lazily. A ghost view,
`Bits()`, holds the set cells. The proofs show three things about the loop:

- every absorption removes at least one set cell, so the loop terminates;
- the matrix always holds exactly the initial containment pairs between entries not yet absorbed;
- no protein id is lost or duplicated, and when the loop stops no surviving entry contains another.

`CreateDependentMods`, from the same file, selects the variable
modifications that depend on each label modification.

Three Perseus plug-ins are modelled alongside:

- `FilterTextualColumn`: text matching, and the split of rows into kept and removed ones.
- `ManageCategoricalAnnotRow`: the header checks and cell parsing of "read from file", and the create, edit, rename, delete and create-from-names actions on category rows, which form a class over the rows.
- `RemoveEmptyColumns`: the empty-column tests, the valid-index lists, and the pruning of each column family.

Modules, one per file:

- `Wrappers`: `Option`.
- `Seqs`: ranges, selection by an index list, flattening, distinctness.
- `StringOrder`: the ordinal order on strings, the `Order` sorting permutation and `SortStrings`.
- `Text`: `Split`, `Join`, `Trim`, case mapping.
- `BitMatrix`: the `IndexedBitMatrix` class.
- `NonredGroups`: the three `GetNonredGroupInds*` versions.
- `ProteinLists`: the `CreateProteinAndPeptideLists*` overloads.
- `Parsimony`: `Contains`, `GetContainer`, `ClusterProteins` and `GetProteinAndPeptideLists`.
- `DependentMods`, `TextFilter`, `CategoricalAnnotRows` and `EmptyColumns`.

External inputs become parameters:

- The taxonomy lookup (`ProteinSet.Get` followed by `GetTaxonomyIdOfRank`) is a map from protein id to taxonomy id. A protein missing from the map gets `"-1"`.
- A file column read with `TabSep` is a sequence of optional cells.
- `InverseMap` of the name column is a map from column name to line.

## Model

| member | source | states |
|---|---|---|
| BitMatrix.IndexedBitMatrix.constructor | MqUtil/Data/IndexedBitMatrix.cs:4-8 | a new matrix has the given row and column counts and answers false for every cell (no set cells) |
| BitMatrix.IndexedBitMatrix.Set | MqUtil/Data/IndexedBitMatrix.cs:11-20 | afterwards `Get(row, col)` is `val` and every other cell reads as before; the set of cells gains or loses exactly that cell, and repeating a call changes nothing |
| BitMatrix.IndexedBitMatrix.BitsMeansGet | MqUtil/Data/IndexedBitMatrix.cs:21-23 | a cell is in the ghost set of cells iff its row is in range and `Get` answers true |
| Parsimony.BinarySearch | MqUtil/Ms/Utils/PepUtils.cs:157 | on an ascending list, a non-negative result is a position holding `x`; a negative result means `x` does not occur |
| Parsimony.Contains | MqUtil/Ms/Utils/PepUtils.cs:152-163 | true iff `p2` is not longer than `p1` and every peptide of `p2` occurs in `p1` |
| Parsimony.ContainsAllIsInclusion | MqUtil/Ms/Utils/PepUtils.cs:152-163 | for a duplicate-free `p2`, the containment test is exactly set inclusion |
| Parsimony.ContainsAllTransitive | MqUtil/Ms/Utils/PepUtils.cs:152-163 | containment is transitive |
| Parsimony.FirstMemberTaxonomyIds | MqUtil/Ms/Utils/PepUtils.cs:74-82 | each entry's taxonomy id is that of its first protein, or "-1" when the protein is unknown |
| Parsimony.AbsorbPairsFacts | MqUtil/Ms/Utils/PepUtils.cs:90-99 | the containment relation relates only distinct entries and is transitive |
| Parsimony.GetContainer | MqUtil/Ms/Utils/PepUtils.cs:143-151 | returns the smallest row with the bit set in column `contained`, or -1 when the column is empty |
| Parsimony.BuildContainment | MqUtil/Ms/Utils/PepUtils.cs:90-99 | the matrix is n by n, and cell (i, j) is set iff i ≠ j, the taxa agree (when splitting) and every peptide of j occurs in i |
| Parsimony.ClearProtein | MqUtil/Ms/Utils/PepUtils.cs:117-120 | every cell in row and column `x` is cleared, and the other cells are untouched |
| Parsimony.FindContained | MqUtil/Ms/Utils/PepUtils.cs:105-116 | finds the smallest column at or after `start` that has a set cell, and the smallest row setting it; or reports that no column from `start` on has a set cell |
| Parsimony.Absorb | MqUtil/Ms/Utils/PepUtils.cs:117-126 | one merge: the matrix loses row and column `contained`; `contained`'s ids are appended after the container's; `contained`'s ids, peptides and flags are emptied |
| Parsimony.MoveIds | MqUtil/Ms/Utils/PepUtils.cs:125-126 | a merge preserves the multiset of all protein ids |
| Parsimony.AbsorbStep | MqUtil/Ms/Utils/PepUtils.cs:117-128 | a merge on a set cell keeps the loop invariant, and the number of set cells strictly decreases |
| Parsimony.AbsorbOne | MqUtil/Ms/Utils/PepUtils.cs:117-128 | a merge keeps the loop invariant against the initial lists, and strictly shrinks the set cells |
| Parsimony.AbsorbNext | MqUtil/Ms/Utils/PepUtils.cs:104-128 | one iteration of the inner loop: either it merges and moves `start` past the contained entry, losing cells, or nothing is left from `start` on; a scan from 0 that finds nothing means the matrix is empty |
| Parsimony.AbsorbPass | MqUtil/Ms/Utils/PepUtils.cs:101-129 | one pass keeps the invariant; a count of 0 means the matrix is empty, any other count means it lost cells |
| Parsimony.AbsorbAll | MqUtil/Ms/Utils/PepUtils.cs:100-130 | the do-while loop ends with an empty matrix; every absorbed entry is empty and contained in a surviving one; survivors keep their peptides, flags and first ids; protein ids are conserved; every id of a surviving entry comes from that entry or from one it contains, and each original entry's ids sit together in one surviving entry that contains it |
| Parsimony.OriginsStep | MqUtil/Ms/Utils/PepUtils.cs:121-126 | appending the contained entry's ids to its container keeps both facts: ids come only from contained entries, and each original entry's ids stay together in a live entry containing it |
| Parsimony.SortPeptides | MqUtil/Ms/Utils/PepUtils.cs:83-89 | each entry's peptides come out ascending, and its flags are permuted along with them |
| Parsimony.WithPeptidesIncreasing | MqUtil/Ms/Utils/PepUtils.cs:131-136 | the indices kept by compaction are strictly increasing |
| Parsimony.WithPeptidesMembers | MqUtil/Ms/Utils/PepUtils.cs:131-136 | an index is kept iff its peptide list is non-empty |
| Parsimony.WithPeptidesIds | MqUtil/Ms/Utils/PepUtils.cs:131-141 | the ids of kept entries are a sub-multiset of all ids, and all of them when no id sits in an entry without peptides |
| Parsimony.KeepWithPeptides | MqUtil/Ms/Utils/PepUtils.cs:131-141 | compaction keeps exactly the entries with peptides, in order, with the three parallel lists sliced alike; ids are lost only from entries without peptides |
| Parsimony.ClusterProteins | MqUtil/Ms/Utils/PepUtils.cs:71-142 | survivors have sorted non-empty peptides and flags permuted along; each survivor's id list starts with its own ids; no survivor contains another; every dropped entry that had peptides is contained in a survivor; no protein id is invented, and none is lost when every entry has peptides; each id in a survivor comes from that survivor or an entry it contains; each entry with peptides has all its ids in one survivor that is it or contains it; with duplicate-free ids, a survivor holding one id of an entry holds all of them |
| Parsimony.SurvivorOrigins | MqUtil/Ms/Utils/PepUtils.cs:121-141 | after the loop and compaction, the survivors' ids come from entries they contain, each entry with peptides is held whole by one survivor, and (with duplicate-free ids) an entry's ids are never split between survivors |
| Parsimony.Survivors | MqUtil/Ms/Utils/PepUtils.cs:100-141 | after the loop and compaction, no two survivors are in containment, and every entry that was absorbed is contained in a survivor |
| Parsimony.ClusteredKeepsFirst | MqUtil/Ms/Utils/PepUtils.cs:125-138 | each survivor keeps its first protein and that protein's peptides |
| Parsimony.ClusteredNamesOnce | MqUtil/Ms/Utils/PepUtils.cs:125-137 | after clustering, no protein is named twice and every name is a protein of the input |
| Parsimony.ClusteredAntichain | MqUtil/Ms/Utils/PepUtils.cs:100-130 | the peptide sets of the surviving entries form an antichain within each taxon |
| Parsimony.ClusteredNamesAll | MqUtil/Ms/Utils/PepUtils.cs:131-141 | when every protein has a peptide, every protein is named in some survivor |
| Parsimony.ClusterEntries | MqUtil/Ms/Utils/PepUtils.cs:169 | clustering the pre-clustered entries: names once, peptides of the first member, no entry contains another, all proteins named when all have peptides; where each name came from and which survivor holds each entry's names |
| Parsimony.ClusteredMembers | MqUtil/Ms/Utils/PepUtils.cs:121-126 | every protein named in a final entry has a peptide set inside that of the entry's first protein, and the same taxon when splitting |
| Parsimony.AbsorbedFirst | MqUtil/Ms/Utils/PepUtils.cs:90-99 | when entry `y` absorbs entry `z`, `z`'s first protein's peptide set lies inside `y`'s, with the same taxon when splitting |
| Parsimony.ClusteredIdentical | MqUtil/Ms/Utils/PepUtils.cs:121-141 | proteins with identical peptide sets (and taxa) still share an entry after clustering |
| Parsimony.ClusteredNamesNonempty | MqUtil/Ms/Utils/PepUtils.cs:121-141 | every protein with at least one peptide is named in some final entry |
| Parsimony.ClusteredGrouping | MqUtil/Ms/Utils/PepUtils.cs:164-171 | identical sets share an entry; with well-formed sets, members lie inside their entry's first protein and every protein with a peptide is named |
| Parsimony.FlagsOfAscendingEntries | MqUtil/Ms/Utils/PepUtils.cs:83-88 | re-sorting peptides that are already ascending leaves the flags as they are |
| Parsimony.GetProteinAndPeptideLists | MqUtil/Ms/Utils/PepUtils.cs:164-171 | the final entries name each protein at most once; each has the peptides of its first protein, with that protein's flag for each peptide; no entry's peptide set lies inside another's of the same taxon; proteins with identical peptide sets (and taxa) share an entry; with well-formed peptide sets, every member's peptide set lies inside its entry's first protein's (same taxon when splitting), and every protein with a peptide is named |
| Parsimony.GetProteinAndPeptideListsFromSets | MqUtil/Ms/Utils/PepUtils.cs:172-192 | the set-valued overloads: the same guarantees, without flags |
| NonredGroups.Signatures | MqUtil/Ms/Utils/PepUtils.cs:358-366 | one signature per protein |
| NonredGroups.ConcatenatePeptides | MqUtil/Ms/Utils/PepUtils.cs:320-328 | each signature is the '\|'-joined peptide list, prefixed with the taxonomy id and '\|' when splitting |
| NonredGroups.JoinInjective | MqUtil/Ms/Utils/PepUtils.cs:361 | without '\|' inside peptides and without empty peptides, equal joined strings come from equal lists |
| NonredGroups.SignatureInjective | MqUtil/Ms/Utils/PepUtils.cs:361-365 | under those conditions, two signatures are equal iff the peptide lists are equal and, when splitting, the taxa are equal |
| NonredGroups.SeparatorInPeptideCollides | MqUtil/Ms/Utils/PepUtils.cs:361 | two different peptide lists can share a signature when a peptide contains '\|' |
| NonredGroups.EmptyPeptideCollides | MqUtil/Ms/Utils/PepUtils.cs:361 | two different peptide lists can share a signature when a peptide is empty |
| NonredGroups.SignaturesMatchPeptideKeys | MqUtil/Ms/Utils/PepUtils.cs:358-366 | under those conditions, grouping by signature is the same relation as grouping by (peptide list, taxon) |
| NonredGroups.TogetherIffSameKey | MqUtil/Ms/Utils/PepUtils.cs:285-384 | in a partition grouped by key, two proteins share a group iff their keys are equal |
| NonredGroups.SamePartition | MqUtil/Ms/Utils/PepUtils.cs:285-384 | two partitions grouped by keys that induce the same equality put the same proteins together |
| NonredGroups.CollectEqual | MqUtil/Ms/Utils/PepUtils.cs:337-350 | the group opened at `i` holds, ascending, exactly the proteins from `i` on with `i`'s key, and marks them taken |
| NonredGroups.GroupEqualKeys | MqUtil/Ms/Utils/PepUtils.cs:329-353 | the quadratic scan returns a partition grouped by key, each group ascending, groups ordered by smallest member |
| NonredGroups.FirstOccurrenceGroupsPartition | MqUtil/Ms/Utils/PepUtils.cs:329-353 | groups opened at each key's first occurrence cover every protein exactly once |
| NonredGroups.GetNonredGroupIndsOld | MqUtil/Ms/Utils/PepUtils.cs:285-316 | a partition in which two proteins share a group iff their peptide lists (and taxa, when splitting) are equal; groups ascending and ordered by smallest member |
| NonredGroups.GetNonredGroupInds | MqUtil/Ms/Utils/PepUtils.cs:317-354 | a partition in which two proteins share a group iff their signatures are equal; groups ascending and ordered by smallest member |
| NonredGroups.CutAtKeyChanges | MqUtil/Ms/Utils/PepUtils.cs:368-383 | cutting a sorted order where the key changes gives a partition grouped by key, groups in ascending key order |
| NonredGroups.FinishCuts | MqUtil/Ms/Utils/PepUtils.cs:382 | closing the last group leaves every group with one key, groups in strictly ascending key order |
| NonredGroups.FlattenPermutationPartition | MqUtil/Ms/Utils/PepUtils.cs:368-383 | non-empty groups that concatenate to a permutation of 0..n-1 form a partition |
| NonredGroups.GetNonredGroupInds2 | MqUtil/Ms/Utils/PepUtils.cs:355-384 | a partition in which two proteins share a group iff their signatures are equal, groups in ascending signature order |
| NonredGroups.OldAndSortedAgree | MqUtil/Ms/Utils/PepUtils.cs:285-384 | without '\|' in peptides or taxa and without empty peptides, the sorted version and the old quadratic version put the same proteins together |
| StringOrder.LessIsStrictTotalOrder | MqUtil/Ms/Utils/PepUtils.cs:367 | the ordinal string order is irreflexive, asymmetric, transitive and total |
| StringOrder.Order | MqUtil/Ms/Utils/PepUtils.cs:84-85 | `Order` is a permutation of the indices |
| StringOrder.OrderSorts | MqUtil/Ms/Utils/PepUtils.cs:84-85 | selecting by `Order` lists the keys in ascending order |
| StringOrder.OrderOfAscending | MqUtil/Ms/Utils/PepUtils.cs:269-270 | on an already ascending list, `Order` is the identity |
| StringOrder.InsertIndexSorted | MqUtil/Ms/Utils/PepUtils.cs:84 | inserting an index into an order sorted by key keeps it sorted |
| StringOrder.InsertIndexMultiset | MqUtil/Ms/Utils/PepUtils.cs:84 | inserting an index adds exactly that index |
| StringOrder.SortStringsCorrect | MqUtil/Ms/Utils/PepUtils.cs:263 | `Array.Sort` gives an ascending list with the same members, and leaves an ascending list unchanged |
| StringOrder.StrictlyAscendingUnique | MqUtil/Ms/Utils/PepUtils.cs:204 | two strictly ascending lists with the same members are equal |
| ProteinLists.TaxonomyIds | MqUtil/Ms/Utils/PepUtils.cs:243-250 | each protein's taxonomy id at the chosen rank, or "-1" when unknown |
| ProteinLists.NameOrderedFacts | MqUtil/Ms/Utils/PepUtils.cs:254-258 | re-ordering a group by name keeps its members and lists their names ascending |
| ProteinLists.ReorderedGrouping | MqUtil/Ms/Utils/PepUtils.cs:254-258 | re-ordering inside groups keeps a partition grouped by key |
| ProteinLists.NameOrderedGrouping | MqUtil/Ms/Utils/PepUtils.cs:254-264 | after re-ordering, each group's names are ascending, so the later `Array.Sort` changes nothing |
| ProteinLists.OrderGroupsByName | MqUtil/Ms/Utils/PepUtils.cs:254-258 | every group is re-ordered by protein name |
| ProteinLists.GroupNames | MqUtil/Ms/Utils/PepUtils.cs:260-264 | each entry's names are the sorted names of its group |
| ProteinLists.FirstMemberPeptides | MqUtil/Ms/Utils/PepUtils.cs:266-271 | each entry's peptides are the sorted peptides of its first member |
| ProteinLists.FirstMemberFlags | MqUtil/Ms/Utils/PepUtils.cs:273-281 | each entry's flags are those of its first member, taken in the `Order` of the entry's peptides, which are already sorted |
| ProteinLists.GroupFlagsUnpermuted | MqUtil/Ms/Utils/PepUtils.cs:273-281 | because that order is computed on the sorted peptides, it is the identity: the flags are the first member's flags in their original order, cut to the peptide count |
| ProteinLists.CreateProteinAndPeptideLists2 | MqUtil/Ms/Utils/PepUtils.cs:238-284 | groups partition the proteins by signature; each entry lists its group's names ascending, the sorted peptides of its first member, and that member's flags in their original order, cut to the peptide count (so they line up with the peptides only when that member's peptides were already ascending) |
| ProteinLists.PeptideSets | MqUtil/Ms/Utils/PepUtils.cs:203 | each protein's peptide set is the key set of its peptide-to-flag map |
| ProteinLists.KeysOf | MqUtil/Ms/Utils/PepUtils.cs:199 | the key array lists every protein exactly once |
| ProteinLists.ElementsOf | MqUtil/Ms/Utils/PepUtils.cs:220 | a set's array lists each peptide exactly once |
| ProteinLists.SortDistinct | MqUtil/Ms/Utils/PepUtils.cs:204 | sorting a list without repeats gives a strictly ascending list of the same members, whose `Order` is the identity |
| ProteinLists.FlagsOf | MqUtil/Ms/Utils/PepUtils.cs:205-208 | each flag is the map's byte for the peptide at that position |
| ProteinLists.SortedPeptideFlags | MqUtil/Ms/Utils/PepUtils.cs:203-208 | a protein's peptides are sorted, and its flags are aligned with them |
| ProteinLists.SortedPeptidesAndFlags | MqUtil/Ms/Utils/PepUtils.cs:199-209 | every protein's sorted peptides and aligned flags |
| ProteinLists.ByNamePartition | MqUtil/Ms/Utils/PepUtils.cs:255-264 | every protein is named in exactly one entry |
| ProteinLists.ByNamePeptides | MqUtil/Ms/Utils/PepUtils.cs:262-271 | each entry's peptides are those of its first-named protein |
| ProteinLists.SameSetSameEntry | MqUtil/Ms/Utils/PepUtils.cs:252 | proteins with the same peptide set (and taxon, when splitting) share an entry |
| ProteinLists.ByNameAgree | MqUtil/Ms/Utils/PepUtils.cs:252-264 | proteins sharing an entry have the same peptide set (and taxon, when splitting) |
| ProteinLists.CreateProteinAndPeptideLists | MqUtil/Ms/Utils/PepUtils.cs:196-211 | the names partition the proteins; each entry has the peptides of its first protein with their flags; proteins share an entry iff their peptide sets (and taxa) agree |
| ProteinLists.CreateProteinAndPeptideListsFromSets | MqUtil/Ms/Utils/PepUtils.cs:212-237 | the same for the set-valued overloads, without flags |
| DependentMods.FilterMembers | MqUtil/Ms/Utils/PepUtils.cs:36-70 | a modification is selected iff it is a variable modification the selector accepts |
| DependentMods.FilterAppend | MqUtil/Ms/Utils/PepUtils.cs:38-43 | filtering a concatenation filters each part, in order |
| DependentMods.HasSite | MqUtil/Ms/Utils/PepUtils.cs:45-52 | true iff some site has the residue |
| DependentMods.SelectMods | MqUtil/Ms/Utils/PepUtils.cs:36-70 | the selected modifications, in input order |
| DependentMods.DependentModsMembers | MqUtil/Ms/Utils/PepUtils.cs:24-35 | isotopic label: none; C-terminal label: the C-terminal mods; N-terminal label: the N-terminal mods; otherwise the internal, non-isotopic mods with a site at the label's first residue, or none without residues |
| DependentMods.CreateDependentModsFor | MqUtil/Ms/Utils/PepUtils.cs:24-35 | computes that selection for one label |
| DependentMods.DependentRow | MqUtil/Ms/Utils/PepUtils.cs:14-20 | one row of labels gets one selection per label, and raises the flag iff a selection is non-empty |
| DependentMods.CreateDependentMods | MqUtil/Ms/Utils/PepUtils.cs:9-23 | the result has the shape of the labels, holds each label's selection, and the flag is true iff some selection is non-empty |
| TextFilter.AnyWordMatches | PerseusPluginLib/Filter/FilterTextualColumn.cs:66-71 | true iff some word matches |
| TextFilter.Matches | PerseusPluginLib/Filter/FilterTextualColumn.cs:61-72 | a null cell never matches; otherwise the cell matches iff some ';'-separated word matches |
| TextFilter.WholeWordIsSubstring | PerseusPluginLib/Filter/FilterTextualColumn.cs:78-80 | a whole-word match is also a substring match |
| TextFilter.BlankSearchMatchesWord | PerseusPluginLib/Filter/FilterTextualColumn.cs:74-80 | a whitespace-only search string matches every word in substring mode |
| TextFilter.BlankSearchMatchesCell | PerseusPluginLib/Filter/FilterTextualColumn.cs:38-80 | a whitespace-only search string passes the guard and matches every non-null cell in substring mode |
| TextFilter.ToUpperAllWhiteSpace | PerseusPluginLib/Filter/FilterTextualColumn.cs:74-77 | upper-casing keeps a blank string blank |
| TextFilter.SingleWordCell | PerseusPluginLib/Filter/FilterTextualColumn.cs:61-80 | a cell without ';' matches iff it matches as one word |
| TextFilter.JoinedCell | PerseusPluginLib/Filter/FilterTextualColumn.cs:61-80 | a cell made of ';'-joined words matches iff one of those words matches |
| TextFilter.KeptFlags | PerseusPluginLib/Filter/FilterTextualColumn.cs:47-54 | a row is kept iff it matches exactly when matching rows are kept |
| TextFilter.PartitionRows | PerseusPluginLib/Filter/FilterTextualColumn.cs:38-55 | an empty search string without whole-word matching is the error, with its message; otherwise every row goes to exactly one of the kept and removed lists, both ascending |
| TextFilter.ModesSwapSides | PerseusPluginLib/Filter/FilterTextualColumn.cs:47-54 | switching between keeping and removing matching rows swaps the kept and removed lists exactly |
| TextFilter.MatchesItself | PerseusPluginLib/Filter/FilterTextualColumn.cs:73-81 | every word matches itself, in every mode |
| TextFilter.MatchesWordIgnoresCase | PerseusPluginLib/Filter/FilterTextualColumn.cs:74-77 | without case matching, upper- or lower-casing the word or the search string does not change the answer |
| TextFilter.MatchesWordIgnoresPadding | PerseusPluginLib/Filter/FilterTextualColumn.cs:78-80 | white space around the word or around the search string does not change the answer |
| Text.JoinSplit | PerseusPluginLib/Filter/FilterTextualColumn.cs:65 | joining the pieces of a split gives back the string |
| Text.SplitJoin | PerseusPluginLib/AnnotRows/ManageCategoricalAnnotRow.cs:176 | splitting pieces joined without the separator gives back the pieces |
| Text.SplitPiecesFree | PerseusPluginLib/Filter/FilterTextualColumn.cs:65 | no piece of a split contains the separator |
| Text.TrimBlank | PerseusPluginLib/Filter/FilterTextualColumn.cs:78-79 | trimming gives "" iff the string is whitespace only |
| Text.TrimPadded | PerseusPluginLib/Filter/FilterTextualColumn.cs:78-79 | a leading or trailing white-space character does not change the trim |
| Text.ToUpperCased | PerseusPluginLib/Filter/FilterTextualColumn.cs:74-77 | upper-casing is idempotent and erases a prior lower-casing |
| Text.TrimUnchanged | PerseusPluginLib/AnnotRows/ManageCategoricalAnnotRow.cs:104-111 | a string without outer whitespace is its own trim |
| CategoricalAnnotRows.GetNameIndex | PerseusPluginLib/AnnotRows/ManageCategoricalAnnotRow.cs:138-145 | the first column whose lower-cased name is "name", or -1 iff there is none |
| CategoricalAnnotRows.ColumnIndices | PerseusPluginLib/AnnotRows/ManageCategoricalAnnotRow.cs:122-137 | the ascending indices other than the name column whose name does (numeric) or does not (categorical) end in "[n]" |
| CategoricalAnnotRows.ColumnIndicesPartition | PerseusPluginLib/AnnotRows/ManageCategoricalAnnotRow.cs:122-137 | the two lists together cover every column except the name column |
| CategoricalAnnotRows.SplitColNames | PerseusPluginLib/AnnotRows/ManageCategoricalAnnotRow.cs:122-137 | the categorical and numeric column names, each in column order |
| CategoricalAnnotRows.CheckHeader | PerseusPluginLib/AnnotRows/ManageCategoricalAnnotRow.cs:74-80 | a missing Name column is reported first; then fewer than two columns; otherwise no error and the name column's index |
| CategoricalAnnotRows.TrimAll | PerseusPluginLib/AnnotRows/ManageCategoricalAnnotRow.cs:110-112 | a pure function: the list of the pieces' trims, one per piece |
| CategoricalAnnotRows.TrimEach | PerseusPluginLib/AnnotRows/ManageCategoricalAnnotRow.cs:110-112 | the array afterwards holds the trimmed pieces |
| CategoricalAnnotRows.ParseCategoryCell | PerseusPluginLib/AnnotRows/ManageCategoricalAnnotRow.cs:103-114 | computes the parsed cell: null is "", blank gives no values, otherwise split on ';', sorted, then trimmed |
| CategoricalAnnotRows.ParsedCellMembers | PerseusPluginLib/AnnotRows/ManageCategoricalAnnotRow.cs:103-114 | a blank cell gives no values; otherwise one value per piece, and the values are exactly the trimmed pieces |
| CategoricalAnnotRows.ParsedCellTrimmed | PerseusPluginLib/AnnotRows/ManageCategoricalAnnotRow.cs:108-113 | every value has no outer whitespace |
| CategoricalAnnotRows.ParsedCellNotSorted | PerseusPluginLib/AnnotRows/ManageCategoricalAnnotRow.cs:108-113 | sorting before trimming can leave the values unsorted: "a; z" gives ["z", "a"] |
| CategoricalAnnotRows.ColumnCellOf | PerseusPluginLib/AnnotRows/ManageCategoricalAnnotRow.cs:97-114 | computes one column's cell |
| CategoricalAnnotRows.ColumnCellCases | PerseusPluginLib/AnnotRows/ManageCategoricalAnnotRow.cs:97-114 | a column missing from the file gets no values; a non-blank cell gives one value per ';'-piece |
| CategoricalAnnotRows.CategoryColumn | PerseusPluginLib/AnnotRows/ManageCategoricalAnnotRow.cs:95-115 | one parsed cell per matrix column, in column order |
| CategoricalAnnotRows.CategoryRowName | PerseusPluginLib/AnnotRows/ManageCategoricalAnnotRow.cs:116-119 | a name is changed only when it ends in "[c]" in any case, and then it loses at least those 3 characters |
| CategoricalAnnotRows.CategoryRowNameOfMarked | PerseusPluginLib/AnnotRows/ManageCategoricalAnnotRow.cs:116-119 | a trimmed name followed by "[c]" or "[C]" gives back the name |
| CategoricalAnnotRows.SplitValue | PerseusPluginLib/AnnotRows/ManageCategoricalAnnotRow.cs:212 | an empty value and only an empty value gives no categories |
| CategoricalAnnotRows.SplitValueJoin | PerseusPluginLib/AnnotRows/ManageCategoricalAnnotRow.cs:200 | joining the split value with ';' gives back the value shown in the edit dialog |
| CategoricalAnnotRows.SplitValueOfJoined | PerseusPluginLib/AnnotRows/ManageCategoricalAnnotRow.cs:176 | editing a row with its unchanged dialog value gives back the row, for categories without ';' other than a lone "" |
| CategoricalAnnotRows.ValuesRow | PerseusPluginLib/AnnotRows/ManageCategoricalAnnotRow.cs:208-213 | one split value per column, in column order |
| CategoricalAnnotRows.GroupNamesRow | PerseusPluginLib/AnnotRows/ManageCategoricalAnnotRow.cs:244-253 | each column gets exactly one value: the derived group name, or the sample name when that is empty |
| CategoricalAnnotRows.CategoryRows.constructor | PerseusPluginLib/AnnotRows/ManageCategoricalAnnotRow.cs:92-120 | a matrix with the given column names and no category rows |
| CategoricalAnnotRows.CategoryRows.Add | PerseusPluginLib/AnnotRows/ManageCategoricalAnnotRow.cs:120 | appends one row with its name and description |
| CategoricalAnnotRows.CategoryRows.Create | PerseusPluginLib/AnnotRows/ManageCategoricalAnnotRow.cs:205-215 | appends a row named and described by `name`, whose cells are the split values |
| CategoricalAnnotRows.CategoryRows.Edit | PerseusPluginLib/AnnotRows/ManageCategoricalAnnotRow.cs:167-179 | replaces one row's cells by the split values and leaves names, descriptions and other rows unchanged |
| CategoricalAnnotRows.CategoryRows.Rename | PerseusPluginLib/AnnotRows/ManageCategoricalAnnotRow.cs:156-162 | changes one row's name and description only |
| CategoricalAnnotRows.CategoryRows.Delete | PerseusPluginLib/AnnotRows/ManageCategoricalAnnotRow.cs:163-166 | removes one row with its name and description, keeping the others in order |
| CategoricalAnnotRows.CategoryRows.CreateFromGroupNames | PerseusPluginLib/AnnotRows/ManageCategoricalAnnotRow.cs:244-254 | appends a row with an empty description whose cells each hold one group name, falling back to the sample name |
| CategoricalAnnotRows.CategoryRows.AddFromFile | PerseusPluginLib/AnnotRows/ManageCategoricalAnnotRow.cs:92-121 | appends a row named and described by the cleaned column name, with one parsed cell per matrix column |
| EmptyColumns.IsInvalidStringColumn | PerseusPluginLib/Rearrange/RemoveEmptyColumns.cs:104-111 | true iff every entry is null or "" (so a column without rows is invalid) |
| EmptyColumns.IsInvalidListColumn | PerseusPluginLib/Rearrange/RemoveEmptyColumns.cs:112-127 | true iff every entry is null or has length zero; values are never looked at |
| EmptyColumns.IsInvalidNumberColumn | PerseusPluginLib/Rearrange/RemoveEmptyColumns.cs:128-143 | true iff every value is NaN or infinite |
| EmptyColumns.IsInvalid | PerseusPluginLib/Rearrange/RemoveEmptyColumns.cs:104-143 | a column is invalid iff it has no value by its family's rule |
| EmptyColumns.NoRowsNoValue | PerseusPluginLib/Rearrange/RemoveEmptyColumns.cs:104-143 | a column without rows is invalid in every family |
| EmptyColumns.NaNListIsValue | PerseusPluginLib/Rearrange/RemoveEmptyColumns.cs:120-127 | a multi-numeric cell holding only NaN still counts as a value |
| EmptyColumns.ValidIndices | PerseusPluginLib/Rearrange/RemoveEmptyColumns.cs:59-103 | strictly ascending indices of exactly the columns with a value |
| EmptyColumns.GetValidColumns | PerseusPluginLib/Rearrange/RemoveEmptyColumns.cs:59-103 | computes the valid indices of a family |
| EmptyColumns.ValidIndicesFull | PerseusPluginLib/Rearrange/RemoveEmptyColumns.cs:35-53 | all columns are valid iff the index list is as long as the family, and then it is 0..n-1 |
| EmptyColumns.CleanedKeepsValues | PerseusPluginLib/Rearrange/RemoveEmptyColumns.cs:35-57 | whether or not a family is rewritten, it ends up holding exactly its columns with a value, in order, each with its own name and description |
| EmptyColumns.PruneIfInvalid | PerseusPluginLib/Rearrange/RemoveEmptyColumns.cs:38-42 | a family is sliced only when some column is invalid |
| EmptyColumns.TextBranchAsWrittenBreaksFamilies | PerseusPluginLib/Rearrange/RemoveEmptyColumns.cs:53-57 | with one expression column and one empty text column, the code as written leaves the text family with a description but no column, and the expression column without a description |
| EmptyColumns.TextBranchIntended | PerseusPluginLib/Rearrange/RemoveEmptyColumns.cs:53-57 | the corrected text branch keeps, at each position, the column, name and description of the matching valid text column; it slices columns and names as written; when every text column has a value both branches leave the text family alone, otherwise the as-written branch leaves names and descriptions of different lengths |
| EmptyColumns.MatrixData.constructor | PerseusPluginLib/Rearrange/RemoveEmptyColumns.cs:28-29 | holds the five column families |
| EmptyColumns.MatrixData.ProcessData | PerseusPluginLib/Rearrange/RemoveEmptyColumns.cs:28-57 | every family, text included, is replaced by its cleaned version, so all five stay aligned |

## Left out

- I/O and host state are outside the model: file reading and writing (`TabSep`, `StreamWriter`), `Responder` progress calls, `ProcessInfo` and the supplementary tables of the filter mode, and row filtering on the host matrix (`FilterRowsNew`). The model returns the kept and removed row lists instead.
- `ProteinSet.Get`, `TaxonomyItems` and `GetTaxonomyIdOfRank` are not part of this model. They become a map from protein id to taxonomy id at the chosen rank.
- String comparison and case mapping: the model orders strings ordinally by character code instead of .NET's culture-aware comparer. It maps case for ASCII letters only. `Trim` uses a fixed whitespace set (space, tab, line feed, carriage return, vertical tab, form feed, next line and no-break space), not the full Unicode set.
- `ArrayUtils.Order` is modelled as a stable insertion sort of indices, and `Array.Sort` as selection by that order. Only the sort's result is modelled, not its algorithm.
- Set and dictionary enumeration order is not modelled. Keys and set elements come out in some duplicate-free order.
- Regular-expression matching in "create from experiment names" is not modelled. The derived group names are an input; the empty-name fallback is modelled.
- The `GetParameters`/`GetEditParameters` dialog builders are left out, beyond the ';'-join round trip of the edit dialog's values.
- The numeric annotation rows read by `ManageNumericalAnnotRow.AddNumericRow` and the "write template file" action are left out (file I/O).
- `PerseusPluginUtils.GetCategoryColumns` and `ExtractColumns` are not part of this model. Each is taken to slice its family like `SubList`; the expression matrix's other layers are not modelled.
- The null search string is not modelled (strings are never null here). The guard treats "" as the null-or-empty case.
- The `HashSet` and `ISet` overloads of `GetProteinAndPeptideLists` and `CreateProteinAndPeptideLists` share one model each, because their code is identical.
- `Modification` and `Modification2` are reduced to the fields `CreateDependentMods` reads. A `Modification2` built from a `Modification` is the same record.
- NonredGroups.GetNonredGroupInds2: requires at least one protein, because the source reads `o[0]` unconditionally and fails on empty input. For the same reason, `Parsimony.GetProteinAndPeptideLists`, `GetProteinAndPeptideListsFromSets`, `ProteinLists.CreateProteinAndPeptideLists`, `CreateProteinAndPeptideListsFromSets` and `CreateProteinAndPeptideLists2` require a non-empty input.
- NonredGroups.OldAndSortedAgree: holds only when no peptide or taxonomy id contains `|` and no peptide is empty. `SeparatorInPeptideCollides` and `EmptyPeptideCollides` show the collisions otherwise.
- ProteinLists.ByNameAgree: stated under well-formed peptide sets (no `|`, no empty peptide, `|`-free taxa), for the same reason.
- Parsimony.ClusterProteins: states that each surviving id list starts with its own ids, which survivor receives each entry's ids, and that ids are conserved as a multiset. It does not state the order in which absorbed lists are appended after the survivor's own ids. Merged lists are not re-sorted in the source either.
- Parsimony.GetProteinAndPeptideLists and GetProteinAndPeptideListsFromSets: "members lie inside the first member" and "every protein with a peptide is named" are stated for well-formed peptide sets (no `|`, no empty peptide, `|`-free taxa), because the signature grouping below it can merge different lists otherwise.
- ProteinLists.CreateProteinAndPeptideLists2: the flags are taken in the `Order` of the already sorted peptides, which is the identity, so they are not permuted along with the peptides. The dictionary overload passes peptides that are already ascending, so its flags stay aligned; a direct caller with unsorted peptides would get misaligned flags. The model states this behaviour and does not correct it.
- Parsimony.ClusterProteins: when an entry without peptides is never absorbed, its protein ids are dropped, as in the source. The multiset guarantee is therefore stated as "no id invented", and "none lost" only when every entry has peptides.
- Parsimony.ClusterProteins: when splitting by taxonomy, it requires every entry to have a protein id, because the source reads `proteinIds[i][0]` for every entry.
- Integer widths are not modelled: counts and indices are unbounded.

## Findings

| source | as written | input that shows it | evidently intended | confidence | as-written member | corrected member |
|---|---|---|---|---|---|---|
| PerseusPluginLib/Rearrange/RemoveEmptyColumns.cs:56 | the sliced text-column descriptions are stored into `ColumnDescriptions` (the expression columns' descriptions), and `StringColumnDescriptions` is left unsliced | one expression column with a value and one text column whose only cell is null: the text family keeps one description for zero columns, and the expression family has one column and zero descriptions | `StringColumnDescriptions` sliced with the same indices as the text columns and names | not executed | EmptyColumns.TextBranchAsWrittenBreaksFamilies | EmptyColumns.MatrixData.ProcessData |
