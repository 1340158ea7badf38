/**
 * Protein clustering by peptide containment (MqUtil/Ms/Utils/PepUtils.cs):
 * after proteins with identical peptide sets share an entry, an entry
 * whose peptides all occur in another entry (of the same taxon, when
 * splitting by taxonomy) is absorbed by it. The containment relation is
 * computed once, into an `IndexedBitMatrix`, and the absorptions repeat
 * until no bit is left.
 */
module Parsimony {
  import opened Wrappers
  import opened Seqs
  import opened StringOrder
  import opened BitMatrix
  import opened ProteinLists

  // ---------------------------------------------------------------------
  // Peptide containment

  /**
   * `Array.BinarySearch` on a list sorted by the ordinal order: a
   * non-negative result is a position of `x`; a negative one is the
   * complement of the position where `x` would be inserted, and `x` does
   * not occur.
   */
  method BinarySearch(a: seq<string>, x: string) returns (index: int)
    requires Ascending(a)
    ensures 0 <= index ==> index < |a| && a[index] == x
    ensures index < 0 ==> x !in a && -index - 1 <= |a|
  {
    var lo, hi := 0, |a|;
    while lo < hi
      invariant 0 <= lo <= hi <= |a|
      invariant forall k :: 0 <= k < lo ==> a[k] != x
      invariant forall k :: hi <= k < |a| ==> a[k] != x
      decreases hi - lo
    {
      var mid := lo + (hi - lo) / 2;
      if a[mid] == x {
        return mid;
      } else if Less(a[mid], x) {
        forall k | 0 <= k <= mid
          ensures a[k] != x
        {
          if k < mid {
            assert !Less(a[mid], a[k]);
          }
        }
        lo := mid + 1;
      } else {
        LessTotal(a[mid], x);
        forall k | mid <= k < |a|
          ensures a[k] != x
        {
          if mid < k {
            assert !Less(a[k], a[mid]);
          }
        }
        hi := mid;
      }
    }
    return -lo - 1;
  }

  /** Every peptide of `p2` is one of `p1`, and `p2` is not the longer list. */
  predicate ContainsAll(p1: seq<string>, p2: seq<string>)
  {
    |p2| <= |p1| && forall x :: x in p2 ==> x in p1
  }

  /** `Contains(p1, p2)`: a length check, then a binary search in `p1` for each peptide of `p2`. */
  method Contains(p1: seq<string>, p2: seq<string>) returns (r: bool)
    requires Ascending(p1)
    ensures r == ContainsAll(p1, p2)
  {
    if |p2| > |p1| {
      return false;
    }
    for k := 0 to |p2|
      invariant forall j :: 0 <= j < k ==> p2[j] in p1
    {
      var index := BinarySearch(p1, p2[k]);
      if index < 0 {
        return false;
      }
    }
    return true;
  }

  /** On a list without repeats, the length check is implied: containment is set inclusion. */
  lemma ContainsAllIsInclusion(p1: seq<string>, p2: seq<string>)
    requires Distinct(p2)
    ensures ContainsAll(p1, p2) <==> Elements(p2) <= Elements(p1)
  {
    if Elements(p2) <= Elements(p1) {
      forall x | x in p2
        ensures x in p1
      {
        assert x in Elements(p2);
      }
      DistinctIncludedShorter(p2, p1);
    }
  }

  /** Containment is transitive. */
  lemma ContainsAllTransitive(a: seq<string>, b: seq<string>, c: seq<string>)
    requires ContainsAll(a, b) && ContainsAll(b, c)
    ensures ContainsAll(a, c)
  {
  }

  // ---------------------------------------------------------------------
  // The containment relation between proteins

  /** The taxonomy id of each entry's first protein ("-1" for an entry without proteins). */
  function FirstTaxa(proteinIds: seq<seq<string>>, taxonomy: map<string, string>): (r: seq<string>)
    ensures |r| == |proteinIds|
    ensures forall i :: 0 <= i < |proteinIds| && proteinIds[i] != [] ==> r[i] == TaxonomyIdOf(taxonomy, proteinIds[i][0])
  {
    seq(|proteinIds|, i requires 0 <= i < |proteinIds| =>
      if proteinIds[i] == [] then "-1" else TaxonomyIdOf(taxonomy, proteinIds[i][0]))
  }

  /** The loop filling `taxIds` when splitting by taxonomy. */
  method FirstMemberTaxonomyIds(proteinIds: seq<seq<string>>, taxonomy: map<string, string>) returns (taxIds: seq<string>)
    requires forall i :: 0 <= i < |proteinIds| ==> proteinIds[i] != []
    ensures taxIds == FirstTaxa(proteinIds, taxonomy)
  {
    taxIds := [];
    for i := 0 to |proteinIds|
      invariant taxIds == FirstTaxa(proteinIds, taxonomy)[..i]
    {
      var prot := proteinIds[i][0];
      var t := if prot in taxonomy then taxonomy[prot] else "-1";
      taxIds := taxIds + [t];
    }
  }

  /**
   * Entry `i` can absorb entry `j`: they differ, have the same taxon when
   * splitting, and every peptide of `j` is one of `i`.
   */
  predicate Absorbs(taxa: seq<string>, peps: seq<seq<string>>, split: bool, i: int, j: int)
  {
    && 0 <= i < |peps| && 0 <= j < |peps| && i != j
    && (split ==> i < |taxa| && j < |taxa| && taxa[i] == taxa[j])
    && ContainsAll(peps[i], peps[j])
  }

  /** The cells the containment matrix sets: (container, contained). */
  ghost function AbsorbPairs(taxa: seq<string>, peps: seq<seq<string>>, split: bool): set<(int, int)>
  {
    set i, j | 0 <= i < |peps| && 0 <= j < |peps| && Absorbs(taxa, peps, split, i, j) :: (i, j)
  }

  /** Pairs of distinct indices below `n`. */
  ghost predicate PairsWithin(pairs: set<(int, int)>, n: int)
  {
    forall p :: p in pairs ==> 0 <= p.0 < n && 0 <= p.1 < n && p.0 != p.1
  }

  ghost predicate Transitive(pairs: set<(int, int)>)
  {
    forall a, b, c :: (a, b) in pairs && (b, c) in pairs && a != c ==> (a, c) in pairs
  }

  /** The containment relation relates distinct entries and is transitive. */
  lemma AbsorbPairsFacts(taxa: seq<string>, peps: seq<seq<string>>, split: bool)
    ensures PairsWithin(AbsorbPairs(taxa, peps, split), |peps|)
    ensures Transitive(AbsorbPairs(taxa, peps, split))
  {
    var pairs := AbsorbPairs(taxa, peps, split);
    forall a, b, c | (a, b) in pairs && (b, c) in pairs && a != c
      ensures (a, c) in pairs
    {
      assert Absorbs(taxa, peps, split, a, b) && Absorbs(taxa, peps, split, b, c);
      ContainsAllTransitive(peps[a], peps[b], peps[c]);
      assert Absorbs(taxa, peps, split, a, c);
    }
  }

  // ---------------------------------------------------------------------
  // The matrix

  /** The first row whose bit in column `contained` is set, or -1. */
  method GetContainer(contained: int, contains: IndexedBitMatrix) returns (r: int)
    requires contains.Valid()
    ensures -1 <= r < contains.RowCount
    ensures r == -1 ==> forall i :: 0 <= i < contains.RowCount ==> !contains.Get(i, contained)
    ensures 0 <= r ==> contains.Get(r, contained) && forall i :: 0 <= i < r ==> !contains.Get(i, contained)
  {
    var n := contains.RowCount;
    for i := 0 to n
      invariant forall k :: 0 <= k < i ==> !contains.Get(k, contained)
    {
      if contains.Get(i, contained) {
        return i;
      }
    }
    return -1;
  }

  /** Fills an `n` by `n` matrix with the containment relation, skipping the diagonal. */
  method BuildContainment(peps: seq<seq<string>>, taxIds: seq<string>, split: bool, ghost taxa: seq<string>)
    returns (contains: IndexedBitMatrix)
    requires forall i :: 0 <= i < |peps| ==> Ascending(peps[i])
    requires split ==> taxIds == taxa && |taxa| == |peps|
    ensures fresh(contains) && fresh(contains.data) && contains.Valid()
    ensures contains.RowCount == |peps| && contains.ColumnCount == |peps|
    ensures contains.Bits() == AbsorbPairs(taxa, peps, split)
  {
    var n := |peps|;
    ghost var pairs := AbsorbPairs(taxa, peps, split);
    contains := new IndexedBitMatrix(n, n);
    for i := 0 to n
      invariant fresh(contains) && fresh(contains.data) && contains.Valid()
      invariant contains.RowCount == n && contains.ColumnCount == n
      invariant forall p :: p in contains.Bits() <==> p in pairs && p.0 < i
    {
      for j := 0 to n
        invariant fresh(contains) && fresh(contains.data) && contains.Valid()
        invariant contains.RowCount == n && contains.ColumnCount == n
        invariant forall p :: p in contains.Bits() <==> p in pairs && (p.0 < i || (p.0 == i && 0 <= p.1 < j))
      {
        if i == j {
          assert !Absorbs(taxa, peps, split, i, j);
          continue;
        }
        var v := false;
        if !split || taxIds[i] == taxIds[j] {
          v := Contains(peps[i], peps[j]);
        }
        assert v == Absorbs(taxa, peps, split, i, j);
        contains.Set(i, j, v);
      }
    }
  }

  /** Clears row and column `x`, one cell pair per row. */
  method ClearProtein(contains: IndexedBitMatrix, x: int)
    requires contains.Valid() && 0 <= x < contains.RowCount
    requires forall p :: p in contains.Bits() ==> 0 <= p.1 < contains.RowCount
    modifies contains.data
    ensures contains.Valid()
    ensures contains.Bits() == set p | p in old(contains.Bits()) && p.0 != x && p.1 != x
  {
    for i := 0 to contains.RowCount
      invariant contains.Valid()
      invariant contains.Bits() ==
        set p | p in old(contains.Bits()) && !(p.1 == x && p.0 < i) && !(p.0 == x && p.1 < i)
    {
      contains.Set(i, x, false);
      contains.Set(x, i, false);
    }
  }

  /**
   * The first column at or after `start` with a set bit, and the first row
   * setting it; `container` is -1 when there is none.
   */
  method FindContained(contains: IndexedBitMatrix, start: int) returns (container: int, contained: int)
    requires contains.Valid() && 0 <= start
    ensures container == -1 ==>
      forall r, c :: 0 <= r < contains.RowCount && start <= c < contains.RowCount ==> !contains.Get(r, c)
    ensures container != -1 ==>
      0 <= container < contains.RowCount && start <= contained < contains.RowCount && contains.Get(container, contained)
    ensures container != -1 ==>
      && (forall r, c :: 0 <= r < contains.RowCount && start <= c < contained ==> !contains.Get(r, c))
      && (forall r :: 0 <= r < container ==> !contains.Get(r, contained))
  {
    container := -1;
    contained := -1;
    var i := start;
    while i < contains.RowCount
      invariant start <= i
      invariant container == -1
      invariant forall r, c :: 0 <= r < contains.RowCount && start <= c < i ==> !contains.Get(r, c)
      decreases contains.RowCount - i
    {
      container := GetContainer(i, contains);
      if container != -1 {
        contained := i;
        return;
      }
      i := i + 1;
    }
  }

  // ---------------------------------------------------------------------
  // Absorbing until no containment is left

  /** Some entry not yet absorbed contains `x`. */
  ghost predicate HasContainer(pairs: set<(int, int)>, absorbed: set<int>, n: int, x: int)
  {
    exists y :: 0 <= y < n && y !in absorbed && (y, x) in pairs
  }

  /**
   * The state of the absorption loop against the initial lists and
   * relation: the matrix holds exactly the initial pairs between entries
   * not absorbed; an absorbed entry is emptied and some live entry
   * contains it; a live entry keeps its peptides and flags and its first
   * ids; no protein id is lost or duplicated.
   */
  ghost predicate Progress(n: nat, pairs: set<(int, int)>, ids0: seq<seq<string>>, peps0: seq<seq<string>>,
                           flags0: Option<seq<seq<byte>>>, bits: set<(int, int)>, ids: seq<seq<string>>,
                           peps: seq<seq<string>>, flags: Option<seq<seq<byte>>>, absorbed: set<int>)
  {
    && |ids0| == |peps0| == |ids| == |peps| == n
    && flags.Some? == flags0.Some?
    && (flags0.Some? ==> |flags0.value| == |flags.value| == n)
    && LiveBits(pairs, bits, absorbed)
    && Witnessed(pairs, absorbed, n)
    && ListsState(n, ids0, peps0, flags0, ids, peps, flags, absorbed)
    && multiset(Flatten(ids)) == multiset(Flatten(ids0))
    && Origins(pairs, ids0, ids, absorbed)
  }

  /** The parts of `Progress` that say where the ids went. */
  lemma ProgressFacts(n: nat, pairs: set<(int, int)>, ids0: seq<seq<string>>, peps0: seq<seq<string>>,
                      flags0: Option<seq<seq<byte>>>, bits: set<(int, int)>, ids: seq<seq<string>>,
                      peps: seq<seq<string>>, flags: Option<seq<seq<byte>>>, absorbed: set<int>)
    requires Progress(n, pairs, ids0, peps0, flags0, bits, ids, peps, flags, absorbed)
    ensures |ids0| == |peps0| == |ids| == |peps| == n
    ensures Origins(pairs, ids0, ids, absorbed)
    ensures multiset(Flatten(ids)) == multiset(Flatten(ids0))
    ensures forall y :: 0 <= y < n && y !in absorbed ==> peps[y] == peps0[y]
  {
  }

  /** Every id of `small` is in `big`. */
  ghost predicate Includes(big: seq<string>, small: seq<string>)
  {
    forall x :: x in small ==> x in big
  }

  /** Id `x` came from entry `y` itself or from an entry that `y` contains. */
  ghost predicate ComesFrom(pairs: set<(int, int)>, ids0: seq<seq<string>>, y: int, x: string)
  {
    exists z :: 0 <= z < |ids0| && x in ids0[z] && (z == y || (y, z) in pairs)
  }

  /** All the initial ids of entry `z` sit together in one live entry, `z` itself or one containing it. */
  ghost predicate HeldBy(pairs: set<(int, int)>, ids0: seq<seq<string>>, ids: seq<seq<string>>, absorbed: set<int>, z: int)
  {
    && 0 <= z < |ids0|
    && exists y :: 0 <= y < |ids| && y !in absorbed && (z == y || (y, z) in pairs) && Includes(ids[y], ids0[z])
  }

  /**
   * Where the ids went: each id of an entry came from an entry it
   * contains (or from itself), and each entry's initial ids moved,
   * together, to one entry that contains it (or stayed).
   */
  ghost predicate Origins(pairs: set<(int, int)>, ids0: seq<seq<string>>, ids: seq<seq<string>>, absorbed: set<int>)
  {
    && (forall y, x :: 0 <= y < |ids| && x in ids[y] ==> ComesFrom(pairs, ids0, y, x))
    && (forall z :: 0 <= z < |ids0| ==> HeldBy(pairs, ids0, ids, absorbed, z))
  }

  /** Before any absorption every id is where it started. */
  lemma OriginsStart(pairs: set<(int, int)>, ids0: seq<seq<string>>)
    ensures Origins(pairs, ids0, ids0, {})
  {
    forall y, x | 0 <= y < |ids0| && x in ids0[y]
      ensures ComesFrom(pairs, ids0, y, x)
    {
      assert x in ids0[y] && y == y;
    }
    forall z | 0 <= z < |ids0|
      ensures HeldBy(pairs, ids0, ids0, {}, z)
    {
      assert Includes(ids0[z], ids0[z]);
    }
  }

  /**
   * Moving the ids of `contained` into `container`, which contains it,
   * keeps track of where every id came from: the relation is transitive.
   */
  lemma OriginsStep(pairs: set<(int, int)>, ids0: seq<seq<string>>, ids: seq<seq<string>>, absorbed: set<int>,
                    container: int, contained: int)
    requires Origins(pairs, ids0, ids, absorbed) && Transitive(pairs)
    requires 0 <= container < |ids| && 0 <= contained < |ids| && container != contained
    requires (container, contained) in pairs && container !in absorbed
    ensures Origins(pairs, ids0, ids[container := ids[container] + ids[contained]][contained := []], absorbed + {contained})
  {
    var ids' := ids[container := ids[container] + ids[contained]][contained := []];
    var absorbed' := absorbed + {contained};
    forall y, x | 0 <= y < |ids'| && x in ids'[y]
      ensures ComesFrom(pairs, ids0, y, x)
    {
      if y == container && x !in ids[container] {
        assert x in ids[contained];
        assert ComesFrom(pairs, ids0, contained, x);
        var z :| 0 <= z < |ids0| && x in ids0[z] && (z == contained || (contained, z) in pairs);
        assert z == container || (container, z) in pairs;
      } else {
        assert x in ids[y];
      }
    }
    forall z | 0 <= z < |ids0|
      ensures HeldBy(pairs, ids0, ids', absorbed', z)
    {
      assert HeldBy(pairs, ids0, ids, absorbed, z);
      var y :| 0 <= y < |ids| && y !in absorbed && (z == y || (y, z) in pairs) && Includes(ids[y], ids0[z]);
      if y == contained {
        assert z == container || (container, z) in pairs;
        assert Includes(ids'[container], ids0[z]);
      } else {
        assert Includes(ids'[y], ids0[z]);
      }
    }
  }

  /** The matrix holds exactly the initial pairs between live entries. */
  ghost predicate LiveBits(pairs: set<(int, int)>, bits: set<(int, int)>, absorbed: set<int>)
  {
    && bits <= pairs
    && (forall p :: p in bits ==> p.0 !in absorbed && p.1 !in absorbed)
    && (forall i, j :: (i, j) in pairs && i !in absorbed && j !in absorbed ==> (i, j) in bits)
  }

  /** Every absorbed entry is below `n` and contained in a live one. */
  ghost predicate Witnessed(pairs: set<(int, int)>, absorbed: set<int>, n: int)
  {
    forall x :: x in absorbed ==> 0 <= x < n && HasContainer(pairs, absorbed, n, x)
  }

  /** Absorbed entries are empty; live ones keep their lists and the head of their ids. */
  ghost predicate ListsState(n: nat, ids0: seq<seq<string>>, peps0: seq<seq<string>>, flags0: Option<seq<seq<byte>>>,
                             ids: seq<seq<string>>, peps: seq<seq<string>>, flags: Option<seq<seq<byte>>>,
                             absorbed: set<int>)
    requires |ids0| == |peps0| == |ids| == |peps| == n
    requires flags.Some? == flags0.Some? && (flags0.Some? ==> |flags0.value| == |flags.value| == n)
  {
    && (forall x :: x in absorbed && 0 <= x < n ==>
          ids[x] == [] && peps[x] == [] && (flags.Some? ==> flags.value[x] == []))
    && (forall x :: 0 <= x < n && x !in absorbed ==>
          && peps[x] == peps0[x] && ids0[x] <= ids[x]
          && (flags.Some? ==> flags.value[x] == flags0.value[x]))
  }

  /**
   * One absorption (lines 117-126): the matrix loses row and column
   * `contained`, whose ids are appended to `container`'s and whose lists
   * are emptied.
   */
  method Absorb(contains: IndexedBitMatrix, ids: seq<seq<string>>, peps: seq<seq<string>>,
                flags: Option<seq<seq<byte>>>, container: int, contained: int)
    returns (ids': seq<seq<string>>, peps': seq<seq<string>>, flags': Option<seq<seq<byte>>>)
    requires contains.Valid() && contains.RowCount == |ids| == |peps|
    requires 0 <= container < |ids| && 0 <= contained < |ids|
    requires flags.Some? ==> |flags.value| == |ids|
    requires forall p :: p in contains.Bits() ==> 0 <= p.1 < contains.RowCount
    modifies contains.data
    ensures contains.Valid()
    ensures contains.Bits() == set p | p in old(contains.Bits()) && p.0 != contained && p.1 != contained
    ensures ids' == ids[container := ids[container] + ids[contained]][contained := []]
    ensures peps' == peps[contained := []]
    ensures flags' == if flags.Some? then Some(flags.value[contained := []]) else None
  {
    ClearProtein(contains, contained);
    peps' := peps[contained := []];
    flags' := flags;
    if flags.Some? {
      flags' := Some(flags.value[contained := []]);
    }
    ids' := ids[container := ids[container] + ids[contained]];
    ids' := ids'[contained := []];
  }

  /** Appending one list's ids to another's and emptying it keeps the multiset of all ids. */
  lemma MoveIds(ids: seq<seq<string>>, container: nat, contained: nat)
    requires container < |ids| && contained < |ids| && container != contained
    ensures multiset(Flatten(ids[container := ids[container] + ids[contained]][contained := []])) == multiset(Flatten(ids))
  {
    var ids1 := ids[container := ids[container] + ids[contained]];
    var ids2 := ids1[contained := []];
    FlattenUpdate(ids, container, ids[container] + ids[contained]);
    assert multiset(ids[container] + ids[contained]) == multiset(ids[container]) + multiset(ids[contained]);
    MultisetCancel(multiset(Flatten(ids1)), multiset(Flatten(ids)) + multiset(ids[contained]), multiset(ids[container]));
    FlattenUpdate(ids1, contained, []);
    assert ids1[contained] == ids[contained];
    MultisetCancel(multiset(Flatten(ids2)), multiset(Flatten(ids)), multiset(ids[contained]));
  }

  lemma MultisetCancel<T>(a: multiset<T>, b: multiset<T>, c: multiset<T>)
    requires a + c == b + c
    ensures a == b
  {
    forall x
      ensures a[x] == b[x]
    {
      assert (a + c)[x] == (b + c)[x];
    }
  }

  /** A set loses at least one element: it gets smaller. */
  lemma RemoveShrinks(bits: set<(int, int)>, bits': set<(int, int)>, p: (int, int))
    requires bits' <= bits && p in bits && p !in bits'
    ensures |bits'| < |bits|
  {
    SubsetSize(bits', bits - {p});
  }

  lemma LiveBitsStep(pairs: set<(int, int)>, bits: set<(int, int)>, absorbed: set<int>, contained: int)
    requires LiveBits(pairs, bits, absorbed)
    ensures LiveBits(pairs, (set p | p in bits && p.0 != contained && p.1 != contained), absorbed + {contained})
  {
  }

  lemma WitnessedStep(pairs: set<(int, int)>, absorbed: set<int>, n: int, container: int, contained: int)
    requires Witnessed(pairs, absorbed, n) && Transitive(pairs)
    requires (container, contained) in pairs && container != contained
    requires 0 <= container < n && 0 <= contained < n && container !in absorbed
    ensures Witnessed(pairs, absorbed + {contained}, n)
  {
    var absorbed' := absorbed + {contained};
    forall x | x in absorbed'
      ensures 0 <= x < n && HasContainer(pairs, absorbed', n, x)
    {
      if x == contained {
        assert container !in absorbed';
      } else {
        var y :| 0 <= y < n && y !in absorbed && (y, x) in pairs;
        if y == contained {
          assert container != x;
          assert (container, x) in pairs;
          assert container !in absorbed';
        } else {
          assert y !in absorbed';
        }
      }
    }
  }

  lemma ListsStep(n: nat, ids0: seq<seq<string>>, peps0: seq<seq<string>>, flags0: Option<seq<seq<byte>>>,
                  ids: seq<seq<string>>, peps: seq<seq<string>>, flags: Option<seq<seq<byte>>>,
                  absorbed: set<int>, container: int, contained: int)
    requires |ids0| == |peps0| == |ids| == |peps| == n
    requires flags.Some? == flags0.Some? && (flags0.Some? ==> |flags0.value| == |flags.value| == n)
    requires ListsState(n, ids0, peps0, flags0, ids, peps, flags, absorbed)
    requires 0 <= container < n && 0 <= contained < n && container != contained && container !in absorbed
    ensures
      var ids' := ids[container := ids[container] + ids[contained]][contained := []];
      var flags' := if flags.Some? then Some(flags.value[contained := []]) else None;
      ListsState(n, ids0, peps0, flags0, ids', peps[contained := []], flags', absorbed + {contained})
  {
    var ids' := ids[container := ids[container] + ids[contained]][contained := []];
    assert ids0[container] <= ids[container] <= ids'[container];
  }

  /** An absorption keeps `Progress`, with `contained` now absorbed, and clears at least one cell. */
  lemma AbsorbStep(n: nat, pairs: set<(int, int)>, ids0: seq<seq<string>>, peps0: seq<seq<string>>,
                   flags0: Option<seq<seq<byte>>>, bits: set<(int, int)>, ids: seq<seq<string>>,
                   peps: seq<seq<string>>, flags: Option<seq<seq<byte>>>, absorbed: set<int>,
                   container: int, contained: int)
    requires Progress(n, pairs, ids0, peps0, flags0, bits, ids, peps, flags, absorbed)
    requires PairsWithin(pairs, n) && Transitive(pairs)
    requires (container, contained) in bits
    ensures container != contained && 0 <= container < n && 0 <= contained < n
    ensures
      var bits' := set p | p in bits && p.0 != contained && p.1 != contained;
      var ids' := ids[container := ids[container] + ids[contained]][contained := []];
      var flags' := if flags.Some? then Some(flags.value[contained := []]) else None;
      Progress(n, pairs, ids0, peps0, flags0, bits', ids', peps[contained := []], flags', absorbed + {contained}) &&
      |bits'| < |bits|
  {
    var bits' := set p | p in bits && p.0 != contained && p.1 != contained;
    assert (container, contained) in pairs;
    assert container !in absorbed;
    LiveBitsStep(pairs, bits, absorbed, contained);
    WitnessedStep(pairs, absorbed, n, container, contained);
    ListsStep(n, ids0, peps0, flags0, ids, peps, flags, absorbed, container, contained);
    MoveIds(ids, container, contained);
    OriginsStep(pairs, ids0, ids, absorbed, container, contained);
    RemoveShrinks(bits, bits', (container, contained));
  }

  /** No cell left in any column: the matrix is empty. */
  lemma NoColumnNoBits(contains: IndexedBitMatrix, n: int)
    requires contains.Valid() && contains.RowCount == n
    requires forall p :: p in contains.Bits() ==> 0 <= p.1 < n
    requires forall r, c :: 0 <= r < n && 0 <= c < n ==> !contains.Get(r, c)
    ensures contains.Bits() == {}
  {
    forall r, c
      ensures (r, c) !in contains.Bits()
    {
      contains.BitsMeansGet(r, c);
    }
  }

  /** Absorbs entry `contained`, whose bit in row `container` is set, keeping `Progress`. */
  method AbsorbOne(contains: IndexedBitMatrix, ids0: seq<seq<string>>, peps0: seq<seq<string>>,
                   flags0: Option<seq<seq<byte>>>, ghost pairs: set<(int, int)>,
                   ids: seq<seq<string>>, peps: seq<seq<string>>, flags: Option<seq<seq<byte>>>, ghost absorbed: set<int>,
                   container: int, contained: int)
    returns (ids': seq<seq<string>>, peps': seq<seq<string>>, flags': Option<seq<seq<byte>>>, ghost absorbed': set<int>)
    requires contains.Valid() && contains.RowCount == |ids0|
    requires PairsWithin(pairs, |ids0|) && Transitive(pairs)
    requires Progress(|ids0|, pairs, ids0, peps0, flags0, contains.Bits(), ids, peps, flags, absorbed)
    requires 0 <= container < |ids0| && 0 <= contained < |ids0| && contains.Get(container, contained)
    modifies contains.data
    ensures contains.Valid()
    ensures Progress(|ids0|, pairs, ids0, peps0, flags0, contains.Bits(), ids', peps', flags', absorbed')
    ensures |contains.Bits()| < old(|contains.Bits()|)
  {
    ghost var bits := contains.Bits();
    contains.BitsMeansGet(container, contained);
    AbsorbStep(|ids0|, pairs, ids0, peps0, flags0, bits, ids, peps, flags, absorbed, container, contained);
    ids', peps', flags' := Absorb(contains, ids, peps, flags, container, contained);
    absorbed' := absorbed + {contained};
  }

  /**
   * One pass of the do-while loop (lines 102-129): scan the columns from
   * `start` for a contained entry, absorb it into the first row containing
   * it, and go on after it. A pass that absorbs nothing leaves the matrix
   * empty; one that absorbs something shrinks it.
   */
  method AbsorbPass(contains: IndexedBitMatrix, ids0: seq<seq<string>>, peps0: seq<seq<string>>,
                    flags0: Option<seq<seq<byte>>>, ghost pairs: set<(int, int)>,
                    ids: seq<seq<string>>, peps: seq<seq<string>>, flags: Option<seq<seq<byte>>>, ghost absorbed: set<int>)
    returns (count: int, ids': seq<seq<string>>, peps': seq<seq<string>>, flags': Option<seq<seq<byte>>>,
             ghost absorbed': set<int>)
    requires contains.Valid() && contains.RowCount == |ids0|
    requires PairsWithin(pairs, |ids0|) && Transitive(pairs)
    requires Progress(|ids0|, pairs, ids0, peps0, flags0, contains.Bits(), ids, peps, flags, absorbed)
    modifies contains.data
    ensures contains.Valid()
    ensures Progress(|ids0|, pairs, ids0, peps0, flags0, contains.Bits(), ids', peps', flags', absorbed')
    ensures count >= 0
    ensures count == 0 ==> contains.Bits() == {}
    ensures count != 0 ==> |contains.Bits()| < old(|contains.Bits()|)
  {
    var n := |ids0|;
    ghost var passBits := contains.Bits();
    ids', peps', flags', absorbed' := ids, peps, flags, absorbed;
    count := 0;
    var start := 0;
    while true
      invariant 0 <= start <= n
      invariant contains.Valid()
      invariant Progress(n, pairs, ids0, peps0, flags0, contains.Bits(), ids', peps', flags', absorbed')
      invariant count >= 0
      invariant count == 0 ==> start == 0
      invariant count != 0 ==> |contains.Bits()| < |passBits|
      invariant count == 0 ==> contains.Bits() == passBits
      decreases n - start
    {
      var found;
      found, start, ids', peps', flags', absorbed' :=
        AbsorbNext(contains, ids0, peps0, flags0, pairs, ids', peps', flags', absorbed', start);
      if !found {
        return;
      }
      count := count + 1;
    }
  }

  /**
   * One turn of the pass: find the next set cell at or after column
   * `start` and absorb it; `next` is the column after it. When there is
   * none the state is unchanged, and a scan from column 0 shows the
   * matrix empty.
   */
  method AbsorbNext(contains: IndexedBitMatrix, ids0: seq<seq<string>>, peps0: seq<seq<string>>,
                    flags0: Option<seq<seq<byte>>>, ghost pairs: set<(int, int)>,
                    ids: seq<seq<string>>, peps: seq<seq<string>>, flags: Option<seq<seq<byte>>>, ghost absorbed: set<int>,
                    start: int)
    returns (found: bool, next: int, ids': seq<seq<string>>, peps': seq<seq<string>>,
             flags': Option<seq<seq<byte>>>, ghost absorbed': set<int>)
    requires contains.Valid() && contains.RowCount == |ids0|
    requires PairsWithin(pairs, |ids0|) && Transitive(pairs)
    requires Progress(|ids0|, pairs, ids0, peps0, flags0, contains.Bits(), ids, peps, flags, absorbed)
    requires 0 <= start <= |ids0|
    modifies contains.data
    ensures contains.Valid()
    ensures Progress(|ids0|, pairs, ids0, peps0, flags0, contains.Bits(), ids', peps', flags', absorbed')
    ensures found ==> start < next <= |ids0| && |contains.Bits()| < old(|contains.Bits()|)
    ensures !found ==> next == start && contains.Bits() == old(contains.Bits())
    ensures !found && start == 0 ==> contains.Bits() == {}
  {
    ghost var bits := contains.Bits();
    ids', peps', flags', absorbed' := ids, peps, flags, absorbed;
    var container, contained := FindContained(contains, start);
    assert contains.Bits() == bits;
    if container == -1 {
      found, next := false, start;
      if start == 0 {
        assert forall p :: p in contains.Bits() ==> 0 <= p.1 < |ids0|;
        NoColumnNoBits(contains, |ids0|);
      }
      return;
    }
    ids', peps', flags', absorbed' :=
      AbsorbOne(contains, ids0, peps0, flags0, pairs, ids, peps, flags, absorbed, container, contained);
    assert |contains.Bits()| < |bits|;
    found, next := true, contained + 1;
  }

  /**
   * The do-while loop of `ClusterProteins` (lines 100-130): passes repeat
   * until one absorbs nothing. At the end no live entry contains another.
   */
  method AbsorbAll(contains: IndexedBitMatrix, ids0: seq<seq<string>>, peps0: seq<seq<string>>,
                   flags0: Option<seq<seq<byte>>>, ghost pairs: set<(int, int)>)
    returns (ids: seq<seq<string>>, peps: seq<seq<string>>, flags: Option<seq<seq<byte>>>, ghost absorbed: set<int>)
    requires contains.Valid() && contains.RowCount == |ids0| == |peps0|
    requires flags0.Some? ==> |flags0.value| == |ids0|
    requires contains.Bits() == pairs && PairsWithin(pairs, |ids0|) && Transitive(pairs)
    modifies contains.data
    ensures contains.Valid() && contains.Bits() == {}
    ensures Progress(|ids0|, pairs, ids0, peps0, flags0, {}, ids, peps, flags, absorbed)
  {
    ids, peps, flags, absorbed := ids0, peps0, flags0, {};
    OriginsStart(pairs, ids0);
    var count := 1;
    while count > 0
      invariant contains.Valid()
      invariant Progress(|ids0|, pairs, ids0, peps0, flags0, contains.Bits(), ids, peps, flags, absorbed)
      invariant count >= 0
      invariant count == 0 ==> contains.Bits() == {}
      decreases |contains.Bits()|, count
    {
      count, ids, peps, flags, absorbed := AbsorbPass(contains, ids0, peps0, flags0, pairs, ids, peps, flags, absorbed);
    }
  }

  // ---------------------------------------------------------------------
  // Sorting and compaction

  /** Each protein's peptides in ordinal order. */
  function SortedLists(pepSeqs: seq<seq<string>>): (r: seq<seq<string>>)
    ensures |r| == |pepSeqs|
  {
    seq(|pepSeqs|, i requires 0 <= i < |pepSeqs| => SortStrings(pepSeqs[i]))
  }

  /** Mutation flags that cover their protein's peptides. */
  predicate FlagsFit(pepSeqs: seq<seq<string>>, isMutated: Option<seq<seq<byte>>>)
  {
    isMutated.Some? ==>
      |isMutated.value| == |pepSeqs| && forall i :: 0 <= i < |pepSeqs| ==> |isMutated.value[i]| >= |pepSeqs[i]|
  }

  /** The flags permuted along with their peptides. */
  function SortedFlags(pepSeqs: seq<seq<string>>, isMutated: Option<seq<seq<byte>>>): (r: Option<seq<seq<byte>>>)
    requires FlagsFit(pepSeqs, isMutated)
    ensures r.Some? == isMutated.Some?
    ensures r.Some? ==> |r.value| == |pepSeqs| && forall i :: 0 <= i < |pepSeqs| ==> |r.value[i]| == |pepSeqs[i]|
  {
    if isMutated.None? then None
    else Some(seq(|pepSeqs|, i requires 0 <= i < |pepSeqs| =>
      Select(isMutated.value[i], Order(pepSeqs[i]))))
  }

  lemma SortedListsSnoc(pepSeqs: seq<seq<string>>, i: nat)
    requires i < |pepSeqs|
    ensures SortedLists(pepSeqs)[..i + 1] == SortedLists(pepSeqs)[..i] + [Select(pepSeqs[i], Order(pepSeqs[i]))]
  {
    var r := SortedLists(pepSeqs);
    assert r[..i + 1] == r[..i] + [r[i]];
  }

  lemma SortedFlagsSnoc(pepSeqs: seq<seq<string>>, isMutated: Option<seq<seq<byte>>>, i: nat)
    requires FlagsFit(pepSeqs, isMutated) && isMutated.Some? && i < |pepSeqs|
    ensures SortedFlags(pepSeqs, isMutated).value[..i + 1]
      == SortedFlags(pepSeqs, isMutated).value[..i] + [Select(isMutated.value[i], Order(pepSeqs[i]))]
  {
    var r := SortedFlags(pepSeqs, isMutated).value;
    assert r[..i + 1] == r[..i] + [r[i]];
  }

  /** The loop re-sorting each protein's peptides, and its flags along (lines 83-89). */
  method SortPeptides(pepSeqs: seq<seq<string>>, isMutated: Option<seq<seq<byte>>>)
    returns (peps: seq<seq<string>>, flags: Option<seq<seq<byte>>>)
    requires FlagsFit(pepSeqs, isMutated)
    ensures peps == SortedLists(pepSeqs)
    ensures flags == SortedFlags(pepSeqs, isMutated)
    ensures forall i :: 0 <= i < |peps| ==> Ascending(peps[i])
  {
    var fs: seq<seq<byte>>;
    peps, fs := [], [];
    for i := 0 to |pepSeqs|
      invariant peps == SortedLists(pepSeqs)[..i]
      invariant isMutated.Some? ==> fs == SortedFlags(pepSeqs, isMutated).value[..i]
    {
      var o := Order(pepSeqs[i]);
      SortedListsSnoc(pepSeqs, i);
      peps := peps + [Select(pepSeqs[i], o)];
      if isMutated.Some? {
        SortedFlagsSnoc(pepSeqs, isMutated, i);
        fs := fs + [Select(isMutated.value[i], o)];
      }
    }
    assert SortedLists(pepSeqs)[..|pepSeqs|] == SortedLists(pepSeqs);
    if isMutated.Some? {
      assert SortedFlags(pepSeqs, isMutated).value[..|pepSeqs|] == SortedFlags(pepSeqs, isMutated).value;
    }
    forall k | 0 <= k < |peps|
      ensures Ascending(peps[k])
    {
      SortStringsCorrect(pepSeqs[k]);
    }
    flags := if isMutated.Some? then Some(fs) else None;
  }

  lemma FlattenSnoc<T>(s: seq<seq<T>>, i: nat)
    requires i < |s|
    ensures Flatten(s[..i + 1]) == Flatten(s[..i]) + s[i]
  {
    PrefixSnoc(s, i);
    FlattenAppend(s[..i], s[i]);
  }

  /**
   * The ids of the entries kept among the first `i` are some of the ids
   * of those entries, and all of them when every entry without peptides
   * has no ids.
   */
  ghost predicate KeptIds(ids: seq<seq<string>>, peps: seq<seq<string>>, valids: seq<nat>, i: nat)
    requires InBounds(valids, i) && i <= |ids| == |peps|
  {
    && multiset(Flatten(Select(ids, valids))) <= multiset(Flatten(ids[..i]))
    && ((forall k :: 0 <= k < i && peps[k] == [] ==> ids[k] == []) ==>
          multiset(Flatten(Select(ids, valids))) == multiset(Flatten(ids[..i])))
  }

  /** Looking at one more entry, kept when it has peptides, keeps `KeptIds`. */
  lemma KeepStep(ids: seq<seq<string>>, peps: seq<seq<string>>, valids: seq<nat>, i: nat)
    requires InBounds(valids, i) && i < |ids| == |peps|
    requires KeptIds(ids, peps, valids, i)
    ensures InBounds(valids + [i], i + 1) && InBounds(valids, i + 1)
    ensures peps[i] != [] ==> KeptIds(ids, peps, valids + [i], i + 1)
    ensures peps[i] == [] ==> KeptIds(ids, peps, valids, i + 1)
  {
    SelectFlattenSnoc(ids, valids, i);
    FlattenSnoc(ids, i);
    assert multiset(Flatten(ids[..i + 1])) == multiset(Flatten(ids[..i])) + multiset(ids[i]);
  }

  lemma SelectFlattenSnoc(ids: seq<seq<string>>, valids: seq<nat>, i: nat)
    requires InBounds(valids, |ids|) && i < |ids|
    ensures InBounds(valids + [i], |ids|)
    ensures multiset(Flatten(Select(ids, valids + [i]))) == multiset(Flatten(Select(ids, valids))) + multiset(ids[i])
  {
    assert Select(ids, valids + [i]) == Select(ids, valids) + [ids[i]];
    FlattenAppend(Select(ids, valids), ids[i]);
  }

  /** The positions among the first `i` entries that still have peptides, in order. */
  function WithPeptides(peps: seq<seq<string>>, i: nat): (r: seq<nat>)
    requires i <= |peps|
    ensures InBounds(r, i)
  {
    if i == 0 then [] else WithPeptides(peps, i - 1) + (if peps[i - 1] != [] then [i - 1] else [])
  }

  lemma {:induction false} WithPeptidesIncreasing(peps: seq<seq<string>>, i: nat)
    requires i <= |peps|
    ensures StrictlyIncreasing(WithPeptides(peps, i))
  {
    if i > 0 {
      WithPeptidesIncreasing(peps, i - 1);
      if peps[i - 1] != [] {
        IncreasingSnoc(WithPeptides(peps, i - 1), i - 1);
      }
    }
  }

  lemma {:induction false} WithPeptidesMembers(peps: seq<seq<string>>, i: nat)
    requires i <= |peps|
    ensures forall k :: 0 <= k < i ==> (k in WithPeptides(peps, i) <==> peps[k] != [])
  {
    if i > 0 {
      WithPeptidesMembers(peps, i - 1);
      var w := WithPeptides(peps, i - 1);
      assert w[..] == w;
      forall k | 0 <= k < i
        ensures k in WithPeptides(peps, i) <==> peps[k] != []
      {
        if k == i - 1 {
          assert k !in w;
        }
      }
    }
  }

  lemma {:induction false} WithPeptidesIds(ids: seq<seq<string>>, peps: seq<seq<string>>, i: nat)
    requires i <= |ids| == |peps|
    ensures KeptIds(ids, peps, WithPeptides(peps, i), i)
  {
    if i > 0 {
      var w := WithPeptides(peps, i - 1);
      WithPeptidesIds(ids, peps, i - 1);
      KeepStep(ids, peps, w, i - 1);
      if peps[i - 1] != [] {
        assert WithPeptides(peps, i) == w + [i - 1];
      } else {
        assert WithPeptides(peps, i) == w;
      }
    }
  }

  /**
   * The compaction (lines 131-141): the entries that still have peptides,
   * in their order. Ids are only lost with entries without peptides.
   */
  method KeepWithPeptides(ids: seq<seq<string>>, peps: seq<seq<string>>, flags: Option<seq<seq<byte>>>)
    returns (ids': seq<seq<string>>, peps': seq<seq<string>>, flags': Option<seq<seq<byte>>>, ghost kept: seq<nat>)
    requires |ids| == |peps| && (flags.Some? ==> |flags.value| == |peps|)
    ensures StrictlyIncreasing(kept) && InBounds(kept, |peps|)
    ensures forall i :: 0 <= i < |peps| ==> (i in kept <==> peps[i] != [])
    ensures ids' == Select(ids, kept) && peps' == Select(peps, kept)
    ensures flags' == if flags.Some? then Some(Select(flags.value, kept)) else None
    ensures multiset(Flatten(ids')) <= multiset(Flatten(ids))
    ensures (forall i :: 0 <= i < |peps| && peps[i] == [] ==> ids[i] == []) ==>
      multiset(Flatten(ids')) == multiset(Flatten(ids))
  {
    var valids: seq<nat> := [];
    for i := 0 to |peps|
      invariant valids == WithPeptides(peps, i)
    {
      if |peps[i]| > 0 {
        valids := valids + [i];
      }
    }
    WithPeptidesIncreasing(peps, |peps|);
    WithPeptidesMembers(peps, |peps|);
    WithPeptidesIds(ids, peps, |peps|);
    assert ids[..|peps|] == ids;
    kept := valids;
    ids' := Select(ids, valids);
    peps' := Select(peps, valids);
    flags' := if flags.Some? then Some(Select(flags.value, valids)) else None;
  }

  // ---------------------------------------------------------------------
  // ClusterProteins

  /** Some kept entry contained entry `x` (in the sorted input). */
  ghost predicate AbsorbedByKept(taxa: seq<string>, sorted: seq<seq<string>>, split: bool, kept: seq<nat>, x: int)
  {
    exists k :: 0 <= k < |kept| && Absorbs(taxa, sorted, split, kept[k], x)
  }

  /**
   * `ClusterProteins`: sort each entry's peptides, compute which entry
   * contains which, absorb contained entries into containers until none is
   * left, and drop the entries left without peptides. `kept` lists the
   * input positions of the surviving entries.
   */
  method ClusterProteins(proteinIds: seq<seq<string>>, pepSeqs: seq<seq<string>>, isMutated: Option<seq<seq<byte>>>,
                         splitTaxonomy: bool, taxonomy: map<string, string>)
    returns (ids: seq<seq<string>>, peps: seq<seq<string>>, flags: Option<seq<seq<byte>>>, ghost kept: seq<nat>)
    requires |pepSeqs| == |proteinIds|
    requires FlagsFit(pepSeqs, isMutated)
    requires splitTaxonomy ==> forall i :: 0 <= i < |proteinIds| ==> proteinIds[i] != []
    ensures |ids| == |peps| == |kept|
    ensures StrictlyIncreasing(kept) && InBounds(kept, |proteinIds|)
    ensures forall k :: 0 <= k < |kept| ==>
      peps[k] == SortStrings(pepSeqs[kept[k]]) && peps[k] != [] && proteinIds[kept[k]] <= ids[k]
    ensures flags.Some? == isMutated.Some?
    ensures flags.Some? ==> |flags.value| == |kept| && forall k :: 0 <= k < |kept| ==>
      flags.value[k] == Select(isMutated.value[kept[k]], Order(pepSeqs[kept[k]]))
    ensures forall k1, k2 :: 0 <= k1 < |kept| && 0 <= k2 < |kept| ==>
      !Absorbs(FirstTaxa(ids, taxonomy), peps, splitTaxonomy, k1, k2)
    ensures forall x :: 0 <= x < |proteinIds| && x !in kept && pepSeqs[x] != [] ==>
      AbsorbedByKept(FirstTaxa(proteinIds, taxonomy), SortedLists(pepSeqs), splitTaxonomy, kept, x)
    ensures multiset(Flatten(ids)) <= multiset(Flatten(proteinIds))
    ensures (forall i :: 0 <= i < |pepSeqs| ==> pepSeqs[i] != []) ==>
      multiset(Flatten(ids)) == multiset(Flatten(proteinIds))
    ensures forall k, x :: 0 <= k < |kept| && x in ids[k] ==>
      ComesFrom(AbsorbPairs(FirstTaxa(proteinIds, taxonomy), SortedLists(pepSeqs), splitTaxonomy), proteinIds, kept[k], x)
    ensures forall z :: 0 <= z < |proteinIds| && pepSeqs[z] != [] ==>
      HeldByKept(AbsorbPairs(FirstTaxa(proteinIds, taxonomy), SortedLists(pepSeqs), splitTaxonomy), proteinIds, kept, ids, z)
    ensures Distinct(Flatten(proteinIds)) ==>
      forall z, k, x :: 0 <= z < |proteinIds| && 0 <= k < |kept| && x in proteinIds[z] && x in ids[k] ==>
        Includes(ids[k], proteinIds[z])
  {
    var n := |proteinIds|;
    ghost var taxa := FirstTaxa(proteinIds, taxonomy);
    var taxIds: seq<string> := [];
    if splitTaxonomy {
      taxIds := FirstMemberTaxonomyIds(proteinIds, taxonomy);
    }
    var peps0, flags0 := SortPeptides(pepSeqs, isMutated);
    var contains := BuildContainment(peps0, taxIds, splitTaxonomy, taxa);
    ghost var pairs := contains.Bits();
    AbsorbPairsFacts(taxa, peps0, splitTaxonomy);
    var ids1, peps1, flags1;
    ghost var absorbed;
    ids1, peps1, flags1, absorbed := AbsorbAll(contains, proteinIds, peps0, flags0, pairs);
    ids, peps, flags, kept := KeepWithPeptides(ids1, peps1, flags1);
    Survivors(proteinIds, pepSeqs, splitTaxonomy, taxonomy, pairs, ids1, peps1, flags0, flags1, absorbed, kept, ids, peps);
    ProgressFacts(n, pairs, proteinIds, peps0, flags0, {}, ids1, peps1, flags1, absorbed);
    SurvivorOrigins(proteinIds, pepSeqs, splitTaxonomy, taxonomy, pairs, ids1, peps1, absorbed, kept, ids);
  }

  /** Some kept entry, `z` itself or one containing it, holds all the initial ids of entry `z`. */
  ghost predicate HeldByKept(pairs: set<(int, int)>, ids0: seq<seq<string>>, kept: seq<nat>, ids: seq<seq<string>>, z: int)
  {
    && 0 <= z < |ids0|
    && exists k :: 0 <= k < |kept| && k < |ids| && (z == kept[k] || (kept[k], z) in pairs) && Includes(ids[k], ids0[z])
  }

  /**
   * Where the survivors' ids came from: each from an entry the survivor
   * contains (or from itself); the ids of an entry with peptides all went
   * to one survivor containing it; and, ids being unique, a survivor
   * holding one id of an entry holds all of them.
   */
  lemma SurvivorOrigins(proteinIds: seq<seq<string>>, pepSeqs: seq<seq<string>>, split: bool, taxonomy: map<string, string>,
                        pairs: set<(int, int)>, ids1: seq<seq<string>>, peps1: seq<seq<string>>, absorbed: set<int>,
                        kept: seq<nat>, ids: seq<seq<string>>)
    requires |pepSeqs| == |proteinIds| == |ids1| == |peps1|
    requires pairs == AbsorbPairs(FirstTaxa(proteinIds, taxonomy), SortedLists(pepSeqs), split)
    requires Origins(pairs, proteinIds, ids1, absorbed)
    requires multiset(Flatten(ids1)) == multiset(Flatten(proteinIds))
    requires forall y :: 0 <= y < |ids1| && y !in absorbed ==> peps1[y] == SortedLists(pepSeqs)[y]
    requires InBounds(kept, |peps1|)
    requires forall i :: 0 <= i < |peps1| ==> (i in kept <==> peps1[i] != [])
    requires ids == Select(ids1, kept)
    ensures forall k, x :: 0 <= k < |kept| && x in ids[k] ==> ComesFrom(pairs, proteinIds, kept[k], x)
    ensures forall z :: 0 <= z < |proteinIds| && pepSeqs[z] != [] ==> HeldByKept(pairs, proteinIds, kept, ids, z)
    ensures Distinct(Flatten(proteinIds)) ==>
      forall z, k, x :: 0 <= z < |proteinIds| && 0 <= k < |kept| && x in proteinIds[z] && x in ids[k] ==>
        Includes(ids[k], proteinIds[z])
  {
    SurvivorSources(pairs, proteinIds, ids1, absorbed, kept, ids);
    SurvivorHolders(pepSeqs, pairs, proteinIds, ids1, peps1, absorbed, kept, ids);
    SurvivorsTogether(pairs, proteinIds, ids1, absorbed, kept, ids);
  }

  /** Each survivor's ids came from entries it contains, or from itself. */
  lemma SurvivorSources(pairs: set<(int, int)>, ids0: seq<seq<string>>, ids1: seq<seq<string>>, absorbed: set<int>,
                        kept: seq<nat>, ids: seq<seq<string>>)
    requires Origins(pairs, ids0, ids1, absorbed)
    requires InBounds(kept, |ids1|) && ids == Select(ids1, kept)
    ensures forall k, x :: 0 <= k < |kept| && x in ids[k] ==> ComesFrom(pairs, ids0, kept[k], x)
  {
    forall k, x | 0 <= k < |kept| && x in ids[k]
      ensures ComesFrom(pairs, ids0, kept[k], x)
    {
      assert x in ids1[kept[k]];
    }
  }

  /** The live entry holding the ids of entry `z`. */
  lemma Holder(pairs: set<(int, int)>, ids0: seq<seq<string>>, ids: seq<seq<string>>, absorbed: set<int>, z: int)
    returns (y: int)
    requires HeldBy(pairs, ids0, ids, absorbed, z)
    ensures 0 <= y < |ids| && y !in absorbed && (z == y || (y, z) in pairs) && Includes(ids[y], ids0[z])
  {
    y :| 0 <= y < |ids| && y !in absorbed && (z == y || (y, z) in pairs) && Includes(ids[y], ids0[z]);
  }

  /**
   * The ids of an entry with peptides went to a live entry containing it,
   * which has peptides too, so survives.
   */
  lemma SurvivorHolders(pepSeqs: seq<seq<string>>, pairs: set<(int, int)>, ids0: seq<seq<string>>,
                        ids1: seq<seq<string>>, peps1: seq<seq<string>>, absorbed: set<int>, kept: seq<nat>, ids: seq<seq<string>>)
    requires |pepSeqs| == |ids0| && |peps1| == |ids1|
    requires forall p :: p in pairs ==> 0 <= p.0 < |pepSeqs| && 0 <= p.1 < |pepSeqs| && ContainsAll(SortedLists(pepSeqs)[p.0], SortedLists(pepSeqs)[p.1])
    requires Origins(pairs, ids0, ids1, absorbed)
    requires forall y :: 0 <= y < |ids1| && y !in absorbed ==> y < |pepSeqs| && peps1[y] == SortedLists(pepSeqs)[y]
    requires InBounds(kept, |peps1|) && (forall i :: 0 <= i < |peps1| ==> (i in kept <==> peps1[i] != []))
    requires ids == Select(ids1, kept)
    ensures forall z :: 0 <= z < |ids0| && pepSeqs[z] != [] ==> HeldByKept(pairs, ids0, kept, ids, z)
  {
    var sorted := SortedLists(pepSeqs);
    forall z | 0 <= z < |ids0| && pepSeqs[z] != []
      ensures HeldByKept(pairs, ids0, kept, ids, z)
    {
      var y := Holder(pairs, ids0, ids1, absorbed, z);
      SortStringsCorrect(pepSeqs[z]);
      assert pepSeqs[z][0] in pepSeqs[z];
      assert sorted[z] != [];
      assert |sorted[z]| <= |sorted[y]|;
      assert peps1[y] != [];
      assert y in kept;
      var k :| 0 <= k < |kept| && kept[k] == y;
      assert ids[k] == ids1[y];
    }
  }

  /** Ids being unique, a survivor holding one id of an entry holds all of them. */
  lemma SurvivorsTogether(pairs: set<(int, int)>, ids0: seq<seq<string>>, ids1: seq<seq<string>>, absorbed: set<int>,
                          kept: seq<nat>, ids: seq<seq<string>>)
    requires Origins(pairs, ids0, ids1, absorbed)
    requires multiset(Flatten(ids1)) == multiset(Flatten(ids0))
    requires InBounds(kept, |ids1|) && ids == Select(ids1, kept)
    ensures Distinct(Flatten(ids0)) ==>
      forall z, k, x :: 0 <= z < |ids0| && 0 <= k < |kept| && x in ids0[z] && x in ids[k] ==>
        Includes(ids[k], ids0[z])
  {
    if Distinct(Flatten(ids0)) {
      SubMultisetDistinct(Flatten(ids1), Flatten(ids0));
      DistinctFlatten(ids1);
      forall z, k, x | 0 <= z < |ids0| && 0 <= k < |kept| && x in ids0[z] && x in ids[k]
        ensures Includes(ids[k], ids0[z])
      {
        var y := Holder(pairs, ids0, ids1, absorbed, z);
        assert x in ids1[y] && x in ids1[kept[k]];
        assert y == kept[k];
      }
    }
  }

  /** What the final state of the absorption loop and the compaction say about the survivors. */
  lemma Survivors(proteinIds: seq<seq<string>>, pepSeqs: seq<seq<string>>, split: bool, taxonomy: map<string, string>,
                  pairs: set<(int, int)>, ids1: seq<seq<string>>, peps1: seq<seq<string>>,
                  flags0: Option<seq<seq<byte>>>, flags1: Option<seq<seq<byte>>>, absorbed: set<int>,
                  kept: seq<nat>, ids: seq<seq<string>>, peps: seq<seq<string>>)
    requires |pepSeqs| == |proteinIds|
    requires split ==> forall i :: 0 <= i < |proteinIds| ==> proteinIds[i] != []
    requires pairs == AbsorbPairs(FirstTaxa(proteinIds, taxonomy), SortedLists(pepSeqs), split)
    requires Progress(|proteinIds|, pairs, proteinIds, SortedLists(pepSeqs), flags0, {}, ids1, peps1, flags1, absorbed)
    requires StrictlyIncreasing(kept) && InBounds(kept, |peps1|)
    requires forall i :: 0 <= i < |peps1| ==> (i in kept <==> peps1[i] != [])
    requires ids == Select(ids1, kept) && peps == Select(peps1, kept)
    ensures forall k :: 0 <= k < |kept| ==>
      kept[k] !in absorbed && peps[k] == SortStrings(pepSeqs[kept[k]]) && peps[k] != [] && proteinIds[kept[k]] <= ids[k]
    ensures forall k1, k2 :: 0 <= k1 < |kept| && 0 <= k2 < |kept| ==>
      !Absorbs(FirstTaxa(ids, taxonomy), peps, split, k1, k2)
    ensures forall x :: 0 <= x < |proteinIds| && x !in kept && pepSeqs[x] != [] ==>
      AbsorbedByKept(FirstTaxa(proteinIds, taxonomy), SortedLists(pepSeqs), split, kept, x)
    ensures (forall i :: 0 <= i < |pepSeqs| ==> pepSeqs[i] != []) ==>
      forall i :: 0 <= i < |peps1| && peps1[i] == [] ==> ids1[i] == []
  {
    var taxa := FirstTaxa(proteinIds, taxonomy);
    var sorted := SortedLists(pepSeqs);
    forall k | 0 <= k < |kept|
      ensures kept[k] !in absorbed && peps[k] == SortStrings(pepSeqs[kept[k]]) && peps[k] != [] && proteinIds[kept[k]] <= ids[k]
    {
      assert kept[k] in kept;
    }
    forall k1, k2 | 0 <= k1 < |kept| && 0 <= k2 < |kept|
      ensures !Absorbs(FirstTaxa(ids, taxonomy), peps, split, k1, k2)
    {
      var i, j := kept[k1], kept[k2];
      assert i in kept && j in kept;
      assert (i, j) !in pairs;
      assert (k1 == k2) == (i == j);
      if split {
        assert proteinIds[i] <= ids[k1] && proteinIds[j] <= ids[k2];
        assert FirstTaxa(ids, taxonomy)[k1] == taxa[i] && FirstTaxa(ids, taxonomy)[k2] == taxa[j];
      }
      assert Absorbs(FirstTaxa(ids, taxonomy), peps, split, k1, k2) == Absorbs(taxa, sorted, split, i, j);
    }
    forall x | 0 <= x < |proteinIds| && x !in kept && pepSeqs[x] != []
      ensures AbsorbedByKept(taxa, sorted, split, kept, x)
    {
      SortStringsCorrect(pepSeqs[x]);
      assert pepSeqs[x][0] in pepSeqs[x];
      assert sorted[x] != [] && peps1[x] == [];
      assert x in absorbed;
      var y :| 0 <= y < |proteinIds| && y !in absorbed && (y, x) in pairs;
      assert Absorbs(taxa, sorted, split, y, x);
      assert peps1[y] == sorted[y] != [];
      assert y in kept;
      var k :| 0 <= k < |kept| && kept[k] == y;
    }
    if forall i :: 0 <= i < |pepSeqs| ==> pepSeqs[i] != [] {
      forall i | 0 <= i < |peps1| && peps1[i] == []
        ensures ids1[i] == []
      {
        SortStringsCorrect(pepSeqs[i]);
        assert pepSeqs[i][0] in pepSeqs[i];
        assert sorted[i] != [];
        assert i in absorbed;
      }
    }
  }

  // ---------------------------------------------------------------------
  // GetProteinAndPeptideLists

  /** Every entry has names, every name is a protein, and no protein is named twice. */
  ghost predicate ProteinsNamedOnce<V>(proteinNames: seq<seq<string>>, protein2Pep: map<string, V>)
  {
    && (forall g :: 0 <= g < |proteinNames| ==> proteinNames[g] != [])
    && (forall g, a :: 0 <= g < |proteinNames| && 0 <= a < |proteinNames[g]| ==> proteinNames[g][a] in protein2Pep)
    && Distinct(Flatten<string>(proteinNames))
  }

  /**
   * No entry's peptide set lies inside another's (of the same taxon, when
   * splitting): the peptide sets of the first proteins form an antichain.
   */
  ghost predicate NoEntryContainsAnother(proteinNames: seq<seq<string>>, pepSets: map<string, set<string>>,
                                         splitTaxonomy: bool, taxonomy: map<string, string>)
  {
    forall g1, g2 ::
      (&& 0 <= g1 < |proteinNames| && 0 <= g2 < |proteinNames| && g1 != g2
       && proteinNames[g1] != [] && proteinNames[g2] != []
       && proteinNames[g1][0] in pepSets && proteinNames[g2][0] in pepSets
       && (splitTaxonomy ==> TaxonomyIdOf(taxonomy, proteinNames[g1][0]) == TaxonomyIdOf(taxonomy, proteinNames[g2][0]))) ==>
        !(pepSets[proteinNames[g2][0]] <= pepSets[proteinNames[g1][0]])
  }

  /**
   * Every protein of an entry has a peptide set inside that of the entry's
   * first protein (and its taxon, when splitting): an entry names the
   * proteins it explains.
   */
  ghost predicate MembersWithinFirst(proteinNames: seq<seq<string>>, pepSets: map<string, set<string>>,
                                     splitTaxonomy: bool, taxonomy: map<string, string>)
  {
    forall g, p ::
      (0 <= g < |proteinNames| && p in proteinNames[g] && proteinNames[g] != [] &&
       p in pepSets && proteinNames[g][0] in pepSets) ==>
        pepSets[p] <= pepSets[proteinNames[g][0]] &&
        (splitTaxonomy ==> TaxonomyIdOf(taxonomy, p) == TaxonomyIdOf(taxonomy, proteinNames[g][0]))
  }

  /** What clustering keeps of each entry: its list of peptides, and its first protein. */
  ghost predicate ClusteredFrom(names0: seq<seq<string>>, peps0: seq<seq<string>>, kept: seq<nat>,
                                names: seq<seq<string>>, peps: seq<seq<string>>)
  {
    && |peps0| == |names0| && |names| == |peps| == |kept| && InBounds(kept, |names0|)
    && (forall k :: 0 <= k < |kept| ==>
          peps[k] == SortStrings(peps0[kept[k]]) && peps[k] != [] && names0[kept[k]] <= names[k])
  }

  /** Clustering entries built from a dictionary keeps each survivor's first protein and its peptide list. */
  lemma ClusteredKeepsFirst(pepSets: map<string, set<string>>, names0: seq<seq<string>>, peps0: seq<seq<string>>,
                            kept: seq<nat>, names: seq<seq<string>>, peps: seq<seq<string>>)
    requires NamesPartitionProteins(names0, pepSets) && |peps0| == |names0|
    requires PeptidesOfFirstMember(names0, peps0, pepSets)
    requires ClusteredFrom(names0, peps0, kept, names, peps)
    ensures forall k :: 0 <= k < |kept| ==>
      names[k] != [] && names[k][0] == names0[kept[k]][0] && peps[k] == peps0[kept[k]]
    ensures forall g :: 0 <= g < |names| ==> names[g] != [] && names[g][0] in pepSets
    ensures PeptidesOfFirstMember(names, peps, pepSets)
  {
    forall k | 0 <= k < |kept|
      ensures names[k] != [] && names[k][0] == names0[kept[k]][0] && peps[k] == peps0[kept[k]]
    {
      var g := kept[k];
      assert names0[g] != [] && names0[g] <= names[k];
      StrictlyAscendingIsAscending(peps0[g]);
      SortStringsCorrect(peps0[g]);
    }
  }

  /** The survivors' names are proteins, each named at most once. */
  lemma ClusteredNamesOnce(pepSets: map<string, set<string>>, names0: seq<seq<string>>, names: seq<seq<string>>)
    requires NamesPartitionProteins(names0, pepSets)
    requires forall g :: 0 <= g < |names| ==> names[g] != []
    requires multiset(Flatten(names)) <= multiset(Flatten(names0))
    ensures ProteinsNamedOnce(names, pepSets)
  {
    forall g | 0 <= g < |names0|
      ensures Distinct(names0[g])
    {
      StrictlyAscendingDistinct(names0[g]);
    }
    FlattenDistinct<string>(names0);
    SubMultisetDistinct(Flatten(names), Flatten(names0));
    forall g, a | 0 <= g < |names| && 0 <= a < |names[g]|
      ensures names[g][a] in pepSets
    {
      var x := names[g][a];
      FlattenMember<string>(names, x);
      assert x in multiset(Flatten(names));
      assert x in Flatten(names0);
      FlattenMember<string>(names0, x);
      var g0 :| 0 <= g0 < |names0| && x in names0[g0];
      var a0 :| 0 <= a0 < |names0[g0]| && names0[g0][a0] == x;
    }
  }

  /** No survivor's peptide set lies inside another's. */
  lemma ClusteredAntichain(pepSets: map<string, set<string>>, splitTaxonomy: bool, taxonomy: map<string, string>,
                           names: seq<seq<string>>, peps: seq<seq<string>>)
    requires |peps| == |names|
    requires forall g :: 0 <= g < |names| ==> names[g] != [] && names[g][0] in pepSets
    requires PeptidesOfFirstMember(names, peps, pepSets)
    requires forall k1, k2 :: 0 <= k1 < |names| && 0 <= k2 < |names| ==>
      !Absorbs(FirstTaxa(names, taxonomy), peps, splitTaxonomy, k1, k2)
    ensures NoEntryContainsAnother(names, pepSets, splitTaxonomy, taxonomy)
  {
    forall g1, g2 |
      && 0 <= g1 < |names| && 0 <= g2 < |names| && g1 != g2
      && (splitTaxonomy ==> TaxonomyIdOf(taxonomy, names[g1][0]) == TaxonomyIdOf(taxonomy, names[g2][0]))
      ensures !(pepSets[names[g2][0]] <= pepSets[names[g1][0]])
    {
      assert !Absorbs(FirstTaxa(names, taxonomy), peps, splitTaxonomy, g1, g2);
      assert !ContainsAll(peps[g1], peps[g2]);
      StrictlyAscendingDistinct(peps[g2]);
      ContainsAllIsInclusion(peps[g1], peps[g2]);
      assert Elements(peps[g2]) == pepSets[names[g2][0]];
      assert Elements(peps[g1]) == pepSets[names[g1][0]];
    }
  }

  /** When every protein has a peptide, every entry built has peptides, so clustering loses no protein. */
  lemma ClusteredNamesAll(pepSets: map<string, set<string>>, names0: seq<seq<string>>, peps0: seq<seq<string>>,
                          names: seq<seq<string>>)
    requires NamesPartitionProteins(names0, pepSets) && |peps0| == |names0|
    requires PeptidesOfFirstMember(names0, peps0, pepSets)
    requires forall p :: p in pepSets ==> pepSets[p] != {}
    requires (forall g :: 0 <= g < |peps0| ==> peps0[g] != []) ==>
      multiset(Flatten(names)) == multiset(Flatten(names0))
    ensures forall p :: p in pepSets ==> Named(names, p)
  {
    forall g | 0 <= g < |peps0|
      ensures peps0[g] != []
    {
      var x :| x in pepSets[names0[g][0]];
      assert x in peps0[g];
    }
    forall p | p in pepSets
      ensures Named(names, p)
    {
      var g0 :| 0 <= g0 < |names0| && p in names0[g0];
      FlattenMember<string>(names0, p);
      assert p in multiset(Flatten(names0));
      FlattenMember<string>(names, p);
    }
  }

  /**
   * A survivor's proteins come from the entries it absorbed, whose peptide
   * sets lie inside its own: each member's set lies inside the first
   * member's, in the same taxon when splitting.
   */
  lemma ClusteredMembers(pepSets: map<string, set<string>>, splitTaxonomy: bool, taxonomy: map<string, string>,
                         names0: seq<seq<string>>, peps0: seq<seq<string>>, kept: seq<nat>, names: seq<seq<string>>)
    requires NamesPartitionProteins(names0, pepSets) && |peps0| == |names0|
    requires PeptidesOfFirstMember(names0, peps0, pepSets)
    requires EntryMembersAgree(names0, pepSets, splitTaxonomy, taxonomy)
    requires |names| == |kept| && InBounds(kept, |names0|)
    requires forall k :: 0 <= k < |kept| ==> names[k] != [] && names[k][0] == names0[kept[k]][0]
    requires forall k, x :: 0 <= k < |kept| && x in names[k] ==>
      ComesFrom(AbsorbPairs(FirstTaxa(names0, taxonomy), SortedLists(peps0), splitTaxonomy), names0, kept[k], x)
    ensures MembersWithinFirst(names, pepSets, splitTaxonomy, taxonomy)
  {
    var pairs := AbsorbPairs(FirstTaxa(names0, taxonomy), SortedLists(peps0), splitTaxonomy);
    forall g, p | 0 <= g < |names| && p in names[g] && names[g] != [] && p in pepSets && names[g][0] in pepSets
      ensures pepSets[p] <= pepSets[names[g][0]]
      ensures splitTaxonomy ==> TaxonomyIdOf(taxonomy, p) == TaxonomyIdOf(taxonomy, names[g][0])
    {
      var z := Origin(pairs, names0, kept[g], p);
      AbsorbedMember(pepSets, splitTaxonomy, taxonomy, names0, peps0, kept[g], z, p);
    }
  }

  /** The entry an id came from. */
  lemma Origin(pairs: set<(int, int)>, ids0: seq<seq<string>>, y: int, x: string) returns (z: int)
    requires ComesFrom(pairs, ids0, y, x)
    ensures 0 <= z < |ids0| && x in ids0[z] && (z == y || (y, z) in pairs)
  {
    z :| 0 <= z < |ids0| && x in ids0[z] && (z == y || (y, z) in pairs);
  }

  /** A protein of entry `z`, which entry `y` contains, has a peptide set inside that of `y`'s first protein. */
  lemma AbsorbedMember(pepSets: map<string, set<string>>, splitTaxonomy: bool, taxonomy: map<string, string>,
                       names0: seq<seq<string>>, peps0: seq<seq<string>>, y: int, z: int, p: string)
    requires NamesPartitionProteins(names0, pepSets) && |peps0| == |names0|
    requires PeptidesOfFirstMember(names0, peps0, pepSets)
    requires EntryMembersAgree(names0, pepSets, splitTaxonomy, taxonomy)
    requires 0 <= y < |names0| && 0 <= z < |names0| && p in names0[z]
    requires z == y || (y, z) in AbsorbPairs(FirstTaxa(names0, taxonomy), SortedLists(peps0), splitTaxonomy)
    ensures p in pepSets && pepSets[p] <= pepSets[names0[y][0]]
    ensures splitTaxonomy ==> TaxonomyIdOf(taxonomy, p) == TaxonomyIdOf(taxonomy, names0[y][0])
  {
    var a :| 0 <= a < |names0[z]| && names0[z][a] == p;
    assert pepSets[p] == pepSets[names0[z][0]];
    if z != y {
      AbsorbedFirst(pepSets, splitTaxonomy, taxonomy, names0, peps0, y, z);
    }
  }

  /** When entry `y` contains entry `z`, `z`'s first protein has a peptide set inside that of `y`'s. */
  lemma AbsorbedFirst(pepSets: map<string, set<string>>, splitTaxonomy: bool, taxonomy: map<string, string>,
                      names0: seq<seq<string>>, peps0: seq<seq<string>>, y: int, z: int)
    requires |peps0| == |names0| && 0 <= y < |names0| && 0 <= z < |names0|
    requires names0[y] != [] && names0[y][0] in pepSets && names0[z] != [] && names0[z][0] in pepSets
    requires StrictlyAscending(peps0[y]) && StrictlyAscending(peps0[z])
    requires forall x :: x in peps0[y] <==> x in pepSets[names0[y][0]]
    requires forall x :: x in peps0[z] <==> x in pepSets[names0[z][0]]
    requires Absorbs(FirstTaxa(names0, taxonomy), SortedLists(peps0), splitTaxonomy, y, z)
    ensures pepSets[names0[z][0]] <= pepSets[names0[y][0]]
    ensures splitTaxonomy ==> TaxonomyIdOf(taxonomy, names0[z][0]) == TaxonomyIdOf(taxonomy, names0[y][0])
  {
    StrictlyAscendingIsAscending(peps0[y]);
    SortStringsCorrect(peps0[y]);
    StrictlyAscendingIsAscending(peps0[z]);
    SortStringsCorrect(peps0[z]);
    StrictlyAscendingDistinct(peps0[z]);
    ContainsAllIsInclusion(peps0[y], peps0[z]);
    assert Elements(peps0[z]) == pepSets[names0[z][0]];
    assert Elements(peps0[y]) == pepSets[names0[y][0]];
  }

  /**
   * Clustering keeps the proteins of an entry together, and each protein
   * is named once: proteins with the same peptide set (and taxon) that
   * survive share an entry.
   */
  lemma ClusteredIdentical(pepSets: map<string, set<string>>, splitTaxonomy: bool, taxonomy: map<string, string>,
                           names0: seq<seq<string>>, names: seq<seq<string>>)
    requires NamesPartitionProteins(names0, pepSets)
    requires IdenticalSetsShareEntry(names0, pepSets, splitTaxonomy, taxonomy)
    requires ProteinsNamedOnce(names, pepSets)
    requires forall z, k, x :: 0 <= z < |names0| && 0 <= k < |names| && x in names0[z] && x in names[k] ==>
      Includes(names[k], names0[z])
    ensures IdenticalSetsShareEntry(names, pepSets, splitTaxonomy, taxonomy)
  {
    DistinctFlatten(names);
    forall g1, g2, p, q | SameSetNames(names, pepSets, splitTaxonomy, taxonomy, g1, g2, p, q)
      ensures g1 == g2
    {
      assert Named(names0, p) && Named(names0, q);
      var zp :| 0 <= zp < |names0| && p in names0[zp];
      var zq :| 0 <= zq < |names0| && q in names0[zq];
      assert SameSetNames(names0, pepSets, splitTaxonomy, taxonomy, zp, zq, p, q);
      assert q in names[g1];
    }
  }

  /** With well-formed sets, every protein with a peptide is named. */
  lemma ClusteredNamesNonempty(pepSets: map<string, set<string>>, splitTaxonomy: bool, taxonomy: map<string, string>,
                               names0: seq<seq<string>>, peps0: seq<seq<string>>, kept: seq<nat>, names: seq<seq<string>>)
    requires NamesPartitionProteins(names0, pepSets) && |peps0| == |names0|
    requires PeptidesOfFirstMember(names0, peps0, pepSets)
    requires EntryMembersAgree(names0, pepSets, splitTaxonomy, taxonomy)
    requires forall z :: 0 <= z < |names0| && peps0[z] != [] ==>
      HeldByKept(AbsorbPairs(FirstTaxa(names0, taxonomy), SortedLists(peps0), splitTaxonomy), names0, kept, names, z)
    ensures forall p :: p in pepSets && pepSets[p] != {} ==> Named(names, p)
  {
    var pairs := AbsorbPairs(FirstTaxa(names0, taxonomy), SortedLists(peps0), splitTaxonomy);
    forall p | p in pepSets && pepSets[p] != {}
      ensures Named(names, p)
    {
      var z :| 0 <= z < |names0| && p in names0[z];
      var x :| x in pepSets[names0[z][0]];
      assert x in peps0[z];
      assert HeldByKept(pairs, names0, kept, names, z);
      var k :| 0 <= k < |kept| && k < |names| && (z == kept[k] || (kept[k], z) in pairs) && Includes(names[k], names0[z]);
      assert p in names[k];
    }
  }

  /** How clustering groups proteins, from where each survivor's names came. */
  lemma ClusteredGrouping(pepSets: map<string, set<string>>, splitTaxonomy: bool, taxonomy: map<string, string>,
                          names0: seq<seq<string>>, peps0: seq<seq<string>>, kept: seq<nat>, names: seq<seq<string>>)
    requires NamesPartitionProteins(names0, pepSets) && |peps0| == |names0|
    requires PeptidesOfFirstMember(names0, peps0, pepSets)
    requires IdenticalSetsShareEntry(names0, pepSets, splitTaxonomy, taxonomy)
    requires WellFormedSets(pepSets, splitTaxonomy, taxonomy) ==> EntryMembersAgree(names0, pepSets, splitTaxonomy, taxonomy)
    requires ProteinsNamedOnce(names, pepSets)
    requires |names| == |kept| && InBounds(kept, |names0|)
    requires forall k :: 0 <= k < |kept| ==> names[k] != [] && names[k][0] == names0[kept[k]][0]
    requires forall k, x :: 0 <= k < |kept| && x in names[k] ==>
      ComesFrom(AbsorbPairs(FirstTaxa(names0, taxonomy), SortedLists(peps0), splitTaxonomy), names0, kept[k], x)
    requires forall z :: 0 <= z < |names0| && peps0[z] != [] ==>
      HeldByKept(AbsorbPairs(FirstTaxa(names0, taxonomy), SortedLists(peps0), splitTaxonomy), names0, kept, names, z)
    requires Distinct(Flatten(names0)) ==>
      forall z, k, x :: 0 <= z < |names0| && 0 <= k < |kept| && x in names0[z] && x in names[k] ==>
        Includes(names[k], names0[z])
    ensures IdenticalSetsShareEntry(names, pepSets, splitTaxonomy, taxonomy)
    ensures WellFormedSets(pepSets, splitTaxonomy, taxonomy) ==>
      && MembersWithinFirst(names, pepSets, splitTaxonomy, taxonomy)
      && forall p :: p in pepSets && pepSets[p] != {} ==> Named(names, p)
  {
    forall g | 0 <= g < |names0|
      ensures Distinct(names0[g])
    {
      StrictlyAscendingDistinct(names0[g]);
    }
    FlattenDistinct<string>(names0);
    ClusteredIdentical(pepSets, splitTaxonomy, taxonomy, names0, names);
    if WellFormedSets(pepSets, splitTaxonomy, taxonomy) {
      ClusteredMembers(pepSets, splitTaxonomy, taxonomy, names0, peps0, kept, names);
      ClusteredNamesNonempty(pepSets, splitTaxonomy, taxonomy, names0, peps0, kept, names);
    }
  }

  /**
   * `ClusterProteins` applied to entries built from a dictionary (lines
   * 169, 178 and 189): every fact the builder proved about the entries,
   * together with what clustering keeps, gives the parsimony properties.
   * Each survivor is an input entry (`kept`) with the same first protein,
   * peptides and flags.
   */
  method ClusterEntries(pepSets: map<string, set<string>>, names0: seq<seq<string>>, peps0: seq<seq<string>>,
                        flags0: Option<seq<seq<byte>>>, splitTaxonomy: bool, taxonomy: map<string, string>)
    returns (proteinNames: seq<seq<string>>, peptideSequences: seq<seq<string>>, flags: Option<seq<seq<byte>>>,
             ghost kept: seq<nat>)
    requires NamesPartitionProteins(names0, pepSets) && |peps0| == |names0|
    requires PeptidesOfFirstMember(names0, peps0, pepSets)
    requires flags0.Some? ==> |flags0.value| == |names0| && forall g :: 0 <= g < |names0| ==> |flags0.value[g]| == |peps0[g]|
    ensures |peptideSequences| == |proteinNames| == |kept| && InBounds(kept, |names0|)
    ensures forall k :: 0 <= k < |kept| ==>
      proteinNames[k] != [] && proteinNames[k][0] == names0[kept[k]][0] && peptideSequences[k] == peps0[kept[k]]
    ensures flags.Some? == flags0.Some?
    ensures flags.Some? ==> |flags.value| == |kept| && forall k :: 0 <= k < |kept| ==>
      flags.value[k] == Select(flags0.value[kept[k]], Order(peps0[kept[k]]))
    ensures ProteinsNamedOnce(proteinNames, pepSets)
    ensures forall g :: 0 <= g < |proteinNames| ==> peptideSequences[g] != []
    ensures PeptidesOfFirstMember(proteinNames, peptideSequences, pepSets)
    ensures NoEntryContainsAnother(proteinNames, pepSets, splitTaxonomy, taxonomy)
    ensures (forall p :: p in pepSets ==> pepSets[p] != {}) ==> forall p :: p in pepSets ==> Named(proteinNames, p)
    ensures forall k, x :: 0 <= k < |kept| && x in proteinNames[k] ==>
      ComesFrom(AbsorbPairs(FirstTaxa(names0, taxonomy), SortedLists(peps0), splitTaxonomy), names0, kept[k], x)
    ensures forall z :: 0 <= z < |names0| && peps0[z] != [] ==>
      HeldByKept(AbsorbPairs(FirstTaxa(names0, taxonomy), SortedLists(peps0), splitTaxonomy), names0, kept, proteinNames, z)
    ensures Distinct(Flatten(names0)) ==>
      forall z, k, x :: 0 <= z < |names0| && 0 <= k < |kept| && x in names0[z] && x in proteinNames[k] ==>
        Includes(proteinNames[k], names0[z])
  {
    proteinNames, peptideSequences, flags, kept := ClusterProteins(names0, peps0, flags0, splitTaxonomy, taxonomy);
    ClusteredKeepsFirst(pepSets, names0, peps0, kept, proteinNames, peptideSequences);
    ClusteredNamesOnce(pepSets, names0, proteinNames);
    ClusteredAntichain(pepSets, splitTaxonomy, taxonomy, proteinNames, peptideSequences);
    if forall p :: p in pepSets ==> pepSets[p] != {} {
      ClusteredNamesAll(pepSets, names0, peps0, proteinNames);
    }
  }

  /** Entries whose peptides are already sorted keep their flags in place. */
  lemma FlagsOfAscendingEntries(pepSets: map<string, set<string>>, names0: seq<seq<string>>, peps0: seq<seq<string>>,
                                flags0: seq<seq<byte>>, kept: seq<nat>, flags: seq<seq<byte>>)
    requires |peps0| == |names0| && forall g :: 0 <= g < |names0| ==> names0[g] != [] && names0[g][0] in pepSets
    requires PeptidesOfFirstMember(names0, peps0, pepSets)
    requires |flags0| == |peps0| && InBounds(kept, |peps0|) && |flags| == |kept|
    requires forall g :: 0 <= g < |names0| ==> |flags0[g]| == |peps0[g]|
    requires forall k :: 0 <= k < |kept| ==> flags[k] == Select(flags0[kept[k]], Order(peps0[kept[k]]))
    ensures forall k :: 0 <= k < |kept| ==> flags[k] == flags0[kept[k]]
  {
    forall k | 0 <= k < |kept|
      ensures flags[k] == flags0[kept[k]]
    {
      var x := kept[k];
      StrictlyAscendingIsAscending(peps0[x]);
      OrderOfAscending(peps0[x]);
      SelectRange(flags0[x]);
    }
  }

  /**
   * `GetProteinAndPeptideLists` for a dictionary from protein to (peptide
   * to mutation flag): build one entry per set of identical peptide sets,
   * then cluster. Each surviving entry carries the sorted peptides of its
   * first protein and their flags, no entry's peptide set lies inside
   * another's, and no protein is named twice; when every protein has a
   * peptide, every protein is named.
   */
  method GetProteinAndPeptideLists(protein2Pep: map<string, map<string, byte>>, splitTaxonomy: bool,
                                   taxonomy: map<string, string>)
    returns (proteinNames: seq<seq<string>>, peptideSequences: seq<seq<string>>, isMutated: seq<seq<byte>>)
    requires protein2Pep != map[]
    ensures |peptideSequences| == |isMutated| == |proteinNames|
    ensures ProteinsNamedOnce(proteinNames, protein2Pep)
    ensures forall g :: 0 <= g < |proteinNames| ==> peptideSequences[g] != []
    ensures PeptidesOfFirstMember(proteinNames, peptideSequences, PeptideSets(protein2Pep))
    ensures forall g :: 0 <= g < |proteinNames| ==>
      |isMutated[g]| == |peptideSequences[g]| &&
      forall j :: 0 <= j < |peptideSequences[g]| ==>
        peptideSequences[g][j] in protein2Pep[proteinNames[g][0]] &&
        isMutated[g][j] == protein2Pep[proteinNames[g][0]][peptideSequences[g][j]]
    ensures NoEntryContainsAnother(proteinNames, PeptideSets(protein2Pep), splitTaxonomy, taxonomy)
    ensures (forall p :: p in protein2Pep ==> protein2Pep[p].Keys != {}) ==>
      forall p :: p in protein2Pep ==> Named(proteinNames, p)
    ensures IdenticalSetsShareEntry(proteinNames, PeptideSets(protein2Pep), splitTaxonomy, taxonomy)
    ensures WellFormedSets(PeptideSets(protein2Pep), splitTaxonomy, taxonomy) ==>
      && MembersWithinFirst(proteinNames, PeptideSets(protein2Pep), splitTaxonomy, taxonomy)
      && forall p :: p in protein2Pep && protein2Pep[p].Keys != {} ==> Named(proteinNames, p)
  {
    var names0, peps0, flags0 := CreateProteinAndPeptideLists(protein2Pep, splitTaxonomy, taxonomy);
    var flags: Option<seq<seq<byte>>>;
    ghost var kept: seq<nat>;
    proteinNames, peptideSequences, flags, kept :=
      ClusterEntries(PeptideSets(protein2Pep), names0, peps0, Some(flags0), splitTaxonomy, taxonomy);
    FlagsOfAscendingEntries(PeptideSets(protein2Pep), names0, peps0, flags0, kept, flags.value);
    ClusteredGrouping(PeptideSets(protein2Pep), splitTaxonomy, taxonomy, names0, peps0, kept, proteinNames);
    isMutated := flags.value;
  }

  /**
   * `GetProteinAndPeptideLists` for a dictionary from protein to a set of
   * peptides (the `HashSet` and `ISet` overloads are the same code): the
   * same as above, without mutation flags.
   */
  method GetProteinAndPeptideListsFromSets(protein2Pep: map<string, set<string>>, splitTaxonomy: bool,
                                           taxonomy: map<string, string>)
    returns (proteinNames: seq<seq<string>>, peptideSequences: seq<seq<string>>)
    requires protein2Pep != map[]
    ensures |peptideSequences| == |proteinNames|
    ensures ProteinsNamedOnce(proteinNames, protein2Pep)
    ensures forall g :: 0 <= g < |proteinNames| ==> peptideSequences[g] != []
    ensures PeptidesOfFirstMember(proteinNames, peptideSequences, protein2Pep)
    ensures NoEntryContainsAnother(proteinNames, protein2Pep, splitTaxonomy, taxonomy)
    ensures (forall p :: p in protein2Pep ==> protein2Pep[p] != {}) ==>
      forall p :: p in protein2Pep ==> Named(proteinNames, p)
    ensures IdenticalSetsShareEntry(proteinNames, protein2Pep, splitTaxonomy, taxonomy)
    ensures WellFormedSets(protein2Pep, splitTaxonomy, taxonomy) ==>
      && MembersWithinFirst(proteinNames, protein2Pep, splitTaxonomy, taxonomy)
      && forall p :: p in protein2Pep && protein2Pep[p] != {} ==> Named(proteinNames, p)
  {
    var names0, peps0 := CreateProteinAndPeptideListsFromSets(protein2Pep, splitTaxonomy, taxonomy);
    var flags: Option<seq<seq<byte>>>;
    ghost var kept: seq<nat>;
    proteinNames, peptideSequences, flags, kept := ClusterEntries(protein2Pep, names0, peps0, None, splitTaxonomy, taxonomy);
    ClusteredGrouping(protein2Pep, splitTaxonomy, taxonomy, names0, peps0, kept, proteinNames);
  }
}
