/**
 * The order in which strings are sorted, and the sorting helpers built on
 * it: `Order` gives the stable sorting permutation of a key list (the
 * library's `Order()`), and `SortStrings` sorts a list of strings
 * (`Array.Sort`).
 */
module StringOrder {
  import opened Seqs

  /** Ordinal comparison: lexicographic by character code, a proper prefix first. */
  predicate Less(a: string, b: string)
    decreases |a|
  {
    if |b| == 0 then false
    else if |a| == 0 then true
    else if a[0] != b[0] then a[0] < b[0]
    else Less(a[1..], b[1..])
  }

  lemma {:induction false} LessIrreflexive(a: string)
    ensures !Less(a, a)
    decreases |a|
  {
    if |a| > 0 {
      LessIrreflexive(a[1..]);
    }
  }

  lemma {:induction false} LessAsymmetric(a: string, b: string)
    ensures Less(a, b) ==> !Less(b, a)
    decreases |a|
  {
    if |a| > 0 && |b| > 0 && a[0] == b[0] {
      LessAsymmetric(a[1..], b[1..]);
    }
  }

  lemma {:induction false} LessTransitive(a: string, b: string, c: string)
    ensures Less(a, b) && Less(b, c) ==> Less(a, c)
    decreases |a|
  {
    if |a| > 0 && |b| > 0 && |c| > 0 && a[0] == b[0] == c[0] {
      LessTransitive(a[1..], b[1..], c[1..]);
    }
  }

  lemma {:induction false} LessTotal(a: string, b: string)
    ensures a == b || Less(a, b) || Less(b, a)
    decreases |a|
  {
    if |a| > 0 && |b| > 0 && a[0] == b[0] {
      LessTotal(a[1..], b[1..]);
      if a[1..] == b[1..] {
        assert a == [a[0]] + a[1..] && b == [b[0]] + b[1..];
      }
    }
  }

  /** Facts about `Less` in quantified form, for use inside larger proofs. */
  lemma LessIsStrictTotalOrder()
    ensures forall a :: !Less(a, a)
    ensures forall a, b :: Less(a, b) ==> !Less(b, a)
    ensures forall a, b, c :: Less(a, b) && Less(b, c) ==> Less(a, c)
    ensures forall a, b :: a == b || Less(a, b) || Less(b, a)
  {
    forall a { LessIrreflexive(a); }
    forall a, b { LessAsymmetric(a, b); }
    forall a, b, c { LessTransitive(a, b, c); }
    forall a, b { LessTotal(a, b); }
  }

  /** `s` is in ascending order (equal neighbours allowed). */
  predicate Ascending(s: seq<string>)
  {
    forall i, j :: 0 <= i < j < |s| ==> !Less(s[j], s[i])
  }

  /** `s` is in strictly ascending order, so it holds no duplicates. */
  predicate StrictlyAscending(s: seq<string>)
  {
    forall i, j :: 0 <= i < j < |s| ==> Less(s[i], s[j])
  }

  /** The index list `o` visits `keys` in ascending order. */
  predicate SortedBy(keys: seq<string>, o: seq<nat>)
    requires InBounds(o, |keys|)
  {
    forall i, j :: 0 <= i < j < |o| ==> !Less(keys[o[j]], keys[o[i]])
  }

  /** Inserts index `k` into `o` after every index whose key is not greater (stability). */
  function InsertIndex(keys: seq<string>, k: nat, o: seq<nat>): (r: seq<nat>)
    requires k < |keys| && InBounds(o, |keys|)
    ensures InBounds(r, |keys|) && |r| == |o| + 1
  {
    if o == [] then [k]
    else if Less(keys[k], keys[o[0]]) then [k] + o
    else [o[0]] + InsertIndex(keys, k, o[1..])
  }

  /** Inserting adds exactly the one index. */
  lemma {:induction false} InsertIndexMultiset(keys: seq<string>, k: nat, o: seq<nat>)
    requires k < |keys| && InBounds(o, |keys|)
    ensures multiset(InsertIndex(keys, k, o)) == multiset(o) + multiset{k}
    decreases |o|
  {
    if o != [] && !Less(keys[k], keys[o[0]]) {
      InsertIndexMultiset(keys, k, o[1..]);
      assert o == [o[0]] + o[1..];
    }
  }

  lemma {:induction false} InsertIndexSorted(keys: seq<string>, k: nat, o: seq<nat>)
    requires k < |keys| && InBounds(o, |keys|) && SortedBy(keys, o)
    ensures SortedBy(keys, InsertIndex(keys, k, o))
    decreases |o|
  {
    if o == [] {
    } else if Less(keys[k], keys[o[0]]) {
      BelowHead(keys, k, o);
    } else {
      InsertIndexSorted(keys, k, o[1..]);
      var t := InsertIndex(keys, k, o[1..]);
      assert InsertIndex(keys, k, o) == [o[0]] + t;
      NotBelowHead(keys, k, o);
    }
  }

  /** A key below the head of a sorted listing is below every listed key. */
  lemma BelowHead(keys: seq<string>, k: nat, o: seq<nat>)
    requires k < |keys| && InBounds(o, |keys|) && SortedBy(keys, o)
    requires o != [] && Less(keys[k], keys[o[0]])
    ensures forall j :: 0 <= j < |o| ==> !Less(keys[o[j]], keys[k])
  {
    forall j | 0 <= j < |o| ensures !Less(keys[o[j]], keys[k]) {
      if 0 < j {
        LessTotal(keys[o[0]], keys[o[j]]);
        LessTransitive(keys[k], keys[o[0]], keys[o[j]]);
        LessAsymmetric(keys[k], keys[o[j]]);
      } else {
        LessAsymmetric(keys[k], keys[o[0]]);
      }
    }
  }

  /** Inserting a key not below the head into the tail leaves every key not below the head. */
  lemma NotBelowHead(keys: seq<string>, k: nat, o: seq<nat>)
    requires k < |keys| && InBounds(o, |keys|) && SortedBy(keys, o)
    requires o != [] && !Less(keys[k], keys[o[0]])
    ensures forall j :: 0 <= j < |o| ==> !Less(keys[InsertIndex(keys, k, o[1..])[j]], keys[o[0]])
  {
    var t := InsertIndex(keys, k, o[1..]);
    InsertIndexMultiset(keys, k, o[1..]);
    forall j | 0 <= j < |t| ensures !Less(keys[t[j]], keys[o[0]]) {
      assert t[j] in multiset(t);
      assert t[j] in multiset(o[1..]) || t[j] == k;
      if t[j] != k {
        var m :| 0 <= m < |o[1..]| && o[1..][m] == t[j];
        assert o[m + 1] == t[j];
      }
    }
  }

  /** An index whose key is not below any listed key is appended at the end. */
  lemma {:induction false} InsertIndexAtEnd(keys: seq<string>, k: nat, o: seq<nat>)
    requires k < |keys| && InBounds(o, |keys|)
    requires forall i :: 0 <= i < |o| ==> !Less(keys[k], keys[o[i]])
    ensures InsertIndex(keys, k, o) == o + [k]
    decreases |o|
  {
    if o != [] {
      InsertIndexAtEnd(keys, k, o[1..]);
      assert o == [o[0]] + o[1..];
    }
  }

  /** The stable sorting permutation of `keys[..m]`. */
  function OrderPrefix(keys: seq<string>, m: nat): (o: seq<nat>)
    requires m <= |keys|
    ensures InBounds(o, |keys|) && |o| == m
  {
    if m == 0 then [] else InsertIndex(keys, m - 1, OrderPrefix(keys, m - 1))
  }

  /** `OrderPrefix(keys, m)` lists each of the indices below `m` once. */
  lemma {:induction false} OrderPrefixMultiset(keys: seq<string>, m: nat)
    requires m <= |keys|
    ensures multiset(OrderPrefix(keys, m)) == multiset(Range(m))
    decreases m
  {
    if m > 0 {
      var o := OrderPrefix(keys, m - 1);
      OrderPrefixMultiset(keys, m - 1);
      InsertIndexMultiset(keys, m - 1, o);
      assert OrderPrefix(keys, m) == InsertIndex(keys, m - 1, o);
      RangeSnoc(m - 1);
    }
  }

  /**
   * The stable sorting permutation of `keys`: `keys[o[0]], keys[o[1]], ...`
   * is ascending, and equal keys keep their original relative order.
   */
  function Order(keys: seq<string>): (o: seq<nat>)
    ensures IsPermutation(o, |keys|)
    ensures InBounds(o, |keys|) && |o| == |keys|
  {
    OrderPrefixMultiset(keys, |keys|);
    OrderPrefix(keys, |keys|)
  }

  lemma {:induction false} OrderPrefixSorted(keys: seq<string>, m: nat)
    requires m <= |keys|
    ensures SortedBy(keys, OrderPrefix(keys, m))
    decreases m
  {
    if m > 0 {
      var o := OrderPrefix(keys, m - 1);
      OrderPrefixSorted(keys, m - 1);
      InsertIndexSorted(keys, m - 1, o);
      assert OrderPrefix(keys, m) == InsertIndex(keys, m - 1, o);
    }
  }

  /** Reading `keys` through `Order(keys)` gives the keys in ascending order. */
  lemma OrderSorts(keys: seq<string>)
    ensures SortedBy(keys, Order(keys))
    ensures Ascending(Select(keys, Order(keys)))
  {
    OrderPrefixSorted(keys, |keys|);
  }

  lemma {:induction false} OrderPrefixOfAscending(keys: seq<string>, m: nat)
    requires m <= |keys| && Ascending(keys)
    ensures OrderPrefix(keys, m) == Range(m)
    decreases m
  {
    if m > 0 {
      OrderPrefixOfAscending(keys, m - 1);
      var r := Range(m - 1);
      forall i | 0 <= i < |r| ensures !Less(keys[m - 1], keys[r[i]]) {
        assert r[i] == i < m - 1;
      }
      InsertIndexAtEnd(keys, m - 1, r);
      assert OrderPrefix(keys, m) == InsertIndex(keys, m - 1, r);
      assert r + [m - 1] == Range(m);
    }
  }

  /** A list that is already ascending is left in place by `Order`. */
  lemma OrderOfAscending(keys: seq<string>)
    requires Ascending(keys)
    ensures Order(keys) == Range(|keys|)
    ensures Select(keys, Order(keys)) == keys
  {
    OrderPrefixOfAscending(keys, |keys|);
  }

  /** `Array.Sort` on a string array: the same strings in ascending order. */
  function SortStrings(s: seq<string>): (r: seq<string>)
    ensures |r| == |s|
  {
    Select(s, Order(s))
  }

  lemma {:induction false} SortStringsCorrect(s: seq<string>)
    ensures Ascending(SortStrings(s))
    ensures forall x :: x in SortStrings(s) <==> x in s
    ensures Ascending(s) ==> SortStrings(s) == s
  {
    OrderSorts(s);
    SelectPermutationMembers(s, Order(s));
    if Ascending(s) {
      OrderOfAscending(s);
    }
  }

  /** Reading a list through a permutation of its indices keeps its elements. */
  lemma SelectPermutationMembers<T>(s: seq<T>, o: seq<nat>)
    requires IsPermutation(o, |s|)
    ensures InBounds(o, |s|)
    ensures forall x :: x in Select(s, o) <==> x in s
  {
    PermutationFacts(o, |s|);
    var r := Select(s, o);
    forall x | x in s ensures x in r {
      var i :| 0 <= i < |s| && s[i] == x;
      assert i in o;
      var k :| 0 <= k < |o| && o[k] == i;
      assert r[k] == x;
    }
  }

  /** Two strictly ascending lists with the same elements are identical. */
  lemma {:induction false} StrictlyAscendingUnique(a: seq<string>, b: seq<string>)
    requires StrictlyAscending(a) && StrictlyAscending(b)
    requires forall x :: x in a <==> x in b
    ensures a == b
    decreases |a|
  {
    LessIsStrictTotalOrder();
    assert a != [] ==> a[0] in b;
    assert b != [] ==> b[0] in a;
    if a != [] && b != [] {
      // the first element of each is the least element of both
      assert a[0] in b;
      assert b[0] in a;
      var i :| 0 <= i < |b| && b[i] == a[0];
      var j :| 0 <= j < |a| && a[j] == b[0];
      assert a[0] == b[0];
      forall x ensures x in a[1..] <==> x in b[1..] {
        if x in a[1..] {
          var k :| 1 <= k < |a| && a[k] == x;
          assert x != a[0] && x in b;
        }
        if x in b[1..] {
          var k :| 1 <= k < |b| && b[k] == x;
          assert x != b[0] && x in a;
        }
      }
      StrictlyAscendingUnique(a[1..], b[1..]);
      assert a == [a[0]] + a[1..] && b == [b[0]] + b[1..];
    }
  }

  /** An ascending list without duplicates is strictly ascending. */
  lemma AscendingDistinct(s: seq<string>)
    requires Ascending(s)
    requires forall i, j :: 0 <= i < j < |s| ==> s[i] != s[j]
    ensures StrictlyAscending(s)
  {
    LessIsStrictTotalOrder();
  }

  /** A strictly ascending list is ascending. */
  lemma StrictlyAscendingIsAscending(s: seq<string>)
    requires StrictlyAscending(s)
    ensures Ascending(s)
  {
    forall i, j | 0 <= i < j < |s| ensures !Less(s[j], s[i]) {
      LessAsymmetric(s[i], s[j]);
    }
  }

  /** A strictly ascending list has no duplicates. */
  lemma StrictlyAscendingDistinct(s: seq<string>)
    requires StrictlyAscending(s)
    ensures Distinct(s)
  {
    forall i, j | 0 <= i < j < |s| ensures s[i] != s[j] {
      LessIrreflexive(s[i]);
    }
  }
}
