/**
 * Sequence helpers shared by the model: the index range `0..n-1`,
 * selecting elements by an index list (`SubArray`), concatenating a
 * list of lists, and index permutations.
 */
module Seqs {

  /** The indices `0, 1, ..., n-1`. */
  function Range(n: nat): (r: seq<nat>)
    ensures |r| == n && forall i :: 0 <= i < n ==> r[i] == i
  {
    seq(n, i => i)
  }

  lemma RangeSnoc(n: nat)
    ensures Range(n + 1) == Range(n) + [n]
    ensures multiset(Range(n + 1)) == multiset(Range(n)) + multiset{n}
  {
    assert Range(n + 1) == Range(n) + [n];
  }

  /** True when every entry of `idx` is a valid index into a sequence of length `n`. */
  predicate InBounds(idx: seq<nat>, n: nat)
  {
    forall k :: 0 <= k < |idx| ==> idx[k] < n
  }

  /** The elements of `s` at the positions listed in `idx`, in that order. */
  function Select<T>(s: seq<T>, idx: seq<nat>): (r: seq<T>)
    requires InBounds(idx, |s|)
    ensures |r| == |idx| && forall k :: 0 <= k < |idx| ==> r[k] == s[idx[k]]
  {
    seq(|idx|, k requires 0 <= k < |idx| => s[idx[k]])
  }

  /** Strictly increasing integer sequence. */
  predicate StrictlyIncreasing(s: seq<int>)
  {
    forall i, j :: 0 <= i < j < |s| ==> s[i] < s[j]
  }

  /** A strictly increasing sequence is determined by its elements. */
  lemma {:induction false} IncreasingUnique(a: seq<nat>, b: seq<nat>)
    requires StrictlyIncreasing(a) && StrictlyIncreasing(b)
    requires forall x :: x in a <==> x in b
    ensures a == b
    decreases |a|
  {
    assert a == [] <==> b == [] by {
      if a != [] {
        assert a[0] in b;
      }
      if b != [] {
        assert b[0] in a;
      }
    }
    if a != [] {
      assert a[0] in b;
      assert b[0] in a;
      var i :| 0 <= i < |a| && a[i] == b[0];
      var j :| 0 <= j < |b| && b[j] == a[0];
      assert a[0] == b[0];
      forall x
        ensures x in a[1..] <==> x in b[1..]
      {
        if x in a[1..] {
          var k :| 1 <= k < |a| && a[k] == x;
          assert x in b && x != b[0];
        }
        if x in b[1..] {
          var k :| 1 <= k < |b| && b[k] == x;
          assert x in a && x != a[0];
        }
      }
      IncreasingUnique(a[1..], b[1..]);
      assert a == [a[0]] + a[1..] && b == [b[0]] + b[1..];
    }
  }

  /** Appending an index above all present ones keeps the indices increasing. */
  lemma IncreasingSnoc(idx: seq<nat>, i: nat)
    requires StrictlyIncreasing(idx) && InBounds(idx, i)
    ensures StrictlyIncreasing(idx + [i])
  {
  }

  /** The concatenation of all lists of `ss`, in order. */
  function Flatten<T>(ss: seq<seq<T>>): seq<T>
  {
    if ss == [] then [] else Flatten(ss[..|ss| - 1]) + ss[|ss| - 1]
  }

  lemma FlattenAppend<T>(ss: seq<seq<T>>, s: seq<T>)
    ensures Flatten(ss + [s]) == Flatten(ss) + s
  {
    assert (ss + [s])[..|ss|] == ss;
  }

  /**
   * Replacing one list of `ss` by `x` changes the multiset of all elements
   * by exactly the elements removed and added.
   */
  lemma {:induction false} FlattenUpdate<T>(ss: seq<seq<T>>, i: nat, x: seq<T>)
    requires i < |ss|
    ensures multiset(Flatten(ss[i := x])) + multiset(ss[i]) == multiset(Flatten(ss)) + multiset(x)
    decreases |ss|
  {
    var n := |ss| - 1;
    var upd := ss[i := x];
    if i == n {
      assert upd[..n] == ss[..n];
      assert Flatten(upd) == Flatten(ss[..n]) + x;
      assert Flatten(ss) == Flatten(ss[..n]) + ss[n];
    } else {
      assert upd[..n] == ss[..n][i := x];
      FlattenUpdate(ss[..n], i, x);
      assert ss[..n][i] == ss[i] && upd[n] == ss[n];
      assert Flatten(upd) == Flatten(ss[..n][i := x]) + ss[n];
      assert multiset(Flatten(upd)) == multiset(Flatten(ss[..n][i := x])) + multiset(ss[n]);
      assert Flatten(ss) == Flatten(ss[..n]) + ss[n];
      assert multiset(Flatten(ss)) == multiset(Flatten(ss[..n])) + multiset(ss[n]);
      calc {
        multiset(Flatten(upd)) + multiset(ss[i]);
        multiset(Flatten(ss[..n][i := x])) + multiset(ss[..n][i]) + multiset(ss[n]);
        multiset(Flatten(ss[..n])) + multiset(x) + multiset(ss[n]);
        multiset(Flatten(ss)) + multiset(x);
      }
    }
  }

  /** An element of the concatenation lies in one of the lists, and conversely. */
  lemma {:induction false} FlattenMember<T>(ss: seq<seq<T>>, x: T)
    ensures x in Flatten(ss) <==> exists g :: 0 <= g < |ss| && x in ss[g]
    decreases |ss|
  {
    if ss != [] {
      var n := |ss| - 1;
      FlattenMember(ss[..n], x);
      assert forall g :: 0 <= g < n ==> ss[..n][g] == ss[g];
    }
  }

  lemma {:induction false} FlattenLength<T>(ss: seq<seq<T>>)
    ensures |Flatten(ss)| == 0 <==> forall g :: 0 <= g < |ss| ==> ss[g] == []
    decreases |ss|
  {
    if ss != [] {
      var n := |ss| - 1;
      FlattenLength(ss[..n]);
      assert forall g :: 0 <= g < n ==> ss[..n][g] == ss[g];
    }
  }

  /** `o` lists every index `0..n-1` exactly once. */
  ghost predicate IsPermutation(o: seq<nat>, n: nat)
  {
    multiset(o) == multiset(Range(n))
  }

  lemma {:induction false} RangeCount(n: nat, x: int)
    ensures multiset(Range(n))[x] == if 0 <= x < n then 1 else 0
    decreases n
  {
    if n > 0 {
      assert Range(n) == Range(n - 1) + [n - 1];
      RangeCount(n - 1, x);
    }
  }

  /** Two positions holding the same value make that value occur at least twice. */
  lemma RepeatCount<T>(s: seq<T>, i: nat, j: nat)
    requires i < j < |s| && s[i] == s[j]
    ensures multiset(s)[s[i]] >= 2
  {
    assert s == s[..j] + s[j..];
    assert s[i] in s[..j];
    assert s[j] in s[j..];
    assert multiset(s) == multiset(s[..j]) + multiset(s[j..]);
  }

  /** What a permutation of `0..n-1` gives: length, range, distinctness, coverage. */
  lemma PermutationFacts(o: seq<nat>, n: nat)
    requires IsPermutation(o, n)
    ensures |o| == n
    ensures forall i :: 0 <= i < |o| ==> o[i] < n
    ensures forall i, j :: 0 <= i < j < |o| ==> o[i] != o[j]
    ensures forall x :: 0 <= x < n ==> x in o
  {
    assert |multiset(o)| == |o|;
    assert |multiset(Range(n))| == n;
    forall i | 0 <= i < |o| ensures o[i] < n {
      assert o[i] in multiset(o);
      RangeCount(n, o[i]);
    }
    forall i, j | 0 <= i < j < |o| ensures o[i] != o[j] {
      if o[i] == o[j] {
        RepeatCount(o, i, j);
        RangeCount(n, o[i]);
      }
    }
    forall x | 0 <= x < n ensures x in o {
      RangeCount(n, x);
      assert x in multiset(o);
    }
  }

  lemma SelectSelect<T>(s: seq<T>, g: seq<nat>, o: seq<nat>)
    requires InBounds(g, |s|) && InBounds(o, |g|)
    ensures InBounds(Select(g, o), |s|)
    ensures Select(Select(s, g), o) == Select(s, Select(g, o))
  {
  }

  /** No element occurs twice. */
  predicate Distinct<T(==)>(s: seq<T>)
  {
    forall i, j :: 0 <= i < j < |s| ==> s[i] != s[j]
  }

  /** A duplicate-free concatenation comes from duplicate-free, pairwise disjoint lists. */
  lemma {:induction false} DistinctFlatten<T>(ss: seq<seq<T>>)
    requires Distinct(Flatten(ss))
    ensures forall g :: 0 <= g < |ss| ==> Distinct(ss[g])
    ensures forall g1, g2, x :: 0 <= g1 < g2 < |ss| && x in ss[g1] ==> x !in ss[g2]
    decreases |ss|
  {
    if ss != [] {
      var n := |ss| - 1;
      var init, last := Flatten(ss[..n]), ss[n];
      assert Flatten(ss) == init + last;
      assert Distinct(init) by {
        forall i, j | 0 <= i < j < |init| ensures init[i] != init[j] {
          assert init[i] == Flatten(ss)[i] && init[j] == Flatten(ss)[j];
        }
      }
      DistinctFlatten(ss[..n]);
      assert Distinct(last) by {
        forall i, j | 0 <= i < j < |last| ensures last[i] != last[j] {
          assert last[i] == Flatten(ss)[|init| + i] && last[j] == Flatten(ss)[|init| + j];
        }
      }
      forall g1, g2, x | 0 <= g1 < g2 < |ss| && x in ss[g1] ensures x !in ss[g2] {
        assert ss[..n][g1] == ss[g1];
        if g2 == n {
          FlattenMember(ss[..n], x);
          var i :| 0 <= i < |init| && init[i] == x;
          forall j | 0 <= j < |last| ensures last[j] != x {
            assert Flatten(ss)[i] == x && Flatten(ss)[|init| + j] == last[j];
          }
        } else {
          assert ss[..n][g2] == ss[g2];
        }
      }
      forall g | 0 <= g < |ss| ensures Distinct(ss[g]) {
        if g < n {
          assert ss[..n][g] == ss[g];
        }
      }
    }
  }

  /** Extending a prefix by one element. */
  lemma PrefixSnoc<T>(s: seq<T>, i: nat)
    requires i < |s|
    ensures s[..i + 1] == s[..i] + [s[i]]
  {
  }

  /** Reading a list through the identity order gives the list. */
  lemma SelectRange<T>(s: seq<T>)
    ensures Select(s, Range(|s|)) == s
  {
  }

  /** The elements of a sequence, as a set. */
  function Elements<T>(s: seq<T>): set<T>
  {
    set x | x in s
  }

  /** A sequence has at least as many positions as distinct elements, exactly as many when it has no repeats. */
  lemma {:induction false} ElementsSize<T>(s: seq<T>)
    ensures |Elements(s)| <= |s|
    ensures Distinct(s) ==> |Elements(s)| == |s|
    decreases |s|
  {
    if s != [] {
      var n := |s| - 1;
      ElementsSize(s[..n]);
      assert Elements(s) == Elements(s[..n]) + {s[n]} by {
        assert s == s[..n] + [s[n]];
      }
      if Distinct(s) {
        assert Distinct(s[..n]);
        assert s[n] !in Elements(s[..n]);
      }
    }
  }

  /** A sequence without repeats whose elements all occur in `t` is no longer than `t`. */
  lemma DistinctIncludedShorter<T>(s: seq<T>, t: seq<T>)
    requires Distinct(s) && forall x :: x in s ==> x in t
    ensures |s| <= |t|
  {
    ElementsSize(s);
    ElementsSize(t);
    SubsetSize(Elements(s), Elements(t));
  }

  lemma {:induction false} SubsetSize<T>(a: set<T>, b: set<T>)
    requires a <= b
    ensures |a| <= |b|
    decreases a
  {
    if a != {} {
      var x :| x in a;
      SubsetSize(a - {x}, b - {x});
    }
  }

  /** Duplicate-free, pairwise disjoint lists concatenate to a duplicate-free list. */
  lemma {:induction false} FlattenDistinct<T>(ss: seq<seq<T>>)
    requires forall g :: 0 <= g < |ss| ==> Distinct(ss[g])
    requires forall g1, g2, x :: 0 <= g1 < g2 < |ss| && x in ss[g1] ==> x !in ss[g2]
    ensures Distinct(Flatten(ss))
    decreases |ss|
  {
    if ss != [] {
      var n := |ss| - 1;
      var init, last := Flatten(ss[..n]), ss[n];
      FlattenDistinct(ss[..n]);
      forall x | x in init
        ensures x !in last
      {
        FlattenMember(ss[..n], x);
        var g :| 0 <= g < n && x in ss[..n][g];
        assert x in ss[g];
      }
      forall i, j | 0 <= i < j < |init + last|
        ensures (init + last)[i] != (init + last)[j]
      {
        if j < |init| {
        } else if i >= |init| {
          assert (init + last)[i] == last[i - |init|];
        } else {
          assert (init + last)[i] in init;
          assert (init + last)[j] in last;
        }
      }
    }
  }

  /** A list is duplicate-free exactly when no element occurs in it more than once. */
  lemma {:induction false} DistinctCounts<T>(s: seq<T>)
    ensures Distinct(s) <==> forall x :: multiset(s)[x] <= 1
    decreases |s|
  {
    if s != [] {
      var n := |s| - 1;
      var t, y := s[..n], s[n];
      assert s == t + [y];
      DistinctCounts(t);
      assert multiset(s) == multiset(t) + multiset{y};
      if Distinct(s) {
        assert Distinct(t);
        assert y !in t;
        forall x
          ensures multiset(s)[x] <= 1
        {
          if x == y {
            assert multiset(t)[x] == 0;
          }
        }
      }
      if forall x :: multiset(s)[x] <= 1 {
        forall x
          ensures multiset(t)[x] <= 1
        {
          assert multiset(s)[x] >= multiset(t)[x];
        }
        assert multiset(s)[y] <= 1;
        assert y !in t;
        forall i, j | 0 <= i < j < |s|
          ensures s[i] != s[j]
        {
          if j == n {
            assert s[i] in t;
          } else {
            assert t[i] != t[j];
          }
        }
      }
    }
  }

  /** Taking some of the elements of a duplicate-free list, in any order, gives a duplicate-free list. */
  lemma SubMultisetDistinct<T>(a: seq<T>, b: seq<T>)
    requires multiset(a) <= multiset(b) && Distinct(b)
    ensures Distinct(a)
  {
    DistinctCounts(b);
    DistinctCounts(a);
    assert forall x :: multiset(a)[x] <= multiset(b)[x];
  }
}
