/**
 * The duplicate grouper: fingerprint equality (compareHashes) and the
 * pairwise loop of findDuplicates that files every pair of paths with equal
 * fingerprints under that fingerprint.
 */
module Grouping {
  import opened Types

  /** duplicates: fingerprint to the set of paths filed under it. */
  type Duplicates = map<seq<bv32>, set<Path>>

  /** Fingerprint equality as the grouping defines it: the same length and the same hash at every index. */
  predicate SameHashes(hashes1: seq<bv32>, hashes2: seq<bv32>)
  {
    |hashes1| == |hashes2| && forall i :: 0 <= i < |hashes1| ==> hashes1[i] == hashes2[i]
  }

  /** Element-wise fingerprint equality is sequence equality, hence reflexive, symmetric and transitive. */
  lemma SameHashesIsEquality(hashes1: seq<bv32>, hashes2: seq<bv32>)
    ensures SameHashes(hashes1, hashes2) <==> hashes1 == hashes2
  {
  }

  /** compareHashes decides fingerprint equality. */
  method CompareHashes(hashes1: seq<bv32>, hashes2: seq<bv32>) returns (same: bool)
    ensures same <==> hashes1 == hashes2
  {
    if |hashes1| != |hashes2| {
      return false;
    }
    var i := 0;
    while i < |hashes1|
      invariant i <= |hashes1|
      invariant hashes1[..i] == hashes2[..i]
    {
      if hashes1[i] != hashes2[i] {
        return false;
      }
      i := i + 1;
    }
    assert hashes1 == hashes1[..i] && hashes2 == hashes2[..i];
    return true;
  }

  /** The recorded paths whose fingerprint is `k`. */
  function Holders<P, V(==)>(t: map<P, V>, k: V): set<P>
  {
    set p | p in t && t[p] == k
  }

  /** At least two distinct recorded paths have fingerprint `k`. */
  predicate Shared<P, V(==)>(t: map<P, V>, k: V)
  {
    exists p, q :: p in t && q in t && p != q && t[p] == k && t[q] == k
  }

  /** The groups a complete pairwise scan of `t` must produce: one per shared
      fingerprint, holding every path with that fingerprint. */
  function Groups<P, V(==)>(t: map<P, V>): map<V, set<P>>
  {
    map k | k in t.Values && Shared(t, k) :: Holders(t, k)
  }

  lemma TwoInSet<T>(s: set<T>, a: T, b: T)
    requires a in s && b in s && a != b
    ensures |s| >= 2
  {
    var rest := s - {a, b};
    assert s == rest + {a, b};
    assert |{a, b}| == 2;
  }

  lemma TwoOfSet<T>(s: set<T>) returns (a: T, b: T)
    requires |s| >= 2
    ensures a in s && b in s && a != b
  {
    a :| a in s;
    assert |s - {a}| == |s| - 1;
    b :| b in s - {a};
  }

  /** The grouping invariants: every group has at least two paths; every path
      of group k has fingerprint k; a path whose fingerprint is shared with
      another path is in exactly one group, that of its fingerprint; a path
      with a unique fingerprint is in no group. */
  lemma GroupsInvariants<P, V>(t: map<P, V>)
    ensures forall k :: k in Groups(t) ==> |Groups(t)[k]| >= 2
    ensures forall k, p :: k in Groups(t) && p in Groups(t)[k] ==> p in t && t[p] == k
    ensures forall p, q :: p in t && q in t && p != q && t[p] == t[q] ==>
              t[p] in Groups(t) && p in Groups(t)[t[p]] && q in Groups(t)[t[p]]
    ensures forall p :: p in t && (forall q :: q in t && q != p ==> t[q] != t[p]) ==>
              forall k :: k in Groups(t) ==> p !in Groups(t)[k]
  {
    var g := Groups(t);
    forall k | k in g
      ensures |g[k]| >= 2
    {
      var p, q :| p in t && q in t && p != q && t[p] == k && t[q] == k;
      TwoInSet(g[k], p, q);
    }
    forall p, q | p in t && q in t && p != q && t[p] == t[q]
      ensures t[p] in g && p in g[t[p]] && q in g[t[p]]
    {
      assert t[p] in t.Values;
      assert Shared(t, t[p]);
    }
  }

  /** Transitivity: two equalities through a common file put all three paths in one group. */
  lemma GroupsTransitive<P, V>(t: map<P, V>, a: P, b: P, c: P)
    requires a in t && b in t && c in t && a != b && t[a] == t[b] && t[b] == t[c]
    ensures t[a] in Groups(t) && a in Groups(t)[t[a]] && b in Groups(t)[t[a]] && c in Groups(t)[t[a]]
  {
    GroupsInvariants(t);
  }

  /** The paths of `t` in some order without repetition; std::map iterates its
      keys in path order, which the result of the grouping does not depend on. */
  method EnumerateKeys(t: Table) returns (paths: seq<Path>)
    ensures forall p :: p in t <==> p in paths
    ensures forall a, b :: 0 <= a < b < |paths| ==> paths[a] != paths[b]
  {
    paths := [];
    var rest := t.Keys;
    while rest != {}
      invariant rest <= t.Keys
      invariant forall p :: p in t <==> p in rest || p in paths
      invariant forall p :: p in rest ==> p !in paths
      invariant forall a, b :: 0 <= a < b < |paths| ==> paths[a] != paths[b]
      decreases rest
    {
      var p :| p in rest;
      paths := paths + [p];
      rest := rest - {p};
    }
  }

  /** The pair (a, b) of positions has been compared once the outer loop has passed
      a, or is at a with the inner loop past b. */
  predicate Compared(a: int, b: int, i: int, j: int)
  {
    a < i || (a == i && b < j)
  }

  /** Every group has at least two paths. */
  ghost predicate AtLeastTwo<P, V>(dup: map<V, set<P>>)
  {
    forall k :: k in dup ==> |dup[k]| >= 2
  }

  /** Every path filed under k is recorded with fingerprint k. */
  ghost predicate FiledUnderOwnKey<P, V>(t: map<P, V>, dup: map<V, set<P>>)
  {
    forall k, p :: k in dup && p in dup[k] ==> p in t && t[p] == k
  }

  /** Every compared pair with equal fingerprints has both paths filed under that fingerprint. */
  ghost predicate ComparedPairsFiled<P, V>(t: map<P, V>, paths: seq<P>, dup: map<V, set<P>>, i: int, j: int)
  {
    forall a, b ::
      0 <= a < b < |paths| && Compared(a, b, i, j) && paths[a] in t && paths[b] in t && t[paths[a]] == t[paths[b]]
      ==> t[paths[a]] in dup && paths[a] in dup[t[paths[a]]] && paths[b] in dup[t[paths[a]]]
  }

  /** What the pairwise loop keeps true of `dup` after comparing the pairs before (i, j). */
  ghost predicate PairInvariant<P, V>(t: map<P, V>, paths: seq<P>, dup: map<V, set<P>>, i: int, j: int)
  {
    AtLeastTwo(dup) && FiledUnderOwnKey(t, dup) && ComparedPairsFiled(t, paths, dup, i, j)
  }

  /** A non-empty group filed under its own key has a shared key. */
  lemma FiledKeysShared<P, V>(t: map<P, V>, dup: map<V, set<P>>)
    requires AtLeastTwo(dup) && FiledUnderOwnKey(t, dup)
    ensures forall k :: k in dup ==> k in Groups(t)
  {
    forall k | k in dup
      ensures k in Groups(t)
    {
      var p, q := TwoOfSet(dup[k]);
      assert p in t && q in t && t[p] == k && t[q] == k;
      assert k in t.Values && Shared(t, k);
    }
  }

  /** Once every pair is compared, every holder of a shared key is filed under it. */
  lemma SharedKeysFiled<P, V>(t: map<P, V>, paths: seq<P>, dup: map<V, set<P>>)
    requires forall p :: p in t ==> p in paths
    requires ComparedPairsFiled(t, paths, dup, |paths|, |paths| + 1)
    ensures forall k :: k in Groups(t) ==> k in dup && Holders(t, k) <= dup[k]
  {
    forall k | k in Groups(t)
      ensures k in dup && Holders(t, k) <= dup[k]
    {
      var p, q :| p in t && q in t && p != q && t[p] == k && t[q] == k;
      forall r | r in Holders(t, k)
        ensures k in dup && r in dup[k]
      {
        var other := if r == p then q else p;
        var a :| 0 <= a < |paths| && paths[a] == r;
        var b :| 0 <= b < |paths| && paths[b] == other;
        if a < b {
          assert Compared(a, b, |paths|, |paths| + 1);
        } else {
          assert Compared(b, a, |paths|, |paths| + 1);
        }
      }
    }
  }

  /** Once every pair is compared, `dup` is exactly Groups(t). */
  lemma AllPairsCompared<P, V>(t: map<P, V>, paths: seq<P>, dup: map<V, set<P>>)
    requires forall p :: p in t ==> p in paths
    requires PairInvariant(t, paths, dup, |paths|, |paths| + 1)
    ensures dup == Groups(t)
  {
    FiledKeysShared(t, dup);
    SharedKeysFiled(t, paths, dup);
    assert dup.Keys == Groups(t).Keys;
    forall k | k in dup
      ensures dup[k] == Groups(t)[k]
    {
      assert dup[k] <= Holders(t, k);
    }
  }

  /** `dup` after `a` and `b` are inserted into the group of `k` (created empty when missing). */
  ghost function Filed<P, V>(dup: map<V, set<P>>, k: V, a: P, b: P): map<V, set<P>>
  {
    dup[k := (if k in dup then dup[k] else {}) + {a} + {b}]
  }

  lemma FiledAtLeastTwo<P, V>(dup: map<V, set<P>>, k: V, a: P, b: P)
    requires AtLeastTwo(dup) && a != b
    ensures AtLeastTwo(Filed(dup, k, a, b))
  {
    TwoInSet(Filed(dup, k, a, b)[k], a, b);
  }

  lemma FiledOwnKey<P, V>(t: map<P, V>, dup: map<V, set<P>>, k: V, a: P, b: P)
    requires FiledUnderOwnKey(t, dup) && a in t && b in t && t[a] == k && t[b] == k
    ensures FiledUnderOwnKey(t, Filed(dup, k, a, b))
  {
  }

  lemma FiledCompletesPair<P, V>(t: map<P, V>, paths: seq<P>, dup: map<V, set<P>>, i: int, j: int)
    requires 0 <= i < j < |paths| && paths[i] in t && paths[j] in t && t[paths[i]] == t[paths[j]]
    requires ComparedPairsFiled(t, paths, dup, i, j)
    ensures ComparedPairsFiled(t, paths, Filed(dup, t[paths[i]], paths[i], paths[j]), i, j + 1)
  {
    var dup' := Filed(dup, t[paths[i]], paths[i], paths[j]);
    assert forall q :: q in dup ==> q in dup' && dup[q] <= dup'[q];
    forall a, b | 0 <= a < b < |paths| && Compared(a, b, i, j + 1) && paths[a] in t && paths[b] in t &&
                  t[paths[a]] == t[paths[b]]
      ensures t[paths[a]] in dup' && paths[a] in dup'[t[paths[a]]] && paths[b] in dup'[t[paths[a]]]
    {
      if !Compared(a, b, i, j) {
        assert a == i && b == j;
      }
    }
  }

  lemma UnequalPairSkipped<P, V>(t: map<P, V>, paths: seq<P>, dup: map<V, set<P>>, i: int, j: int)
    requires 0 <= i < j < |paths| && paths[i] in t && paths[j] in t && t[paths[i]] != t[paths[j]]
    requires ComparedPairsFiled(t, paths, dup, i, j)
    ensures ComparedPairsFiled(t, paths, dup, i, j + 1)
  {
    forall a, b | 0 <= a < b < |paths| && Compared(a, b, i, j + 1)
      ensures Compared(a, b, i, j) || (a == i && b == j)
    {
    }
  }

  /** Comparing pair (i, j), and filing both paths when equal, extends the invariant to (i, j + 1). */
  lemma ComparePairStep<P, V>(t: map<P, V>, paths: seq<P>, dup: map<V, set<P>>, dup': map<V, set<P>>, i: int, j: int)
    requires forall a :: 0 <= a < |paths| ==> paths[a] in t
    requires forall a, b :: 0 <= a < b < |paths| ==> paths[a] != paths[b]
    requires 0 <= i < j < |paths|
    requires PairInvariant(t, paths, dup, i, j)
    requires var k := t[paths[i]];
      dup' == if k == t[paths[j]] then Filed(dup, k, paths[i], paths[j]) else dup
    ensures PairInvariant(t, paths, dup', i, j + 1)
  {
    var k := t[paths[i]];
    if k == t[paths[j]] {
      FiledAtLeastTwo(dup, k, paths[i], paths[j]);
      FiledOwnKey(t, dup, k, paths[i], paths[j]);
      FiledCompletesPair(t, paths, dup, i, j);
    } else {
      UnequalPairSkipped(t, paths, dup, i, j);
    }
  }

  /** Finishing the row of position i is the same as starting the row of i + 1. */
  lemma NextRow<P, V>(t: map<P, V>, paths: seq<P>, dup: map<V, set<P>>, i: int)
    requires PairInvariant(t, paths, dup, i, |paths|)
    ensures PairInvariant(t, paths, dup, i + 1, i + 2)
  {
    assert ComparedPairsFiled(t, paths, dup, i, |paths|);
    forall a, b | 0 <= a < b < |paths| && Compared(a, b, i + 1, i + 2)
      ensures Compared(a, b, i, |paths|)
    {
    }
  }

  /** The inner loop of findDuplicates: compares the path at position i with
      every later path and files both paths of each equal pair. */
  method CompareWithLater(allFiles: Table, paths: seq<Path>, i: nat, duplicates: Duplicates) returns (duplicates': Duplicates)
    requires forall a :: 0 <= a < |paths| ==> paths[a] in allFiles
    requires forall a, b :: 0 <= a < b < |paths| ==> paths[a] != paths[b]
    requires i < |paths| && PairInvariant(allFiles, paths, duplicates, i, i + 1)
    ensures PairInvariant(allFiles, paths, duplicates', i + 1, i + 2)
  {
    duplicates' := duplicates;
    for j := i + 1 to |paths|
      invariant PairInvariant(allFiles, paths, duplicates', i, j)
    {
      ghost var before := duplicates';
      var first, second := paths[i], paths[j];
      var same := CompareHashes(allFiles[first], allFiles[second]);
      if same {
        var hashKey := allFiles[first];
        var group := if hashKey in duplicates' then duplicates'[hashKey] else {};
        group := group + {first};
        group := group + {second};
        duplicates' := duplicates'[hashKey := group];
      }
      ComparePairStep(allFiles, paths, before, duplicates', i, j);
    }
    NextRow(allFiles, paths, duplicates', i);
  }

  /** The pairwise loop of findDuplicates over the recorded table, visiting its
      paths in the order `paths`: the result is exactly Groups(allFiles). */
  method GroupDuplicates(allFiles: Table, paths: seq<Path>) returns (duplicates: Duplicates)
    requires forall a :: 0 <= a < |paths| ==> paths[a] in allFiles
    requires forall p :: p in allFiles ==> p in paths
    requires forall a, b :: 0 <= a < b < |paths| ==> paths[a] != paths[b]
    ensures duplicates == Groups(allFiles)
  {
    duplicates := map[];
    for i := 0 to |paths|
      invariant PairInvariant(allFiles, paths, duplicates, i, i + 1)
    {
      duplicates := CompareWithLater(allFiles, paths, i, duplicates);
    }
    assert duplicates == Groups(allFiles) by {
      AllPairsCompared(allFiles, paths, duplicates);
    }
  }
}
