/**
 * Sort-and-rebuild: the keys of a dictionary are sorted with a comparator,
 * then copied with their values, in that order, into a fresh empty object.
 *
 * The comparator stands for a base-sensitivity `localeCompare` and is a
 * parameter: `cmp(a, b) <= 0` means a may come before b.
 * `Array.prototype.sort` is stable, which the insertion sort below is too.
 */
module Sorting {
  import opened Seqs
  import opened Dictionary

  /** What a consistent comparator gives `Array.prototype.sort`: a total preorder. */
  ghost predicate TotalPreorder(cmp: (string, string) -> int)
  {
    && (forall a, b :: cmp(a, b) <= 0 || cmp(b, a) <= 0)
    && (forall a, b, c :: cmp(a, b) <= 0 && cmp(b, c) <= 0 ==> cmp(a, c) <= 0)
  }

  predicate SortedBy(ks: seq<string>, cmp: (string, string) -> int)
  {
    forall i, j :: 0 <= i < j < |ks| ==> cmp(ks[i], ks[j]) <= 0
  }

  /** Insert x before the first element it may precede. */
  function Insert(x: string, s: seq<string>, cmp: (string, string) -> int): (r: seq<string>)
    ensures multiset(r) == multiset(s) + multiset{x}
  {
    if s == [] then [x]
    else if cmp(x, s[0]) <= 0 then [x] + s
    else
      assert s == [s[0]] + s[1..];
      [s[0]] + Insert(x, s[1..], cmp)
  }

  /** `ks.sort(cmp)`, as a stable insertion sort. */
  function SortKeys(ks: seq<string>, cmp: (string, string) -> int): (r: seq<string>)
    ensures multiset(r) == multiset(ks)
  {
    if ks == [] then []
    else
      assert ks == [ks[0]] + ks[1..];
      Insert(ks[0], SortKeys(ks[1..], cmp), cmp)
  }

  /** Every element of Insert(x, s) is x or an element of s. */
  lemma InsertElements(x: string, s: seq<string>, cmp: (string, string) -> int, y: string)
    requires y in Insert(x, s, cmp)
    ensures y == x || y in s
  {
    assert y in multiset(Insert(x, s, cmp));
  }

  lemma SortedTail(s: seq<string>, cmp: (string, string) -> int)
    requires s != [] && SortedBy(s, cmp)
    ensures SortedBy(s[1..], cmp)
  {
    var rest := s[1..];
    forall i, j | 0 <= i < j < |rest| ensures cmp(rest[i], rest[j]) <= 0 {
      assert rest[i] == s[i + 1] && rest[j] == s[j + 1];
    }
  }

  /** x goes in front of sorted s when it may precede the first element, hence all of them. */
  lemma InsertSortedFront(x: string, s: seq<string>, cmp: (string, string) -> int)
    requires TotalPreorder(cmp) && SortedBy(s, cmp)
    requires s != [] && cmp(x, s[0]) <= 0
    ensures SortedBy([x] + s, cmp)
  {
    var r := [x] + s;
    forall i, j | 0 <= i < j < |r| ensures cmp(r[i], r[j]) <= 0 {
      if i == 0 && j > 1 {
        assert cmp(s[0], s[j - 1]) <= 0;
      }
    }
  }

  /** y in front of sorted t stays sorted when y may precede every element of t. */
  lemma ConsSorted(y: string, t: seq<string>, cmp: (string, string) -> int)
    requires SortedBy(t, cmp)
    requires forall j :: 0 <= j < |t| ==> cmp(y, t[j]) <= 0
    ensures SortedBy([y] + t, cmp)
  {
    var r := [y] + t;
    forall i, j | 0 <= i < j < |r| ensures cmp(r[i], r[j]) <= 0 {
      if i == 0 {
        assert r[j] == t[j - 1];
      } else {
        assert r[i] == t[i - 1] && r[j] == t[j - 1];
      }
    }
  }

  /** When x goes past the first element, that element may precede everything after it. */
  lemma InsertSortedPast(x: string, s: seq<string>, cmp: (string, string) -> int)
    requires SortedBy(s, cmp) && s != [] && cmp(s[0], x) <= 0 && cmp(x, s[0]) > 0
    requires SortedBy(Insert(x, s[1..], cmp), cmp)
    ensures SortedBy(Insert(x, s, cmp), cmp)
  {
    var rest := s[1..];
    var t := Insert(x, rest, cmp);
    forall j | 0 <= j < |t| ensures cmp(s[0], t[j]) <= 0 {
      InsertElements(x, rest, cmp, t[j]);
      if t[j] != x {
        var m :| 0 <= m < |rest| && rest[m] == t[j];
        assert s[m + 1] == t[j];
      }
    }
    ConsSorted(s[0], t, cmp);
  }

  lemma {:induction false} InsertSorted(x: string, s: seq<string>, cmp: (string, string) -> int)
    requires TotalPreorder(cmp) && SortedBy(s, cmp)
    ensures SortedBy(Insert(x, s, cmp), cmp)
  {
    if s == [] {
    } else if cmp(x, s[0]) <= 0 {
      InsertSortedFront(x, s, cmp);
    } else {
      SortedTail(s, cmp);
      InsertSorted(x, s[1..], cmp);
      InsertSortedPast(x, s, cmp);
    }
  }

  /** The keys come out in non-decreasing order under the comparator. */
  lemma {:induction false} SortKeysSorted(ks: seq<string>, cmp: (string, string) -> int)
    requires TotalPreorder(cmp)
    ensures SortedBy(SortKeys(ks, cmp), cmp)
  {
    if ks != [] {
      SortKeysSorted(ks[1..], cmp);
      InsertSorted(ks[0], SortKeys(ks[1..], cmp), cmp);
    }
  }

  /** Sorting keys that are already in order leaves them where they are. */
  lemma {:induction false} SortKeysOfSorted(ks: seq<string>, cmp: (string, string) -> int)
    requires SortedBy(ks, cmp)
    ensures SortKeys(ks, cmp) == ks
  {
    if ks != [] {
      SortKeysOfSorted(ks[1..], cmp);
      assert ks == [ks[0]] + ks[1..];
    }
  }

  lemma {:induction false} InsertDistinct(x: string, s: seq<string>, cmp: (string, string) -> int)
    requires Distinct(s) && x !in s
    ensures Distinct(Insert(x, s, cmp))
  {
    if s != [] && cmp(x, s[0]) > 0 {
      var t := Insert(x, s[1..], cmp);
      InsertDistinct(x, s[1..], cmp);
      assert s[0] !in multiset(t);
    }
  }

  lemma {:induction false} SortKeysDistinct(ks: seq<string>, cmp: (string, string) -> int)
    requires Distinct(ks)
    ensures Distinct(SortKeys(ks, cmp))
  {
    if ks != [] {
      SortKeysDistinct(ks[1..], cmp);
      assert ks[0] !in multiset(SortKeys(ks[1..], cmp));
      InsertDistinct(ks[0], SortKeys(ks[1..], cmp), cmp);
    }
  }

  /** The rebuild: each key of ks in turn is assigned its value in src, starting from acc. */
  function Rebuild(src: Dict, ks: seq<string>, acc: Dict): Dict
    requires forall k :: k in ks ==> k in Keys(src)
  {
    if ks == [] then acc
    else Rebuild(src, ks[1..], Put(acc, ks[0], Lookup(src, ks[0]).value))
  }

  /** The keys of rest are those of ks after the first, none equal to it, none twice. */
  lemma DistinctTail(ks: seq<string>)
    requires Distinct(ks) && ks != []
    ensures Distinct(ks[1..]) && ks[0] !in ks[1..]
    ensures ks == [ks[0]] + ks[1..]
  {
    var rest := ks[1..];
    forall i, j | 0 <= i < j < |rest| ensures rest[i] != rest[j] {
      assert ks[i + 1] != ks[j + 1];
    }
  }

  /** Rebuilding onto properties none of ks names appends ks in order. */
  lemma {:induction false} RebuildKeys(src: Dict, ks: seq<string>, acc: Dict)
    requires forall k :: k in ks ==> k in Keys(src)
    requires Distinct(ks) && forall k :: k in ks ==> k !in Keys(acc)
    ensures Keys(Rebuild(src, ks, acc)) == Keys(acc) + ks
  {
    if ks != [] {
      var k0, rest := ks[0], ks[1..];
      var acc' := Put(acc, k0, Lookup(src, k0).value);
      assert Keys(acc') == Keys(acc) + [k0] by {
        assert k0 !in Keys(acc);
        PutKeys(acc, k0, Lookup(src, k0).value);
      }
      DistinctTail(ks);
      assert forall k :: k in rest ==> k !in Keys(acc') by {
        forall k | k in rest ensures k !in Keys(acc') {
          assert k in ks && k != k0;
        }
      }
      RebuildKeys(src, rest, acc');
      ConcatAssoc(Keys(acc), [k0], rest);
    }
  }

  /** Each key of ks takes its value in src; every other key keeps its value in acc. */
  lemma {:induction false} RebuildLookup(src: Dict, ks: seq<string>, acc: Dict, k: string)
    requires forall k :: k in ks ==> k in Keys(src)
    ensures Lookup(Rebuild(src, ks, acc), k) == if k in ks then Lookup(src, k) else Lookup(acc, k)
  {
    if ks != [] {
      var k0, rest := ks[0], ks[1..];
      assert ks == [k0] + rest;
      var acc' := Put(acc, k0, Lookup(src, k0).value);
      RebuildLookup(src, rest, acc', k);
    }
  }

  /** Rebuilding from two dictionaries that agree on ks gives the same result. */
  lemma {:induction false} RebuildAgreeing(a: Dict, b: Dict, ks: seq<string>, acc: Dict)
    requires forall k :: k in ks ==> k in Keys(a) && k in Keys(b) && Lookup(a, k) == Lookup(b, k)
    ensures Rebuild(a, ks, acc) == Rebuild(b, ks, acc)
  {
    if ks != [] {
      RebuildAgreeing(a, b, ks[1..], Put(acc, ks[0], Lookup(a, ks[0]).value));
    }
  }

  /** Lines 57 and 86: the dictionary rebuilt with its keys in sorted order. */
  function SortRebuild(d: Dict, cmp: (string, string) -> int): Dict
  {
    var sorted := SortKeys(Keys(d), cmp);
    assert forall k :: k in sorted ==> k in Keys(d) by {
      forall k | k in sorted ensures k in Keys(d) {
        assert k in multiset(sorted);
      }
    }
    Rebuild(d, sorted, [])
  }

  /**
   * Sort-and-rebuild keeps exactly the same key/value pairs, without
   * duplicates, with the keys in the order the sort gives them.
   */
  lemma SortRebuildSamePairs(d: Dict, cmp: (string, string) -> int)
    requires WellFormed(d)
    ensures Keys(SortRebuild(d, cmp)) == SortKeys(Keys(d), cmp)
    ensures forall k :: Lookup(SortRebuild(d, cmp), k) == Lookup(d, k)
    ensures |SortRebuild(d, cmp)| == |d|
    ensures WellFormed(SortRebuild(d, cmp))
  {
    var sorted := SortKeys(Keys(d), cmp);
    SortKeysDistinct(Keys(d), cmp);
    forall k | k in sorted ensures k in Keys(d) {
      assert k in multiset(sorted);
    }
    RebuildKeys(d, sorted, []);
    assert Keys(SortRebuild(d, cmp)) == sorted;
    forall k ensures Lookup(SortRebuild(d, cmp), k) == Lookup(d, k) {
      RebuildLookup(d, sorted, [], k);
      assert k in sorted <==> k in multiset(sorted);
    }
  }

  /** Afterwards the keys are in non-decreasing order under the comparator. */
  lemma SortRebuildOrdered(d: Dict, cmp: (string, string) -> int)
    requires WellFormed(d) && TotalPreorder(cmp)
    ensures SortedBy(Keys(SortRebuild(d, cmp)), cmp)
  {
    SortRebuildSamePairs(d, cmp);
    SortKeysSorted(Keys(d), cmp);
  }

  /** Sorting an already sorted-and-rebuilt dictionary changes nothing. */
  lemma SortRebuildIdempotent(d: Dict, cmp: (string, string) -> int)
    requires WellFormed(d) && TotalPreorder(cmp)
    ensures SortRebuild(SortRebuild(d, cmp), cmp) == SortRebuild(d, cmp)
  {
    var r := SortRebuild(d, cmp);
    var sorted := SortKeys(Keys(d), cmp);
    SortRebuildSamePairs(d, cmp);
    SortKeysSorted(Keys(d), cmp);
    SortKeysOfSorted(sorted, cmp);
    forall k | k in sorted ensures k in Keys(d) {
      assert k in multiset(sorted);
    }
    RebuildAgreeing(r, d, sorted, []);
  }
}
