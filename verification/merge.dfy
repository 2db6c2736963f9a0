/**
 * The merge rule the script applies to the default dictionary (each
 * extracted key) and to every other locale (each default key): a key whose
 * current value is falsy is given the key itself as its value. Nothing is
 * ever removed.
 */
module Merge {
  import opened Dictionary

  /** One step of the rule: a key whose value is falsy is assigned the key itself. */
  function MergeKey(d: Dict, k: string): Dict
  {
    if Truthy(Lookup(d, k)) then d else Put(d, k, k)
  }

  /** The rule applied to each of ks in turn, as the `forEach` loops do. */
  function MergeAll(d: Dict, ks: seq<string>): Dict
    decreases |ks|
  {
    if ks == [] then d else MergeAll(MergeKey(d, ks[0]), ks[1..])
  }

  /**
   * After the merge, a key of ks whose value was absent or empty maps to
   * itself; every other key keeps exactly the value it had.
   */
  lemma {:induction false} MergeAllLookup(d: Dict, ks: seq<string>, k: string)
    decreases |ks|
    ensures Lookup(MergeAll(d, ks), k) ==
      if k in ks && !Truthy(Lookup(d, k)) then Some(k) else Lookup(d, k)
  {
    if ks != [] {
      MergeAllLookup(MergeKey(d, ks[0]), ks[1..], k);
    }
  }

  /** The merge keeps every existing key in its place: the old keys are a prefix of the new. */
  lemma {:induction false} MergeAllKeepsOrder(d: Dict, ks: seq<string>)
    decreases |ks|
    ensures Keys(d) <= Keys(MergeAll(d, ks))
  {
    if ks != [] {
      var d' := MergeKey(d, ks[0]);
      PutKeys(d, ks[0], ks[0]);
      assert Keys(d) <= Keys(d');
      MergeAllKeepsOrder(d', ks[1..]);
    }
  }

  /** The keys after the merge are the old keys and those of ks. */
  lemma MergeAllKeys(d: Dict, ks: seq<string>)
    ensures forall k :: k in Keys(MergeAll(d, ks)) <==> k in Keys(d) || k in ks
  {
    forall k ensures k in Keys(MergeAll(d, ks)) <==> k in Keys(d) || k in ks {
      MergeAllLookup(d, ks, k);
    }
  }

  /** The merge never introduces a duplicate key. */
  lemma {:induction false} MergeAllWellFormed(d: Dict, ks: seq<string>)
    requires WellFormed(d)
    decreases |ks|
    ensures WellFormed(MergeAll(d, ks))
  {
    if ks != [] {
      PutWellFormed(d, ks[0], ks[0]);
      MergeAllWellFormed(MergeKey(d, ks[0]), ks[1..]);
    }
  }

  /** Merging one more key after ks is one more step of the loop. */
  lemma {:induction false} MergeAllSnoc(d: Dict, ks: seq<string>, k: string)
    decreases |ks|
    ensures MergeAll(d, ks + [k]) == MergeKey(MergeAll(d, ks), k)
  {
    if ks == [] {
      assert [] + [k] == [k];
    } else {
      assert (ks + [k])[1..] == ks[1..] + [k];
      MergeAllSnoc(MergeKey(d, ks[0]), ks[1..], k);
    }
  }

  /** Merging a + b is merging a, then b. */
  lemma {:induction false} MergeAllAppend(d: Dict, a: seq<string>, b: seq<string>)
    decreases |a|
    ensures MergeAll(d, a + b) == MergeAll(MergeAll(d, a), b)
  {
    if a == [] {
      assert [] + b == b;
    } else {
      assert (a + b)[1..] == a[1..] + b;
      MergeAllAppend(MergeKey(d, a[0]), a[1..], b);
    }
  }

  /** Every key of ks has a truthy value or already maps to itself. */
  predicate Settled(d: Dict, ks: seq<string>)
  {
    forall k :: k in ks ==> Truthy(Lookup(d, k)) || Lookup(d, k) == Some(k)
  }

  /** A dictionary in which ks are settled is left exactly as it is. */
  lemma {:induction false} MergeAllSettled(d: Dict, ks: seq<string>)
    requires Settled(d, ks)
    decreases |ks|
    ensures MergeAll(d, ks) == d
  {
    if ks != [] {
      if !Truthy(Lookup(d, ks[0])) {
        PutSameValue(d, ks[0], ks[0]);
      }
      assert MergeKey(d, ks[0]) == d;
      MergeAllSettled(d, ks[1..]);
    }
  }

  /** Re-running the merge with the same keys changes nothing. */
  lemma MergeAllIdempotent(d: Dict, ks: seq<string>)
    ensures MergeAll(MergeAll(d, ks), ks) == MergeAll(d, ks)
  {
    var m := MergeAll(d, ks);
    forall k | k in ks ensures Truthy(Lookup(m, k)) || Lookup(m, k) == Some(k) {
      MergeAllLookup(d, ks, k);
    }
    MergeAllSettled(m, ks);
  }
}
