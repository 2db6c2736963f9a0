/**
 * A locale dictionary as the script holds it: a plain JavaScript object whose
 * own properties map translation keys to translated text, enumerated in
 * insertion order.
 */
module Dictionary {
  import opened Seqs

  datatype Option<T> = None | Some(value: T)

  /** One property of a locale object. */
  datatype Entry = Entry(key: string, value: string)

  /** The properties of a locale object, in insertion (enumeration) order. */
  type Dict = seq<Entry>

  /** `Object.keys(d)`. */
  function Keys(d: Dict): (ks: seq<string>)
    ensures |ks| == |d|
    ensures forall i :: 0 <= i < |d| ==> ks[i] == d[i].key
  {
    if d == [] then [] else [d[0].key] + Keys(d[1..])
  }

  /** An object parsed from JSON or built by property assignment never repeats a key. */
  predicate WellFormed(d: Dict)
  {
    Distinct(Keys(d))
  }

  /** `d[k]`: the value of property `k`, or `undefined` (None) when there is none. */
  function Lookup(d: Dict, k: string): (r: Option<string>)
    ensures r.Some? <==> k in Keys(d)
    ensures r.Some? ==> Entry(k, r.value) in d
  {
    if d == [] then None
    else if d[0].key == k then Some(d[0].value)
    else Lookup(d[1..], k)
  }

  /** JavaScript truthiness of `d[k]` for string values: `undefined` and `''` are falsy. */
  predicate Truthy(v: Option<string>)
  {
    v.Some? && v.value != ""
  }

  /**
   * `d[k] = v`: an existing property keeps its place and takes the new
   * value; a new property is appended at the end of the enumeration order.
   */
  function Put(d: Dict, k: string, v: string): (r: Dict)
    ensures Lookup(r, k) == Some(v)
    ensures forall k' :: k' != k ==> Lookup(r, k') == Lookup(d, k')
  {
    if d == [] then [Entry(k, v)]
    else if d[0].key == k then
      var r := [Entry(k, v)] + d[1..];
      assert r[1..] == d[1..];
      r
    else
      var t := Put(d[1..], k, v);
      var r := [d[0]] + t;
      assert r[1..] == t;
      r
  }

  /** An existing property keeps its place; a new one goes at the end of the order. */
  lemma {:induction false} PutKeys(d: Dict, k: string, v: string)
    ensures k in Keys(d) ==> Keys(Put(d, k, v)) == Keys(d)
    ensures k !in Keys(d) ==> Keys(Put(d, k, v)) == Keys(d) + [k]
  {
    if d != [] && d[0].key != k {
      var t := Put(d[1..], k, v);
      PutKeys(d[1..], k, v);
      var r := [d[0]] + t;
      assert r[1..] == t;
      assert Keys(r) == [d[0].key] + Keys(t);
      assert Keys(d) == [d[0].key] + Keys(d[1..]);
      if k !in Keys(d) {
        ConcatAssoc([d[0].key], Keys(d[1..]), [k]);
      }
    }
  }

  /** Assigning a property the value it already has leaves the object as it was. */
  lemma {:induction false} PutSameValue(d: Dict, k: string, v: string)
    requires Lookup(d, k) == Some(v)
    ensures Put(d, k, v) == d
  {
    if d != [] && d[0].key != k {
      PutSameValue(d[1..], k, v);
    }
  }

  /** Property assignment never introduces a duplicate key. */
  lemma PutWellFormed(d: Dict, k: string, v: string)
    requires WellFormed(d)
    ensures WellFormed(Put(d, k, v))
  {
    var ks := Keys(Put(d, k, v));
    PutKeys(d, k, v);
    if k !in Keys(d) {
      forall i, j | 0 <= i < j < |ks| ensures ks[i] != ks[j] {
        if j == |ks| - 1 {
          assert ks[j] == k && ks[i] == Keys(d)[i];
        }
      }
    }
  }
}
