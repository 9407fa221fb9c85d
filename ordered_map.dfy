/** PHP arrays with keys remember the order in which keys were first
    inserted; assigning to an existing key keeps its position. This module
    models such an array as its sequence of entries. */
module OrderedMap {
  import opened Common

  /** The entries of a keyed PHP array, in insertion order. */
  type Assoc<K, V> = seq<(K, V)>

  /** `array_keys`. */
  function Keys<K, V>(a: Assoc<K, V>): (r: seq<K>)
    ensures |r| == |a|
    ensures forall i :: 0 <= i < |a| ==> r[i] == a[i].0
  {
    seq(|a|, i requires 0 <= i < |a| => a[i].0)
  }

  /** No key appears twice: true of every PHP array. */
  predicate DistinctKeys<K(==), V>(a: Assoc<K, V>)
  {
    forall i, j :: 0 <= i < j < |a| ==> a[i].0 != a[j].0
  }

  /** The first position at or after `from` that holds key `k`. */
  function IndexFrom<K(==), V>(a: Assoc<K, V>, k: K, from: nat): (r: Option<nat>)
    requires from <= |a|
    ensures r.None? ==> forall i :: from <= i < |a| ==> a[i].0 != k
    ensures r.Some? ==> from <= r.value < |a| && a[r.value].0 == k && forall i :: from <= i < r.value ==> a[i].0 != k
    decreases |a| - from
  {
    if from == |a| then None
    else if a[from].0 == k then Some(from)
    else IndexFrom(a, k, from + 1)
  }

  /** Where a key sits in the array, if it is there. */
  function IndexOf<K(==), V>(a: Assoc<K, V>, k: K): (r: Option<nat>)
    ensures r.None? <==> k !in Keys(a)
    ensures r.Some? ==> r.value < |a| && a[r.value].0 == k
    ensures r.Some? ==> forall i :: 0 <= i < r.value ==> a[i].0 != k
  {
    var r := IndexFrom(a, k, 0);
    assert r.Some? ==> Keys(a)[r.value] == k;
    r
  }

  /** `$a[$k]`, or `None` when `isset` would be false for a missing key. */
  function Get<K(==), V>(a: Assoc<K, V>, k: K): (r: Option<V>)
    ensures r.None? <==> k !in Keys(a)
    ensures r.Some? ==> exists i :: 0 <= i < |a| && a[i].0 == k && a[i].1 == r.value
  {
    match IndexOf(a, k)
    case None => None
    case Some(i) => Some(a[i].1)
  }

  /** `$a[$k]` with a default for a missing key. */
  function GetOr<K(==), V>(a: Assoc<K, V>, k: K, default: V): V
  {
    match Get(a, k)
    case Some(v) => v
    case None => default
  }

  /** `$a[$k] = $v`: an existing key keeps its place, a new key goes last. */
  function Put<K(==), V>(a: Assoc<K, V>, k: K, v: V): (r: Assoc<K, V>)
    ensures k in Keys(a) ==> Keys(r) == Keys(a)
    ensures k !in Keys(a) ==> Keys(r) == Keys(a) + [k]
  {
    match IndexOf(a, k)
    case None =>
      var r := a + [(k, v)];
      assert Keys(r) == Keys(a) + [k];
      r
    case Some(i) =>
      var r := a[i := (k, v)];
      assert Keys(r) == Keys(a);
      r
  }

  /** `$a[$k][] = $x` on an array of lists. */
  function AppendTo<K(==), E>(a: Assoc<K, seq<E>>, k: K, x: E): Assoc<K, seq<E>>
  {
    Put(a, k, GetOr(a, k, []) + [x])
  }

  /** The first entry with key `k` is where `IndexOf` finds it. */
  lemma IndexOfIs<K, V>(a: Assoc<K, V>, k: K, i: nat)
    requires i < |a| && a[i].0 == k
    requires forall p :: 0 <= p < i ==> a[p].0 != k
    ensures IndexOf(a, k) == Some(i)
  {
    assert Keys(a)[i] == k;
  }

  /** Positions depend on the keys alone. */
  lemma IndexOfSameKeys<K, V>(a: Assoc<K, V>, b: Assoc<K, V>, k: K)
    requires Keys(a) == Keys(b)
    ensures IndexOf(a, k) == IndexOf(b, k)
  {
    if IndexOf(a, k).Some? {
      var i := IndexOf(a, k).value;
      assert b[i].0 == Keys(b)[i] == Keys(a)[i];
      forall p | 0 <= p < i ensures b[p].0 != k {
        assert b[p].0 == Keys(b)[p] == Keys(a)[p];
      }
      IndexOfIs(b, k, i);
    }
  }

  /** `Put` never moves a key that was already in the array, and a new key
      takes the position after the last one. */
  lemma PutPositions<K, V>(a: Assoc<K, V>, k: K, v: V, j: K)
    ensures j in Keys(a) ==> IndexOf(Put(a, k, v), j) == IndexOf(a, j)
    ensures j !in Keys(a) && j == k ==> IndexOf(Put(a, k, v), j) == Some(|a|)
    ensures j !in Keys(a) && j != k ==> IndexOf(Put(a, k, v), j) == None
  {
    var r := Put(a, k, v);
    if k in Keys(a) {
      IndexOfSameKeys(a, r, j);
    } else {
      assert r == a + [(k, v)];
      if j in Keys(a) {
        var i := IndexOf(a, j).value;
        IndexOfIs(r, j, i);
      } else if j == k {
        forall p | 0 <= p < |a| ensures r[p].0 != j {
          assert r[p].0 == Keys(a)[p];
        }
        IndexOfIs(r, j, |a|);
      }
    }
  }

  /** After `Put`, the key reads back the new value. */
  lemma GetPutSame<K, V>(a: Assoc<K, V>, k: K, v: V)
    ensures Get(Put(a, k, v), k) == Some(v)
  {
    PutPositions(a, k, v, k);
  }

  /** `Put` leaves every other key's value alone. */
  lemma GetPutOther<K, V>(a: Assoc<K, V>, k: K, v: V, j: K)
    requires j != k
    ensures Get(Put(a, k, v), j) == Get(a, j)
  {
    PutPositions(a, k, v, j);
  }

  /** `Put` keeps the keys of a PHP array distinct. */
  lemma PutDistinct<K, V>(a: Assoc<K, V>, k: K, v: V)
    requires DistinctKeys(a)
    ensures DistinctKeys(Put(a, k, v))
  {
    var r := Put(a, k, v);
    assert Keys(r) == Keys(a) || Keys(r) == Keys(a) + [k];
    forall i, j | 0 <= i < j < |r| ensures r[i].0 != r[j].0 {
      assert Keys(r)[i] == r[i].0 && Keys(r)[j] == r[j].0;
      if j == |a| {
        assert k !in Keys(a);
      }
    }
  }

  /** A key the array lacks goes last. */
  lemma PutNew<K, V>(a: Assoc<K, V>, k: K, v: V)
    requires k !in Keys(a)
    ensures Put(a, k, v) == a + [(k, v)]
  {
  }

  /** `Put` never moves a key that was already in the array. */
  lemma PutKeepsPositions<K, V>(a: Assoc<K, V>, k: K, v: V, j: K)
    requires j in Keys(a)
    ensures IndexOf(Put(a, k, v), j) == IndexOf(a, j)
  {
    PutPositions(a, k, v, j);
  }
}
