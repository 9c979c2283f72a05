/**
 * Counting with a `defaultdict(int)`: `counts[k] += 1` for each key met. The
 * dictionary keeps its keys in the order they were first met.
 */
module Counting {
  import opened Sequences

  /** The counts dictionary after meeting `keys` in order. */
  function Tally<K(==,!new)>(keys: seq<K>): (m: map<K, nat>)
    ensures forall k :: k in m <==> k in keys
  {
    if keys == [] then map[]
    else
      assert keys == Init(keys) + [Last(keys)];
      var m := Tally(Init(keys));
      var k := Last(keys);
      m[k := (if k in m then m[k] else 0) + 1]
  }

  /** Meeting one more key raises its count by one. */
  lemma TallyAppend<K(!new)>(keys: seq<K>, k: K)
    ensures Tally(keys + [k]) == Tally(keys)[k := (if k in Tally(keys) then Tally(keys)[k] else 0) + 1]
  {
    assert Init(keys + [k]) == keys && Last(keys + [k]) == k;
  }

  /** Each key is counted as many times as it occurs. */
  lemma {:induction false} TallyCounts<K(!new)>(keys: seq<K>)
    ensures forall k :: k in Tally(keys) ==> Tally(keys)[k] == multiset(keys)[k]
  {
    if keys != [] {
      TallyCounts(Init(keys));
      assert keys == Init(keys) + [Last(keys)];
      assert multiset(keys) == multiset(Init(keys)) + multiset{Last(keys)};
    }
  }

  /** The position of the first `k` in `keys`. */
  function IndexOf<K(==)>(keys: seq<K>, k: K): (p: nat)
    requires k in keys
    ensures p < |keys| && keys[p] == k && k !in keys[..p]
  {
    if keys[0] == k then 0
    else
      var p := IndexOf(keys[1..], k) + 1;
      assert keys[..p] == [keys[0]] + keys[1..][..p - 1];
      p
  }

  /** Only the first `k` in `keys` has no `k` before it. */
  lemma IndexOfUnique<K>(keys: seq<K>, k: K, p: int)
    requires 0 <= p < |keys| && keys[p] == k && k !in keys[..p]
    ensures IndexOf(keys, k) == p
  {
  }

  /** The keys of the counts dictionary after meeting `keys`, in insertion order. */
  function KeyOrder<K(==,!new)>(keys: seq<K>): (order: seq<K>)
    ensures forall k :: k in order <==> k in keys
  {
    if keys == [] then []
    else
      assert keys == Init(keys) + [Last(keys)];
      var order := KeyOrder(Init(keys));
      if Last(keys) in order then order else order + [Last(keys)]
  }

  /** Meeting one more key lists it at the end when it is new. */
  lemma KeyOrderAppend<K(!new)>(keys: seq<K>, k: K)
    ensures KeyOrder(keys + [k]) == if k in keys then KeyOrder(keys) else KeyOrder(keys) + [k]
  {
    assert Init(keys + [k]) == keys && Last(keys + [k]) == k;
  }

  /** `order` lists every key of `keys` once, in the order of their first appearance. */
  ghost predicate FirstAppearanceOrder<K(!new)>(order: seq<K>, keys: seq<K>)
  {
    Distinct(order) && (forall k :: k in order <==> k in keys) &&
    forall i, j :: 0 <= i < j < |order| ==> IndexOf(keys, order[i]) < IndexOf(keys, order[j])
  }

  /** The dictionary lists its keys in the order they were first met. */
  lemma {:induction false} KeyOrderCorrect<K(!new)>(keys: seq<K>)
    ensures FirstAppearanceOrder(KeyOrder(keys), keys)
  {
    if keys != [] {
      var init, k := Init(keys), Last(keys);
      KeyOrderCorrect(init);
      assert keys == init + [k];
      forall x | x in init ensures IndexOf(keys, x) == IndexOf(init, x) {
        var p := IndexOf(init, x);
        assert keys[..p] == init[..p];
        IndexOfUnique(keys, x, p);
      }
      if k !in init {
        assert keys[..|keys| - 1] == init;
        IndexOfUnique(keys, k, |keys| - 1);
      }
    }
  }
}
