/**
 * The dictionaries that the graph's queries build with `defaultdict(list)` and
 * return with `dict(...)`: keys in the order of their first insertion, each with
 * the list of values appended under it.
 */
module Grouping {
  import opened Wrappers
  import opened Sequences

  datatype Groups = Groups(keys: seq<Option<string>>, members: map<Option<string>, seq<string>>) {

    /** The keys are listed once each, and exactly the keys of `members` are listed. */
    ghost predicate Valid()
    {
      Distinct(keys) && forall k :: k in members <==> k in keys
    }

    /** `d.get(k, [])` */
    function Lookup(k: Option<string>): seq<string>
    {
      if k in members then members[k] else []
    }

    /** `d[k].append(x)` on a `defaultdict(list)`. */
    function Append(k: Option<string>, x: string): (g: Groups)
      ensures g.Lookup(k) == Lookup(k) + [x]
      ensures forall j :: j != k ==> g.Lookup(j) == Lookup(j)
    {
      Groups(if k in members then keys else keys + [k], members[k := Lookup(k) + [x]])
    }

    /** The total number of values, summed over the keys. */
    function Size(): nat
    {
      SumLengths(keys, members)
    }
  }

  const NoGroups := Groups([], map[])

  function SumLengths(keys: seq<Option<string>>, m: map<Option<string>, seq<string>>): nat
  {
    if keys == [] then 0
    else SumLengths(keys[..|keys| - 1], m) + |if keys[|keys| - 1] in m then m[keys[|keys| - 1]] else []|
  }

  lemma {:induction false} SumLengthsIgnores(keys: seq<Option<string>>, m: map<Option<string>, seq<string>>, k: Option<string>, v: seq<string>)
    requires k !in keys
    ensures SumLengths(keys, m[k := v]) == SumLengths(keys, m)
  {
    if keys != [] {
      SumLengthsIgnores(keys[..|keys| - 1], m, k, v);
    }
  }

  lemma {:induction false} SumLengthsGrows(keys: seq<Option<string>>, m: map<Option<string>, seq<string>>, k: Option<string>, x: string)
    requires Distinct(keys) && k in keys && k in m
    ensures SumLengths(keys, m[k := m[k] + [x]]) == SumLengths(keys, m) + 1
  {
    var init := keys[..|keys| - 1];
    var last := keys[|keys| - 1];
    assert keys == init + [last];
    if last == k {
      assert k !in init;
      SumLengthsIgnores(init, m, k, m[k] + [x]);
    } else {
      assert k in init;
      SumLengthsGrows(init, m, k, x);
    }
  }

  /** Appending keeps the groups well formed and adds exactly one value to their total. */
  lemma AppendGrows(g: Groups, k: Option<string>, x: string)
    requires g.Valid()
    ensures g.Append(k, x).Valid()
    ensures g.Append(k, x).Size() == g.Size() + 1
  {
    var h := g.Append(k, x);
    if k in g.members {
      SumLengthsGrows(g.keys, g.members, k, x);
    } else {
      assert h.keys[..|h.keys| - 1] == g.keys;
      assert g.Lookup(k) + [x] == [x];
      assert h.members == g.members[k := [x]];
      SumLengthsIgnores(g.keys, g.members, k, [x]);
      assert h.Size() == SumLengths(g.keys, h.members) + |[x]|;
      assert Distinct(h.keys);
    }
  }
}
