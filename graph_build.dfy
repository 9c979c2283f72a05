/**
 * What `build_graph_from_norms` does with a list of records, stated as
 * functions of that list: the nodes it keeps and the relationships it adds.
 */
module GraphBuild {
  import opened Wrappers
  import opened Sequences
  import opened Norms
  import opened GraphLog

  /** The record keys that become relationships, in the order they are read. */
  const RelationKinds: seq<string> := [Altera, Revoga, Regulamenta, Consolida]

  /** `add_norm` keeps a record only when its `id_norma` is truthy. */
  predicate HasNodeId(n: Norm)
  {
    Truthy(n.idNorma)
  }

  /** The key order of `nodes` after adding `norms` one by one: first appearance of each id. */
  function NodeOrder(norms: seq<Norm>): seq<string>
  {
    if norms == [] then []
    else
      var order := NodeOrder(Init(norms));
      var n := Last(norms);
      if HasNodeId(n) && n.idNorma.value !in order then order + [n.idNorma.value] else order
  }

  /** The contents of `nodes` after adding `norms` one by one. */
  function NodeMap(norms: seq<Norm>): map<string, Norm>
  {
    if norms == [] then map[]
    else
      var nodes := NodeMap(Init(norms));
      var n := Last(norms);
      if HasNodeId(n) then nodes[n.idNorma.value := n] else nodes
  }

  /** One relationship per listed target, in list order. */
  function Rels(source: Option<string>, targets: seq<string>, kind: string): seq<Relationship>
  {
    if targets == [] then []
    else Rels(source, Init(targets), kind) + [Relationship(source, Last(targets), kind)]
  }

  /** The relationships of one record for the given keys, key by key. */
  function RelsOfKinds(n: Norm, kinds: seq<string>): seq<Relationship>
  {
    if kinds == [] then []
    else RelsOfKinds(n, Init(kinds)) + Rels(n.idNorma, RelationTargets(n, Last(kinds)), Last(kinds))
  }

  /** The relationships of the first `k + 1` keys: those of the first `k`, then those of key `k`. */
  lemma RelsOfKindsPrefix(n: Norm, kinds: seq<string>, k: int)
    requires 0 <= k < |kinds|
    ensures RelsOfKinds(n, kinds[..k + 1]) == RelsOfKinds(n, kinds[..k]) + Rels(n.idNorma, RelationTargets(n, kinds[k]), kinds[k])
  {
    assert Init(kinds[..k + 1]) == kinds[..k] && Last(kinds[..k + 1]) == kinds[k];
  }

  /** Every relationship `build_graph_from_norms` adds, in the order it adds them. */
  function RelationshipsOf(norms: seq<Norm>): seq<Relationship>
  {
    if norms == [] then []
    else RelationshipsOf(Init(norms)) + RelsOfKinds(Last(norms), RelationKinds)
  }

  /** The summed lengths of the four relationship lists of every record. */
  function ListedTargets(norms: seq<Norm>): nat
  {
    if norms == [] then 0
    else
      var n := Last(norms);
      ListedTargets(Init(norms)) + |RelationTargets(n, Altera)| + |RelationTargets(n, Revoga)|
        + |RelationTargets(n, Regulamenta)| + |RelationTargets(n, Consolida)|
  }

  lemma {:induction false} RelsMembers(source: Option<string>, targets: seq<string>, kind: string)
    ensures |Rels(source, targets, kind)| == |targets|
    ensures forall r :: r in Rels(source, targets, kind) <==> r.source == source && r.kind == kind && r.target in targets
  {
    if targets != [] {
      RelsMembers(source, Init(targets), kind);
      assert targets == Init(targets) + [Last(targets)];
    }
  }

  lemma {:induction false} RelsOfKindsMembers(n: Norm, kinds: seq<string>)
    ensures forall r :: r in RelsOfKinds(n, kinds) <==>
      r.source == n.idNorma && r.kind in kinds && r.target in RelationTargets(n, r.kind)
  {
    if kinds != [] {
      RelsOfKindsMembers(n, Init(kinds));
      RelsMembers(n.idNorma, RelationTargets(n, Last(kinds)), Last(kinds));
      assert kinds == Init(kinds) + [Last(kinds)];
    }
  }

  /**
   * A relationship is added exactly when its source is some record's `id_norma`
   * (possibly `None`), its kind is one of the four keys, and its target is listed
   * under that key in that record.
   */
  lemma {:induction false} RelationshipsOfMembers(norms: seq<Norm>)
    ensures forall r :: r in RelationshipsOf(norms) <==> exists i :: 0 <= i < |norms| && Produces(norms[i], r)
  {
    if norms != [] {
      var init, n := Init(norms), Last(norms);
      RelationshipsOfMembers(init);
      RelsOfKindsMembers(n, RelationKinds);
      var earlier, last := RelationshipsOf(init), RelsOfKinds(n, RelationKinds);
      assert RelationshipsOf(norms) == earlier + last;
      forall r ensures r in RelationshipsOf(norms) <==> r in earlier || r in last {
      }
      forall r {
        ProducedByLastOrEarlier(norms, r);
      }
    }
  }

  /** Record `n` yields `r`: `r` leaves `n`'s id, under one of the four keys, towards a target listed there. */
  predicate Produces(n: Norm, r: Relationship)
  {
    r.source == n.idNorma && r.kind in RelationKinds && r.target in RelationTargets(n, r.kind)
  }

  lemma ProducedByLastOrEarlier(norms: seq<Norm>, r: Relationship)
    requires norms != []
    ensures (exists i :: 0 <= i < |norms| && Produces(norms[i], r)) <==>
      (exists i :: 0 <= i < |Init(norms)| && Produces(Init(norms)[i], r)) || Produces(Last(norms), r)
  {
    var init, n := Init(norms), Last(norms);
    if exists i :: 0 <= i < |init| && Produces(init[i], r) {
      var i :| 0 <= i < |init| && Produces(init[i], r);
      assert norms[i] == init[i];
    }
    if exists i :: 0 <= i < |norms| && Produces(norms[i], r) {
      var i :| 0 <= i < |norms| && Produces(norms[i], r);
      if i < |init| {
        assert init[i] == norms[i];
      }
    }
    if Produces(n, r) {
      assert norms[|init|] == n;
    }
  }

  lemma {:induction false} RelsOfKindsLength(n: Norm, kinds: seq<string>)
    ensures |RelsOfKinds(n, kinds)| == if kinds == [] then 0
      else |RelsOfKinds(n, Init(kinds))| + |RelationTargets(n, Last(kinds))|
  {
    if kinds != [] {
      RelsMembers(n.idNorma, RelationTargets(n, Last(kinds)), Last(kinds));
    }
  }

  /** The relationships of the first `i + 1` records: those of the first `i`, then those of record `i`. */
  lemma RelationshipsOfPrefix(norms: seq<Norm>, i: int)
    requires 0 <= i < |norms|
    ensures RelationshipsOf(norms[..i + 1]) == RelationshipsOf(norms[..i]) + RelsOfKinds(norms[i], RelationKinds)
  {
    assert Init(norms[..i + 1]) == norms[..i] && Last(norms[..i + 1]) == norms[i];
  }

  /** One relationship per list element: the count is the summed list lengths. */
  lemma {:induction false} RelationshipsOfCount(norms: seq<Norm>)
    ensures |RelationshipsOf(norms)| == ListedTargets(norms)
  {
    if norms != [] {
      RelationshipsOfCount(Init(norms));
      var n := Last(norms);
      var kinds := RelationKinds;
      RelsOfKindsLength(n, kinds);
      RelsOfKindsLength(n, kinds[..3]);
      RelsOfKindsLength(n, kinds[..2]);
      RelsOfKindsLength(n, kinds[..1]);
      RelsOfKindsLength(n, kinds[..0]);
      assert Init(kinds) == kinds[..3] && Init(kinds[..3]) == kinds[..2];
      assert Init(kinds[..2]) == kinds[..1] && Init(kinds[..1]) == kinds[..0] == [];
    }
  }

  /**
   * Nodes: exactly the truthy ids of the records are keys, each listed once in
   * first-appearance order, and an id maps to the LAST record carrying it.
   */
  lemma {:induction false} NodesOfNorms(norms: seq<Norm>)
    ensures Distinct(NodeOrder(norms))
    ensures forall id :: id in NodeOrder(norms) <==> id in NodeMap(norms)
    ensures forall id :: id in NodeMap(norms) <==>
      exists i :: 0 <= i < |norms| && norms[i].idNorma == Some(id) && id != ""
    ensures forall i :: 0 <= i < |norms| && HasNodeId(norms[i]) &&
                        (forall j :: i < j < |norms| ==> norms[j].idNorma != norms[i].idNorma) ==>
                        NodeMap(norms)[norms[i].idNorma.value] == norms[i]
  {
    if norms != [] {
      var init := Init(norms);
      NodesOfNorms(init);
      var n := Last(norms);
      var last := |norms| - 1;
      assert forall i :: 0 <= i < last ==> norms[i] == init[i];
      forall id ensures id in NodeMap(norms) <==>
        exists i :: 0 <= i < |norms| && norms[i].idNorma == Some(id) && id != ""
      {
        if id in NodeMap(init) {
          var i :| 0 <= i < |init| && init[i].idNorma == Some(id) && id != "";
          assert norms[i] == init[i];
        }
        if exists i :: 0 <= i < |norms| && norms[i].idNorma == Some(id) && id != "" {
          var i :| 0 <= i < |norms| && norms[i].idNorma == Some(id) && id != "";
          if i < last {
            assert init[i] == norms[i];
          }
        }
      }
      forall i | 0 <= i < |norms| && HasNodeId(norms[i]) &&
                 (forall j :: i < j < |norms| ==> norms[j].idNorma != norms[i].idNorma)
        ensures NodeMap(norms)[norms[i].idNorma.value] == norms[i]
      {
        if i < last {
          assert norms[last].idNorma != norms[i].idNorma;
          assert forall j :: i < j < |init| ==> init[j].idNorma != init[i].idNorma by {
            forall j | i < j < |init| ensures init[j].idNorma != init[i].idNorma {
              assert init[j] == norms[j];
            }
          }
        }
      }
    }
  }
}
