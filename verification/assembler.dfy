/**
 Assembly of the final protein id -> mass mapping: the third loop of
 `get_protein_mass_mapping`, which expands each resolved accession back
 through the grouping into `protein_id_mass_mapping`.
 */
module Assembler {
  import opened OrderedMaps

  /** The inner loop: every id of `ids`, in order, is given mass `m`. */
  function AssignAll<M>(out: OrderedMap<M>, ids: seq<string>, m: M): (r: OrderedMap<M>)
    requires out.Valid()
    ensures r.Valid()
    decreases |ids|
  {
    if |ids| == 0 then out
    else Put(AssignAll(out, ids[..|ids| - 1], m), ids[|ids| - 1], m)
  }

  /** The outer loop over the accessions `order` of the resolved dict. An
      accession that is not a grouping key is passed over (the source prints
      "No mass found" there). */
  function AssembleFrom<M>(order: seq<string>, resolved: map<string, M>, groups: map<string, seq<string>>): (out: OrderedMap<M>)
    requires forall a :: a in order ==> a in resolved
    ensures out.Valid()
    decreases |order|
  {
    if |order| == 0 then Empty()
    else
      var out := AssembleFrom(order[..|order| - 1], resolved, groups);
      var a := order[|order| - 1];
      if a !in groups then out
      else AssignAll(out, groups[a], resolved[a])
  }

  /** The assembly loop over the resolved dict in its iteration order. */
  function Assemble<M>(resolved: OrderedMap<M>, groups: OrderedMap<seq<string>>): (out: OrderedMap<M>)
    requires resolved.Valid()
    ensures out.Valid()
  {
    AssembleFrom(resolved.keys, resolved.values, groups.values)
  }

  /** No two accessions share a gene id. */
  ghost predicate Disjoint(groups: map<string, seq<string>>) {
    forall a, b, id :: a in groups && b in groups && id in groups[a] && id in groups[b] ==> a == b
  }

  /** The inner loop adds exactly the ids of `ids`, all with mass `m`, and
      leaves every other entry alone. */
  lemma {:induction false} AssignAllContents<M>(out: OrderedMap<M>, ids: seq<string>, m: M)
    requires out.Valid()
    ensures forall id :: id in AssignAll(out, ids, m).values <==> id in out.values || id in ids
    ensures forall id :: id in ids ==> AssignAll(out, ids, m).values[id] == m
    ensures forall id :: id in out.values && id !in ids ==> AssignAll(out, ids, m).values[id] == out.values[id]
    decreases |ids|
  {
    if |ids| > 0 {
      var p := ids[..|ids| - 1];
      assert ids == p + [ids[|ids| - 1]];
      AssignAllContents(out, p, m);
    }
  }

  /** An id is in the output exactly when it belongs to the group of an
      accession of `order` that is a grouping key. */
  lemma {:induction false} AssembledKeys<M>(order: seq<string>, resolved: map<string, M>, groups: map<string, seq<string>>)
    requires forall a :: a in order ==> a in resolved
    ensures forall id :: id in AssembleFrom(order, resolved, groups).values <==>
      exists a :: a in order && a in groups && id in groups[a]
    decreases |order|
  {
    if |order| > 0 {
      var p := order[..|order| - 1];
      var a := order[|order| - 1];
      assert order == p + [a];
      AssembledKeys(p, resolved, groups);
      var out := AssembleFrom(p, resolved, groups);
      if a in groups {
        AssignAllContents(out, groups[a], resolved[a]);
      }
      forall id | exists b :: b in order && b in groups && id in groups[b]
        ensures id in AssembleFrom(order, resolved, groups).values
      {
        var b :| b in order && b in groups && id in groups[b];
        if b != a {
          assert b in p;
        }
      }
    }
  }

  /** Fan-out: when no id sits in two groups, every id of the group of an
      accession of `order` gets that accession's resolved mass. */
  lemma {:induction false} AssembledValues<M>(order: seq<string>, resolved: map<string, M>, groups: map<string, seq<string>>)
    requires forall a :: a in order ==> a in resolved
    requires Disjoint(groups)
    ensures forall a, id :: a in order && a in groups && id in groups[a] ==>
      id in AssembleFrom(order, resolved, groups).values &&
      AssembleFrom(order, resolved, groups).values[id] == resolved[a]
    decreases |order|
  {
    if |order| > 0 {
      var p := order[..|order| - 1];
      var last := order[|order| - 1];
      assert order == p + [last];
      AssembledValues(p, resolved, groups);
      var out := AssembleFrom(p, resolved, groups);
      if last in groups {
        AssignAllContents(out, groups[last], resolved[last]);
      }
      forall a, id | a in order && a in groups && id in groups[a]
        ensures id in AssembleFrom(order, resolved, groups).values
        ensures AssembleFrom(order, resolved, groups).values[id] == resolved[a]
      {
        if a != last {
          assert a in p;
        }
      }
    }
  }
}
