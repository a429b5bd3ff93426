/**
 Grouping of the model's genes by UniProt accession: the first loop of
 `get_protein_mass_mapping`, which builds `uniprot_id_protein_id_mapping`.
 */
module Grouping {
  import opened Wrappers
  import opened OrderedMaps

  /** A gene of the metabolic model: its id and, when the gene's annotation
      has a `"uniprot"` entry, that accession. */
  datatype Gene = Gene(id: string, uniprot: Option<string>)

  /** UniProt accession -> ids of the genes annotated with it. */
  type Groups = OrderedMap<seq<string>>

  /** Gene ids are unique within a model, as they are in a cobra model. */
  ghost predicate UniqueIds(genes: seq<Gene>) {
    forall i, j :: 0 <= i < j < |genes| ==> genes[i].id != genes[j].id
  }

  /** Some gene of `genes` is annotated with accession `a`. */
  ghost predicate Annotated(genes: seq<Gene>, a: string) {
    exists i :: 0 <= i < |genes| && genes[i].uniprot == Some(a)
  }

  /** One pass of the grouping loop: an unannotated gene is skipped; an
      annotated one has its id appended to its accession's list, which is
      created when the accession is new. */
  function AddGene(g: Groups, gene: Gene): (r: Groups)
    requires g.Valid()
    ensures r.Valid()
  {
    match gene.uniprot
    case None => g
    case Some(a) =>
      if a in g.values then Put(g, a, g.values[a] + [gene.id])
      else Put(g, a, [gene.id])
  }

  /** The grouping loop over the genes in model order. */
  function Group(genes: seq<Gene>): (g: Groups)
    ensures g.Valid()
    decreases |genes|
  {
    if |genes| == 0 then Empty()
    else AddGene(Group(genes[..|genes| - 1]), genes[|genes| - 1])
  }

  /** Reference definition: the ids of the genes annotated with `a`, in model order. */
  function IdsWith(genes: seq<Gene>, a: string): (ids: seq<string>)
    decreases |genes|
  {
    if |genes| == 0 then []
    else
      var last := genes[|genes| - 1];
      IdsWith(genes[..|genes| - 1], a) + (if last.uniprot == Some(a) then [last.id] else [])
  }

  /** The position of the first gene annotated with `a`, or `|genes|` when
      there is none. */
  function FirstIndex(genes: seq<Gene>, a: string): (p: nat)
    ensures p <= |genes|
    ensures p < |genes| ==> genes[p].uniprot == Some(a)
    ensures forall q :: 0 <= q < p ==> genes[q].uniprot != Some(a)
    decreases |genes|
  {
    if |genes| == 0 then 0
    else if genes[0].uniprot == Some(a) then 0
    else 1 + FirstIndex(genes[1..], a)
  }

  /** An id belongs to `IdsWith(genes, a)` exactly when some gene with that id
      is annotated with `a`. */
  lemma {:induction false} IdsWithMembers(genes: seq<Gene>, a: string)
    ensures forall id :: id in IdsWith(genes, a) <==>
      exists i :: 0 <= i < |genes| && genes[i].id == id && genes[i].uniprot == Some(a)
    decreases |genes|
  {
    if |genes| > 0 {
      var p := genes[..|genes| - 1];
      IdsWithMembers(p, a);
      forall id | id in IdsWith(genes, a)
        ensures exists i :: 0 <= i < |genes| && genes[i].id == id && genes[i].uniprot == Some(a)
      {
        if id in IdsWith(p, a) {
          var i :| 0 <= i < |p| && p[i].id == id && p[i].uniprot == Some(a);
          assert genes[i] == p[i];
        } else {
          assert genes[|genes| - 1].id == id;
        }
      }
      forall id | exists i :: 0 <= i < |genes| && genes[i].id == id && genes[i].uniprot == Some(a)
        ensures id in IdsWith(genes, a)
      {
        var i :| 0 <= i < |genes| && genes[i].id == id && genes[i].uniprot == Some(a);
        if i < |p| {
          assert p[i] == genes[i];
        }
      }
    }
  }

  /** The grouping's keys are exactly the accessions some gene is annotated
      with, and each key's list is the ids of the genes carrying it, in model
      order; an unannotated gene appears in no list. */
  lemma {:induction false} GroupContents(genes: seq<Gene>)
    ensures forall a :: a in Group(genes).values <==> Annotated(genes, a)
    ensures forall a :: a in Group(genes).values ==> Group(genes).values[a] == IdsWith(genes, a)
    ensures forall a :: a !in Group(genes).values ==> IdsWith(genes, a) == []
    decreases |genes|
  {
    if |genes| > 0 {
      var p := genes[..|genes| - 1];
      var last := genes[|genes| - 1];
      GroupContents(p);
      AnnotatedExtend(p, last);
      assert genes == p + [last];
      var g, g' := Group(p), Group(genes);
      match last.uniprot
      case None =>
        assert g' == g;
      case Some(b) =>
        if b in g.values {
          assert g'.values == g.values[b := g.values[b] + [last.id]];
        } else {
          assert g'.values == g.values[b := [last.id]];
        }
    }
  }

  /** An accession is annotated in `p + [last]` when it is annotated in `p`
      or is the accession of `last`. */
  lemma AnnotatedExtend(p: seq<Gene>, last: Gene)
    ensures forall a :: Annotated(p + [last], a) <==> Annotated(p, a) || last.uniprot == Some(a)
  {
    var genes := p + [last];
    forall a ensures Annotated(genes, a) <==> Annotated(p, a) || last.uniprot == Some(a) {
      if Annotated(p, a) {
        var i :| 0 <= i < |p| && p[i].uniprot == Some(a);
        assert genes[i] == p[i];
      }
      if last.uniprot == Some(a) {
        assert genes[|p|] == last;
      }
      if Annotated(genes, a) && last.uniprot != Some(a) {
        var i :| 0 <= i < |genes| && genes[i].uniprot == Some(a);
        assert p[i] == genes[i];
      }
    }
  }

  /** The keys are iterated in order of first appearance among the genes. */
  lemma {:induction false} GroupOrder(genes: seq<Gene>)
    ensures forall k :: k in Group(genes).keys ==> FirstIndex(genes, k) < |genes|
    ensures forall i, j :: 0 <= i < j < |Group(genes).keys| ==>
      FirstIndex(genes, Group(genes).keys[i]) < FirstIndex(genes, Group(genes).keys[j])
    decreases |genes|
  {
    if |genes| > 0 {
      var p := genes[..|genes| - 1];
      var last := genes[|genes| - 1];
      assert genes == p + [last];
      var g, g' := Group(p), Group(genes);
      GroupOrder(p);
      forall k | k in g.keys ensures FirstIndex(genes, k) == FirstIndex(p, k) < |p| {
        FirstIndexExtend(p, last, k);
      }
      if last.uniprot.Some? && last.uniprot.value !in g.values {
        var a := last.uniprot.value;
        assert FirstIndex(p, a) == |p| by {
          GroupContents(p);
        }
        FirstIndexExtend(p, last, a);
        assert g'.keys == g.keys + [a];
        assert forall i :: 0 <= i < |g.keys| ==> g'.keys[i] == g.keys[i];
      } else {
        assert g'.keys == g.keys;
      }
    }
  }

  /** Appending a gene leaves the first occurrence of an accession already
      annotated earlier unchanged, and otherwise moves it at most to the new
      gene. */
  lemma {:induction false} FirstIndexExtend(p: seq<Gene>, last: Gene, a: string)
    ensures FirstIndex(p, a) < |p| ==> FirstIndex(p + [last], a) == FirstIndex(p, a)
    ensures FirstIndex(p, a) == |p| ==>
      FirstIndex(p + [last], a) == (if last.uniprot == Some(a) then |p| else |p| + 1)
    decreases |p|
  {
    var s := p + [last];
    if |p| == 0 {
      assert s[1..] == [];
    } else {
      assert s[0] == p[0];
      assert s[1..] == p[1..] + [last];
      FirstIndexExtend(p[1..], last, a);
    }
  }
}
