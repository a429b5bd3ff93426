/**
 The whole of `get_protein_mass_mapping` with its I/O abstracted: grouping,
 cache-aware resolution and assembly, composed as in the source. The result
 carries the mapping that would be written as JSON, the cache directory as
 the run leaves it, and the trace of lookups and pauses.
 */
module MassMapping {
  import opened Wrappers
  import opened OrderedMaps
  import opened Grouping
  import opened Resolver
  import opened Assembler

  datatype Outcome<M> = Outcome(mapping: OrderedMap<M>, cache: map<string, M>, trace: seq<Event>)

  function GetProteinMassMapping<M>(genes: seq<Gene>, snapshot: map<string, M>, fetch: string -> Option<M>): (o: Outcome<M>)
    ensures o.mapping.Valid()
  {
    var groups := Group(genes);
    var res := Resolve(groups.keys, snapshot, fetch);
    Outcome(Assemble(res.resolved, groups), res.cache, res.trace)
  }

  /** The gene `g` is annotated and its accession gets a mass. */
  ghost predicate Contributes<M>(g: Gene, snapshot: map<string, M>, fetch: string -> Option<M>) {
    g.uniprot.Some? && Resolvable(g.uniprot.value, snapshot, fetch)
  }

  /** Every accession the resolver puts in the dict is a grouping key, so the
      "No mass found" branch of the assembly loop is never taken. */
  lemma {:induction false} NoMassFoundUnreachable<M>(genes: seq<Gene>, snapshot: map<string, M>, fetch: string -> Option<M>)
    ensures forall a :: a in Resolve(Group(genes).keys, snapshot, fetch).resolved.values ==> a in Group(genes).values
  {
    ResolvedExactly(Group(genes).keys, snapshot, fetch);
  }

  /** The output's ids are exactly those of annotated genes whose accession
      was resolved, from the cache or by a successful lookup. */
  lemma OutputKeys<M>(genes: seq<Gene>, snapshot: map<string, M>, fetch: string -> Option<M>)
    ensures forall id :: id in GetProteinMassMapping(genes, snapshot, fetch).mapping.values <==>
      exists i :: 0 <= i < |genes| && genes[i].id == id && Contributes(genes[i], snapshot, fetch)
  {
    var groups := Group(genes);
    var res := Resolve(groups.keys, snapshot, fetch);
    GroupContents(genes);
    ResolvedExactly(groups.keys, snapshot, fetch);
    AssembledKeys(res.resolved.keys, res.resolved.values, groups.values);
    forall id ensures id in GetProteinMassMapping(genes, snapshot, fetch).mapping.values <==>
      exists i :: 0 <= i < |genes| && genes[i].id == id && Contributes(genes[i], snapshot, fetch)
    {
      if id in GetProteinMassMapping(genes, snapshot, fetch).mapping.values {
        var a :| a in res.resolved.keys && a in groups.values && id in groups.values[a];
        IdsWithMembers(genes, a);
        var i :| 0 <= i < |genes| && genes[i].id == id && genes[i].uniprot == Some(a);
        assert Contributes(genes[i], snapshot, fetch);
      }
      if exists i :: 0 <= i < |genes| && genes[i].id == id && Contributes(genes[i], snapshot, fetch) {
        var i :| 0 <= i < |genes| && genes[i].id == id && Contributes(genes[i], snapshot, fetch);
        var a := genes[i].uniprot.value;
        assert Annotated(genes, a);
        IdsWithMembers(genes, a);
        assert id in groups.values[a];
      }
    }
  }

  /** With unique gene ids, no accession's group shares an id with another's. */
  lemma GroupsDisjoint(genes: seq<Gene>)
    requires UniqueIds(genes)
    ensures Disjoint(Group(genes).values)
  {
    var groups := Group(genes);
    GroupContents(genes);
    forall a, b, id | a in groups.values && b in groups.values && id in groups.values[a] && id in groups.values[b]
      ensures a == b
    {
      IdsWithMembers(genes, a);
      IdsWithMembers(genes, b);
      var i :| 0 <= i < |genes| && genes[i].id == id && genes[i].uniprot == Some(a);
      var j :| 0 <= j < |genes| && genes[j].id == id && genes[j].uniprot == Some(b);
      assert i == j;
    }
  }

  /** Fan-out: every gene whose accession is resolved gets that accession's
      mass, shared by all genes carrying it. */
  lemma FanOut<M>(genes: seq<Gene>, snapshot: map<string, M>, fetch: string -> Option<M>)
    requires UniqueIds(genes)
    ensures forall i :: 0 <= i < |genes| && Contributes(genes[i], snapshot, fetch) ==>
      genes[i].id in GetProteinMassMapping(genes, snapshot, fetch).mapping.values &&
      GetProteinMassMapping(genes, snapshot, fetch).mapping.values[genes[i].id] ==
        MassFor(genes[i].uniprot.value, snapshot, fetch)
  {
    var groups := Group(genes);
    var res := Resolve(groups.keys, snapshot, fetch);
    var out := AssembleFrom(res.resolved.keys, res.resolved.values, groups.values);
    assert GetProteinMassMapping(genes, snapshot, fetch).mapping == out;
    GroupContents(genes);
    GroupsDisjoint(genes);
    ResolvedExactly(groups.keys, snapshot, fetch);
    AssembledValues(res.resolved.keys, res.resolved.values, groups.values);
    forall i | 0 <= i < |genes| && Contributes(genes[i], snapshot, fetch)
      ensures genes[i].id in out.values
      ensures out.values[genes[i].id] == MassFor(genes[i].uniprot.value, snapshot, fetch)
    {
      var a := genes[i].uniprot.value;
      assert Annotated(genes, a);
      IdsWithMembers(genes, a);
      assert genes[i].id in groups.values[a];
      assert a in res.resolved.keys;
    }
  }

  /** A gene without a `"uniprot"` annotation never appears in the output. */
  lemma SkipUnannotated<M>(genes: seq<Gene>, snapshot: map<string, M>, fetch: string -> Option<M>)
    requires UniqueIds(genes)
    ensures forall i :: 0 <= i < |genes| && genes[i].uniprot.None? ==>
      genes[i].id !in GetProteinMassMapping(genes, snapshot, fetch).mapping.values
  {
    OutputKeys(genes, snapshot, fetch);
  }

  /** Lookups go exactly to the annotated accessions missing from the cache. */
  lemma Lookups<M>(genes: seq<Gene>, snapshot: map<string, M>, fetch: string -> Option<M>)
    ensures forall a :: Fetch(a) in GetProteinMassMapping(genes, snapshot, fetch).trace <==>
      Annotated(genes, a) && a !in snapshot
  {
    GroupContents(genes);
    FetchedExactly(Group(genes).keys, snapshot, fetch);
  }

  /** One pause per grouping key missing from the cache. */
  lemma Throttle<M>(genes: seq<Gene>, snapshot: map<string, M>, fetch: string -> Option<M>)
    ensures Sleeps(GetProteinMassMapping(genes, snapshot, fetch).trace) == |Group(genes).values.Keys - snapshot.Keys|
  {
    var groups := Group(genes);
    SleepCount(groups.keys, snapshot, fetch);
    UncachedCount(groups.keys, snapshot);
    assert Elements(groups.keys) == groups.values.Keys;
  }

  /** The cache keeps every entry it had and gains exactly the annotated
      accessions whose lookup succeeded, with the fetched mass. */
  lemma CacheGrowth<M>(genes: seq<Gene>, snapshot: map<string, M>, fetch: string -> Option<M>)
    ensures forall a :: a in snapshot ==>
      a in GetProteinMassMapping(genes, snapshot, fetch).cache &&
      GetProteinMassMapping(genes, snapshot, fetch).cache[a] == snapshot[a]
    ensures forall a :: a in GetProteinMassMapping(genes, snapshot, fetch).cache && a !in snapshot <==>
      Annotated(genes, a) && a !in snapshot && fetch(a).Some?
    ensures forall a :: a in GetProteinMassMapping(genes, snapshot, fetch).cache && a !in snapshot ==>
      GetProteinMassMapping(genes, snapshot, fetch).cache[a] == fetch(a).value
  {
    var groups := Group(genes);
    GroupContents(genes);
    ResolvedExactly(groups.keys, snapshot, fetch);
    CacheAppendOnly(groups.keys, snapshot, fetch);
  }

  /** A second run over the cache the first one left makes no lookup for an
      accession the first run resolved, whatever the second lookup does. */
  lemma RerunNoRefetch<M>(genes: seq<Gene>, snapshot: map<string, M>, fetch1: string -> Option<M>, fetch2: string -> Option<M>)
    ensures forall a :: Annotated(genes, a) && Resolvable(a, snapshot, fetch1) ==>
      Fetch(a) !in GetProteinMassMapping(genes, GetProteinMassMapping(genes, snapshot, fetch1).cache, fetch2).trace
  {
    var o1 := GetProteinMassMapping(genes, snapshot, fetch1);
    CacheGrowth(genes, snapshot, fetch1);
    Lookups(genes, o1.cache, fetch2);
  }

  /** A second run over the cache the first one left pauses no more often:
      re-running is never more expensive. */
  lemma RerunFewerSleeps<M>(genes: seq<Gene>, snapshot: map<string, M>, fetch1: string -> Option<M>, fetch2: string -> Option<M>)
    ensures Sleeps(GetProteinMassMapping(genes, GetProteinMassMapping(genes, snapshot, fetch1).cache, fetch2).trace) <=
      Sleeps(GetProteinMassMapping(genes, snapshot, fetch1).trace)
  {
    var o1 := GetProteinMassMapping(genes, snapshot, fetch1);
    var keys := Group(genes).values.Keys;
    CacheGrowth(genes, snapshot, fetch1);
    Throttle(genes, snapshot, fetch1);
    Throttle(genes, o1.cache, fetch2);
    SubsetCardinality(keys - o1.cache.Keys, keys - snapshot.Keys);
  }

  /** A second run over the cache the first one left gives every gene of the
      first output the same mass, whatever the second lookup does. */
  lemma RerunKeepsMasses<M>(genes: seq<Gene>, snapshot: map<string, M>, fetch1: string -> Option<M>, fetch2: string -> Option<M>)
    requires UniqueIds(genes)
    ensures var o1 := GetProteinMassMapping(genes, snapshot, fetch1);
      var o2 := GetProteinMassMapping(genes, o1.cache, fetch2);
      forall id :: id in o1.mapping.values ==>
        id in o2.mapping.values && o2.mapping.values[id] == o1.mapping.values[id]
  {
    var o1 := GetProteinMassMapping(genes, snapshot, fetch1);
    var o2 := GetProteinMassMapping(genes, o1.cache, fetch2);
    CacheGrowth(genes, snapshot, fetch1);
    OutputKeys(genes, snapshot, fetch1);
    FanOut(genes, snapshot, fetch1);
    FanOut(genes, o1.cache, fetch2);
    forall id | id in o1.mapping.values
      ensures id in o2.mapping.values && o2.mapping.values[id] == o1.mapping.values[id]
    {
      var i :| 0 <= i < |genes| && genes[i].id == id && Contributes(genes[i], snapshot, fetch1);
      var a := genes[i].uniprot.value;
      assert Annotated(genes, a);
      assert a in o1.cache;
      assert Contributes(genes[i], o1.cache, fetch2);
    }
  }

  /** Idempotence: re-running with the same lookup over the cache a run left
      yields the same mapping and leaves the cache unchanged. */
  lemma Idempotent<M>(genes: seq<Gene>, snapshot: map<string, M>, fetch: string -> Option<M>)
    ensures var o1 := GetProteinMassMapping(genes, snapshot, fetch);
      var o2 := GetProteinMassMapping(genes, o1.cache, fetch);
      o2.mapping == o1.mapping && o2.cache == o1.cache
  {
    ResolveAgain(Group(genes).keys, snapshot, fetch);
  }

  /** With every annotated accession cached, the run makes no lookup and no pause. */
  lemma WarmCache<M>(genes: seq<Gene>, snapshot: map<string, M>, fetch: string -> Option<M>)
    requires forall a :: Annotated(genes, a) ==> a in snapshot
    ensures GetProteinMassMapping(genes, snapshot, fetch).trace == []
    ensures GetProteinMassMapping(genes, snapshot, fetch).cache == snapshot
  {
    GroupContents(genes);
    FullCacheIsSilent(Group(genes).keys, snapshot, fetch);
  }

  /** Three genes, the first with a resolvable accession, the second with
      an accession whose lookup fails, the third unannotated, and an empty
      cache: the run completes and only the first gene is in the output. */
  lemma PartialFailure<M>(g1: string, g2: string, g3: string, p1: string, p2: string, m: M, fetch: string -> Option<M>)
    requires g1 != g2 && g1 != g3 && g2 != g3
    requires fetch(p1) == Some(m) && fetch(p2) == None
    ensures GetProteinMassMapping([Gene(g1, Some(p1)), Gene(g2, Some(p2)), Gene(g3, None)], map[], fetch).mapping.values
      == map[g1 := m]
  {
    var genes := [Gene(g1, Some(p1)), Gene(g2, Some(p2)), Gene(g3, None)];
    var out := GetProteinMassMapping(genes, map[], fetch).mapping.values;
    assert UniqueIds(genes);
    OutputKeys(genes, map[], fetch);
    FanOut(genes, map[], fetch);
    assert Contributes(genes[0], map[], fetch);
    assert !Contributes(genes[1], map[], fetch);
    assert !Contributes(genes[2], map[], fetch);
    forall id | id in out ensures id == g1 {
      var i :| 0 <= i < |genes| && genes[i].id == id && Contributes(genes[i], map[], fetch);
      assert i == 0;
    }
    assert out.Keys == {g1};
  }
}
