/**
 Cache-aware resolution of UniProt accessions to protein masses: the second
 loop of `get_protein_mass_mapping`, which fills
 `uniprot_id_protein_mass_mapping`.

 The mass type `M` is opaque: masses are only copied. The UniProt lookup
 (HTTP request, status check, JSON parsing of `sequence.mass`) is the
 function `fetch`, which yields `None` whenever any of those steps fails.
 The cache directory is a map from accession to mass; `snapshot` is its
 contents when the run starts, whose key set is the file list the loop
 tests membership against.
 */
module Resolver {
  import opened Wrappers
  import opened OrderedMaps

  /** The observable effects of the loop: a remote lookup, and the
      throttling pause after it. */
  datatype Event = Fetch(accession: string) | Sleep

  /** The loop's state: the accession -> mass dict, the cache directory and
      the effects so far. */
  datatype Resolution<M> = Resolution(resolved: OrderedMap<M>, cache: map<string, M>, trace: seq<Event>)

  /** One pass of the loop for accession `acc`. A cached accession is read
      from the cache with no lookup, no cache write and no pause. Otherwise
      the lookup is attempted; its failure is swallowed; the mass is written
      to the cache when the accession is now in the dict; and one pause
      follows either way.

      A cached accession's mass is read from `snapshot`: its file is never
      written during the run, because writes only go to accessions absent
      from the snapshot. */
  function Step<M>(r: Resolution<M>, acc: string, snapshot: map<string, M>, fetch: string -> Option<M>): (r': Resolution<M>)
    requires r.resolved.Valid()
    ensures r'.resolved.Valid()
  {
    if acc in snapshot then
      Resolution(Put(r.resolved, acc, snapshot[acc]), r.cache, r.trace)
    else
      var resolved := match fetch(acc)
        case Some(m) => Put(r.resolved, acc, m)
        case None => r.resolved;
      var cache := if acc in resolved.values then r.cache[acc := resolved.values[acc]] else r.cache;
      Resolution(resolved, cache, r.trace + [Fetch(acc), Sleep])
  }

  /** The loop over `accs` (the grouping's keys, in their order), starting
      from an empty dict, the cache as found and no effects. */
  function Resolve<M>(accs: seq<string>, snapshot: map<string, M>, fetch: string -> Option<M>): (r: Resolution<M>)
    ensures r.resolved.Valid()
    decreases |accs|
  {
    if |accs| == 0 then Resolution(Empty(), snapshot, [])
    else Step(Resolve(accs[..|accs| - 1], snapshot, fetch), accs[|accs| - 1], snapshot, fetch)
  }

  /** An accession gets a mass: from the cache, or else from a successful lookup. */
  predicate Resolvable<M>(a: string, snapshot: map<string, M>, fetch: string -> Option<M>) {
    a in snapshot || fetch(a).Some?
  }

  /** The mass a resolvable accession gets. */
  function MassFor<M>(a: string, snapshot: map<string, M>, fetch: string -> Option<M>): M
    requires Resolvable(a, snapshot, fetch)
  {
    if a in snapshot then snapshot[a] else fetch(a).value
  }

  /** Reference definition: the accessions of `accs` that need a lookup, in order. */
  function Uncached<M>(accs: seq<string>, snapshot: map<string, M>): seq<string>
    decreases |accs|
  {
    if |accs| == 0 then []
    else
      var a := accs[|accs| - 1];
      Uncached(accs[..|accs| - 1], snapshot) + (if a in snapshot then [] else [a])
  }

  /** Reference definition: the accessions of `accs` that get a mass, in order. */
  function KeepResolvable<M>(accs: seq<string>, snapshot: map<string, M>, fetch: string -> Option<M>): seq<string>
    decreases |accs|
  {
    if |accs| == 0 then []
    else
      var a := accs[|accs| - 1];
      KeepResolvable(accs[..|accs| - 1], snapshot, fetch) + (if Resolvable(a, snapshot, fetch) then [a] else [])
  }

  /** The number of pauses in a trace. */
  function Sleeps(t: seq<Event>): nat
    decreases |t|
  {
    if |t| == 0 then 0
    else Sleeps(t[..|t| - 1]) + (if t[|t| - 1] == Sleep then 1 else 0)
  }

  /** An accession ends up in the dict exactly when it was processed and is
      cached or its lookup succeeds, with the cached mass on a hit and the
      fetched one otherwise: a failed lookup leaves only its own accession
      out. */
  lemma {:induction false} ResolvedExactly<M>(accs: seq<string>, snapshot: map<string, M>, fetch: string -> Option<M>)
    ensures forall a :: a in Resolve(accs, snapshot, fetch).resolved.values <==>
      a in accs && Resolvable(a, snapshot, fetch)
    ensures forall a :: a in Resolve(accs, snapshot, fetch).resolved.values ==>
      Resolve(accs, snapshot, fetch).resolved.values[a] == MassFor(a, snapshot, fetch)
    decreases |accs|
  {
    if |accs| > 0 {
      var p := accs[..|accs| - 1];
      assert accs == p + [accs[|accs| - 1]];
      ResolvedExactly(p, snapshot, fetch);
    }
  }

  /** With distinct accessions, the dict iterates the resolved accessions in
      the order they were processed. */
  lemma {:induction false} ResolvedOrder<M>(accs: seq<string>, snapshot: map<string, M>, fetch: string -> Option<M>)
    requires NoDup(accs)
    ensures Resolve(accs, snapshot, fetch).resolved.keys == KeepResolvable(accs, snapshot, fetch)
    decreases |accs|
  {
    if |accs| > 0 {
      var p := accs[..|accs| - 1];
      var a := accs[|accs| - 1];
      assert accs == p + [a];
      assert NoDup(p);
      ResolvedOrder(p, snapshot, fetch);
      ResolvedExactly(p, snapshot, fetch);
      assert a !in p;
    }
  }

  /** The cache only grows: entries found at the start keep their mass, and
      the entries added are exactly the accessions resolved by a lookup, with
      the mass put in the dict. */
  lemma {:induction false} CacheAppendOnly<M>(accs: seq<string>, snapshot: map<string, M>, fetch: string -> Option<M>)
    ensures forall a :: a in Resolve(accs, snapshot, fetch).cache <==>
      a in snapshot || a in Resolve(accs, snapshot, fetch).resolved.values
    ensures forall a :: a in snapshot ==> Resolve(accs, snapshot, fetch).cache[a] == snapshot[a]
    ensures forall a :: a in Resolve(accs, snapshot, fetch).resolved.values ==>
      Resolve(accs, snapshot, fetch).cache[a] == Resolve(accs, snapshot, fetch).resolved.values[a]
    decreases |accs|
  {
    if |accs| > 0 {
      var p := accs[..|accs| - 1];
      CacheAppendOnly(p, snapshot, fetch);
      ResolvedExactly(p, snapshot, fetch);
      ResolvedExactly(accs, snapshot, fetch);
    }
  }

  /** The trace is one lookup followed by one pause for every accession
      missing from the cache, in order, and nothing for cached ones. */
  lemma {:induction false} TraceShape<M>(accs: seq<string>, snapshot: map<string, M>, fetch: string -> Option<M>)
    ensures |Resolve(accs, snapshot, fetch).trace| == 2 * |Uncached(accs, snapshot)|
    ensures forall k :: 0 <= k < |Uncached(accs, snapshot)| ==>
      Resolve(accs, snapshot, fetch).trace[2 * k] == Fetch(Uncached(accs, snapshot)[k]) &&
      Resolve(accs, snapshot, fetch).trace[2 * k + 1] == Sleep
    decreases |accs|
  {
    if |accs| > 0 {
      var p := accs[..|accs| - 1];
      TraceShape(p, snapshot, fetch);
    }
  }

  /** No lookup happens for a cached accession: an accession is looked up
      exactly when it is processed and missing from the cache. */
  lemma {:induction false} FetchedExactly<M>(accs: seq<string>, snapshot: map<string, M>, fetch: string -> Option<M>)
    ensures forall a :: Fetch(a) in Resolve(accs, snapshot, fetch).trace <==> a in accs && a !in snapshot
    decreases |accs|
  {
    if |accs| > 0 {
      var p := accs[..|accs| - 1];
      assert accs == p + [accs[|accs| - 1]];
      FetchedExactly(p, snapshot, fetch);
    }
  }

  /** One pause per uncached accession, whether its lookup failed or not. */
  lemma {:induction false} SleepCount<M>(accs: seq<string>, snapshot: map<string, M>, fetch: string -> Option<M>)
    ensures Sleeps(Resolve(accs, snapshot, fetch).trace) == |Uncached(accs, snapshot)|
    decreases |accs|
  {
    if |accs| > 0 {
      var p := accs[..|accs| - 1];
      var a := accs[|accs| - 1];
      SleepCount(p, snapshot, fetch);
      if a !in snapshot {
        var t := Resolve(p, snapshot, fetch).trace;
        var t' := t + [Fetch(a), Sleep];
        assert t'[..|t'| - 1] == t + [Fetch(a)];
        assert (t + [Fetch(a)])[..|t|] == t;
      }
    }
  }

  /** With distinct accessions, the accessions needing a lookup number
      those absent from the cache. */
  lemma UncachedCount<M>(accs: seq<string>, snapshot: map<string, M>)
    requires NoDup(accs)
    ensures |Uncached(accs, snapshot)| == |Elements(accs) - snapshot.Keys|
  {
    UncachedElements(accs, snapshot);
    DistinctCardinality(Uncached(accs, snapshot));
  }

  /** The uncached accessions of a duplicate-free sequence are distinct and
      are those not in the cache. */
  lemma {:induction false} UncachedElements<M>(accs: seq<string>, snapshot: map<string, M>)
    requires NoDup(accs)
    ensures NoDup(Uncached(accs, snapshot))
    ensures Elements(Uncached(accs, snapshot)) == Elements(accs) - snapshot.Keys
    decreases |accs|
  {
    if |accs| > 0 {
      var p := accs[..|accs| - 1];
      var a := accs[|accs| - 1];
      assert accs == p + [a];
      assert NoDup(p);
      UncachedElements(p, snapshot);
      assert a !in p;
      assert Elements(accs) == Elements(p) + {a};
      var u := Uncached(p, snapshot);
      assert a !in u by {
        assert a !in Elements(u);
      }
      if a in snapshot {
        assert Uncached(accs, snapshot) == u;
      } else {
        assert Uncached(accs, snapshot) == u + [a];
        assert Elements(u + [a]) == Elements(u) + {a};
      }
    }
  }

  /** With every accession cached, the run makes no lookup and no pause and
      leaves the cache as it was. */
  lemma {:induction false} FullCacheIsSilent<M>(accs: seq<string>, snapshot: map<string, M>, fetch: string -> Option<M>)
    requires forall a :: a in accs ==> a in snapshot
    ensures Resolve(accs, snapshot, fetch).trace == []
    ensures Resolve(accs, snapshot, fetch).cache == snapshot
  {
    UncachedEmpty(accs, snapshot);
    TraceShape(accs, snapshot, fetch);
    CacheAppendOnly(accs, snapshot, fetch);
    ResolvedExactly(accs, snapshot, fetch);
  }

  /** With every accession cached, none needs a lookup. */
  lemma {:induction false} UncachedEmpty<M>(accs: seq<string>, snapshot: map<string, M>)
    requires forall a :: a in accs ==> a in snapshot
    ensures Uncached(accs, snapshot) == []
    decreases |accs|
  {
    if |accs| > 0 {
      UncachedEmpty(accs[..|accs| - 1], snapshot);
    }
  }

  /** Two runs whose caches and lookups agree on which accessions of `accs`
      get a mass, and on that mass, build the same dict. */
  lemma {:induction false} SameResolved<M>(accs: seq<string>, s1: map<string, M>, f1: string -> Option<M>,
                                           s2: map<string, M>, f2: string -> Option<M>)
    requires forall a :: a in accs ==> (Resolvable(a, s1, f1) <==> Resolvable(a, s2, f2))
    requires forall a :: a in accs && Resolvable(a, s1, f1) ==> MassFor(a, s1, f1) == MassFor(a, s2, f2)
    ensures Resolve(accs, s1, f1).resolved == Resolve(accs, s2, f2).resolved
    decreases |accs|
  {
    if |accs| > 0 {
      var p := accs[..|accs| - 1];
      var a := accs[|accs| - 1];
      assert forall a :: a in p ==> a in accs;
      SameResolved(p, s1, f1, s2, f2);
      StepResolved(Resolve(p, s1, f1), a, s1, f1);
      StepResolved(Resolve(p, s2, f2), a, s2, f2);
    }
  }

  /** A pass of the loop adds the accession with its mass when it is
      resolvable and otherwise leaves the dict as it was. */
  lemma StepResolved<M>(r: Resolution<M>, acc: string, snapshot: map<string, M>, fetch: string -> Option<M>)
    requires r.resolved.Valid()
    ensures Step(r, acc, snapshot, fetch).resolved ==
      if Resolvable(acc, snapshot, fetch) then Put(r.resolved, acc, MassFor(acc, snapshot, fetch)) else r.resolved
  {
  }

  /** Re-running over the cache a run left behind, with the same lookup,
      resolves the same accessions to the same masses in the same order and
      writes nothing new to the cache. */
  lemma ResolveAgain<M>(accs: seq<string>, snapshot: map<string, M>, fetch: string -> Option<M>)
    ensures Resolve(accs, Resolve(accs, snapshot, fetch).cache, fetch).resolved == Resolve(accs, snapshot, fetch).resolved
    ensures Resolve(accs, Resolve(accs, snapshot, fetch).cache, fetch).cache == Resolve(accs, snapshot, fetch).cache
  {
    var r1 := Resolve(accs, snapshot, fetch);
    var c1 := r1.cache;
    ResolvedExactly(accs, snapshot, fetch);
    CacheAppendOnly(accs, snapshot, fetch);
    forall a | a in accs
      ensures Resolvable(a, snapshot, fetch) <==> Resolvable(a, c1, fetch)
      ensures Resolvable(a, snapshot, fetch) ==> MassFor(a, snapshot, fetch) == MassFor(a, c1, fetch)
    {
    }
    SameResolved(accs, snapshot, fetch, c1, fetch);
    var r2 := Resolve(accs, c1, fetch);
    CacheAppendOnly(accs, c1, fetch);
    assert r2.cache == c1;
  }
}
