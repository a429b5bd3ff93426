# Protein mass mapping of a metabolic model (AutoPACMEN)

A Dafny model of `get_protein_mass_mapping` from AutoPACMEN. The function maps
each gene of a metabolic model to the mass of its protein. It works in three
stages:

1. **Grouping.** The genes are grouped by their UniProt accession. Genes
   without a `"uniprot"` annotation are skipped.
2. **Resolution.** Each accession is resolved to a mass, using a file cache
   of earlier results. A cached accession is read from the cache. An
   uncached one is looked up at UniProt. A failed lookup is swallowed, a
   successful one is written to the cache, and a pause follows every lookup.
3. **Assembly.** The accession masses are expanded back to the gene ids.

The model has no I/O:

- The UniProt lookup (HTTP request, status check, JSON parsing of
  `sequence.mass`) is a total function `fetch: string -> Option<M>`. It
  yields `None` whenever any of those steps would raise.
- The cache directory is a `map<string, M>`. The run receives its contents
  at the start (`snapshot`) and returns it as it leaves it.
- Lookups and pauses are recorded as `Fetch(acc)` and `Sleep` events in a
  trace.
- The mass is an opaque type parameter `M`, since it is only ever copied.
- Python dicts are `OrderedMap`s: a key sequence plus a map. This models
  insertion order, which decides the order in which the loops run.

Modules, in pipeline order:

- `Wrappers`: `Option`.
- `OrderedMaps`: the dict model (`Put` is `d[k] = v`).
- `Grouping`: the gene record and the first loop.
- `Resolver`: the cache-aware loop, its effects and the cache.
- `Assembler`: the last loop.
- `MassMapping`: the composed function `GetProteinMassMapping` and the
  end-to-end properties.

The model keeps these details of the code as written:

- Cache membership is tested against the file list read once before the
  loop (line 82).
- The cache write (lines 114-116) is guarded by "the accession is now in the
  dict". Since the accessions are distinct dict keys, this holds exactly when
  the lookup succeeded (`Resolver.CacheAppendOnly`).
- An unreadable cache file is not handled: `pickle_load` (line 92) is outside
  the `try`, so it would raise and end the run. The model has no such failure
  (see Left out).

## Model

| member | source | states |
|---|---|---|
| `OrderedMaps.Put` | autopacmen/submodules/get_protein_mass_mapping.py:71 | A dict assignment `d[k] = v` (as at lines 71, 92, 109 and 130) keeps the dict well formed: the value of `k` becomes `v`, other entries are kept, an existing key keeps its position and a new key goes last |
| `Grouping.AddGene` | autopacmen/submodules/get_protein_mass_mapping.py:64-71 | One pass of the grouping loop keeps the grouping dict well formed (every key once in the key order) |
| `Resolver.Step` | autopacmen/submodules/get_protein_mass_mapping.py:86-119 | One pass of the resolution loop keeps the mass dict well formed |
| `Resolver.Resolve` | autopacmen/submodules/get_protein_mass_mapping.py:85-119 | The resolution loop yields a well-formed mass dict: its key order lists every resolved accession once |
| `Assembler.AssignAll` | autopacmen/submodules/get_protein_mass_mapping.py:129-130 | The inner assembly loop keeps the output dict well formed |
| `Assembler.AssembleFrom` | autopacmen/submodules/get_protein_mass_mapping.py:123-130 | The outer assembly loop, including the passed-over branch of lines 126-128, yields a well-formed output dict |
| `Assembler.Assemble` | autopacmen/submodules/get_protein_mass_mapping.py:122-130 | Assembly over the mass dict in its iteration order yields a well-formed output dict |
| `MassMapping.GetProteinMassMapping` | autopacmen/submodules/get_protein_mass_mapping.py:62-130 | The composed grouping, resolution and assembly yield a well-formed gene id -> mass dict |
| `Grouping.Group` | autopacmen/submodules/get_protein_mass_mapping.py:62-71 | The grouping dict is well formed: its key order lists every accession once, so the list iterated at line 85 has no duplicates |
| `Grouping.GroupContents` | autopacmen/submodules/get_protein_mass_mapping.py:62-71 | The keys are exactly the accessions some gene is annotated with. Each key's list is the ids of the genes carrying it, in model order. An accession no gene carries has no entry |
| `Grouping.GroupOrder` | autopacmen/submodules/get_protein_mass_mapping.py:62-85 | The accessions are iterated in order of first appearance among the genes (strictly increasing first index) |
| `Grouping.IdsWithMembers` | autopacmen/submodules/get_protein_mass_mapping.py:67-71 | An id is in an accession's list exactly when some gene with that id carries the accession |
| `Resolver.ResolvedExactly` | autopacmen/submodules/get_protein_mass_mapping.py:86-112 | An accession is in the mass dict iff it was processed and is either cached or has a successful lookup. Its mass is the cached one on a hit and the fetched one otherwise. A failed lookup leaves out only that accession |
| `Resolver.ResolvedOrder` | autopacmen/submodules/get_protein_mass_mapping.py:85-112 | For distinct accessions, the mass dict iterates the resolved accessions in processing order |
| `Resolver.CacheAppendOnly` | autopacmen/submodules/get_protein_mass_mapping.py:86-116 | The cache keeps every starting entry unchanged. It gains exactly the accessions resolved by lookup, each with the mass put in the dict |
| `Resolver.TraceShape` | autopacmen/submodules/get_protein_mass_mapping.py:86-119 | The trace is, in order, one lookup followed by one pause per accession missing from the cache. Cached accessions add nothing |
| `Resolver.FetchedExactly` | autopacmen/submodules/get_protein_mass_mapping.py:90-102 | An accession is looked up iff it is processed and not cached: a cache hit causes no lookup |
| `Resolver.SleepCount` | autopacmen/submodules/get_protein_mass_mapping.py:86-119 | There is one pause per uncached accession, whether its lookup fails or succeeds |
| `Resolver.UncachedCount` | autopacmen/submodules/get_protein_mass_mapping.py:85-94 | For distinct accessions, the accessions that need a lookup are as many as the accessions absent from the cache |
| `Resolver.FullCacheIsSilent` | autopacmen/submodules/get_protein_mass_mapping.py:90-94 | With every accession cached, the loop makes no lookup and no pause, and leaves the cache unchanged |
| `Resolver.SameResolved` | autopacmen/submodules/get_protein_mass_mapping.py:86-112 | The mass dict depends only on which accessions get a mass and what mass they get, not on whether it came from the cache or a lookup |
| `Resolver.ResolveAgain` | autopacmen/submodules/get_protein_mass_mapping.py:86-116 | Re-running the loop with the cache it left and the same lookup gives the same mass dict and writes nothing new to the cache |
| `Assembler.AssignAllContents` | autopacmen/submodules/get_protein_mass_mapping.py:129-130 | The inner loop gives every id of the group the accession's mass and leaves all other entries as they were |
| `Assembler.AssembledKeys` | autopacmen/submodules/get_protein_mass_mapping.py:122-130 | An id is in the output iff it belongs to the group of an iterated accession that is a grouping key |
| `Assembler.AssembledValues` | autopacmen/submodules/get_protein_mass_mapping.py:122-130 | When no id is in two groups, every id in an iterated accession's group maps to that accession's mass (fan-out) |
| `MassMapping.NoMassFoundUnreachable` | autopacmen/submodules/get_protein_mass_mapping.py:123-128 | Every resolved accession is a grouping key, so the "No mass found" branch is never taken |
| `MassMapping.OutputKeys` | autopacmen/submodules/get_protein_mass_mapping.py:62-130 | The output ids are exactly the ids of annotated genes whose accession was resolved from the cache or by a successful lookup |
| `MassMapping.GroupsDisjoint` | autopacmen/submodules/get_protein_mass_mapping.py:62-71 | With unique gene ids, no id belongs to two accessions' lists |
| `MassMapping.FanOut` | autopacmen/submodules/get_protein_mass_mapping.py:122-130 | Every gene whose accession is resolved maps to that accession's mass, so all genes sharing an accession get the same mass |
| `MassMapping.SkipUnannotated` | autopacmen/submodules/get_protein_mass_mapping.py:63-66 | A gene without a `"uniprot"` annotation never appears in the output |
| `MassMapping.Lookups` | autopacmen/submodules/get_protein_mass_mapping.py:86-102 | Lookups go exactly to the annotated accessions missing from the cache |
| `MassMapping.Throttle` | autopacmen/submodules/get_protein_mass_mapping.py:86-119 | There are as many pauses as grouping keys absent from the cache, whether their lookups fail or succeed |
| `MassMapping.CacheGrowth` | autopacmen/submodules/get_protein_mass_mapping.py:90-116 | The cache keeps its starting entries. It gains exactly the annotated uncached accessions whose lookup succeeded, each with the fetched mass |
| `MassMapping.RerunNoRefetch` | autopacmen/submodules/get_protein_mass_mapping.py:90-94 | A second run over the cache left by the first makes no lookup for any accession the first run resolved |
| `MassMapping.RerunFewerSleeps` | autopacmen/submodules/get_protein_mass_mapping.py:86-119 | A second run over the cache left by the first pauses no more often than the first |
| `MassMapping.RerunKeepsMasses` | autopacmen/submodules/get_protein_mass_mapping.py:86-130 | A second run over the cache left by the first gives every gene of the first output the same mass, whatever the second lookup returns |
| `MassMapping.Idempotent` | autopacmen/submodules/get_protein_mass_mapping.py:86-130 | Re-running with the same lookup over the cache the first run left gives the same output mapping and the same cache |
| `MassMapping.WarmCache` | autopacmen/submodules/get_protein_mass_mapping.py:90-94 | With every annotated accession cached, the run makes no lookup and no pause, and leaves the cache unchanged |
| `MassMapping.PartialFailure` | autopacmen/submodules/get_protein_mass_mapping.py:100-130 | With one resolvable gene, one gene whose lookup fails and one unannotated gene, the run completes and the output holds only the first gene |

## Left out

- The HTTP request, the `ok` check, JSON parsing and the `float` conversion (lines 97-109) are replaced by the abstract `fetch`. Its `None` stands for every exception the `try` swallows.
- Pickle serialisation, `ensure_folder_existence` and `get_files` (lines 79-82, 91-92, 115-116) are replaced by the cache map. A cache file that cannot be unpickled is not modelled; the source lets that exception end the run.
- The duration of `time.sleep(0.4)` (line 119) is not modelled; the pause is only a `Sleep` event.
- Mass values are an opaque type, so IEEE-754 floats, their arithmetic and the pickle round trip of a float are not modelled.
- The progress `print`s, `standardize_folder`, the output path and `json_write` (lines 56-59, 84, 93, 98, 127, 133-134) are output I/O. The model returns the mapping that would be written.
- `get_protein_mass_mapping_with_sbml` (lines 137-147) only loads an SBML file with cobra and calls the modelled function.
- cobra gene objects become `Gene(id, uniprot)` records. An annotation whose `"uniprot"` value is a list, which would make the dict lookup at line 68 raise, is not modelled.
- `MassMapping.FanOut`: requires unique gene ids, which a cobra model guarantees. With a repeated id, the last assignment of line 130 wins, and this lemma does not say which one that is.
- `MassMapping.SkipUnannotated`: requires unique gene ids. An unannotated gene whose id is repeated by an annotated, resolved gene does appear in the output.
- `MassMapping.RerunKeepsMasses`: requires unique gene ids, for the reason given under `MassMapping.FanOut`.
- `Resolver.ResolvedOrder`: requires distinct accessions. The only caller passes dict keys, which always are.
- `Resolver.UncachedCount`: requires distinct accessions, for the same reason.
