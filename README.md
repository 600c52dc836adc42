# Cache simulator model

A Dafny model of the simulation engine of `csim.c`. The engine runs a trace of
memory accesses against a cache of S = 2^s sets, each with E lines of B = 2^b
bytes. It replaces lines by least-recently-used order and counts hits, misses
and evictions.

The model has five modules. The first four follow the parts of the C file:

- `Decoding` (`decoding.dfy`) covers the address split of `sim_load_store` and
  `sim_modify`: `index = (address & (S*B - 1)) >> b` and
  `tag = address >> (s + b)`. Unsigned 32-bit values are naturals below 2^32
  (`Word`). The bitwise `&` and `>>` are defined bit by bit (`BitAnd`,
  `ShiftRight`) and proved equal to `%` and `/` by powers of two.
- `CacheSet` (`cache_set.dfy`) covers one set as a sequence of lines and the
  two access paths as functions:
  - `DirectAccess` is `sim_direct_mapped`;
  - `AssocAccess` is `sim_set_associative`, with its scan `ScanFrom` and the
    LRU running minimum `LruOf` of `evict`.
  It also holds the set invariants and the lemmas about one access or a run of
  accesses.
- `CacheModel` (`cache_model.dfy`) covers the whole state as a value: all
  sets, the global clock `time` and the `hits/misses/evictions` counters. It
  defines `Access` (the E == 1 / E > 1 dispatch), `LoadStore`, `Modify`, the
  record dispatch of `simulate` (`Step`, `Run`), and the lemmas on counters,
  invariants and modify.
- `Simulator` (`simulator.dfy`) covers the imperative simulator. Class `Cache`
  holds a two-level `array2<Line>` of S rows by E lines, updated in place. It
  also holds a `clock` field for the global `time` and the three counters.
  - `DirectMapped`, `SetAssociative` (a `while` scan) and `Evict` (a `for`
    running minimum) are methods.
  - `AccessSet`, `LoadStore`, `Modify` and `Simulate` are methods too.
  - Each method's postcondition ties the new state, viewed as a
    `CacheModel.CacheState`, to the model function applied to the old state.
  - `Valid()` is the array shape plus the state invariant.
    `DirectMapped`, `AccessSet`, `LoadStore`, `Modify` and `Simulate` require
    and keep it. `SetAssociative` and `Evict` require and keep only the shape;
    `AccessSet` restores the invariant after `SetAssociative` through
    `CacheModel.AccessKeepsInv`.
- `Scenarios` (`scenarios.dfy`) works two small traces through the model.

A line touched by the set-associative path gets the clock value from before
the increment (`time++`, csim.c:239, 249, 280). The direct-mapped path
(csim.c:197-226) never reads or changes the clock or any line's time, so the
timestamp invariant (distinct stamps, all below the clock) is stated only for
E > 1.

## Model

| member | source | states |
|---|---|---|
| Decoding.Decode | cachelab-handout/csim.c:157-158 | the index computed by masking with S*B - 1 and shifting by b is below S and equals (address / B) % S; the tag computed by shifting by s + b equals address / (S*B) and fits in 32 bits |
| Decoding.DecodeRecompose | cachelab-handout/csim.c:178-179 | (tag * S + index) * B + address % B gives back the address |
| Decoding.IndexBits | cachelab-handout/csim.c:157 | bit i of the index is bit b + i of the address for i < s, and 0 for i >= s |
| Decoding.TagBits | cachelab-handout/csim.c:158 | bit i of the tag is bit s + b + i of the address |
| Decoding.ShiftRightIsDiv | cachelab-handout/csim.c:158 | the unsigned right shift by n is division by 2^n |
| Decoding.BitAndLowMask | cachelab-handout/csim.c:157 | and-ing with 2^n - 1 keeps the value modulo 2^n |
| CacheSet.ScanFrom | cachelab-handout/csim.c:235-256 | the scan stops at the first line that is invalid or valid with the tag; every line before it is valid with another tag; it reaches the end only if there is no such line |
| CacheSet.LruOf | cachelab-handout/csim.c:270-278 | the running minimum with strict `<` picks a line of least time, the lowest position among lines of equal time |
| CacheSet.DirectAccess | cachelab-handout/csim.c:197-226 | `sim_direct_mapped` on a set: line 0 ends valid with the tag and keeps its time, the other lines and the length are unchanged; DirectAccessEffect gives the classification |
| CacheSet.AssocAccess | cachelab-handout/csim.c:229-281 | `sim_set_associative` on a set: exactly one line changes, and it becomes valid with the tag and the clock; AssocOutcome, AssocHit, AssocFill and AssocEvict say which line and how the access is classified |
| CacheSet.Victim | cachelab-handout/csim.c:266-281 | the line `evict` overwrites has the least time of the set, and no line before it has the same time |
| CacheSet.DirectAccessEffect | cachelab-handout/csim.c:198-226 | after a direct-mapped access the line is valid, holds the tag and keeps its time; the access is a hit iff the line was valid with the tag, a miss with eviction iff it was valid with another tag, a plain miss iff it was invalid |
| CacheSet.DirectConflictEvicts | cachelab-handout/csim.c:201-216 | in a direct-mapped set a valid line and a different tag always give a miss with eviction, never a plain miss |
| CacheSet.ScanFindsResident | cachelab-handout/csim.c:235-256 | when valid lines form a prefix, the scan stops on a valid line iff some valid line holds the tag |
| CacheSet.AssocHit | cachelab-handout/csim.c:236-243 | a resident tag is a hit; only the line holding it changes, its time becomes the clock, and all valid bits and tags stay the same |
| CacheSet.AssocFill | cachelab-handout/csim.c:245-254 | a tag that is not resident, in a set with a free slot, is a plain miss; the first invalid slot becomes valid with the tag and the clock, nothing else changes, and valid lines stay a prefix |
| CacheSet.AssocEvict | cachelab-handout/csim.c:257-281 | an eviction happens iff all lines are valid and none holds the tag; the victim has the least time, the lowest position on ties; only its tag and time change, and it stays valid |
| CacheSet.AssocOutcome | cachelab-handout/csim.c:235-259 | under the set invariant: hit iff the tag is resident, plain miss iff it is not and a slot is free, miss with eviction iff it is not and the set is full |
| CacheSet.VictimIsUniqueLru | cachelab-handout/csim.c:273-280 | with distinct timestamps on a full set, the victim's time is strictly below every other line's |
| CacheSet.DirectAccessKeepsInv | cachelab-handout/csim.c:217-220 | a direct-mapped access keeps the set invariant; for a one-line set that invariant holds whatever the line holds, so this is only a sanity check |
| CacheSet.AssocAccessKeepsInv | cachelab-handout/csim.c:229-281 | a set-associative access keeps valid lines a prefix with distinct tags, and keeps their timestamps distinct and below the clock, which has moved on by one |
| CacheSet.AssocAccessInstalls | cachelab-handout/csim.c:239-280 | after any set-associative access, the scan for the same tag stops on a valid line |
| CacheSet.AssocAgainHits | cachelab-handout/csim.c:189-190 | two back-to-back set-associative accesses to one tag: the second is a hit, whatever the set held |
| CacheSet.DirectAgainHits | cachelab-handout/csim.c:182-183 | two back-to-back direct-mapped accesses to one tag: the second is a hit |
| CacheSet.EvictedTagMisses | cachelab-handout/csim.c:257-281 | after an eviction the evicted tag is no longer resident, and accessing it next is a miss with eviction |
| CacheSet.FillEmptySet | cachelab-handout/csim.c:245-254 | with E >= 2, up to E distinct tags accessed in a new set all miss without eviction, and line i holds the i-th tag stamped clock + i |
| CacheSet.EvictAfterFill | cachelab-handout/csim.c:266-281 | with E >= 2, once E distinct tags fill a new set, a further tag evicts the first tag (the least recently touched), and accessing the first tag again is a miss; one-line sets are covered by DirectConflictEvicts |
| CacheSet.EmptySet | cachelab-handout/csim.c:111 | a set as `calloc` gives it has E lines, all invalid |
| CacheModel.Initial | cachelab-handout/csim.c:103-122 | the created cache has S sets of E invalid lines, zero counters, and satisfies the state invariant |
| CacheModel.Tally | cachelab-handout/csim.c:203-258 | the counter updates of both paths: exactly one of hits and misses grows by one; hits grow iff the outcome is a hit; evictions grow, by one, iff it is a miss with eviction, and then misses grow too; sets and clock are untouched |
| CacheModel.Access | cachelab-handout/csim.c:160-166 | the E == 1 test: one access to set `index`; the other sets are unchanged; the clock stays put when E == 1 and ticks once otherwise; AccessBookkeeping gives the counters and AccessKeepsInv the invariant |
| CacheModel.LoadStore | cachelab-handout/csim.c:153-171 | decode the address, then one access: hits + misses grows by one and only the decoded set can change |
| CacheModel.Modify | cachelab-handout/csim.c:174-195 | decode the address, then the same access twice: hits + misses grows by two and only the decoded set can change; ModifySecondHits proves the second access hits |
| CacheModel.Step | cachelab-handout/csim.c:132-148 | the switch on the op: L and S are one access, M two, and hits + misses grows by that count; only the decoded set can change; any other op leaves the state as it is |
| CacheModel.Run | cachelab-handout/csim.c:131-149 | the records of a trace applied in order keep S sets of E lines; RunCounters gives the counters and RunKeepsInv the invariant |
| CacheModel.AccessBookkeeping | cachelab-handout/csim.c:197-264 | each access adds one to exactly one of hits and misses; hits grow iff the access is a hit; evictions grow by one iff it is a miss with eviction, and then misses grow too; other sets are unchanged; the clock stays put when E == 1 and ticks once otherwise |
| CacheModel.DirectMappedAccess | cachelab-handout/csim.c:160-161 | with E == 1, line 0 of the set ends valid with the tag and its old time; hit iff it held the tag, miss with eviction iff it held another; the clock is unchanged |
| CacheModel.AccessKeepsInv | cachelab-handout/csim.c:197-281 | every access keeps the state invariant: prefix, distinct tags, distinct timestamps below the clock when E > 1, and evictions <= misses |
| CacheModel.ModifySecondHits | cachelab-handout/csim.c:174-195 | for any geometry and any prior state, the second access of a modify is a hit, and the first is what a load of the same address would give |
| CacheModel.StepCounters | cachelab-handout/csim.c:131-149 | one trace record adds its access count (1 for L or S, 2 for M, 0 otherwise) to hits + misses, and adds no more to evictions than to misses |
| CacheModel.RunCounters | cachelab-handout/csim.c:124-151 | over a trace, hits + misses grows by the number of accesses, and evictions grow by no more than misses |
| CacheModel.RunKeepsInv | cachelab-handout/csim.c:124-151 | every state a trace reaches keeps the state invariant |
| CacheModel.AgainAfterOtherSet | cachelab-handout/csim.c:160-166 | an access to (i, t), then any access to another set j, then (i, t) again: the third access hits, on both paths and from any state |
| CacheModel.RunAvoidingKeepsSet | cachelab-handout/csim.c:131-149 | a trace with no load, store or modify that decodes to set i leaves set i exactly as it was |
| CacheModel.AgainAfterOtherSets | cachelab-handout/csim.c:153-171 | a load or store of an address, then any trace that does not touch its set, then the same address again: the last access hits |
| CacheModel.RunFromInitial | cachelab-handout/csim.c:315-318 | from the created cache, hits + misses is the number of accesses of the trace, and evictions <= misses |
| Simulator.Cache.constructor | cachelab-handout/csim.c:103-122 | the array has S rows of E invalid lines; the clock and counters are zero |
| Simulator.Cache.DirectMapped | cachelab-handout/csim.c:197-226 | the in-place update, classification and counters match `CacheModel.Access` with E == 1; its frame names the lines and the three counters, not the clock |
| Simulator.Cache.SetAssociative | cachelab-handout/csim.c:229-264 | the scan loop with early returns moves row `index`, the clock and the counters exactly as `AssocAccess` says; other rows are unchanged |
| Simulator.Cache.Evict | cachelab-handout/csim.c:266-281 | the running-minimum loop overwrites the tag and time of line `Victim` of the old row; the clock ticks once; nothing else changes |
| Simulator.Cache.AccessSet | cachelab-handout/csim.c:160-170 | the E == 1 test sends the access to the direct-mapped path, otherwise to the set-associative path; the new state and classification are `CacheModel.Access` of the old state, and the invariant is kept |
| Simulator.Cache.LoadStore | cachelab-handout/csim.c:153-171 | decode, then one access on the path E selects; the new state and classification are `CacheModel.LoadStore` of the old state, and the invariant is kept |
| Simulator.Cache.Modify | cachelab-handout/csim.c:174-195 | decode, then two accesses; the new state is `CacheModel.Modify` of the old state and the second classification is a hit |
| Simulator.Cache.Simulate | cachelab-handout/csim.c:131-149 | the record loop ends in `CacheModel.Run` of the old state; hits + misses grow by the trace's access count |
| Scenarios.TwoDirectMappedSets | cachelab-handout/csim.c:153-171 | with s = 1, E = 1, b = 0, loads of 0 and 1 go to different sets: 0 hits, 2 misses, 0 evictions |
| Scenarios.LruInOneSet | cachelab-handout/csim.c:229-281 | with s = 0, E = 2, b = 0, tags 0, 1, 0, 2 give miss, miss, hit, miss eviction; tag 1 is evicted; the counters end at 1, 3 and 1 |

## Left out

- `parse` and `help` (csim.c:48-101) are left out. They are command-line parsing and file output.
- The geometry is a value `Geometry(s, E, b)`. S and B are the exact integers 2^s and 2^b, not the floating-point `pow` results of csim.c:77 and csim.c:84.
- The trace reading of `simulate` (`fopen`, `fscanf`, `fclose`, csim.c:124-151) is left out because it is I/O. The trace is a sequence of `Record(op, address, size)` values. Only the `switch` dispatch is modelled; records with any op other than `L`, `S` or `M` are skipped.
- Verbose output (`printf` under `verb`) is left out. The access methods return a classification (`Hit`, `Miss`, `MissEviction`) instead; `Simulate` returns nothing.
- `calloc`/`malloc`/`free`, the allocation-failure exits (csim.c:107-120), `free_cache` (csim.c:284-294) and `main` (csim.c:297-329) are left out because they are memory management and plumbing. Creation is the `Cache` constructor.
- `printSummary` comes from `cachelab.h`. cachelab.h is not part of this model.
- Machine-width overflow is not modelled; clock, timestamps and counters are unbounded naturals. This leaves out:
  - wrap-around of the 32-bit `unsigned` clock `time` (csim.c:46);
  - wrap-around of the `unsigned` counters (csim.c:28-30);
  - the truncation of a 64-bit timestamp into `int t` in `evict` (csim.c:271).
  All of these agree with the model for fewer than 2^31 accesses.
- The geometry requires `s + b < 32`, because `S*B` overflows a 32-bit `unsigned` at `s + b = 32`.
- The geometry requires `E >= 1`. With `E == 0`, `evict` reads line 0 of an empty set.
- Only one cache exists per run, as in `main`. So the global `time` is a field of the `Cache` object, which starts at 0 like the static variable.
- CacheSet.AssocHit: assumes the set invariant (valid lines a prefix, distinct tags), so that the line holding the tag is unique. CacheModel.AccessKeepsInv proves the invariant holds in every reachable state.
