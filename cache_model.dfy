/**
 * The whole simulator state as a value: every set, the global recency clock
 * and the hit/miss/eviction counters, with the load/store and modify
 * operations and the trace loop over it.
 */
module CacheModel {
  import opened Decoding
  import opened CacheSet

  datatype CacheState = CacheState(
    sets: seq<seq<Line>>,
    clock: nat,
    hits: nat,
    misses: nat,
    evictions: nat)

  /** The result of one access: the new state and the classification. */
  datatype AccessResult = AccessResult(state: CacheState, outcome: Outcome)

  /** The result of a modify: the new state and both classifications. */
  datatype ModifyResult = ModifyResult(state: CacheState, first: Outcome, second: Outcome)

  /** A trace record `<op> <address>,<size>`; only `L`, `S` and `M` reach the cache. */
  datatype Record = Record(op: char, address: Word, size: Word)

  /** S sets of E lines each. */
  ghost predicate Shaped(g: Geometry, st: CacheState)
  {
    && |st.sets| == g.SetCount()
    && forall i :: 0 <= i < |st.sets| ==> |st.sets[i]| == g.E
  }

  /**
   * What every reachable state keeps: each set's valid lines form a prefix
   * with distinct tags; with more than one line per set their timestamps are
   * distinct and below the clock (the direct-mapped path never stamps lines);
   * and there are no more evictions than misses.
   */
  ghost predicate StateInv(g: Geometry, st: CacheState)
  {
    && Shaped(g, st)
    && (forall i :: 0 <= i < |st.sets| ==> SetInv(st.sets[i]))
    && (g.E > 1 ==> forall i :: 0 <= i < |st.sets| ==> TimesBelow(st.sets[i], st.clock))
    && st.evictions <= st.misses
  }

  /** `create_cache` and the zeroed counters and clock: every line invalid. */
  function Initial(g: Geometry): (st: CacheState)
    requires g.Valid()
    ensures StateInv(g, st)
    ensures forall i, j :: 0 <= i < |st.sets| && 0 <= j < g.E ==> !st.sets[i][j].valid
    ensures st.hits + st.misses + st.evictions == 0
  {
    CacheState(seq(g.SetCount(), _ => EmptySet(g.E)), 0, 0, 0, 0)
  }

  /** Adds one access of the given classification to the counters. */
  function Tally(st: CacheState, outcome: Outcome): (r: CacheState)
    ensures r.sets == st.sets && r.clock == st.clock
    ensures r.hits + r.misses == st.hits + st.misses + 1
    ensures r.hits == st.hits + 1 <==> outcome == Hit
    ensures r.hits >= st.hits && r.misses >= st.misses && r.evictions >= st.evictions
    ensures r.evictions == st.evictions + 1 <==> outcome == MissEviction
    ensures r.evictions <= st.evictions + 1
    ensures r.evictions > st.evictions ==> r.misses == st.misses + 1
  {
    match outcome
    case Hit => st.(hits := st.hits + 1)
    case Miss => st.(misses := st.misses + 1)
    case MissEviction => st.(misses := st.misses + 1, evictions := st.evictions + 1)
  }

  /**
   * One access to set `index` with `tag`: the direct-mapped step when E == 1,
   * the set-associative step (which ticks the clock) otherwise.
   */
  function Access(g: Geometry, st: CacheState, index: nat, tag: Word): (r: AccessResult)
    requires g.Valid() && Shaped(g, st) && index < g.SetCount()
    ensures Shaped(g, r.state)
    ensures forall i :: 0 <= i < |st.sets| && i != index ==> r.state.sets[i] == st.sets[i]
    ensures r.state.clock == if g.E == 1 then st.clock else st.clock + 1
  {
    var lines := st.sets[index];
    if g.E == 1 then
      var step := DirectAccess(lines, tag);
      AccessResult(Tally(st.(sets := st.sets[index := step.lines]), step.outcome), step.outcome)
    else
      var step := AssocAccess(lines, tag, st.clock);
      AccessResult(
        Tally(st.(sets := st.sets[index := step.lines], clock := st.clock + 1), step.outcome),
        step.outcome)
  }

  /** `sim_load_store`: decode the address, then one access. */
  function LoadStore(g: Geometry, st: CacheState, address: Word): (r: AccessResult)
    requires g.Valid() && Shaped(g, st)
    ensures Shaped(g, r.state)
    ensures r.state.hits + r.state.misses == st.hits + st.misses + 1
    ensures forall i :: 0 <= i < |st.sets| && i != Decode(g, address).index ==> r.state.sets[i] == st.sets[i]
  {
    var d := Decode(g, address);
    Access(g, st, d.index, d.tag)
  }

  /** `sim_modify`: decode the address, then the same access twice. */
  function Modify(g: Geometry, st: CacheState, address: Word): (r: ModifyResult)
    requires g.Valid() && Shaped(g, st)
    ensures Shaped(g, r.state)
    ensures r.state.hits + r.state.misses == st.hits + st.misses + 2
    ensures forall i :: 0 <= i < |st.sets| && i != Decode(g, address).index ==> r.state.sets[i] == st.sets[i]
  {
    var d := Decode(g, address);
    var r1 := Access(g, st, d.index, d.tag);
    var r2 := Access(g, r1.state, d.index, d.tag);
    ModifyResult(r2.state, r1.outcome, r2.outcome)
  }

  /** How many cache accesses a record stands for: one per load or store, two per modify. */
  function Accesses(rec: Record): nat
  {
    match rec.op
    case 'L' => 1
    case 'S' => 1
    case 'M' => 2
    case _ => 0
  }

  /** The dispatch of `simulate` on one record; any other op (an `I` record) is skipped. */
  function Step(g: Geometry, st: CacheState, rec: Record): (st': CacheState)
    requires g.Valid() && Shaped(g, st)
    ensures Shaped(g, st')
    ensures st'.hits + st'.misses == st.hits + st.misses + Accesses(rec)
    ensures Accesses(rec) > 0 ==>
      forall i :: 0 <= i < |st.sets| && i != Decode(g, rec.address).index ==> st'.sets[i] == st.sets[i]
    ensures Accesses(rec) == 0 ==> st' == st
  {
    match rec.op
    case 'L' => LoadStore(g, st, rec.address).state
    case 'S' => LoadStore(g, st, rec.address).state
    case 'M' => Modify(g, st, rec.address).state
    case _ => st
  }

  /** The records of a trace, one after the other. */
  function Run(g: Geometry, st: CacheState, trace: seq<Record>): (st': CacheState)
    requires g.Valid() && Shaped(g, st)
    ensures Shaped(g, st')
    decreases |trace|
  {
    if trace == [] then st else Run(g, Step(g, st, trace[0]), trace[1..])
  }

  function TraceAccesses(trace: seq<Record>): nat
    decreases |trace|
  {
    if trace == [] then 0 else Accesses(trace[0]) + TraceAccesses(trace[1..])
  }

  // ---------------------------------------------------------------------------
  // Lemmas

  /**
   * Every access adds one to exactly one of `hits` and `misses`; `evictions`
   * grows only together with `misses`. Sets other than `index` are untouched;
   * the clock stays put on the direct-mapped path and ticks once otherwise.
   */
  lemma AccessBookkeeping(g: Geometry, st: CacheState, index: nat, tag: Word)
    requires g.Valid() && Shaped(g, st) && index < g.SetCount()
    ensures var r := Access(g, st, index, tag);
      && r.state.hits + r.state.misses == st.hits + st.misses + 1
      && (r.outcome == Hit <==> r.state.hits == st.hits + 1)
      && r.state.hits >= st.hits && r.state.misses >= st.misses
      && (r.state.evictions == st.evictions || r.state.evictions == st.evictions + 1)
      && (r.state.evictions == st.evictions + 1 <==> r.outcome == MissEviction)
      && (r.state.evictions == st.evictions + 1 ==> r.state.misses == st.misses + 1)
  {
  }

  /**
   * On the direct-mapped path, line 0 of the set ends valid with the tag; the
   * access is a hit iff that line already held the tag, and a miss with
   * eviction iff it held another one.
   */
  lemma DirectMappedAccess(g: Geometry, st: CacheState, index: nat, tag: Word)
    requires g.Valid() && g.E == 1 && Shaped(g, st) && index < g.SetCount()
    ensures var r := Access(g, st, index, tag);
      var line := st.sets[index][0];
      && r.state.sets[index][0].valid && r.state.sets[index][0].tag == tag
      && r.state.sets[index][0].time == line.time
      && (r.outcome == Hit <==> line.valid && line.tag == tag)
      && (r.outcome == MissEviction <==> line.valid && line.tag != tag)
      && r.state.clock == st.clock
  {
    DirectAccessEffect(st.sets[index], tag);
  }

  /** Every access keeps the state invariant. */
  lemma AccessKeepsInv(g: Geometry, st: CacheState, index: nat, tag: Word)
    requires g.Valid() && StateInv(g, st) && index < g.SetCount()
    ensures StateInv(g, Access(g, st, index, tag).state)
  {
    var r := Access(g, st, index, tag);
    var lines := st.sets[index];
    if g.E == 1 {
      DirectAccessKeepsInv(lines, tag);
    } else {
      AssocAccessKeepsInv(lines, tag, st.clock);
      forall i | 0 <= i < |st.sets|
        ensures TimesBelow(r.state.sets[i], r.state.clock)
      {
        if i != index {
          assert r.state.sets[i] == st.sets[i];
        }
      }
    }
  }

  /**
   * The second access of a modify is a hit, for any geometry and any prior
   * state: the first access has just installed or refreshed the block.
   */
  lemma ModifySecondHits(g: Geometry, st: CacheState, address: Word)
    requires g.Valid() && Shaped(g, st)
    ensures Modify(g, st, address).second == Hit
    ensures Modify(g, st, address).first == LoadStore(g, st, address).outcome
  {
    var d := Decode(g, address);
    var lines := st.sets[d.index];
    if g.E == 1 {
      DirectAgainHits(lines, d.tag);
    } else {
      AssocAgainHits(lines, d.tag, st.clock);
    }
  }

  lemma StepKeepsInv(g: Geometry, st: CacheState, rec: Record)
    requires g.Valid() && StateInv(g, st)
    ensures StateInv(g, Step(g, st, rec))
  {
    var d := Decode(g, rec.address);
    AccessKeepsInv(g, st, d.index, d.tag);
    if rec.op == 'M' {
      AccessKeepsInv(g, Access(g, st, d.index, d.tag).state, d.index, d.tag);
    }
  }

  lemma StepCounters(g: Geometry, st: CacheState, rec: Record)
    requires g.Valid() && Shaped(g, st)
    ensures var st' := Step(g, st, rec);
      && st'.hits + st'.misses == st.hits + st.misses + Accesses(rec)
      && st'.evictions - st.evictions <= st'.misses - st.misses
  {
    var d := Decode(g, rec.address);
    AccessBookkeeping(g, st, d.index, d.tag);
    if rec.op == 'M' {
      AccessBookkeeping(g, Access(g, st, d.index, d.tag).state, d.index, d.tag);
    }
  }

  /**
   * Over a whole trace, `hits + misses` grows by the number of accesses (two
   * per modify, none per skipped record) and `evictions` by no more than
   * `misses`.
   */
  lemma {:induction false} RunCounters(g: Geometry, st: CacheState, trace: seq<Record>)
    requires g.Valid() && Shaped(g, st)
    ensures var st' := Run(g, st, trace);
      && st'.hits + st'.misses == st.hits + st.misses + TraceAccesses(trace)
      && st'.evictions - st.evictions <= st'.misses - st.misses
    decreases |trace|
  {
    if trace != [] {
      StepCounters(g, st, trace[0]);
      RunCounters(g, Step(g, st, trace[0]), trace[1..]);
    }
  }

  /** Every state a trace reaches from a state with the invariant keeps it. */
  lemma {:induction false} RunKeepsInv(g: Geometry, st: CacheState, trace: seq<Record>)
    requires g.Valid() && StateInv(g, st)
    ensures StateInv(g, Run(g, st, trace))
    decreases |trace|
  {
    if trace != [] {
      StepKeepsInv(g, st, trace[0]);
      RunKeepsInv(g, Step(g, st, trace[0]), trace[1..]);
    }
  }

  /** Neither a load, store nor modify of an address decoded to set `i` occurs in the trace. */
  ghost predicate AvoidsSet(g: Geometry, trace: seq<Record>, i: nat)
    requires g.Valid()
  {
    forall k :: 0 <= k < |trace| && Accesses(trace[k]) > 0 ==> Decode(g, trace[k].address).index != i
  }

  /** A trace that never touches set `i` leaves that set exactly as it was (the clock may move). */
  lemma {:induction false} RunAvoidingKeepsSet(g: Geometry, st: CacheState, trace: seq<Record>, i: nat)
    requires g.Valid() && Shaped(g, st) && i < g.SetCount() && AvoidsSet(g, trace, i)
    ensures Run(g, st, trace).sets[i] == st.sets[i]
    decreases |trace|
  {
    if trace != [] {
      var next := Step(g, st, trace[0]);
      assert next.sets[i] == st.sets[i];
      assert AvoidsSet(g, trace[1..], i) by {
        forall k | 0 <= k < |trace[1..]| && Accesses(trace[1..][k]) > 0
          ensures Decode(g, trace[1..][k].address).index != i
        {
          assert trace[1..][k] == trace[k + 1];
        }
      }
      RunAvoidingKeepsSet(g, next, trace[1..], i);
    }
  }

  /**
   * After an access to a block, accessing it again is a hit, however many
   * accesses to other sets come between: they may move the clock but leave
   * the block's set as it was.
   */
  lemma AgainAfterOtherSets(g: Geometry, st: CacheState, address: Word, trace: seq<Record>)
    requires g.Valid() && Shaped(g, st) && AvoidsSet(g, trace, Decode(g, address).index)
    ensures LoadStore(g, Run(g, LoadStore(g, st, address).state, trace), address).outcome == Hit
  {
    var d := Decode(g, address);
    var first := LoadStore(g, st, address).state;
    RunAvoidingKeepsSet(g, first, trace, d.index);
    if g.E == 1 {
      DirectAccessEffect(st.sets[d.index], d.tag);
    } else {
      AssocAccessInstalls(st.sets[d.index], d.tag, st.clock);
    }
  }

  /** The case of one access to another set in between, at the level of set indices. */
  lemma AgainAfterOtherSet(g: Geometry, st: CacheState, i: nat, t: Word, j: nat, u: Word)
    requires g.Valid() && Shaped(g, st) && i < g.SetCount() && j < g.SetCount() && j != i
    ensures Access(g, Access(g, Access(g, st, i, t).state, j, u).state, i, t).outcome == Hit
  {
    if g.E == 1 {
      DirectAccessEffect(st.sets[i], t);
    } else {
      AssocAccessInstalls(st.sets[i], t, st.clock);
    }
  }

  /** From the initial state, `hits + misses` is the number of accesses and `evictions <= misses`. */
  lemma RunFromInitial(g: Geometry, trace: seq<Record>)
    requires g.Valid()
    ensures var st := Run(g, Initial(g), trace);
      && st.hits + st.misses == TraceAccesses(trace)
      && st.evictions <= st.misses
      && StateInv(g, st)
  {
    RunCounters(g, Initial(g), trace);
    RunKeepsInv(g, Initial(g), trace);
  }
}
