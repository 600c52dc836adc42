/**
 * The simulator as it runs: a two-level array of S sets of E lines updated in
 * place, a recency clock and three counters, each method proved to move the
 * state exactly as the value-level model in CacheModel says.
 */
module Simulator {
  import opened Decoding
  import opened CacheSet
  import CacheModel

  class Cache {
    /** s, E and b; S and B follow from them. */
    const geometry: Geometry
    /** `start[index][i]`: line i of set index. */
    const lines: array2<Line>
    /** The global `time`: the stamp the next touched line gets. */
    var clock: nat
    var hits: nat
    var misses: nat
    var evictions: nat

    /** The array has S rows of E lines. */
    ghost predicate Shape()
      reads this
    {
      geometry.Valid() && lines.Length0 == geometry.SetCount() && lines.Length1 == geometry.E
    }

    /** Set `i` as a sequence of lines. */
    ghost function Row(i: nat): (row: seq<Line>)
      reads this, lines
      requires Shape() && i < lines.Length0
      ensures |row| == lines.Length1
      ensures forall j :: 0 <= j < lines.Length1 ==> row[j] == lines[i, j]
    {
      seq(lines.Length1, j requires 0 <= j < lines.Length1 reads lines => lines[i, j])
    }

    /** The state as a value: all sets, the clock and the counters. */
    ghost function Model(): (st: CacheModel.CacheState)
      reads this, lines
      requires Shape()
      ensures CacheModel.Shaped(geometry, st)
      ensures forall i :: 0 <= i < lines.Length0 ==> st.sets[i] == Row(i)
    {
      var sets := seq(lines.Length0, i requires 0 <= i < lines.Length0 reads this, lines => Row(i));
      CacheModel.CacheState(sets, clock, hits, misses, evictions)
    }

    /** The shape, and the invariant every reachable state keeps. */
    ghost predicate Valid()
      reads this, lines
    {
      Shape() && CacheModel.StateInv(geometry, Model())
    }

    /** Rows other than `index` are as they were in the old state. */
    twostate predicate OtherRowsUnchanged(index: nat)
      reads this, lines
      requires Shape()
    {
      forall i, j :: 0 <= i < lines.Length0 && i != index && 0 <= j < lines.Length1 ==>
        lines[i, j] == old(lines[i, j])
    }

    /** A model that differs from `before` only in row `index` is `before` with that row replaced. */
    lemma ModelAfterRowUpdate(before: CacheModel.CacheState, index: nat, row: seq<Line>)
      requires Shape() && index < lines.Length0 && CacheModel.Shaped(geometry, before)
      requires forall i, j :: 0 <= i < lines.Length0 && i != index && 0 <= j < lines.Length1 ==>
        lines[i, j] == before.sets[i][j]
      requires Row(index) == row
      ensures Model().sets == before.sets[index := row]
    {
      var now := Model().sets;
      var was := before.sets[index := row];
      assert |now| == |was|;
      forall i | 0 <= i < |now|
        ensures now[i] == was[i]
      {
        if i != index {
          assert now[i] == Row(i);
        }
      }
    }

    /** `create_cache`: S sets of E invalid lines, counters and clock at zero. */
    constructor (g: Geometry)
      requires g.Valid()
      ensures Valid() && geometry == g && fresh(lines)
      ensures Model() == CacheModel.Initial(g)
    {
      geometry := g;
      lines := new Line[g.SetCount(), g.E]((i, j) => EmptyLine);
      clock, hits, misses, evictions := 0, 0, 0, 0;
      new;
      forall i | 0 <= i < lines.Length0
        ensures Row(i) == EmptySet(g.E)
      {
      }
      assert Model().sets == CacheModel.Initial(g).sets;
    }

    /** `sim_direct_mapped`: works on line 0 of the set; never touches the clock or the line's time. */
    method DirectMapped(index: nat, tag: Word) returns (outcome: Outcome)
      requires Valid() && geometry.E == 1 && index < geometry.SetCount()
      modifies lines, this`hits, this`misses, this`evictions
      ensures Valid()
      ensures var r := CacheModel.Access(geometry, old(Model()), index, tag);
        Model() == r.state && outcome == r.outcome
    {
      ghost var before := Model();
      ghost var step := DirectAccess(Row(index), tag);
      var line := lines[index, 0];
      if line.valid {
        if line.tag == tag {
          hits := hits + 1;
          outcome := Hit;
        } else {
          misses := misses + 1;
          evictions := evictions + 1;
          lines[index, 0] := line.(tag := tag);
          outcome := MissEviction;
        }
      } else {
        misses := misses + 1;
        lines[index, 0] := line.(valid := true, tag := tag);
        outcome := Miss;
      }
      assert Row(index) == step.lines;
      ModelAfterRowUpdate(before, index, step.lines);
      CacheModel.AccessKeepsInv(geometry, old(Model()), index, tag);
    }

    /**
     * `sim_set_associative`: scan the set for a valid line with the tag (a hit)
     * or the first invalid line (a miss that fills it); a scan that runs off
     * the end misses and evicts. The touched line gets the clock before it
     * ticks.
     */
    method SetAssociative(index: nat, tag: Word) returns (outcome: Outcome)
      requires Shape() && index < geometry.SetCount()
      modifies this, lines
      ensures Shape() && OtherRowsUnchanged(index)
      ensures var step := AssocAccess(old(Row(index)), tag, old(clock));
        && Row(index) == step.lines
        && outcome == step.outcome
        && clock == old(clock) + 1
        && Model() == CacheModel.Tally(old(Model()).(sets := old(Model()).sets[index := step.lines], clock := old(clock) + 1), outcome)
    {
      ghost var before := Model();
      ghost var step := AssocAccess(Row(index), tag, clock);
      ghost var k := Scan(Row(index), tag);
      var i := 0;
      while i < geometry.E
        invariant 0 <= i <= geometry.E
        invariant forall j :: 0 <= j < i ==> lines[index, j].valid && lines[index, j].tag != tag
        invariant i <= k
        invariant unchanged(this, lines)
      {
        var line := lines[index, i];
        if line.valid {
          if line.tag == tag {
            hits := hits + 1;
            lines[index, i] := line.(time := clock);
            clock := clock + 1;
            outcome := Hit;
            assert k == i;
            assert Row(index) == step.lines;
            ModelAfterRowUpdate(before, index, step.lines);
            return;
          }
        } else {
          misses := misses + 1;
          lines[index, i] := Line(true, tag, clock);
          clock := clock + 1;
          outcome := Miss;
          assert k == i;
          assert Row(index) == step.lines;
          ModelAfterRowUpdate(before, index, step.lines);
          return;
        }
        i := i + 1;
      }
      misses := misses + 1;
      evictions := evictions + 1;
      Evict(index, tag);
      outcome := MissEviction;
      ModelAfterRowUpdate(before, index, step.lines);
    }

    /**
     * `evict`: a running minimum over the set's times with a strict `<`, so
     * the victim is the first line of least time; it takes the tag and the
     * clock, which then ticks. Its valid bit is left as it is.
     */
    method Evict(index: nat, tag: Word)
      requires Shape() && index < geometry.SetCount()
      modifies lines, this`clock
      ensures OtherRowsUnchanged(index)
      ensures var v := Victim(old(Row(index)));
        Row(index) == old(Row(index))[v := old(Row(index))[v].(tag := tag, time := old(clock))]
      ensures clock == old(clock) + 1
    {
      var lru := 0;
      var t := lines[index, 0].time;
      for i := 1 to geometry.E
        invariant lru == LruOf(Row(index), i)
        invariant t == lines[index, lru].time
        modifies {}
      {
        if lines[index, i].time < t {
          t := lines[index, i].time;
          lru := i;
        }
      }
      ghost var row := Row(index);
      lines[index, lru] := lines[index, lru].(tag := tag, time := clock);
      clock := clock + 1;
      assert Row(index) == row[lru := row[lru].(tag := tag, time := old(clock))];
    }

    /** The dispatch both `sim_load_store` and `sim_modify` make: the direct-mapped path when E == 1. */
    method AccessSet(index: nat, tag: Word) returns (outcome: Outcome)
      requires Valid() && index < geometry.SetCount()
      modifies this, lines
      ensures Valid()
      ensures var r := CacheModel.Access(geometry, old(Model()), index, tag);
        Model() == r.state && outcome == r.outcome
    {
      if geometry.E == 1 {
        outcome := DirectMapped(index, tag);
      } else {
        outcome := SetAssociative(index, tag);
        CacheModel.AccessKeepsInv(geometry, old(Model()), index, tag);
      }
    }

    /** `sim_load_store`: decode the address, then one access on the path E selects. */
    method LoadStore(address: Word) returns (outcome: Outcome)
      requires Valid()
      modifies this, lines
      ensures Valid()
      ensures var r := CacheModel.LoadStore(geometry, old(Model()), address);
        Model() == r.state && outcome == r.outcome
    {
      var d := Decode(geometry, address);
      outcome := AccessSet(d.index, d.tag);
    }

    /**
     * `sim_modify`: decode the address, then the same access twice; the
     * second one always hits.
     */
    method Modify(address: Word) returns (first: Outcome, second: Outcome)
      requires Valid()
      modifies this, lines
      ensures Valid()
      ensures var r := CacheModel.Modify(geometry, old(Model()), address);
        Model() == r.state && first == r.first && second == r.second
      ensures second == Hit
    {
      var d := Decode(geometry, address);
      first := AccessSet(d.index, d.tag);
      second := AccessSet(d.index, d.tag);
      CacheModel.ModifySecondHits(geometry, old(Model()), address);
    }

    /**
     * The dispatch loop of `simulate` over the records of a trace: loads and
     * stores are one access, modifies two, anything else is skipped.
     */
    method Simulate(trace: seq<CacheModel.Record>)
      requires Valid()
      modifies this, lines
      ensures Valid()
      ensures Model() == CacheModel.Run(geometry, old(Model()), trace)
      ensures hits + misses == old(hits + misses) + CacheModel.TraceAccesses(trace)
    {
      var i := 0;
      while i < |trace|
        invariant 0 <= i <= |trace|
        invariant Valid()
        invariant CacheModel.Run(geometry, Model(), trace[i..]) == CacheModel.Run(geometry, old(Model()), trace)
      {
        var rec := trace[i];
        assert trace[i..][1..] == trace[i + 1..];
        match rec.op {
          case 'L' =>
            var _ := LoadStore(rec.address);
          case 'S' =>
            var _ := LoadStore(rec.address);
          case 'M' =>
            var _, _ := Modify(rec.address);
          case _ =>
        }
        i := i + 1;
      }
      assert trace[|trace|..] == [];
      CacheModel.RunCounters(geometry, old(Model()), trace);
    }
  }
}
