/**
 * Two small traces worked through the model: two direct-mapped sets, and one
 * two-line set where the least recently used tag is evicted.
 */
module Scenarios {
  import opened Decoding
  import opened CacheSet
  import opened CacheModel

  /** s = 1, E = 1, b = 0: addresses 0 and 1 land in different sets, so both miss. */
  lemma TwoDirectMappedSets()
    ensures var g := Geometry(1, 1, 0);
      var st := Run(g, Initial(g), [Record('L', 0, 1), Record('L', 1, 1)]);
      st.hits == 0 && st.misses == 2 && st.evictions == 0
  {
    var g := Geometry(1, 1, 0);
    assert Decode(g, 0) == Decoded(0, 0);
    assert Decode(g, 1) == Decoded(1, 0);
  }

  // s = 0, E = 2, b = 0: one set of two lines, addresses are tags.
  const TwoWay := Geometry(0, 2, 0)
  const Set1 := [Line(true, 0, 0), EmptyLine]
  const Set2 := [Line(true, 0, 0), Line(true, 1, 1)]
  const Set3 := [Line(true, 0, 2), Line(true, 1, 1)]
  const Set4 := [Line(true, 0, 2), Line(true, 2, 3)]

  lemma TwoWayFirstMiss()
    ensures LoadStore(TwoWay, Initial(TwoWay), 0) == AccessResult(CacheState([Set1], 1, 0, 1, 0), Miss)
  {
    var empty := [EmptyLine, EmptyLine];
    assert EmptySet(2) == empty;
    assert Initial(TwoWay).sets == [empty];
    assert Decode(TwoWay, 0) == Decoded(0, 0);
    assert AssocAccess(empty, 0, 0) == SetStep(Set1, Miss);
  }

  lemma TwoWaySecondMiss()
    ensures LoadStore(TwoWay, CacheState([Set1], 1, 0, 1, 0), 1) == AccessResult(CacheState([Set2], 2, 0, 2, 0), Miss)
  {
    assert Decode(TwoWay, 1) == Decoded(0, 1);
    assert ScanFrom(Set1, 1, 1) == 1;
    assert AssocAccess(Set1, 1, 1) == SetStep(Set2, Miss);
  }

  lemma TwoWayHit()
    ensures LoadStore(TwoWay, CacheState([Set2], 2, 0, 2, 0), 0) == AccessResult(CacheState([Set3], 3, 1, 2, 0), Hit)
  {
    assert Decode(TwoWay, 0) == Decoded(0, 0);
    assert AssocAccess(Set2, 0, 2) == SetStep(Set3, Hit);
  }

  lemma TwoWayEviction()
    ensures LoadStore(TwoWay, CacheState([Set3], 3, 1, 2, 0), 2) == AccessResult(CacheState([Set4], 4, 1, 3, 1), MissEviction)
  {
    assert Decode(TwoWay, 2) == Decoded(0, 2);
    assert ScanFrom(Set3, 2, 2) == 2;
    assert ScanFrom(Set3, 2, 1) == 2;
    assert Victim(Set3) == 1;
    assert AssocAccess(Set3, 2, 3) == SetStep(Set4, MissEviction);
  }

  /**
   * Tags 0, 1, 0, 2 in one two-line set give miss, miss, hit, miss eviction,
   * and the eviction removes tag 1 since tag 0 was touched later.
   */
  lemma LruInOneSet()
    ensures var r1 := LoadStore(TwoWay, Initial(TwoWay), 0);
      var r2 := LoadStore(TwoWay, r1.state, 1);
      var r3 := LoadStore(TwoWay, r2.state, 0);
      var r4 := LoadStore(TwoWay, r3.state, 2);
      && [r1.outcome, r2.outcome, r3.outcome, r4.outcome] == [Miss, Miss, Hit, MissEviction]
      && r4.state.hits == 1 && r4.state.misses == 3 && r4.state.evictions == 1
      && r4.state.sets[0] == [Line(true, 0, 2), Line(true, 2, 3)]
  {
    TwoWayFirstMiss();
    TwoWaySecondMiss();
    TwoWayHit();
    TwoWayEviction();
  }
}
