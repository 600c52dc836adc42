/**
 * One cache set as a sequence of lines, and what a single access does to it:
 * the direct-mapped step (a one-line set, no timestamps) and the
 * set-associative step (scan for a hit or a free slot, otherwise evict the
 * least recently used line).
 */
module CacheSet {
  import opened Decoding

  /** A cache line; `time` is the clock value of its last touch. */
  datatype Line = Line(valid: bool, tag: Word, time: nat)

  /** What an access is reported as: "hit", "miss" or "miss eviction". */
  datatype Outcome = Hit | Miss | MissEviction

  /** The set after one access, and how the access was classified. */
  datatype SetStep = SetStep(lines: seq<Line>, outcome: Outcome)

  /** The line `calloc` gives: invalid, tag 0, time 0. */
  const EmptyLine := Line(false, 0, 0)

  function EmptySet(n: nat): (lines: seq<Line>)
    ensures |lines| == n
    ensures forall j :: 0 <= j < n ==> !lines[j].valid
  {
    seq(n, _ => EmptyLine)
  }

  // ---------------------------------------------------------------------------
  // Properties of a set

  /** Some valid line of the set holds `tag`. */
  ghost predicate Resident(lines: seq<Line>, tag: Word)
  {
    exists j :: 0 <= j < |lines| && lines[j].valid && lines[j].tag == tag
  }

  /** Every line is valid. */
  ghost predicate Full(lines: seq<Line>)
  {
    forall j :: 0 <= j < |lines| ==> lines[j].valid
  }

  /** The valid lines come first: an invalid line is followed only by invalid lines. */
  ghost predicate ValidPrefix(lines: seq<Line>)
  {
    forall i, j :: 0 <= i < j < |lines| && lines[j].valid ==> lines[i].valid
  }

  /** No tag is held by two valid lines. */
  ghost predicate DistinctTags(lines: seq<Line>)
  {
    forall i, j :: 0 <= i < j < |lines| && lines[i].valid && lines[j].valid ==> lines[i].tag != lines[j].tag
  }

  /** Valid lines carry pairwise distinct timestamps, all earlier than `clock`. */
  ghost predicate TimesBelow(lines: seq<Line>, clock: nat)
  {
    && (forall j :: 0 <= j < |lines| && lines[j].valid ==> lines[j].time < clock)
    && (forall i, j :: 0 <= i < j < |lines| && lines[i].valid && lines[j].valid ==> lines[i].time != lines[j].time)
  }

  /** The shape every set keeps: valid lines form a prefix and hold distinct tags. */
  ghost predicate SetInv(lines: seq<Line>)
  {
    ValidPrefix(lines) && DistinctTags(lines)
  }

  // ---------------------------------------------------------------------------
  // The two searches of the set-associative step

  /**
   * The scan of `sim_set_associative` from position `i`: the first line that
   * is invalid or valid with `tag`, or |set| when there is none.
   */
  function ScanFrom(lines: seq<Line>, tag: Word, i: nat): (k: nat)
    requires i <= |lines|
    ensures i <= k <= |lines|
    ensures forall j :: i <= j < k ==> lines[j].valid && lines[j].tag != tag
    ensures k < |lines| ==> !lines[k].valid || lines[k].tag == tag
    decreases |lines| - i
  {
    if i == |lines| then i
    else if !lines[i].valid || lines[i].tag == tag then i
    else ScanFrom(lines, tag, i + 1)
  }

  function Scan(lines: seq<Line>, tag: Word): nat
  {
    ScanFrom(lines, tag, 0)
  }

  /**
   * The running minimum of `evict` over the first `n` lines: the position of
   * the least `time`, the lowest such position on ties (the comparison is a
   * strict `<`).
   */
  function LruOf(lines: seq<Line>, n: nat): (v: nat)
    requires 1 <= n <= |lines|
    ensures v < n
    ensures forall j :: 0 <= j < n ==> lines[v].time <= lines[j].time
    ensures forall j :: 0 <= j < v ==> lines[v].time < lines[j].time
  {
    if n == 1 then 0
    else
      var v := LruOf(lines, n - 1);
      if lines[n - 1].time < lines[v].time then n - 1 else v
  }

  /** The line `evict` overwrites. */
  function Victim(lines: seq<Line>): (v: nat)
    requires |lines| >= 1
    ensures v < |lines|
    ensures forall j :: 0 <= j < |lines| ==> lines[v].time <= lines[j].time
    ensures forall j :: 0 <= j < v ==> lines[v].time < lines[j].time
  {
    LruOf(lines, |lines|)
  }

  // ---------------------------------------------------------------------------
  // The two access steps

  /**
   * `sim_direct_mapped` on the set's only line: hit on a valid line with the
   * same tag, otherwise install the tag (an eviction when the line was valid).
   * The line's time and the clock are left alone.
   */
  function DirectAccess(lines: seq<Line>, tag: Word): (r: SetStep)
    requires |lines| >= 1
    ensures |r.lines| == |lines|
    ensures r.lines[0] == Line(true, tag, lines[0].time)
    ensures r.lines[1..] == lines[1..]
  {
    var line := lines[0];
    if line.valid && line.tag == tag then SetStep(lines, Hit)
    else if line.valid then SetStep(lines[0 := line.(tag := tag)], MissEviction)
    else SetStep(lines[0 := line.(valid := true, tag := tag)], Miss)
  }

  /**
   * `sim_set_associative` with `clock` the value of the global time before the
   * access: the touched line is stamped with `clock` (the clock then moves on
   * by one, whatever the outcome).
   */
  function AssocAccess(lines: seq<Line>, tag: Word, clock: nat): (r: SetStep)
    requires |lines| >= 1
    ensures |r.lines| == |lines|
    ensures exists p :: (0 <= p < |lines| && r.lines[p] == Line(true, tag, clock)
      && forall j :: 0 <= j < |lines| && j != p ==> r.lines[j] == lines[j])
  {
    var k := Scan(lines, tag);
    if k < |lines| && lines[k].valid then
      var r := SetStep(lines[k := lines[k].(time := clock)], Hit);
      assert r.lines[k] == Line(true, tag, clock);
      r
    else if k < |lines| then
      var r := SetStep(lines[k := Line(true, tag, clock)], Miss);
      assert r.lines[k] == Line(true, tag, clock);
      r
    else
      var v := Victim(lines);
      var r := SetStep(lines[v := lines[v].(tag := tag, time := clock)], MissEviction);
      assert r.lines[v] == Line(true, tag, clock);
      r
  }

  // ---------------------------------------------------------------------------
  // Direct-mapped step

  /**
   * A direct-mapped access leaves the line valid with the tag and its time
   * unchanged; it hits exactly when the line already held the tag, and evicts
   * exactly when the line held another tag.
   */
  lemma DirectAccessEffect(lines: seq<Line>, tag: Word)
    requires |lines| == 1
    ensures var r := DirectAccess(lines, tag);
      && r.lines == [Line(true, tag, lines[0].time)]
      && (r.outcome == Hit <==> lines[0].valid && lines[0].tag == tag)
      && (r.outcome == MissEviction <==> lines[0].valid && lines[0].tag != tag)
      && (r.outcome == Miss <==> !lines[0].valid)
  {
  }

  /** Once the line is valid, any other tag is a miss with eviction, never a plain miss. */
  lemma DirectConflictEvicts(lines: seq<Line>, tag: Word)
    requires |lines| == 1 && lines[0].valid && lines[0].tag != tag
    ensures DirectAccess(lines, tag).outcome == MissEviction
  {
    DirectAccessEffect(lines, tag);
  }

  // ---------------------------------------------------------------------------
  // Set-associative step: the three cases

  /** The scan never runs past a resident tag when valid lines form a prefix. */
  lemma {:induction false} ScanFindsResident(lines: seq<Line>, tag: Word)
    requires ValidPrefix(lines)
    ensures var k := Scan(lines, tag);
      (k < |lines| && lines[k].valid) <==> Resident(lines, tag)
  {
    var k := Scan(lines, tag);
    if Resident(lines, tag) {
      var j :| 0 <= j < |lines| && lines[j].valid && lines[j].tag == tag;
      assert k <= j;
      assert lines[k].valid;
    }
  }

  /**
   * An access to a resident tag is a hit that restamps that line with `clock`
   * and changes nothing else: valid bits and tags stay as they were.
   */
  lemma AssocHit(lines: seq<Line>, tag: Word, clock: nat)
    requires |lines| >= 1 && SetInv(lines) && Resident(lines, tag)
    ensures var r := AssocAccess(lines, tag, clock);
      && r.outcome == Hit
      && |r.lines| == |lines|
      && (forall j :: 0 <= j < |lines| ==>
            r.lines[j] == if lines[j].valid && lines[j].tag == tag then lines[j].(time := clock) else lines[j])
  {
    ScanFindsResident(lines, tag);
  }

  /**
   * An access to a tag not in the set, with a free slot, is a miss that fills
   * the first invalid slot with the tag and `clock`; valid lines stay a prefix.
   */
  lemma AssocFill(lines: seq<Line>, tag: Word, clock: nat)
    requires |lines| >= 1 && ValidPrefix(lines) && !Resident(lines, tag) && !Full(lines)
    ensures var r := AssocAccess(lines, tag, clock);
      && r.outcome == Miss
      && (exists k :: 0 <= k < |lines| && !lines[k].valid && (forall j :: 0 <= j < k ==> lines[j].valid)
            && r.lines == lines[k := Line(true, tag, clock)])
      && ValidPrefix(r.lines)
  {
    ScanFindsResident(lines, tag);
    var k := Scan(lines, tag);
    assert k < |lines|;
  }

  /**
   * An eviction happens exactly when every line is valid and none holds the
   * tag; the victim is a line of least time, the lowest-placed one among equal
   * times, and only its tag and time change.
   */
  lemma AssocEvict(lines: seq<Line>, tag: Word, clock: nat)
    requires |lines| >= 1
    ensures var r := AssocAccess(lines, tag, clock);
      (r.outcome == MissEviction <==> Full(lines) && !Resident(lines, tag))
    ensures var r := AssocAccess(lines, tag, clock);
      r.outcome == MissEviction ==>
        exists v :: 0 <= v < |lines|
          && (forall j :: 0 <= j < |lines| ==> lines[v].time <= lines[j].time)
          && (forall j :: 0 <= j < v ==> lines[v].time < lines[j].time)
          && r.lines == lines[v := Line(true, tag, clock)]
  {
    var k := Scan(lines, tag);
    if Full(lines) && !Resident(lines, tag) {
      assert k == |lines|;
      var v := Victim(lines);
      assert lines[v].valid;
    }
  }

  /**
   * With the set invariant, the outcome is decided by residency alone: a hit
   * iff the tag is resident, a plain miss iff it is not and a slot is free.
   */
  lemma AssocOutcome(lines: seq<Line>, tag: Word, clock: nat)
    requires |lines| >= 1 && SetInv(lines)
    ensures var r := AssocAccess(lines, tag, clock);
      && (r.outcome == Hit <==> Resident(lines, tag))
      && (r.outcome == Miss <==> !Resident(lines, tag) && !Full(lines))
      && (r.outcome == MissEviction <==> !Resident(lines, tag) && Full(lines))
  {
    ScanFindsResident(lines, tag);
    AssocEvict(lines, tag, clock);
  }

  /** With distinct timestamps among full lines, the victim is the unique least recently used line. */
  lemma VictimIsUniqueLru(lines: seq<Line>, clock: nat)
    requires |lines| >= 1 && Full(lines) && TimesBelow(lines, clock)
    ensures forall j :: 0 <= j < |lines| && j != Victim(lines) ==> lines[Victim(lines)].time < lines[j].time
  {
    var v := Victim(lines);
    forall j | 0 <= j < |lines| && j != v
      ensures lines[v].time < lines[j].time
    {
      if j < v {
      } else {
        assert lines[v].time != lines[j].time;
      }
    }
  }

  // ---------------------------------------------------------------------------
  // Invariants kept by the steps

  /** A one-line set meets the set invariant whatever it holds, so this is a sanity check only. */
  lemma DirectAccessKeepsInv(lines: seq<Line>, tag: Word)
    requires |lines| == 1
    ensures SetInv(DirectAccess(lines, tag).lines)
  {
    DirectAccessEffect(lines, tag);
  }

  /**
   * The set-associative step keeps valid lines a prefix with distinct tags, and
   * keeps their timestamps distinct and below the clock, which moves on by one.
   */
  lemma AssocAccessKeepsInv(lines: seq<Line>, tag: Word, clock: nat)
    requires |lines| >= 1 && SetInv(lines) && TimesBelow(lines, clock)
    ensures var r := AssocAccess(lines, tag, clock);
      SetInv(r.lines) && TimesBelow(r.lines, clock + 1)
  {
    AssocOutcome(lines, tag, clock);
    if Resident(lines, tag) {
      HitKeepsInv(lines, tag, clock);
    } else if !Full(lines) {
      FillKeepsInv(lines, tag, clock);
    } else {
      EvictKeepsInv(lines, tag, clock);
    }
  }

  lemma HitKeepsInv(lines: seq<Line>, tag: Word, clock: nat)
    requires |lines| >= 1 && SetInv(lines) && TimesBelow(lines, clock) && Resident(lines, tag)
    ensures var r := AssocAccess(lines, tag, clock);
      SetInv(r.lines) && TimesBelow(r.lines, clock + 1)
  {
    AssocHit(lines, tag, clock);
  }

  lemma FillKeepsInv(lines: seq<Line>, tag: Word, clock: nat)
    requires |lines| >= 1 && SetInv(lines) && TimesBelow(lines, clock)
    requires !Resident(lines, tag) && !Full(lines)
    ensures var r := AssocAccess(lines, tag, clock);
      SetInv(r.lines) && TimesBelow(r.lines, clock + 1)
  {
    AssocFill(lines, tag, clock);
  }

  lemma EvictKeepsInv(lines: seq<Line>, tag: Word, clock: nat)
    requires |lines| >= 1 && SetInv(lines) && TimesBelow(lines, clock)
    requires !Resident(lines, tag) && Full(lines)
    ensures var r := AssocAccess(lines, tag, clock);
      SetInv(r.lines) && TimesBelow(r.lines, clock + 1)
  {
    AssocEvict(lines, tag, clock);
  }

  // ---------------------------------------------------------------------------
  // Repeated accesses

  /** After any access, the tag sits at the scan's stopping point. */
  lemma AssocAccessInstalls(lines: seq<Line>, tag: Word, clock: nat)
    requires |lines| >= 1
    ensures var r := AssocAccess(lines, tag, clock);
      Scan(r.lines, tag) < |lines| && r.lines[Scan(r.lines, tag)].valid
  {
    var r := AssocAccess(lines, tag, clock);
    var k := Scan(lines, tag);
    var p := if k < |lines| then k else Victim(lines);
    assert r.lines[p].valid && r.lines[p].tag == tag;
    assert forall j :: 0 <= j < |lines| && j != p ==> r.lines[j] == lines[j];
    var k' := Scan(r.lines, tag);
    assert k' <= p;
    if k' < p {
      assert r.lines[k'] == lines[k'];
    }
  }

  /**
   * The second of two back-to-back set-associative accesses to one tag is a
   * hit, whatever the set held before.
   */
  lemma AssocAgainHits(lines: seq<Line>, tag: Word, clock: nat)
    requires |lines| >= 1
    ensures var r := AssocAccess(lines, tag, clock);
      AssocAccess(r.lines, tag, clock + 1).outcome == Hit
  {
    AssocAccessInstalls(lines, tag, clock);
  }

  /** The same for the direct-mapped step. */
  lemma DirectAgainHits(lines: seq<Line>, tag: Word)
    requires |lines| == 1
    ensures DirectAccess(DirectAccess(lines, tag).lines, tag).outcome == Hit
  {
    DirectAccessEffect(lines, tag);
  }

  /**
   * After an eviction in a full set that keeps the invariants, the evicted tag
   * is no longer resident, so accessing it again is not a hit.
   */
  lemma EvictedTagMisses(lines: seq<Line>, tag: Word, clock: nat)
    requires |lines| >= 1 && SetInv(lines) && TimesBelow(lines, clock)
    requires AssocAccess(lines, tag, clock).outcome == MissEviction
    ensures var old_tag := lines[Victim(lines)].tag;
      var r := AssocAccess(lines, tag, clock);
      && !Resident(r.lines, old_tag)
      && AssocAccess(r.lines, old_tag, clock + 1).outcome == MissEviction
  {
    var v := Victim(lines);
    var u := lines[v].tag;
    var r := AssocAccess(lines, tag, clock);
    AssocEvict(lines, tag, clock);
    AssocAccessKeepsInv(lines, tag, clock);
    assert u != tag;
    assert Full(r.lines);
    AssocOutcome(r.lines, u, clock + 1);
  }

  // ---------------------------------------------------------------------------
  // Filling a set, then evicting from it

  /** The set after set-associative accesses to `tags` in order, starting at `clock`. */
  function AssocRun(lines: seq<Line>, tags: seq<Word>, clock: nat): (r: seq<Line>)
    requires |lines| >= 1
    ensures |r| == |lines|
    decreases |tags|
  {
    if tags == [] then lines
    else
      var before := AssocRun(lines, tags[..|tags| - 1], clock);
      AssocAccess(before, tags[|tags| - 1], clock + |tags| - 1).lines
  }

  /** The outcome of each access of `AssocRun`, in order. */
  function AssocRunOutcomes(lines: seq<Line>, tags: seq<Word>, clock: nat): (outcomes: seq<Outcome>)
    requires |lines| >= 1
    ensures |outcomes| == |tags|
    decreases |tags|
  {
    if tags == [] then []
    else
      var before := AssocRun(lines, tags[..|tags| - 1], clock);
      AssocRunOutcomes(lines, tags[..|tags| - 1], clock)
        + [AssocAccess(before, tags[|tags| - 1], clock + |tags| - 1).outcome]
  }

  ghost predicate Distinct(tags: seq<Word>)
  {
    forall i, j :: 0 <= i < j < |tags| ==> tags[i] != tags[j]
  }

  /** Line j holds the j-th of `tags`, stamped clock + j; the lines after them are invalid. */
  ghost predicate FilledWith(lines: seq<Line>, tags: seq<Word>, clock: nat)
  {
    && |tags| <= |lines|
    && (forall j :: 0 <= j < |tags| ==> lines[j] == Line(true, tags[j], clock + j))
    && (forall j :: |tags| <= j < |lines| ==> !lines[j].valid)
  }

  /**
   * Accessing up to E distinct tags in an empty set of E lines misses every
   * time without evicting, and leaves the i-th tag in line i stamped clock + i.
   * Only sets of at least two lines take the set-associative path.
   */
  lemma {:induction false} FillEmptySet(n: nat, tags: seq<Word>, clock: nat)
    requires 2 <= n && |tags| <= n && Distinct(tags)
    ensures FilledWith(AssocRun(EmptySet(n), tags, clock), tags, clock)
    ensures forall j :: 0 <= j < |tags| ==> AssocRunOutcomes(EmptySet(n), tags, clock)[j] == Miss
  {
    if tags != [] {
      var init := tags[..|tags| - 1];
      DistinctInit(tags);
      FillEmptySet(n, init, clock);
      FillStep(n, tags, clock);
    }
  }

  /** AssocRun and AssocRunOutcomes of a non-empty run end with the access to its last tag. */
  lemma AssocRunLast(lines: seq<Line>, tags: seq<Word>, clock: nat)
    requires |lines| >= 1 && |tags| > 0
    ensures var before := AssocRun(lines, tags[..|tags| - 1], clock);
      var r := AssocAccess(before, tags[|tags| - 1], clock + (|tags| - 1));
      && AssocRun(lines, tags, clock) == r.lines
      && AssocRunOutcomes(lines, tags, clock) == AssocRunOutcomes(lines, tags[..|tags| - 1], clock) + [r.outcome]
  {
  }

  /** The inductive step of FillEmptySet: one more distinct tag fills the next line and misses. */
  lemma FillStep(n: nat, tags: seq<Word>, clock: nat)
    requires 2 <= n && 0 < |tags| <= n
    requires tags[|tags| - 1] !in tags[..|tags| - 1]
    requires FilledWith(AssocRun(EmptySet(n), tags[..|tags| - 1], clock), tags[..|tags| - 1], clock)
    ensures FilledWith(AssocRun(EmptySet(n), tags, clock), tags, clock)
    ensures AssocRunOutcomes(EmptySet(n), tags, clock)
      == AssocRunOutcomes(EmptySet(n), tags[..|tags| - 1], clock) + [Miss]
  {
    AssocRunLast(EmptySet(n), tags, clock);
    FillNext(AssocRun(EmptySet(n), tags[..|tags| - 1], clock), tags, clock);
  }

  /** Dropping the last of distinct tags leaves distinct tags, none equal to the dropped one. */
  lemma DistinctInit(tags: seq<Word>)
    requires |tags| > 0 && Distinct(tags)
    ensures Distinct(tags[..|tags| - 1]) && tags[|tags| - 1] !in tags[..|tags| - 1]
  {
    var init := tags[..|tags| - 1];
    forall i | 0 <= i < |init|
      ensures init[i] == tags[i]
    {
    }
  }

  /** One step of FillEmptySet: a new tag goes to the first free line, stamped with the clock. */
  lemma FillNext(before: seq<Line>, tags: seq<Word>, clock: nat)
    requires 0 < |tags| <= |before|
    requires tags[|tags| - 1] !in tags[..|tags| - 1]
    requires FilledWith(before, tags[..|tags| - 1], clock)
    ensures var k := |tags| - 1;
      var r := AssocAccess(before, tags[k], clock + k);
      && r.outcome == Miss
      && r.lines == before[k := Line(true, tags[k], clock + k)]
      && FilledWith(r.lines, tags, clock)
  {
    var k := |tags| - 1;
    var init := tags[..k];
    var tag := tags[k];
    assert ValidPrefix(before);
    assert !Resident(before, tag);
    assert !before[k].valid;
    AssocFill(before, tag, clock + k);
    var after := before[k := Line(true, tag, clock + k)];
    forall j | 0 <= j < k
      ensures after[j] == Line(true, tags[j], clock + j)
    {
      assert init[j] == tags[j];
    }
  }

  /**
   * Once E distinct tags have filled an empty set, a further tag not among
   * them evicts the least recently touched one, the first tag, and accessing
   * that tag next is a miss again. E is |tags|, at least 2: a one-line set
   * never takes the set-associative path (DirectConflictEvicts covers it).
   */
  lemma EvictAfterFill(tags: seq<Word>, tag: Word, clock: nat)
    requires |tags| >= 2 && Distinct(tags) && tag !in tags
    ensures var full := AssocRun(EmptySet(|tags|), tags, clock);
      var r := AssocAccess(full, tag, clock + |tags|);
      && r.outcome == MissEviction
      && r.lines == full[0 := Line(true, tag, clock + |tags|)]
      && AssocAccess(r.lines, tags[0], clock + |tags| + 1).outcome == MissEviction
  {
    FillEmptySet(|tags|, tags, clock);
    EvictFromFilled(AssocRun(EmptySet(|tags|), tags, clock), tags, tag, clock);
  }

  /** EvictAfterFill on the filled set as laid out by FillEmptySet. */
  lemma EvictFromFilled(full: seq<Line>, tags: seq<Word>, tag: Word, clock: nat)
    requires |full| == |tags| >= 1 && Distinct(tags) && tag !in tags
    requires FilledWith(full, tags, clock)
    ensures var r := AssocAccess(full, tag, clock + |tags|);
      && r.outcome == MissEviction
      && r.lines == full[0 := Line(true, tag, clock + |tags|)]
      && AssocAccess(r.lines, tags[0], clock + |tags| + 1).outcome == MissEviction
  {
    var n := |tags|;
    FilledSetFacts(full, tags, clock);
    assert Scan(full, tag) == n by {
      ScanFindsResident(full, tag);
    }
    assert full[0].tag == tags[0];
    EvictedTagMisses(full, tag, clock + n);
  }

  /** A set filled in order with distinct tags keeps the invariants, and its first line is the victim. */
  lemma FilledSetFacts(full: seq<Line>, tags: seq<Word>, clock: nat)
    requires |full| == |tags| >= 1 && Distinct(tags)
    requires forall j :: 0 <= j < |tags| ==> full[j] == Line(true, tags[j], clock + j)
    ensures Full(full) && SetInv(full) && TimesBelow(full, clock + |tags|)
    ensures Victim(full) == 0
    ensures forall t :: Resident(full, t) <==> t in tags
  {
    var v := Victim(full);
    assert full[v].time == clock + v && full[0].time == clock;
    forall t
      ensures Resident(full, t) <==> t in tags
    {
      if t in tags {
        var j :| 0 <= j < |tags| && tags[j] == t;
        assert full[j].valid && full[j].tag == t;
      }
    }
  }
}
