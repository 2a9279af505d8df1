/** The remainder of a split at the down end. The source subtracts the
    existing section's length from the request's, the opposite order from the
    split at the up end. As written, a back split is refused for a request
    shorter than the section it splits, and makes the line longer when it is
    accepted. The corrected remainder, existing minus request, keeps the
    line's length, as the split at the up end does. */
module Findings {
  import opened Sections
  import opened Paths
  import opened Chain
  import opened Edits
  import opened SectionService
  import opened Scenarios

  /** As written: a request of new up station `r.up` before the line's station
      `r.down` is accepted exactly when it is longer than the section ending
      at `r.down`, and then the line grows by twice the difference. */
  lemma BackSplitAsWrittenLengthens(m: Store, r: Section, newId: SectionId)
    requires IsChain(m) && newId !in m && HasDown(m, r.down) && !HasStation(m, r.up)
    ensures var k := DownMatch(m, r.down);
      var e := AddSectionResult(m, r, newId);
      && (e.outcome == Done <==> r.distance > m[k].distance)
      && (e.outcome == Done ==>
            TotalDistance(e.sections) == TotalDistance(m) + 2 * (r.distance - m[k].distance)
            && TotalDistance(e.sections) > TotalDistance(m))
  {
    var k := DownMatch(m, r.down);
    if r.distance > m[k].distance {
      AddSectionBack(m, r, newId);
    }
  }

  /** On the line 1→2 of length 10, placing station 3 four units before 2 is
      refused, and placing it twelve units before 2 is accepted and leaves a
      line 1→3→2 of length 14. */
  lemma BackSplitCounterexample()
    ensures var m := map[0 := Section(1, 2, 10)];
      && AddSectionResult(m, Section(3, 2, 4), 1) == Effect(Rejected(InvalidDistance), m)
      && AddSectionResult(m, Section(3, 2, 12), 1)
           == Effect(Done, map[0 := Section(1, 3, 2), 1 := Section(3, 2, 12)])
      && TotalDistance(map[0 := Section(1, 3, 2), 1 := Section(3, 2, 12)]) == 14
  {
    OneSectionRoles(1, 2, 10);
    TwoSectionLine(1, 3, 2, 2, 12);
  }

  /** As written, deleting the new station again does not undo a back split:
      the section comes back longer than it was, by twice the remainder. */
  lemma BackSplitRoundTripAsWritten(m: Store, r: Section, newId: SectionId)
    requires newId !in m && HasDown(m, r.down) && !HasStation(m, r.up)
    requires AddSectionResult(m, r, newId).outcome == Done
    ensures var k := DownMatch(m, r.down);
      && DeleteStationResult(AddSectionResult(m, r, newId).sections, r.up)
           == Effect(Done, m[k := Section(m[k].up, m[k].down, 2 * r.distance - m[k].distance)])
      && 2 * r.distance - m[k].distance > m[k].distance
  {
    var k := DownMatch(m, r.down);
    AddSectionBack(m, r, newId);
    UndoBackSplit(m, k, r, newId, BackRemainder(m[k], r));
  }

  /** On 1→2 of length 10, adding (3,2,12) and deleting 3 again leaves 1→2 of
      length 14. */
  lemma BackSplitRoundTripCounterexample()
    ensures var m := map[0 := Section(1, 2, 10)];
      var e := AddSectionResult(m, Section(3, 2, 12), 1);
      && e.outcome == Done
      && DeleteStationResult(e.sections, 3) == Effect(Done, map[0 := Section(1, 2, 14)])
  {
    BackSplitCounterexample();
    DeleteInteriorOf(1, 3, 2, 2, 12);
  }

  /** The deletion that undoes a split of section `k` at its down end, whatever
      remainder `rest` the split left: the two sections merge back under `k`. */
  lemma UndoBackSplit(m: Store, k: SectionId, r: Section, newId: SectionId, rest: int)
    requires k in m && newId !in m && m[k].down == r.down && !HasStation(m, r.up)
    ensures DeleteStationResult(m[k := Section(m[k].up, r.up, rest)][newId := r], r.up)
      == Effect(Done, m[k := Section(m[k].up, m[k].down, r.distance + rest)])
  {
    var e := m[k := Section(m[k].up, r.up, rest)][newId := r];
    assert m[k].up != r.up && r.down != r.up;
    DeleteBetween(e, r.up, k, newId);
    assert e[k := Section(e[k].up, e[newId].down, e[newId].distance + e[k].distance)] - {newId}
      == m[k := Section(m[k].up, m[k].down, r.distance + rest)];
  }

  /** What is left of a section split at its down end: the part before the
      request's up station. */
  function IntendedBackRemainder(existing: Section, request: Section): int {
    existing.distance - request.distance
  }

  /** The split at the down end with the corrected remainder. */
  ghost function IntendedBackSplit(m: Store, r: Section, newId: SectionId): Effect
    requires HasDown(m, r.down)
  {
    var k := DownMatch(m, r.down);
    var rest := IntendedBackRemainder(m[k], r);
    if rest <= 0 then Effect(Rejected(InvalidDistance), m)
    else Effect(Done, m[k := Section(m[k].up, r.up, rest)][newId := r])
  }

  /** Corrected: the split is accepted exactly for a request shorter than the
      section it splits; it then keeps the line one chain with the new
      station just before `r.down`, and keeps the line's length. */
  lemma IntendedBackSplitLine(m: Store, r: Section, newId: SectionId)
    requires IsChain(m) && newId !in m && HasDown(m, r.down) && !HasStation(m, r.up)
    ensures var k := DownMatch(m, r.down);
      var e := IntendedBackSplit(m, r, newId);
      var S := SortedStationIds(m);
      && (e.outcome == Done <==> r.distance < m[k].distance)
      && (e.outcome != Done ==> e.sections == m)
      && (e.outcome == Done ==>
            && IsChain(e.sections)
            && r.down in S
            && SortedStationIds(e.sections) == InsertAt(S, IndexOf(S, r.down), r.up)
            && |e.sections| == |m| + 1
            && TotalDistance(e.sections) == TotalDistance(m))
  {
    var k := DownMatch(m, r.down);
    if r.distance < m[k].distance {
      BackSplitLine(m, r, IntendedBackRemainder(m[k], r), newId);
    }
  }

  /** Corrected: deleting the new station again undoes the split exactly. */
  lemma IntendedBackSplitRoundTrip(m: Store, r: Section, newId: SectionId)
    requires newId !in m && HasDown(m, r.down) && !HasStation(m, r.up)
    requires IntendedBackSplit(m, r, newId).outcome == Done
    ensures DeleteStationResult(IntendedBackSplit(m, r, newId).sections, r.up) == Effect(Done, m)
  {
    var k := DownMatch(m, r.down);
    UndoBackSplit(m, k, r, newId, IntendedBackRemainder(m[k], r));
    assert m[k := Section(m[k].up, m[k].down, m[k].distance)] == m;
  }

  /** On the line 1→2 of length 10, the corrected split places station 3 four
      units before 2, leaving 1→3 of length 6. */
  lemma IntendedBackSplitExample()
    ensures var m := map[0 := Section(1, 2, 10)];
      && HasDown(m, 2)
      && IntendedBackSplit(m, Section(3, 2, 4), 1)
           == Effect(Done, map[0 := Section(1, 3, 6), 1 := Section(3, 2, 4)])
  {
    OneSectionRoles(1, 2, 10);
  }
}
