/** The section service: adds a section to a line, splitting an existing
    section when the new one shares an end with it, and deletes a station from
    a line, merging the two sections around it when it is not a terminal. */
module SectionService {
  import opened Sections
  import opened Paths
  import opened Chain
  import opened Edits
  import opened SectionDao

  /** Rejections reported to the caller. */
  datatype UserError =
    | NoStationOnLine         // neither end of the request is on the line
    | BothStationsRegistered  // the request matches a section's up end and a section's down end
    | InvalidDistance         // a split would leave a section of length zero or less
    | NoSuchSection           // the station to delete is not on the line
    | LastSection             // the line has only one section left

  /** Failures that mean the stored line itself is inconsistent. */
  datatype Fault = MissingNeighbourSection

  datatype Outcome = Done | Rejected(error: UserError) | Failed(fault: Fault)

  /** What is left of a section split at its up end (SectionService.java:47). */
  function FrontRemainder(existing: Section, request: Section): (rest: int)
    ensures rest > 0 <==> request.distance < existing.distance
  {
    existing.distance - request.distance
  }

  /** What is left of a section split at its down end, with the operands in
      the order the source writes them (SectionService.java:59). */
  function BackRemainder(existing: Section, request: Section): (rest: int)
    ensures rest > 0 <==> request.distance > existing.distance
  {
    request.distance - existing.distance
  }

  /** A split must leave a section of positive length. */
  function ValidateDistance(distance: int): (err: Option<UserError>)
    ensures err.Some? <==> distance <= 0
    ensures err.Some? ==> err.value == InvalidDistance
  {
    if distance <= 0 then Some(InvalidDistance) else None
  }

  /** The checks made before a station is deleted: it must be on the line, and
      the line must keep at least one section. */
  function ValidateDeleteStation(st: StationId, m: Store): (err: Option<UserError>)
    ensures err == Some(NoSuchSection) <==> !HasStation(m, st)
    ensures err == Some(LastSection) <==> HasStation(m, st) && |m| <= 1
    ensures err.None? <==> HasStation(m, st) && |m| >= 2
  {
    if !HasStation(m, st) then Some(NoSuchSection)
    else if IsEmpty(m) || IsMinimumSize(m) then Some(LastSection)
    else None
  }

  /** The validation of a deletion agrees with the sorted station list the
      source consults, and rejects exactly the two cases it names. */
  lemma ValidateDeleteStationSpec(st: StationId, m: Store)
    requires IsChain(m)
    ensures var S := SortedStationIds(m);
      && (ValidateDeleteStation(st, m) == Some(NoSuchSection) <==> st !in S)
      && (ValidateDeleteStation(st, m) == Some(LastSection) <==> st in S && |m| == 1)
      && (ValidateDeleteStation(st, m) == None <==> st in S && |m| >= 2)
  {
    SortedContains(m, st);
    var o :| ChainOrder(m, o);
    ChainSize(m, o);
  }

  /** An outcome together with the sections stored afterwards. */
  datatype Effect = Effect(outcome: Outcome, sections: Store)

  /** What splitting the section the request shares an end with does to the
      store: a request matching both a section's up end and a section's down
      end is refused, a request sharing an up station shortens that section
      from the front, one sharing a down station shortens that section from
      the back, and any other request leaves the store alone. */
  ghost function ForkLine(m: Store, r: Section): (e: Effect)
    ensures e.outcome in {Done, Rejected(BothStationsRegistered), Rejected(InvalidDistance)}
    ensures e.outcome.Rejected? ==> e.sections == m
    ensures e.sections.Keys == m.Keys
    ensures forall k :: k in m && m[k].up != r.up && m[k].down != r.down ==> e.sections[k] == m[k]
  {
    if HasUp(m, r.up) && HasDown(m, r.down) then
      Effect(Rejected(BothStationsRegistered), m)
    else if HasUp(m, r.up) then
      var k := UpMatch(m, r.up);
      var rest := FrontRemainder(m[k], r);
      if rest <= 0 then Effect(Rejected(InvalidDistance), m)
      else Effect(Done, m[k := Section(r.down, m[k].down, rest)])
    else if HasDown(m, r.down) then
      var k := DownMatch(m, r.down);
      var rest := BackRemainder(m[k], r);
      if rest <= 0 then Effect(Rejected(InvalidDistance), m)
      else Effect(Done, m[k := Section(m[k].up, r.up, rest)])
    else
      Effect(Done, m)
  }

  /** Adding section `r` to the line stored as `m`, when the next generated id
      is `newId`. A refused request leaves the line as it was. */
  ghost function AddSectionResult(m: Store, r: Section, newId: SectionId): (e: Effect)
    ensures e.outcome.Done? || e.outcome.Rejected?
    ensures e.outcome.Rejected? ==> e.sections == m
    ensures e.outcome == Rejected(NoStationOnLine) <==> !HasStation(m, r.up) && !HasStation(m, r.down)
    ensures e.outcome == Rejected(BothStationsRegistered) <==> HasUp(m, r.up) && HasDown(m, r.down)
    ensures e.outcome == Rejected(InvalidDistance) <==>
      if HasUp(m, r.up) then
        !HasDown(m, r.down) && FrontRemainder(m[UpMatch(m, r.up)], r) <= 0
      else
        HasDown(m, r.down) && BackRemainder(m[DownMatch(m, r.down)], r) <= 0
  {
    if !HasStation(m, r.up) && !HasStation(m, r.down) then
      Effect(Rejected(NoStationOnLine), m)
    else
      var fork := ForkLine(m, r);
      if fork.outcome.Rejected? then fork
      else Effect(Done, fork.sections[newId := r])
  }

  /** A split at the up end keeps the line's length: the shortened section and
      the new one together cover the old section. */
  lemma AddSectionFront(m: Store, r: Section, newId: SectionId)
    requires newId !in m && HasUp(m, r.up) && AddSectionResult(m, r, newId).outcome == Done
    ensures var e := AddSectionResult(m, r, newId);
      var k := UpMatch(m, r.up);
      && e.sections == m[k := Section(r.down, m[k].down, FrontRemainder(m[k], r))][newId := r]
      && |e.sections| == |m| + 1
      && TotalDistance(e.sections) == TotalDistance(m)
  {
    var k := UpMatch(m, r.up);
    var m1 := m[k := Section(r.down, m[k].down, FrontRemainder(m[k], r))];
    TotalDistanceUpdate(m, k, m1[k]);
    TotalDistanceInsert(m1, newId, r);
  }

  /** A split at the down end, with the remainder as the source computes it,
      stretches the line by twice that remainder. */
  lemma AddSectionBack(m: Store, r: Section, newId: SectionId)
    requires newId !in m && !HasUp(m, r.up) && HasDown(m, r.down)
    requires AddSectionResult(m, r, newId).outcome == Done
    ensures var e := AddSectionResult(m, r, newId);
      var k := DownMatch(m, r.down);
      && e.sections == m[k := Section(m[k].up, r.up, BackRemainder(m[k], r))][newId := r]
      && |e.sections| == |m| + 1
      && TotalDistance(e.sections) == TotalDistance(m) + 2 * BackRemainder(m[k], r)
  {
    var k := DownMatch(m, r.down);
    var m1 := m[k := Section(m[k].up, r.up, BackRemainder(m[k], r))];
    TotalDistanceUpdate(m, k, m1[k]);
    TotalDistanceInsert(m1, newId, r);
  }

  /** Deleting a station that exactly two sections touch, one ending there and
      another starting there, merges them into one under the first's id. */
  lemma DeleteBetween(m: Store, st: StationId, inc: SectionId, out: SectionId)
    requires inc in m && out in m && inc != out
    requires m[inc].down == st && m[inc].up != st && m[out].up == st && m[out].down != st
    requires forall j :: j in m && j != inc && j != out ==> m[j].up != st && m[j].down != st
    ensures DeleteStationResult(m, st)
      == Effect(Done, m[inc := Section(m[inc].up, m[out].down, m[out].distance + m[inc].distance)] - {out})
  {
    assert Incident(m, st) == {inc, out};
    CardRemove(m, out);
    assert inc in m - {out};
  }

  /** Splitting at the up end and then deleting the new station restores the
      section that was split, now stored under the request's id. */
  lemma FrontSplitRoundTrip(m: Store, r: Section, newId: SectionId)
    requires newId !in m && HasUp(m, r.up) && !HasStation(m, r.down)
    requires AddSectionResult(m, r, newId).outcome == Done
    ensures var k := UpMatch(m, r.up);
      DeleteStationResult(AddSectionResult(m, r, newId).sections, r.down)
        == Effect(Done, (m - {k})[newId := m[k]])
  {
    AddSectionFront(m, r, newId);
    UndoFrontSplit(m, UpMatch(m, r.up), r, newId);
  }

  /** The deletion that undoes a split of section `k` at its up end. */
  lemma UndoFrontSplit(m: Store, k: SectionId, r: Section, newId: SectionId)
    requires k in m && newId !in m && m[k].up == r.up && !HasStation(m, r.down)
    ensures DeleteStationResult(m[k := Section(r.down, m[k].down, FrontRemainder(m[k], r))][newId := r], r.down)
      == Effect(Done, (m - {k})[newId := m[k]])
  {
    var e := m[k := Section(r.down, m[k].down, FrontRemainder(m[k], r))][newId := r];
    assert m[k].down != r.down && r.up != r.down;
    DeleteBetween(e, r.down, newId, k);
    assert e[newId := Section(e[newId].up, e[k].down, e[k].distance + e[newId].distance)] - {k}
      == (m - {k})[newId := m[k]];
  }

  /** A request sharing no role with a stored section is only saved. */
  lemma AddSectionAppend(m: Store, r: Section, newId: SectionId)
    requires newId !in m && !HasUp(m, r.up) && !HasDown(m, r.down)
    requires AddSectionResult(m, r, newId).outcome == Done
    ensures var e := AddSectionResult(m, r, newId);
      && e.sections == m[newId := r]
      && |e.sections| == |m| + 1
      && TotalDistance(e.sections) == TotalDistance(m) + r.distance
  {
    TotalDistanceInsert(m, newId, r);
  }

  /** A request with exactly one end on the line keeps the line one simple
      chain, and the new station appears where the split or extension puts it. */
  lemma AddSectionKeepsChain(m: Store, r: Section, newId: SectionId)
    requires IsChain(m) && newId !in m
    requires HasStation(m, r.up) != HasStation(m, r.down)
    requires AddSectionResult(m, r, newId).outcome == Done
    ensures var e := AddSectionResult(m, r, newId);
      var S := SortedStationIds(m);
      var S' := SortedStationIds(e.sections);
      && IsChain(e.sections)
      && (if HasUp(m, r.up) then
            r.up in S && S' == InsertAt(S, IndexOf(S, r.up) + 1, r.down)
          else if HasDown(m, r.down) then
            r.down in S && S' == InsertAt(S, IndexOf(S, r.down), r.up)
          else if HasStation(m, r.up) then
            S' == S + [r.down]
          else
            S' == [r.up] + S)
  {
    if HasUp(m, r.up) {
      var k := UpMatch(m, r.up);
      AddSectionFront(m, r, newId);
      FrontSplitLine(m, r, FrontRemainder(m[k], r), newId);
    } else if HasDown(m, r.down) {
      var k := DownMatch(m, r.down);
      AddSectionBack(m, r, newId);
      BackSplitLine(m, r, BackRemainder(m[k], r), newId);
    } else {
      AddSectionAppend(m, r, newId);
      ExtendLine(m, r, newId);
    }
  }

  /** Every accepted request of positive length keeps every section positive. */
  lemma AddSectionKeepsPositive(m: Store, r: Section, newId: SectionId)
    requires PositiveDistances(m) && r.distance > 0
    ensures PositiveDistances(AddSectionResult(m, r, newId).sections)
  {
  }

  /** Merging the two sections around `st`, as the fork deletion does: the
      section ending at `st` is stretched over the one starting there, which
      is removed. A missing neighbour is a fault of the stored line. */
  ghost function MergeResult(m: Store, st: StationId): (e: Effect)
    ensures e.outcome in {Done, Failed(MissingNeighbourSection)}
    ensures e.outcome.Failed? <==> !HasUp(m, st) || !HasDown(m, st)
    ensures e.outcome.Failed? ==> e.sections == m
    ensures e.outcome == Done ==> HasUp(m, st) && e.sections.Keys == m.Keys - {UpMatch(m, st)}
  {
    if !HasUp(m, st) || !HasDown(m, st) then
      Effect(Failed(MissingNeighbourSection), m)
    else
      var incoming, outgoing := DownMatch(m, st), UpMatch(m, st);
      Effect(Done, m[incoming := Section(m[incoming].up, m[outgoing].down,
                                         m[outgoing].distance + m[incoming].distance)] - {outgoing})
  }

  /** Deleting station `st` from the line stored as `m`. */
  ghost function DeleteStationResult(m: Store, st: StationId): (e: Effect)
    ensures e.outcome.Rejected? ==> e.sections == m
    ensures e.outcome == Rejected(NoSuchSection) <==> !HasStation(m, st)
    ensures e.outcome == Rejected(LastSection) <==> HasStation(m, st) && |m| <= 1
    ensures e.sections.Keys <= m.Keys
  {
    match ValidateDeleteStation(st, m)
    case Some(err) => Effect(Rejected(err), m)
    case None =>
      if IsTerminal(m, st) then Effect(Done, WithoutStation(m, st))
      else MergeResult(m, st)
  }

  /** A deletion is refused exactly for a station not on the sorted list and
      for the line's last section; otherwise it succeeds, never reaching the
      fault for a missing neighbour. */
  lemma DeleteStationErrors(m: Store, st: StationId)
    requires IsChain(m)
    ensures var e := DeleteStationResult(m, st);
      var S := SortedStationIds(m);
      && (e.outcome == Rejected(NoSuchSection) <==> st !in S)
      && (e.outcome == Rejected(LastSection) <==> st in S && |m| <= 1)
      && (e.outcome == Done <==> st in S && |m| >= 2)
      && (e.outcome.Rejected? ==> e.sections == m)
  {
    ValidateDeleteStationSpec(st, m);
    if ValidateDeleteStation(st, m).None? && !IsTerminal(m, st) {
      InteriorRoles(m, st);
    }
  }

  /** A successful deletion keeps the line one simple chain with `st` taken
      out of its station list. */
  lemma DeleteStationKeepsChain(m: Store, st: StationId)
    requires IsChain(m) && DeleteStationResult(m, st).outcome == Done
    ensures var e := DeleteStationResult(m, st);
      var S := SortedStationIds(m);
      && IsChain(e.sections)
      && st in S
      && SortedStationIds(e.sections) == RemoveAt(S, IndexOf(S, st))
      && |e.sections| == |m| - 1
  {
    ValidateDeleteStationSpec(st, m);
    if IsTerminal(m, st) {
      DropTerminalLine(m, st);
    } else {
      MergeLine(m, st);
      var incoming, outgoing := DownMatch(m, st), UpMatch(m, st);
      MergeCounts(m, incoming, outgoing, Section(m[incoming].up, m[outgoing].down,
                                                 m[outgoing].distance + m[incoming].distance));
    }
  }

  /** Deleting a terminal removes its one section, and the line is shorter by
      that section's length. */
  lemma DeleteStationTerminal(m: Store, st: StationId)
    requires IsChain(m) && IsTerminal(m, st) && DeleteStationResult(m, st).outcome == Done
    ensures var e := DeleteStationResult(m, st);
      && HasStation(m, st)
      && var gone := if HasUp(m, st) then UpMatch(m, st) else DownMatch(m, st);
      && e.sections == m - {gone}
      && TotalDistance(e.sections) == TotalDistance(m) - m[gone].distance
  {
    ValidateDeleteStationSpec(st, m);
    DropTerminalLine(m, st);
  }

  /** Deleting an interior station keeps the line's length. */
  lemma DeleteStationInterior(m: Store, st: StationId)
    requires IsChain(m) && !IsTerminal(m, st) && DeleteStationResult(m, st).outcome == Done
    ensures var e := DeleteStationResult(m, st);
      && HasUp(m, st) && HasDown(m, st)
      && var incoming, outgoing := DownMatch(m, st), UpMatch(m, st);
      && incoming != outgoing
      && e.sections == m[incoming := Section(m[incoming].up, m[outgoing].down,
                                             m[outgoing].distance + m[incoming].distance)] - {outgoing}
      && TotalDistance(e.sections) == TotalDistance(m)
  {
    InteriorRoles(m, st);
    var incoming, outgoing := DownMatch(m, st), UpMatch(m, st);
    MergeCounts(m, incoming, outgoing, Section(m[incoming].up, m[outgoing].down,
                                               m[outgoing].distance + m[incoming].distance));
  }

  /** A deletion keeps every section positive. */
  lemma DeleteStationKeepsPositive(m: Store, st: StationId)
    requires PositiveDistances(m)
    ensures PositiveDistances(DeleteStationResult(m, st).sections)
  {
  }

  class SectionService {
    const sectionDao: SectionStore

    constructor (sectionDao: SectionStore)
      ensures this.sectionDao == sectionDao
    {
      this.sectionDao := sectionDao;
    }

    /** The stored sections form one simple chain. */
    ghost predicate Valid()
      reads this, sectionDao
    {
      sectionDao.Valid() && IsChain(sectionDao.sections)
    }

    /** Rejects a request neither of whose ends is on the line. */
    method CheckHasStation(up: StationId, down: StationId) returns (err: Option<UserError>)
      ensures err.Some? <==> !HasStation(sectionDao.sections, up) && !HasStation(sectionDao.sections, down)
      ensures err.Some? ==> err.value == NoStationOnLine
    {
      var sections := sectionDao.FindAll();
      if !HasStation(sections, up) && !HasStation(sections, down) {
        err := Some(NoStationOnLine);
      } else {
        err := None;
      }
    }

    /** Splits the section the request shares an end with, if there is one. */
    method UpdateIfForkLine(request: Section) returns (out: Outcome)
      requires sectionDao.Valid() && UniqueRoles(sectionDao.sections)
      modifies sectionDao
      ensures sectionDao.Valid() && sectionDao.nextId == old(sectionDao.nextId)
      ensures Effect(out, sectionDao.sections) == ForkLine(old(sectionDao.sections), request)
    {
      var byUp := sectionDao.FindByUpStation(request.up);
      var byDown := sectionDao.FindByDownStation(request.down);
      if byUp.Some? && byDown.Some? {
        return Rejected(BothStationsRegistered);
      }
      if byUp.Some? {
        UpMatchUnique(sectionDao.sections, request.up, byUp.value);
        var section := sectionDao.sections[byUp.value];
        var distance := FrontRemainder(section, request);
        var err := ValidateDistance(distance);
        if err.Some? {
          return Rejected(err.value);
        }
        sectionDao.Update(byUp.value, Section(request.down, section.down, distance));
        return Done;
      }
      if byDown.Some? {
        DownMatchUnique(sectionDao.sections, request.down, byDown.value);
        var section := sectionDao.sections[byDown.value];
        var distance := BackRemainder(section, request);
        var err := ValidateDistance(distance);
        if err.Some? {
          return Rejected(err.value);
        }
        sectionDao.Update(byDown.value, Section(section.up, request.up, distance));
      }
      return Done;
    }

    /** Adds `request` to the line. The new section is saved under the next
        generated id; a section it shares an end with is shortened first. A
        request with exactly one end on the line keeps the line one chain. */
    method AddSection(request: Section) returns (out: Outcome)
      requires sectionDao.Valid() && UniqueRoles(sectionDao.sections)
      modifies sectionDao
      ensures sectionDao.Valid()
      ensures Effect(out, sectionDao.sections) ==
        AddSectionResult(old(sectionDao.sections), request, old(sectionDao.nextId))
      ensures && IsChain(old(sectionDao.sections))
              && HasStation(old(sectionDao.sections), request.up) != HasStation(old(sectionDao.sections), request.down)
        ==> Valid()
    {
      ghost var m := sectionDao.sections;
      ghost var newId := sectionDao.nextId;
      var err := CheckHasStation(request.up, request.down);
      if err.Some? {
        return Rejected(err.value);
      }
      out := UpdateIfForkLine(request);
      if out.Rejected? {
        return;
      }
      var id := sectionDao.Save(request);
      if IsChain(m) && HasStation(m, request.up) != HasStation(m, request.down) {
        AddSectionKeepsChain(m, request, newId);
      }
    }

    /** Deletes station `st` from the line: a terminal loses its one section; an
        interior station's two sections are merged into one. */
    method DeleteStation(st: StationId) returns (out: Outcome)
      requires Valid()
      modifies sectionDao
      ensures Valid()
      ensures Effect(out, sectionDao.sections) == DeleteStationResult(old(sectionDao.sections), st)
    {
      var sections := sectionDao.FindAll();
      DeleteStationErrors(sections, st);
      var err := ValidateDeleteStation(st, sections);
      if err.Some? {
        return Rejected(err.value);
      }
      DeleteStationKeepsChain(sections, st);
      if IsTerminal(sections, st) {
        sectionDao.DeleteByStation(st);
        return Done;
      }
      ghost var o :| ChainOrder(sections, o);
      ChainRoles(sections, o);
      out := DeleteStationWhenForkSection(st);
    }

    /** Merges the two sections around an interior station: the section ending
        at `st` is stretched to where the section starting at `st` ends, and
        that one is deleted. A missing neighbour means the stored line is broken. */
    method DeleteStationWhenForkSection(st: StationId) returns (out: Outcome)
      requires sectionDao.Valid() && UniqueRoles(sectionDao.sections)
      modifies sectionDao
      ensures sectionDao.Valid()
      ensures Effect(out, sectionDao.sections) == MergeResult(old(sectionDao.sections), st)
    {
      var findUp := sectionDao.FindByUpStation(st);
      var findDown := sectionDao.FindByDownStation(st);
      if findUp.None? || findDown.None? {
        return Failed(MissingNeighbourSection);
      }
      UpMatchUnique(sectionDao.sections, st, findUp.value);
      DownMatchUnique(sectionDao.sections, st, findDown.value);
      // the section found by its up station leaves `st`; the one found by its down station enters it
      var upSection := sectionDao.sections[findUp.value];
      var downSection := sectionDao.sections[findDown.value];
      sectionDao.Update(findDown.value, Section(downSection.up, upSection.down, upSection.distance + downSection.distance));
      sectionDao.DeleteById(findUp.value);
      out := Done;
    }
  }
}
