/** The line-editing scenarios of the acceptance tests, as outcomes of the
    add and delete specifications. The line 1→2 has one
    section of length 10; the line 1→2→3 has two sections of length 10. */
module Scenarios {
  import opened Sections
  import opened Paths
  import opened Chain
  import opened Edits
  import opened SectionService

  /** The line created with a single section. */
  lemma OneSectionLine(a: StationId, b: StationId, d: int)
    requires a != b
    ensures var m := map[0 := Section(a, b, d)];
      IsChain(m) && SortedStationIds(m) == [a, b] && |m| == 1
  {
    var m := map[0 := Section(a, b, d)];
    assert Along(m, [0]) == [Section(a, b, d)];
    assert StationsOf([Section(a, b, d)]) == [a, b];
    assert ChainOrder(m, [0]);
    SortedStationsAlong(m, [0]);
  }

  /** A line of two sections, a→b→c. */
  lemma TwoSectionLine(a: StationId, b: StationId, c: StationId, d1: int, d2: int)
    requires a != b && b != c && a != c
    ensures var m := map[0 := Section(a, b, d1), 1 := Section(b, c, d2)];
      IsChain(m) && SortedStationIds(m) == [a, b, c] && TotalDistance(m) == d1 + d2
  {
    var m := map[0 := Section(a, b, d1), 1 := Section(b, c, d2)];
    assert Along(m, [0, 1]) == [Section(a, b, d1), Section(b, c, d2)];
    assert StationsOf([Section(a, b, d1), Section(b, c, d2)]) == [a, b, c];
    assert ChainOrder(m, [0, 1]);
    SortedStationsAlong(m, [0, 1]);
    TotalDistanceRemove(m, 0);
    TotalDistanceRemove(m - {0}, 1);
    assert m - {0} - {1} == map[];
  }

  /** Which stations start and end a section of the one-section line a→b. */
  lemma OneSectionRoles(a: StationId, b: StationId, d: int)
    ensures var m := map[0 := Section(a, b, d)];
      && (forall st :: HasUp(m, st) <==> st == a)
      && (forall st :: HasDown(m, st) <==> st == b)
      && (HasUp(m, a) ==> UpMatch(m, a) == 0)
      && (HasDown(m, b) ==> DownMatch(m, b) == 0)
  {
    var m := map[0 := Section(a, b, d)];
    assert m.Keys == {0};
    assert m[0].up == a && m[0].down == b;
  }

  /** Which stations start and end a section of the two-section line a→b→c. */
  lemma TwoSectionRoles(a: StationId, b: StationId, c: StationId, d1: int, d2: int)
    ensures var m := map[0 := Section(a, b, d1), 1 := Section(b, c, d2)];
      && (forall st :: HasUp(m, st) <==> st == a || st == b)
      && (forall st :: HasDown(m, st) <==> st == b || st == c)
  {
    var m := map[0 := Section(a, b, d1), 1 := Section(b, c, d2)];
    assert m.Keys == {0, 1};
    assert m[0].up == a && m[0].down == b && m[1].up == b && m[1].down == c;
  }

  /** Adding (3,1,10) puts station 3 in front of the line: [3,1,2]. */
  lemma AppendInFront()
    ensures var e := AddSectionResult(map[0 := Section(1, 2, 10)], Section(3, 1, 10), 1);
      e.outcome == Done && SortedStationIds(e.sections) == [3, 1, 2] && |e.sections| == 2
  {
    var m := map[0 := Section(1, 2, 10)];
    var r := Section(3, 1, 10);
    OneSectionLine(1, 2, 10);
    OneSectionRoles(1, 2, 10);
    AddSectionKeepsChain(m, r, 1);
    AddSectionAppend(m, r, 1);
  }

  /** Adding (2,3,10) puts station 3 behind the line: [1,2,3]. */
  lemma AppendBehind()
    ensures var e := AddSectionResult(map[0 := Section(1, 2, 10)], Section(2, 3, 10), 1);
      e.outcome == Done && SortedStationIds(e.sections) == [1, 2, 3] && |e.sections| == 2
  {
    var m := map[0 := Section(1, 2, 10)];
    var r := Section(2, 3, 10);
    OneSectionLine(1, 2, 10);
    OneSectionRoles(1, 2, 10);
    AddSectionKeepsChain(m, r, 1);
    AddSectionAppend(m, r, 1);
  }

  /** Adding (1,3,5) splits 1→2 at its up end, shortening it to 3→2 of length 5. */
  lemma SplitAtUpEnd()
    ensures AddSectionResult(map[0 := Section(1, 2, 10)], Section(1, 3, 5), 1)
      == Effect(Done, map[0 := Section(3, 2, 5), 1 := Section(1, 3, 5)])
  {
    var m := map[0 := Section(1, 2, 10)];
    var r := Section(1, 3, 5);
    assert HasUp(m, 1) && !HasStation(m, 3) && UpMatch(m, 1) == 0 by {
      OneSectionRoles(1, 2, 10);
    }
    AddSectionFront(m, r, 1);
  }

  /** The line a→x→b stored with its sections' ids in the other order, as a
      split at the up end leaves it. */
  lemma SplitLine(a: StationId, x: StationId, b: StationId, d1: int, d2: int)
    requires a != x && x != b && a != b
    ensures SortedStationIds(map[0 := Section(x, b, d2), 1 := Section(a, x, d1)]) == [a, x, b]
  {
    var m := map[0 := Section(x, b, d2), 1 := Section(a, x, d1)];
    assert Along(m, [1, 0]) == [Section(a, x, d1), Section(x, b, d2)];
    assert StationsOf([Section(a, x, d1), Section(x, b, d2)]) == [a, x, b];
    assert ChainOrder(m, [1, 0]);
    SortedStationsAlong(m, [1, 0]);
  }

  /** After that split the line runs [1,3,2]. */
  lemma SplitAtUpEndOrder()
    ensures SortedStationIds(map[0 := Section(3, 2, 5), 1 := Section(1, 3, 5)]) == [1, 3, 2]
  {
    SplitLine(1, 3, 2, 5, 5);
  }

  /** Adding (1,3,10) to 1→2 of length 10 would leave a section of length 0. */
  lemma SplitTooLong()
    ensures AddSectionResult(map[0 := Section(1, 2, 10)], Section(1, 3, 10), 1)
      == Effect(Rejected(InvalidDistance), map[0 := Section(1, 2, 10)])
  {
    var m := map[0 := Section(1, 2, 10)];
    OneSectionRoles(1, 2, 10);
  }

  /** Adding (1,2,3) matches both the up end and the down end of 1→2. */
  lemma BothEndsRegistered()
    ensures AddSectionResult(map[0 := Section(1, 2, 10)], Section(1, 2, 3), 1)
      == Effect(Rejected(BothStationsRegistered), map[0 := Section(1, 2, 10)])
  {
    OneSectionRoles(1, 2, 10);
  }

  /** Adding (3,3,3) touches no station of 1→2. */
  lemma Disconnected()
    ensures AddSectionResult(map[0 := Section(1, 2, 10)], Section(3, 3, 3), 1)
      == Effect(Rejected(NoStationOnLine), map[0 := Section(1, 2, 10)])
  {
  }

  /** Deleting the down terminal c of a→b→c leaves the section a→b. */
  lemma DeleteDownTerminalOf(a: StationId, b: StationId, c: StationId, d1: int, d2: int)
    requires a != b && b != c && a != c
    ensures DeleteStationResult(map[0 := Section(a, b, d1), 1 := Section(b, c, d2)], c)
      == Effect(Done, map[0 := Section(a, b, d1)])
  {
    var m := map[0 := Section(a, b, d1), 1 := Section(b, c, d2)];
    assert m.Keys == {0, 1};
    assert HasDown(m, c) by {
      assert m[1].down == c;
    }
    assert Incident(m, c) == {1};
    assert WithoutStation(m, c) == map[0 := Section(a, b, d1)];
  }

  /** Deleting the terminal 3 of 1→2→3 leaves [1,2]. */
  lemma DeleteDownTerminal()
    ensures var e := DeleteStationResult(map[0 := Section(1, 2, 10), 1 := Section(2, 3, 10)], 3);
      e.outcome == Done && SortedStationIds(e.sections) == [1, 2]
  {
    DeleteDownTerminalOf(1, 2, 3, 10, 10);
    OneSectionLine(1, 2, 10);
  }

  /** Deleting the interior station b of a→b→c merges the two sections into a→c. */
  lemma DeleteInteriorOf(a: StationId, b: StationId, c: StationId, d1: int, d2: int)
    requires a != b && b != c && a != c
    ensures DeleteStationResult(map[0 := Section(a, b, d1), 1 := Section(b, c, d2)], b)
      == Effect(Done, map[0 := Section(a, c, d1 + d2)])
  {
    var m := map[0 := Section(a, b, d1), 1 := Section(b, c, d2)];
    assert m.Keys == {0, 1};
    assert HasDown(m, b) && HasUp(m, b) && DownMatch(m, b) == 0 && UpMatch(m, b) == 1 by {
      assert m[0].down == b && m[1].up == b;
    }
    assert Incident(m, b) == {0, 1};
    assert m[0 := Section(a, c, d2 + d1)] - {1} == map[0 := Section(a, c, d1 + d2)];
  }

  /** Deleting the interior station 2 of 1→2→3 leaves [1,3] with one section of length 20. */
  lemma DeleteInterior()
    ensures var e := DeleteStationResult(map[0 := Section(1, 2, 10), 1 := Section(2, 3, 10)], 2);
      && e.outcome == Done
      && SortedStationIds(e.sections) == [1, 3]
      && e.sections == map[0 := Section(1, 3, 20)]
  {
    DeleteInteriorOf(1, 2, 3, 10, 10);
    OneSectionLine(1, 3, 20);
  }

  /** The last section of a line cannot be deleted. */
  lemma DeleteLastSection()
    ensures DeleteStationResult(map[0 := Section(1, 2, 10)], 2)
      == Effect(Rejected(LastSection), map[0 := Section(1, 2, 10)])
  {
    OneSectionRoles(1, 2, 10);
  }

  /** A station that is not on the line cannot be deleted. */
  lemma DeleteUnknownStation()
    ensures DeleteStationResult(map[0 := Section(1, 2, 10), 1 := Section(2, 3, 10)], 4)
      == Effect(Rejected(NoSuchSection), map[0 := Section(1, 2, 10), 1 := Section(2, 3, 10)])
  {
    TwoSectionRoles(1, 2, 3, 10, 10);
  }

  /** The both-ends rule compares roles, not membership: (2,1) on 1→2 has both
      ends on the line but matches neither role, so it is saved. */
  lemma ReversedSectionAccepted()
    ensures var m := map[0 := Section(1, 2, 10)];
      && HasStation(m, 2) && HasStation(m, 1)
      && AddSectionResult(m, Section(2, 1, 5), 1)
        == Effect(Done, map[0 := Section(1, 2, 10), 1 := Section(2, 1, 5)])
  {
    OneSectionRoles(1, 2, 10);
  }

  /** The store that results closes the line into a cycle: no station starts
      the line, the sorted station list is empty and the sections form no chain. */
  lemma ReversedSectionClosesCycle()
    ensures var m' := map[0 := Section(1, 2, 10), 1 := Section(2, 1, 5)];
      SortedStationIds(m') == [] && !IsChain(m')
  {
    var m' := map[0 := Section(1, 2, 10), 1 := Section(2, 1, 5)];
    forall k | k in m'
      ensures HasDown(m', m'[k].up)
    {
      if k == 0 {
        assert m'[1].down == m'[0].up;
      } else {
        assert m'[0].down == m'[1].up;
      }
    }
    if IsChain(m') {
      var o :| ChainOrder(m', o);
      ChainSize(m', o);
    }
  }

  /** The same rule lets such a request fork the line: (2,1,5) on 1→2→3
      matches the up role at 2, so 2→3 is shortened to 1→3 and the request is
      saved. Station 1 then starts two sections, so the roles are no longer
      unique. */
  lemma ReversedSectionForks()
    ensures var m := map[0 := Section(1, 2, 10), 1 := Section(2, 3, 10)];
      var m' := map[0 := Section(1, 2, 10), 1 := Section(1, 3, 5), 2 := Section(2, 1, 5)];
      && AddSectionResult(m, Section(2, 1, 5), 2) == Effect(Done, m')
      && !UniqueRoles(m')
  {
    var m := map[0 := Section(1, 2, 10), 1 := Section(2, 3, 10)];
    var m' := map[0 := Section(1, 2, 10), 1 := Section(1, 3, 5), 2 := Section(2, 1, 5)];
    TwoSectionRoles(1, 2, 3, 10, 10);
    assert m.Keys == {0, 1} && m[0].up != 2;
    assert UpMatch(m, 2) == 1;
    assert m'[0].up == m'[1].up;
  }

  /** A request with equal ends is not refused: (1,1,3) on 1→2 matches the up
      role at 1, shortening 1→2 to 7 and saving a section from 1 to itself. */
  lemma SelfLoopAccepted()
    ensures var m' := map[0 := Section(1, 2, 7), 1 := Section(1, 1, 3)];
      && AddSectionResult(map[0 := Section(1, 2, 10)], Section(1, 1, 3), 1) == Effect(Done, m')
      && !UniqueRoles(m')
  {
    var m' := map[0 := Section(1, 2, 7), 1 := Section(1, 1, 3)];
    OneSectionRoles(1, 2, 10);
    assert m'[0].up == m'[1].up;
  }
}
