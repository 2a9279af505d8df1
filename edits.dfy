/** The store edits the service performs, read on the chain: each one keeps
    the sections a single simple chain and changes its station list in one
    place. */
module Edits {
  import opened Sections
  import opened Paths
  import opened Chain

  /** Replacing the id at position `i` of a chain order by the ids `mid`, in a
      store that keeps every other listed section, replaces one section of the
      listed sequence by the sections `mid` names. */
  lemma AlongReplace(m: Store, o: seq<SectionId>, i: nat, m': Store, mid: seq<SectionId>)
    requires ChainOrder(m, o) && i < |o| && InStore(m', mid)
    requires forall p :: 0 <= p < |o| && p != i ==> o[p] in m' && m'[o[p]] == m[o[p]]
    ensures InStore(m', o[..i] + mid + o[i + 1..])
    ensures Along(m', o[..i] + mid + o[i + 1..]) == Along(m, o)[..i] + Along(m', mid) + Along(m, o)[i + 1..]
  {
    var o' := o[..i] + mid + o[i + 1..];
    assert forall p :: 0 <= p < i ==> o'[p] == o[p];
    assert forall p :: i <= p < i + |mid| ==> o'[p] == mid[p - i];
    assert forall p :: i + |mid| <= p < |o'| ==> o'[p] == o[p - |mid| + 1];
  }

  /** Every stored id of the edited store is listed by the edited order. */
  lemma CoverReplace(m: Store, o: seq<SectionId>, i: nat, m': Store, mid: seq<SectionId>)
    requires ChainOrder(m, o) && i < |o|
    requires forall k :: k in m' ==> k in m || k in mid
    requires o[i] in m' ==> o[i] in mid
    ensures forall k :: k in m' ==> k in o[..i] + mid + o[i + 1..]
  {
    var o' := o[..i] + mid + o[i + 1..];
    forall k | k in m'
      ensures k in o'
    {
      if k in mid {
        var q :| 0 <= q < |mid| && mid[q] == k;
        assert o'[i + q] == k;
      } else {
        var p := ChainIndex(m, o, k);
        if p < i {
          assert o'[p] == k;
        } else {
          assert o'[p + |mid| - 1] == k;
        }
      }
    }
  }

  /** A front split: the request `s`, starting where section `o[i]` starts and
      ending at a station not on the line, is stored under `newId`, and `o[i]`
      is shortened to start where `s` ends. */
  lemma FrontSplitChain(m: Store, o: seq<SectionId>, i: nat, s: Section, rest: int, newId: SectionId)
    requires ChainOrder(m, o) && i < |o| && m[o[i]].up == s.up && !HasStation(m, s.down) && newId !in m
    ensures var e := o[i];
      var m' := m[e := Section(s.down, m[e].down, rest)][newId := s];
      var o' := o[..i] + [newId, e] + o[i + 1..];
      ChainOrder(m', o') && Stations(m', o') == InsertAt(Stations(m, o), i + 1, s.down)
  {
    var e := o[i];
    var m' := m[e := Section(s.down, m[e].down, rest)][newId := s];
    var mid := [newId, e];
    ChainHasStation(m, o, s.down);
    ChainAt(m, o, i);
    ChainDistinctIds(m, o);
    AlongReplace(m, o, i, m', mid);
    assert Along(m', mid) == [s, Section(s.down, m[e].down, rest)];
    SplitPath(Along(m, o), i, s.down, s.distance, rest);
    CoverReplace(m, o, i, m', mid);
  }

  /** A back split: the request `s`, ending where section `o[i]` ends and
      starting at a station not on the line, is stored under `newId`, and `o[i]`
      is shortened to end where `s` starts. */
  lemma BackSplitChain(m: Store, o: seq<SectionId>, i: nat, s: Section, rest: int, newId: SectionId)
    requires ChainOrder(m, o) && i < |o| && m[o[i]].down == s.down && !HasStation(m, s.up) && newId !in m
    ensures var e := o[i];
      var m' := m[e := Section(m[e].up, s.up, rest)][newId := s];
      var o' := o[..i] + [e, newId] + o[i + 1..];
      ChainOrder(m', o') && Stations(m', o') == InsertAt(Stations(m, o), i + 1, s.up)
  {
    var e := o[i];
    var m' := m[e := Section(m[e].up, s.up, rest)][newId := s];
    var mid := [e, newId];
    ChainHasStation(m, o, s.up);
    ChainAt(m, o, i);
    ChainDistinctIds(m, o);
    AlongReplace(m, o, i, m', mid);
    assert Along(m', mid) == [Section(m[e].up, s.up, rest), s];
    SplitPath(Along(m, o), i, s.up, rest, s.distance);
    CoverReplace(m, o, i, m', mid);
  }

  /** A section ending at the up terminal, from a station not on the line,
      becomes the new first section. */
  lemma PrependChain(m: Store, o: seq<SectionId>, s: Section, newId: SectionId)
    requires ChainOrder(m, o) && s.down == Stations(m, o)[0] && !HasStation(m, s.up) && newId !in m
    ensures ChainOrder(m[newId := s], [newId] + o)
    ensures Stations(m[newId := s], [newId] + o) == [s.up] + Stations(m, o)
  {
    var m', o' := m[newId := s], [newId] + o;
    ChainHasStation(m, o, s.up);
    ChainAt(m, o, 0);
    assert InStore(m', o');
    assert Along(m', o') == [s] + Along(m, o);
    PrependPath(Along(m, o), s.up, s.distance);
    forall k | k in m'
      ensures k in o'
    {
      if k != newId {
        var p := ChainIndex(m, o, k);
        assert o'[p + 1] == k;
      }
    }
  }

  /** A section starting at the down terminal, to a station not on the line,
      becomes the new last section. */
  lemma AppendChain(m: Store, o: seq<SectionId>, s: Section, newId: SectionId)
    requires ChainOrder(m, o) && s.up == Stations(m, o)[|o|] && !HasStation(m, s.down) && newId !in m
    ensures ChainOrder(m[newId := s], o + [newId])
    ensures Stations(m[newId := s], o + [newId]) == Stations(m, o) + [s.down]
  {
    var m', o' := m[newId := s], o + [newId];
    ChainHasStation(m, o, s.down);
    ChainAt(m, o, |o| - 1);
    assert InStore(m', o');
    assert Along(m', o') == Along(m, o) + [s];
    AppendPath(Along(m, o), s.down, s.distance);
    forall k | k in m'
      ensures k in o'
    {
      if k != newId {
        var p := ChainIndex(m, o, k);
        assert o'[p] == k;
      }
    }
  }

  /** Removing the up terminal's section leaves the rest of the chain. */
  lemma DropFirstChain(m: Store, o: seq<SectionId>)
    requires ChainOrder(m, o) && |o| >= 2
    ensures ChainOrder(m - {o[0]}, o[1..])
    ensures Stations(m - {o[0]}, o[1..]) == Stations(m, o)[1..]
  {
    var m', o' := m - {o[0]}, o[1..];
    ChainDistinctIds(m, o);
    assert InStore(m', o');
    assert Along(m', o') == Along(m, o)[1..];
    DropFirstPath(Along(m, o));
    forall k | k in m'
      ensures k in o'
    {
      var p := ChainIndex(m, o, k);
      assert o'[p - 1] == k;
    }
  }

  /** Removing the down terminal's section leaves the rest of the chain. */
  lemma DropLastChain(m: Store, o: seq<SectionId>)
    requires ChainOrder(m, o) && |o| >= 2
    ensures ChainOrder(m - {o[|o| - 1]}, o[..|o| - 1])
    ensures Stations(m - {o[|o| - 1]}, o[..|o| - 1]) == Stations(m, o)[..|o|]
  {
    var n := |o|;
    var m', o' := m - {o[n - 1]}, o[..n - 1];
    ChainDistinctIds(m, o);
    assert InStore(m', o');
    assert Along(m', o') == Along(m, o)[..n - 1];
    DropLastPath(Along(m, o));
    forall k | k in m'
      ensures k in o'
    {
      var p := ChainIndex(m, o, k);
      assert o'[p] == k;
    }
  }

  /** The section into the interior station at position `j` is stretched to
      the down end of the section out of it, and that one is removed. */
  lemma MergeChain(m: Store, o: seq<SectionId>, j: nat, d: int)
    requires ChainOrder(m, o) && 0 < j < |o|
    ensures var S := Stations(m, o);
      var m' := m[o[j - 1] := Section(S[j - 1], S[j + 1], d)] - {o[j]};
      var o' := o[..j] + o[j + 1..];
      ChainOrder(m', o') && Stations(m', o') == RemoveAt(S, j)
  {
    var S := Stations(m, o);
    var cs := Along(m, o);
    var merged := Section(S[j - 1], S[j + 1], d);
    var m' := m[o[j - 1] := merged] - {o[j]};
    var o' := o[..j] + o[j + 1..];
    ChainDistinctIds(m, o);
    ChainAt(m, o, j - 1);
    ChainAt(m, o, j);
    var cs' := cs[..j - 1] + [merged] + cs[j + 1..];
    assert InStore(m', o') && Along(m', o') == cs' by {
      MergeAlong(m, o, j, merged);
    }
    MergePath(cs, j, d);
    forall k | k in m'
      ensures k in o'
    {
      var p := ChainIndex(m, o, k);
      if p < j {
        assert o'[p] == k;
      } else {
        assert o'[p - 1] == k;
      }
    }
  }

  /** After the merge at position `j`, the remaining order lists the merged section in place of two. */
  lemma MergeAlong(m: Store, o: seq<SectionId>, j: nat, merged: Section)
    requires ChainOrder(m, o) && 0 < j < |o| && Distinct(o)
    ensures var m', o' := m[o[j - 1] := merged] - {o[j]}, o[..j] + o[j + 1..];
      && InStore(m', o')
      && Along(m', o') == Along(m, o)[..j - 1] + [merged] + Along(m, o)[j + 1..]
  {
    var m', o' := m[o[j - 1] := merged] - {o[j]}, o[..j] + o[j + 1..];
    var cs := Along(m, o);
    var cs' := cs[..j - 1] + [merged] + cs[j + 1..];
    assert InStore(m', o');
    forall p | 0 <= p < |o'|
      ensures Along(m', o')[p] == cs'[p]
    {
      if p < j - 1 {
        assert o'[p] == o[p] && o[p] != o[j - 1];
      } else if p >= j {
        assert o'[p] == o[p + 1] && o[p + 1] != o[j - 1];
      }
    }
  }

  // ---- the same edits, stated on the store alone ----

  /** In a chain, membership in the sorted station list is membership in the line. */
  lemma SortedContains(m: Store, st: StationId)
    requires IsChain(m)
    ensures st in SortedStationIds(m) <==> HasStation(m, st)
  {
    var o :| ChainOrder(m, o);
    SortedStationsAlong(m, o);
    ChainHasStation(m, o, st);
  }

  lemma SortedDistinct(m: Store, o: seq<SectionId>)
    requires ChainOrder(m, o)
    ensures SortedStationIds(m) == Stations(m, o) && Distinct(Stations(m, o))
  {
    SortedStationsAlong(m, o);
  }

  /** A line that is a chain is never empty, and is down to one section
      exactly when it lists two stations. */
  lemma SizeOnChain(m: Store)
    requires IsChain(m)
    ensures !IsEmpty(m) && (IsMinimumSize(m) <==> |SortedStationIds(m)| == 2)
  {
    var o :| ChainOrder(m, o);
    ChainSize(m, o);
  }

  /** On a chain the terminals are exactly the first and the last station of
      the sorted list. */
  lemma TerminalEnds(m: Store, st: StationId)
    requires IsChain(m)
    ensures var S := SortedStationIds(m);
      && |S| >= 2
      && (IsTerminal(m, st) <==> st == S[0] || st == S[|S| - 1])
  {
    var o :| ChainOrder(m, o);
    var S := Stations(m, o);
    SortedDistinct(m, o);
    HasStationIncident(m, st);
    ChainHasStation(m, o, st);
    if st in S {
      var p := IndexOf(S, st);
      ChainStationAt(m, o, p);
      IndexOfDistinct(S, 0);
      IndexOfDistinct(S, |o|);
    }
  }

  /** Front split: the section starting at the request's up station is
      shortened to start at the request's down station, a station not yet on
      the line, and the request is stored. The new station follows the
      request's up station in the station list, and one section is added. */
  lemma FrontSplitLine(m: Store, r: Section, rest: int, newId: SectionId)
    requires IsChain(m) && HasUp(m, r.up) && !HasStation(m, r.down) && newId !in m
    ensures var k := UpMatch(m, r.up);
      var m' := m[k := Section(r.down, m[k].down, rest)][newId := r];
      var S := SortedStationIds(m);
      && IsChain(m')
      && r.up in S
      && SortedStationIds(m') == InsertAt(S, IndexOf(S, r.up) + 1, r.down)
      && |m'| == |m| + 1
      && TotalDistance(m') == TotalDistance(m) - m[k].distance + rest + r.distance
  {
    var o :| ChainOrder(m, o);
    var k := UpMatch(m, r.up);
    var i := ChainIndex(m, o, k);
    var m1 := m[k := Section(r.down, m[k].down, rest)];
    var m' := m1[newId := r];
    var o' := o[..i] + [newId, k] + o[i + 1..];
    ChainAt(m, o, i);
    FrontSplitChain(m, o, i, r, rest, newId);
    SortedDistinct(m, o);
    SortedStationsAlong(m', o');
    IndexOfDistinct(Stations(m, o), i);
    TotalDistanceUpdate(m, k, Section(r.down, m[k].down, rest));
    TotalDistanceInsert(m1, newId, r);
  }

  /** Back split: the section ending at the request's down station is
      shortened to end at the request's up station, a station not yet on the
      line, and the request is stored. The new station precedes the request's
      down station in the station list, and one section is added. */
  lemma BackSplitLine(m: Store, r: Section, rest: int, newId: SectionId)
    requires IsChain(m) && HasDown(m, r.down) && !HasStation(m, r.up) && newId !in m
    ensures var k := DownMatch(m, r.down);
      var m' := m[k := Section(m[k].up, r.up, rest)][newId := r];
      var S := SortedStationIds(m);
      && IsChain(m')
      && r.down in S
      && SortedStationIds(m') == InsertAt(S, IndexOf(S, r.down), r.up)
      && |m'| == |m| + 1
      && TotalDistance(m') == TotalDistance(m) - m[k].distance + rest + r.distance
  {
    var o :| ChainOrder(m, o);
    var k := DownMatch(m, r.down);
    var i := ChainIndex(m, o, k);
    var m1 := m[k := Section(m[k].up, r.up, rest)];
    var m' := m1[newId := r];
    var o' := o[..i] + [k, newId] + o[i + 1..];
    ChainAt(m, o, i);
    BackSplitChain(m, o, i, r, rest, newId);
    SortedDistinct(m, o);
    SortedStationsAlong(m', o');
    IndexOfDistinct(Stations(m, o), i + 1);
    TotalDistanceUpdate(m, k, Section(m[k].up, r.up, rest));
    TotalDistanceInsert(m1, newId, r);
  }

  /** Terminal extension: a request matching no section's role, with exactly
      one endpoint on the line, extends the line at one of its terminals. */
  lemma ExtendLine(m: Store, r: Section, newId: SectionId)
    requires IsChain(m) && !HasUp(m, r.up) && !HasDown(m, r.down) && newId !in m
    requires HasStation(m, r.up) != HasStation(m, r.down)
    ensures var m' := m[newId := r];
      var S := SortedStationIds(m);
      && IsChain(m')
      && SortedStationIds(m') == (if HasStation(m, r.up) then S + [r.down] else [r.up] + S)
      && |m'| == |m| + 1
      && TotalDistance(m') == TotalDistance(m) + r.distance
  {
    var o :| ChainOrder(m, o);
    var S := Stations(m, o);
    var m' := m[newId := r];
    assert SortedStationIds(m) == S by {
      SortedDistinct(m, o);
    }
    TotalDistanceInsert(m, newId, r);
    if HasStation(m, r.up) {
      assert IsChain(m') && SortedStationIds(m') == S + [r.down] by {
        ExtendAtDownTerminal(m, o, r, newId);
      }
    } else {
      assert IsChain(m') && SortedStationIds(m') == [r.up] + S by {
        ExtendAtUpTerminal(m, o, r, newId);
      }
    }
  }

  lemma ExtendAtDownTerminal(m: Store, o: seq<SectionId>, r: Section, newId: SectionId)
    requires ChainOrder(m, o) && !HasUp(m, r.up) && HasStation(m, r.up) && !HasStation(m, r.down) && newId !in m
    ensures IsChain(m[newId := r]) && SortedStationIds(m[newId := r]) == Stations(m, o) + [r.down]
  {
    var S := Stations(m, o);
    ChainHasStation(m, o, r.up);
    var p := IndexOf(S, r.up);
    ChainStationAt(m, o, p);
    AppendChain(m, o, r, newId);
    SortedStationsAlong(m[newId := r], o + [newId]);
  }

  lemma ExtendAtUpTerminal(m: Store, o: seq<SectionId>, r: Section, newId: SectionId)
    requires ChainOrder(m, o) && !HasDown(m, r.down) && HasStation(m, r.down) && !HasStation(m, r.up) && newId !in m
    ensures IsChain(m[newId := r]) && SortedStationIds(m[newId := r]) == [r.up] + Stations(m, o)
  {
    var S := Stations(m, o);
    ChainHasStation(m, o, r.down);
    var p := IndexOf(S, r.down);
    ChainStationAt(m, o, p);
    PrependChain(m, o, r, newId);
    SortedStationsAlong(m[newId := r], [newId] + o);
  }

  /** Deleting every section incident to a station that has only one removes that one. */
  lemma WithoutOnly(m: Store, st: StationId, k: SectionId)
    requires Incident(m, st) == {k}
    ensures WithoutStation(m, st) == m - {k}
  {
  }

  /** The terminal at position `p` (either end) of a chain of two or more sections. */
  lemma DropTerminalChain(m: Store, o: seq<SectionId>, p: nat) returns (gone: SectionId, o': seq<SectionId>)
    requires ChainOrder(m, o) && |o| >= 2 && (p == 0 || p == |o|)
    ensures var st := Stations(m, o)[p];
      && gone == (if HasUp(m, st) then UpMatch(m, st) else DownMatch(m, st))
      && Incident(m, st) == {gone}
      && ChainOrder(m - {gone}, o') && Stations(m - {gone}, o') == RemoveAt(Stations(m, o), p)
  {
    ChainStationAt(m, o, p);
    if p == 0 {
      gone, o' := o[0], o[1..];
      DropFirstChain(m, o);
    } else {
      gone, o' := o[|o| - 1], o[..|o| - 1];
      DropLastChain(m, o);
    }
  }

  /** Deleting a terminal of a line of two or more sections removes its one
      section and the station itself from the station list. */
  lemma DropTerminalLine(m: Store, st: StationId)
    requires IsChain(m) && |m| >= 2 && HasStation(m, st) && IsTerminal(m, st)
    ensures var m' := WithoutStation(m, st);
      var S := SortedStationIds(m);
      var gone := if HasUp(m, st) then UpMatch(m, st) else DownMatch(m, st);
      && IsChain(m')
      && st in S
      && SortedStationIds(m') == RemoveAt(S, IndexOf(S, st))
      && m' == m - {gone}
      && |m'| == |m| - 1
      && TotalDistance(m') == TotalDistance(m) - m[gone].distance
  {
    var o :| ChainOrder(m, o);
    var S := Stations(m, o);
    ChainSize(m, o);
    SortedDistinct(m, o);
    ChainHasStation(m, o, st);
    var p := IndexOf(S, st);
    ChainStationAt(m, o, p);
    var gone, o' := DropTerminalChain(m, o, p);
    WithoutOnly(m, st, gone);
    SortedStationsAlong(m - {gone}, o');
    CardRemove(m, gone);
    TotalDistanceRemove(m, gone);
  }

  /** The interior station at position `p` of a chain. */
  lemma MergeAtChain(m: Store, o: seq<SectionId>, p: nat, d: int) returns (o': seq<SectionId>)
    requires ChainOrder(m, o) && 0 < p < |o|
    ensures HasUp(m, Stations(m, o)[p]) && HasDown(m, Stations(m, o)[p])
    ensures var st := Stations(m, o)[p];
      var inc := DownMatch(m, st);
      var out := UpMatch(m, st);
      && inc == o[p - 1] && out == o[p] && inc != out
      && ChainOrder(m[inc := Section(m[inc].up, m[out].down, d)] - {out}, o')
      && Stations(m[inc := Section(m[inc].up, m[out].down, d)] - {out}, o') == RemoveAt(Stations(m, o), p)
  {
    ChainStationAt(m, o, p);
    ChainDistinctIds(m, o);
    ChainAt(m, o, p - 1);
    ChainAt(m, o, p);
    MergeChain(m, o, p, d);
    o' := o[..p] + o[p + 1..];
  }

  /** Deleting an interior station merges its incoming and outgoing sections
      into one under the incoming section's id, and the station leaves the
      station list (`MergeCounts` gives the section count and total distance). */
  lemma MergeLine(m: Store, st: StationId)
    requires IsChain(m) && HasStation(m, st) && !IsTerminal(m, st)
    ensures HasUp(m, st) && HasDown(m, st)
    ensures var inc := DownMatch(m, st);
      var out := UpMatch(m, st);
      var m' := m[inc := Section(m[inc].up, m[out].down, m[out].distance + m[inc].distance)] - {out};
      var S := SortedStationIds(m);
      && inc != out
      && IsChain(m')
      && st in S
      && SortedStationIds(m') == RemoveAt(S, IndexOf(S, st))
  {
    var o :| ChainOrder(m, o);
    MergeLineOn(m, o, st);
  }

  lemma MergeLineOn(m: Store, o: seq<SectionId>, st: StationId)
    requires ChainOrder(m, o) && HasStation(m, st) && !IsTerminal(m, st)
    ensures HasUp(m, st) && HasDown(m, st)
    ensures var inc := DownMatch(m, st);
      var out := UpMatch(m, st);
      var m' := m[inc := Section(m[inc].up, m[out].down, m[out].distance + m[inc].distance)] - {out};
      var S := SortedStationIds(m);
      && inc != out
      && IsChain(m')
      && st in S
      && SortedStationIds(m') == RemoveAt(S, IndexOf(S, st))
  {
    var S := Stations(m, o);
    InteriorAt(m, o, st);
    var p := IndexOf(S, st);
    var inc, out := DownMatch(m, st), UpMatch(m, st);
    var merged := Section(m[inc].up, m[out].down, m[out].distance + m[inc].distance);
    var m' := m[inc := merged] - {out};
    assert inc != out && IsChain(m') && SortedStationIds(m') == RemoveAt(S, p) by {
      MergeLineAt(m, o, p, inc, out);
    }
  }

  /** An interior station sits strictly inside the chain's station list, and
      has both a section into it and a section out of it. */
  lemma InteriorAt(m: Store, o: seq<SectionId>, st: StationId)
    requires ChainOrder(m, o) && HasStation(m, st) && !IsTerminal(m, st)
    ensures var S := Stations(m, o);
      && st in S && 0 < IndexOf(S, st) < |o| && SortedStationIds(m) == S
      && HasUp(m, st) && HasDown(m, st)
      && DownMatch(m, st) == o[IndexOf(S, st) - 1] && UpMatch(m, st) == o[IndexOf(S, st)]
  {
    SortedDistinct(m, o);
    ChainInteriorBetween(m, o, st);
    ChainStationAt(m, o, IndexOf(Stations(m, o), st));
  }

  /** An interior station of a line has a section into it and a different section out of it. */
  lemma InteriorRoles(m: Store, st: StationId)
    requires IsChain(m) && HasStation(m, st) && !IsTerminal(m, st)
    ensures HasUp(m, st) && HasDown(m, st) && DownMatch(m, st) != UpMatch(m, st)
  {
    var o :| ChainOrder(m, o);
    InteriorAt(m, o, st);
    ChainDistinctIds(m, o);
  }

  /** The merge at the interior station at position `p` of a chain, on the store. */
  lemma MergeLineAt(m: Store, o: seq<SectionId>, p: nat, inc: SectionId, out: SectionId)
    requires ChainOrder(m, o) && 0 < p < |o| && inc == o[p - 1] && out == o[p]
    ensures var m' := m[inc := Section(m[inc].up, m[out].down, m[out].distance + m[inc].distance)] - {out};
      inc != out && IsChain(m') && SortedStationIds(m') == RemoveAt(Stations(m, o), p)
  {
    var m' := m[inc := Section(m[inc].up, m[out].down, m[out].distance + m[inc].distance)] - {out};
    var o' := MergeAtChain(m, o, p, m[out].distance + m[inc].distance);
    SortedStationsAlong(m', o');
  }
}
