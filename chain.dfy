/** The single-chain shape of a stored line: its sections, ordered from the up
    terminal, form a simple path. The ordered station list is recovered from
    the unordered store by walking from the station that no section ends at. */
module Chain {
  import opened Sections
  import opened Paths

  predicate InStore(m: Store, o: seq<SectionId>) {
    forall i :: 0 <= i < |o| ==> o[i] in m
  }

  /** The stored sections listed in the order `o`. */
  function Along(m: Store, o: seq<SectionId>): seq<Section>
    requires InStore(m, o)
  {
    seq(|o|, i requires 0 <= i < |o| => m[o[i]])
  }

  /** `o` lists every stored section once, from the up terminal to the down
      terminal, and the sections so listed form a simple path. */
  ghost predicate ChainOrder(m: Store, o: seq<SectionId>) {
    && InStore(m, o)
    && (forall k :: k in m ==> k in o)
    && IsPath(Along(m, o))
  }

  /** The line invariant: the stored sections form exactly one simple chain. */
  ghost predicate IsChain(m: Store) {
    exists o :: ChainOrder(m, o)
  }

  /** The stations along the order `o`. */
  function Stations(m: Store, o: seq<SectionId>): seq<StationId>
    requires |o| >= 1 && InStore(m, o)
  {
    StationsOf(Along(m, o))
  }

  /** Walks from `st`, each step taking the unused section that starts at the
      current station, until no such section is left. */
  ghost function Walk(m: Store, st: StationId, unused: set<SectionId>): (w: seq<StationId>)
    ensures |w| >= 1 && w[0] == st
    ensures forall i :: 1 <= i < |w| ==> HasDown(m, w[i])
    decreases unused
  {
    if exists k :: k in unused && k in m && m[k].up == st then
      var k :| k in unused && k in m && m[k].up == st;
      [st] + Walk(m, m[k].down, unused - {k})
    else
      [st]
  }

  /** The line's stations in travel order: the walk from the station that is
      an up station but never a down station. Empty when there is none. */
  ghost function SortedStationIds(m: Store): (r: seq<StationId>)
    ensures r != [] <==> exists k :: k in m && !HasDown(m, m[k].up)
    ensures r != [] ==> HasUp(m, r[0]) && !HasDown(m, r[0])
    ensures forall i :: 0 <= i < |r| ==> HasStation(m, r[i])
  {
    if exists k :: k in m && !HasDown(m, m[k].up) then
      var k :| k in m && !HasDown(m, m[k].up);
      Walk(m, m[k].up, m.Keys)
    else
      []
  }

  // ---- basic facts about a chain order ----

  lemma ChainAt(m: Store, o: seq<SectionId>, p: nat)
    requires ChainOrder(m, o) && p < |o|
    ensures m[o[p]].up == Stations(m, o)[p] && m[o[p]].down == Stations(m, o)[p + 1]
  {
    PathUpAt(Along(m, o), p);
  }

  lemma ChainIndex(m: Store, o: seq<SectionId>, k: SectionId) returns (p: nat)
    requires ChainOrder(m, o) && k in m
    ensures p < |o| && o[p] == k
  {
    p :| 0 <= p < |o| && o[p] == k;
  }

  /** No section is listed twice. */
  lemma ChainDistinctIds(m: Store, o: seq<SectionId>)
    requires ChainOrder(m, o)
    ensures Distinct(o)
  {
    forall p, q | 0 <= p < q < |o|
      ensures o[p] != o[q]
    {
      ChainAt(m, o, p);
      ChainAt(m, o, q);
    }
  }

  /** A chain has unique roles, which the optional-returning lookups rely on. */
  lemma ChainRoles(m: Store, o: seq<SectionId>)
    requires ChainOrder(m, o)
    ensures UniqueRoles(m)
  {
    forall k1, k2 | k1 in m && k2 in m && (m[k1].up == m[k2].up || m[k1].down == m[k2].down)
      ensures k1 == k2
    {
      var p := ChainIndex(m, o, k1);
      var q := ChainIndex(m, o, k2);
      ChainAt(m, o, p);
      ChainAt(m, o, q);
    }
  }

  /** A station is on the line exactly when the chain passes through it. */
  lemma ChainHasStation(m: Store, o: seq<SectionId>, st: StationId)
    requires ChainOrder(m, o)
    ensures HasStation(m, st) <==> st in Stations(m, o)
  {
    var S := Stations(m, o);
    if HasUp(m, st) {
      var k :| k in m && m[k].up == st;
      var p := ChainIndex(m, o, k);
      ChainAt(m, o, p);
    } else if HasDown(m, st) {
      var k :| k in m && m[k].down == st;
      var p := ChainIndex(m, o, k);
      ChainAt(m, o, p);
    } else if st in S {
      var p := IndexOf(S, st);
      if p < |o| {
        ChainAt(m, o, p);
      } else {
        ChainAt(m, o, p - 1);
      }
    }
  }

  /** The sections around the station at position `p` of the chain: only the
      `p`-th starts there and only the one before it ends there. */
  lemma ChainSectionsAt(m: Store, o: seq<SectionId>, p: nat)
    requires ChainOrder(m, o) && p <= |o|
    ensures var st := Stations(m, o)[p];
      forall k :: k in m ==>
        && (m[k].up == st <==> p < |o| && k == o[p])
        && (m[k].down == st <==> p > 0 && k == o[p - 1])
  {
    var st := Stations(m, o)[p];
    ChainDistinctIds(m, o);
    forall k | k in m
      ensures (m[k].up == st <==> p < |o| && k == o[p])
      ensures (m[k].down == st <==> p > 0 && k == o[p - 1])
    {
      var q := ChainIndex(m, o, k);
      ChainAt(m, o, q);
    }
  }

  /** The roles and incident sections of the station at position `p` of the chain:
      it starts a section unless it is the down terminal, ends one unless it is
      the up terminal, and is a terminal exactly when it is at either end. */
  lemma ChainStationAt(m: Store, o: seq<SectionId>, p: nat)
    requires ChainOrder(m, o) && p <= |o|
    ensures var st := Stations(m, o)[p];
      && (HasUp(m, st) <==> p < |o|)
      && (HasDown(m, st) <==> p > 0)
      && (p < |o| ==> UpMatch(m, st) == o[p])
      && (p > 0 ==> DownMatch(m, st) == o[p - 1])
      && Incident(m, st) == (if p > 0 then {o[p - 1]} else {}) + (if p < |o| then {o[p]} else {})
      && (IsTerminal(m, st) <==> p == 0 || p == |o|)
  {
    var st := Stations(m, o)[p];
    ChainSectionsAt(m, o, p);
    if p < |o| {
      ChainAt(m, o, p);
    }
    if p > 0 {
      ChainAt(m, o, p - 1);
    }
    if 0 < p < |o| {
      ChainDistinctIds(m, o);
      assert o[p - 1] != o[p];
    }
    ChainIncidentAt(m, o, p);
  }

  /** The sections incident to that station, from the facts above. */
  lemma ChainIncidentAt(m: Store, o: seq<SectionId>, p: nat)
    requires ChainOrder(m, o) && p <= |o|
    requires var st := Stations(m, o)[p];
      forall k :: k in m ==>
        && (m[k].up == st <==> p < |o| && k == o[p])
        && (m[k].down == st <==> p > 0 && k == o[p - 1])
    ensures Incident(m, Stations(m, o)[p]) == (if p > 0 then {o[p - 1]} else {}) + (if p < |o| then {o[p]} else {})
  {
  }

  /** The alternative to one station: neither of the chain's ends, so strictly inside. */
  lemma ChainInteriorBetween(m: Store, o: seq<SectionId>, st: StationId)
    requires ChainOrder(m, o) && HasStation(m, st) && !IsTerminal(m, st)
    ensures var S := Stations(m, o); st in S && 0 < IndexOf(S, st) < |o|
  {
    ChainHasStation(m, o, st);
    ChainStationAt(m, o, IndexOf(Stations(m, o), st));
  }

  // ---- the walk recovers the chain ----

  lemma {:induction false} WalkAlong(m: Store, o: seq<SectionId>, j: nat, unused: set<SectionId>)
    requires ChainOrder(m, o) && j <= |o|
    requires forall p :: j <= p < |o| ==> o[p] in unused
    requires forall p :: 0 <= p < j ==> o[p] !in unused
    ensures Walk(m, Stations(m, o)[j], unused) == Stations(m, o)[j..]
    decreases |o| - j
  {
    var S := Stations(m, o);
    if j < |o| {
      assert o[j] in unused && o[j] in m && m[o[j]].up == S[j] && m[o[j]].down == S[j + 1] by {
        ChainAt(m, o, j);
      }
      forall k | k in unused && k in m && m[k].up == S[j]
        ensures k == o[j]
      {
        WalkStepUnique(m, o, j, unused, k);
      }
      assert Walk(m, S[j], unused) == [S[j]] + Walk(m, S[j + 1], unused - {o[j]});
      assert forall p :: j + 1 <= p < |o| ==> o[p] in unused - {o[j]} by {
        ChainDistinctIds(m, o);
      }
      WalkAlong(m, o, j + 1, unused - {o[j]});
      assert S[j..] == [S[j]] + S[j + 1..];
    } else {
      forall k | k in m
        ensures k !in unused
      {
        var p := ChainIndex(m, o, k);
      }
    }
  }

  /** The only unused section starting at the `j`-th station of the chain is `o[j]`. */
  lemma WalkStepUnique(m: Store, o: seq<SectionId>, j: nat, unused: set<SectionId>, k: SectionId)
    requires ChainOrder(m, o) && j < |o|
    requires forall p :: 0 <= p < j ==> o[p] !in unused
    requires k in unused && k in m && m[k].up == Stations(m, o)[j]
    ensures k == o[j]
  {
    var p := ChainIndex(m, o, k);
    ChainAt(m, o, p);
  }

  /** In a chain, the sorted station list is exactly the chain's stations. */
  lemma SortedStationsAlong(m: Store, o: seq<SectionId>)
    requires ChainOrder(m, o)
    ensures SortedStationIds(m) == Stations(m, o)
  {
    var S := Stations(m, o);
    ChainStationAt(m, o, 0);
    assert o[0] in m && !HasDown(m, m[o[0]].up) by {
      ChainAt(m, o, 0);
    }
    forall k | k in m && !HasDown(m, m[k].up)
      ensures m[k].up == S[0]
    {
      var p := ChainIndex(m, o, k);
      ChainAt(m, o, p);
      ChainStationAt(m, o, p);
    }
    WalkAlong(m, o, 0, m.Keys);
  }

  /** A chain has a station list one longer than its section count. */
  lemma ChainSize(m: Store, o: seq<SectionId>)
    requires ChainOrder(m, o)
    ensures |m| == |o| >= 1 && |SortedStationIds(m)| == |m| + 1
  {
    ChainDistinctIds(m, o);
    SortedStationsAlong(m, o);
    DistinctCard(o);
    assert m.Keys == set i | 0 <= i < |o| :: o[i];
  }

  lemma {:induction false} DistinctCard(o: seq<SectionId>)
    requires Distinct(o)
    ensures |set i | 0 <= i < |o| :: o[i]| == |o|
  {
    if |o| > 0 {
      var t := o[..|o| - 1];
      DistinctCard(t);
      assert (set i | 0 <= i < |o| :: o[i]) == (set i | 0 <= i < |t| :: t[i]) + {o[|o| - 1]};
    }
  }
}
