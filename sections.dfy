/** Sections of one subway line, and the queries the service asks about them. */
module Sections {

  type StationId = int
  type SectionId = nat

  /** A directed, weighted edge of a line, from its up station to its down station. */
  datatype Section = Section(up: StationId, down: StationId, distance: int)

  /** All stored sections of one line, keyed by their generated id. */
  type Store = map<SectionId, Section>

  datatype Option<T> = None | Some(value: T)

  /** Some section starts at `st`. */
  predicate HasUp(m: Store, st: StationId) {
    exists k :: k in m && m[k].up == st
  }

  /** Some section ends at `st`. */
  predicate HasDown(m: Store, st: StationId) {
    exists k :: k in m && m[k].down == st
  }

  /** `st` is on the line: it is an end of some section. */
  predicate HasStation(m: Store, st: StationId) {
    HasUp(m, st) || HasDown(m, st)
  }

  /** The ids of the sections that `st` is an end of. */
  function Incident(m: Store, st: StationId): set<SectionId> {
    set k | k in m && (m[k].up == st || m[k].down == st)
  }

  /** A terminal station has exactly one incident section. */
  predicate IsTerminal(m: Store, st: StationId) {
    |Incident(m, st)| == 1
  }

  /** A station is on the line exactly when some section is incident to it. */
  lemma HasStationIncident(m: Store, st: StationId)
    ensures HasStation(m, st) <==> Incident(m, st) != {}
  {
    if Incident(m, st) != {} {
      var k :| k in Incident(m, st);
    }
    if HasUp(m, st) {
      var k :| k in m && m[k].up == st;
      assert k in Incident(m, st);
    } else if HasDown(m, st) {
      var k :| k in m && m[k].down == st;
      assert k in Incident(m, st);
    }
  }

  /** The line is down to one section. */
  predicate IsMinimumSize(m: Store) {
    |m| == 1
  }

  /** A line of minimum size holds a single section. */
  lemma SingleSection(m: Store)
    ensures IsMinimumSize(m) <==> exists k :: k in m && m == map[k := m[k]]
  {
    if |m| == 1 {
      var k :| k in m;
      CardRemove(m, k);
      assert m - {k} == map[];
      assert m == map[k := m[k]];
    }
  }

  /** The line has no section at all. */
  predicate IsEmpty(m: Store) {
    |m| == 0
  }

  /** What the optional-returning lookups rely on: no two sections share an up
      station, and no two share a down station. */
  predicate UniqueRoles(m: Store) {
    && (forall k1, k2 :: k1 in m && k2 in m && m[k1].up == m[k2].up ==> k1 == k2)
    && (forall k1, k2 :: k1 in m && k2 in m && m[k1].down == m[k2].down ==> k1 == k2)
  }

  predicate PositiveDistances(m: Store) {
    forall k :: k in m ==> m[k].distance > 0
  }

  /** The store after deleting every section that `st` is an end of. */
  function WithoutStation(m: Store, st: StationId): (r: Store)
    ensures r.Keys == m.Keys - Incident(m, st)
    ensures forall k :: k in r ==> r[k] == m[k]
  {
    map k | k in m && m[k].up != st && m[k].down != st :: m[k]
  }

  /** The section that starts at `st` (the only one, when roles are unique). */
  ghost function UpMatch(m: Store, st: StationId): (k: SectionId)
    requires HasUp(m, st)
    ensures k in m && m[k].up == st
  {
    var k :| k in m && m[k].up == st; k
  }

  /** The section that ends at `st` (the only one, when roles are unique). */
  ghost function DownMatch(m: Store, st: StationId): (k: SectionId)
    requires HasDown(m, st)
    ensures k in m && m[k].down == st
  {
    var k :| k in m && m[k].down == st; k
  }

  lemma UpMatchUnique(m: Store, st: StationId, k: SectionId)
    requires UniqueRoles(m) && k in m && m[k].up == st
    ensures HasUp(m, st) && UpMatch(m, st) == k
  {
  }

  lemma DownMatchUnique(m: Store, st: StationId, k: SectionId)
    requires UniqueRoles(m) && k in m && m[k].down == st
    ensures HasDown(m, st) && DownMatch(m, st) == k
  {
  }

  /** The total length of the line: the sum of all its sections' distances. */
  ghost function TotalDistance(m: Store): int
    decreases m.Keys
  {
    if m == map[] then 0
    else
      var k :| k in m;
      m[k].distance + TotalDistance(m - {k})
  }

  /** The sum does not depend on which section it takes first. */
  lemma {:induction false} TotalDistanceRemove(m: Store, k: SectionId)
    requires k in m
    ensures TotalDistance(m) == m[k].distance + TotalDistance(m - {k})
    decreases m.Keys
  {
    var j :| j in m && TotalDistance(m) == m[j].distance + TotalDistance(m - {j});
    if j != k {
      var mj, mk := m - {j}, m - {k};
      assert mj - {k} == mk - {j};
      TotalDistanceRemove(mj, k);
      TotalDistanceRemove(mk, j);
    }
  }

  lemma TotalDistanceInsert(m: Store, k: SectionId, s: Section)
    requires k !in m
    ensures TotalDistance(m[k := s]) == TotalDistance(m) + s.distance
  {
    TotalDistanceRemove(m[k := s], k);
    assert m[k := s] - {k} == m;
  }

  lemma TotalDistanceUpdate(m: Store, k: SectionId, s: Section)
    requires k in m
    ensures TotalDistance(m[k := s]) == TotalDistance(m) - m[k].distance + s.distance
  {
    TotalDistanceRemove(m[k := s], k);
    TotalDistanceRemove(m, k);
    assert m[k := s] - {k} == m - {k};
  }

  lemma CardRemove(m: Store, k: SectionId)
    requires k in m
    ensures |m - {k}| == |m| - 1
  {
    assert (m - {k}).Keys == m.Keys - {k};
    assert |m.Keys - {k}| == |m.Keys| - 1;
  }

  /** Replacing section `inc` and removing section `out` drops one section
      and changes the total by the difference in length. */
  lemma MergeCounts(m: Store, inc: SectionId, out: SectionId, s: Section)
    requires inc in m && out in m && inc != out
    ensures |m[inc := s] - {out}| == |m| - 1
    ensures TotalDistance(m[inc := s] - {out}) == TotalDistance(m) - m[inc].distance - m[out].distance + s.distance
  {
    CardRemove(m[inc := s], out);
    TotalDistanceUpdate(m, inc, s);
    TotalDistanceRemove(m[inc := s], out);
  }
}
