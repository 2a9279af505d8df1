/** The section store of one line: the data-access calls the service makes,
    each one a method on a map from generated ids to sections. */
module SectionDao {
  import opened Sections

  class SectionStore {
    var sections: Store
    /** The next id the store will generate. */
    var nextId: SectionId

    /** Every stored id was generated before `nextId`. */
    ghost predicate Valid()
      reads this
    {
      forall k :: k in sections ==> k < nextId
    }

    /** A store holding the line's first section, saved when the line was created. */
    constructor (first: Section)
      ensures Valid() && sections == map[0 := first] && nextId == 1
    {
      sections := map[0 := first];
      nextId := 1;
    }

    /** All sections of the line. */
    method FindAll() returns (all: Store)
      ensures all == sections
    {
      all := sections;
    }

    /** The section starting at `st`, if there is one. */
    method FindByUpStation(st: StationId) returns (r: Option<SectionId>)
      ensures r.None? <==> !HasUp(sections, st)
      ensures r.Some? ==> r.value in sections && sections[r.value].up == st
    {
      if HasUp(sections, st) {
        var k :| k in sections && sections[k].up == st;
        r := Some(k);
      } else {
        r := None;
      }
    }

    /** The section ending at `st`, if there is one. */
    method FindByDownStation(st: StationId) returns (r: Option<SectionId>)
      ensures r.None? <==> !HasDown(sections, st)
      ensures r.Some? ==> r.value in sections && sections[r.value].down == st
    {
      if HasDown(sections, st) {
        var k :| k in sections && sections[k].down == st;
        r := Some(k);
      } else {
        r := None;
      }
    }

    /** Overwrites the section stored under `id`; there is nothing to overwrite
        when no section has that id. */
    method Update(id: SectionId, s: Section)
      requires Valid()
      modifies this
      ensures Valid() && nextId == old(nextId)
      ensures sections == if id in old(sections) then old(sections)[id := s] else old(sections)
    {
      if id in sections {
        sections := sections[id := s];
      }
    }

    /** Stores `s` under a newly generated id. */
    method Save(s: Section) returns (id: SectionId)
      requires Valid()
      modifies this
      ensures Valid()
      ensures id == old(nextId) && id !in old(sections)
      ensures sections == old(sections)[id := s]
    {
      id := nextId;
      sections := sections[id := s];
      nextId := nextId + 1;
    }

    method DeleteById(id: SectionId)
      requires Valid()
      modifies this
      ensures Valid() && nextId == old(nextId)
      ensures sections == old(sections) - {id}
    {
      sections := sections - {id};
    }

    /** Deletes every section that starts or ends at `st`. */
    method DeleteByStation(st: StationId)
      requires Valid()
      modifies this
      ensures Valid() && nextId == old(nextId)
      ensures sections == WithoutStation(old(sections), st)
      ensures sections.Keys == old(sections).Keys - Incident(old(sections), st)
    {
      sections := WithoutStation(sections, st);
    }
  }
}
