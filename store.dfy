/**
 * The star repository as the service uses it: find by id, save, delete by
 * id, over id-keyed records. The database behind it is abstracted to a map
 * of stored entities and an identity counter that hands out fresh ids.
 */
module Store {
  import opened Errors
  import opened Stars

  /** What one stored record holds, apart from its key. */
  datatype Row = Row(name: string, distance: int)

  /** One invocation of the repository, in the order the service makes them. */
  datatype Call = FindById(id: int) | Save(star: Star) | DeleteById(id: int)

  class StarStore {
    /** The managed entities, by id. */
    var records: map<int, Star>
    /** The next value of the identity column. */
    var nextId: int
    /** Every repository call made so far (the interaction a mock would record). */
    ghost var calls: seq<Call>

    /** Every stored entity carries its own key as id, and every key was handed out already. */
    ghost predicate Valid()
      reads this, records.Values
    {
      forall k | k in records :: k < nextId && records[k].id == Some(k)
    }

    /** The stored rows: what a fresh read of each record would show. */
    ghost function Rows(): (rows: map<int, Row>)
      reads this, records.Values
      ensures rows.Keys == records.Keys
    {
      map k | k in records :: Row(records[k].name, records[k].distance)
    }

    constructor ()
      ensures Valid()
      ensures records == map[] && calls == []
    {
      records := map[];
      nextId := 1;
      calls := [];
    }

    /** `findById`: the managed entity under `id`, if there is one. */
    method FindById(id: int) returns (r: Option<Star>)
      modifies this`calls
      ensures calls == old(calls) + [Call.FindById(id)]
      ensures id in records ==> r == Some(records[id])
      ensures id !in records ==> r == None
    {
      calls := calls + [Call.FindById(id)];
      r := if id in records then Some(records[id]) else None;
    }

    /**
     * `save`: a star without an id gets the next identity value; the star is
     * then stored under its id, replacing what was there, and returned.
     */
    method Save(star: Star) returns (saved: Star)
      requires Valid()
      modifies this, star
      ensures Valid()
      ensures saved == star
      ensures calls == old(calls) + [Call.Save(star)]
      ensures star.name == old(star.name) && star.distance == old(star.distance)
      ensures old(star.id) == None ==> star.id == Some(old(nextId)) && old(nextId) !in old(records)
      ensures old(star.id) != None ==> star.id == old(star.id)
      ensures star.id.Some? && records == old(records)[star.id.value := star]
      ensures Rows() == old(Rows())[star.id.value := Row(star.name, star.distance)]
    {
      calls := calls + [Call.Save(star)];
      if star.id == None {
        star.id := Some(nextId);
      }
      var key := star.id.value;
      if nextId <= key {
        nextId := key + 1;
      }
      records := records[key := star];
      saved := star;
    }

    /** `deleteById`: removes the record under `id`; an absent id is not an error. */
    method DeleteById(id: int)
      requires Valid()
      modifies this
      ensures Valid()
      ensures calls == old(calls) + [Call.DeleteById(id)]
      ensures records == old(records) - {id}
      ensures Rows() == old(Rows()) - {id}
    {
      calls := calls + [Call.DeleteById(id)];
      records := records - {id};
    }
  }
}
