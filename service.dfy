/**
 * The lifecycle half of the star service: look-up, add, update and delete,
 * each a short sequence of repository calls with its own error rules.
 */
module Service {
  import opened Errors
  import opened Stars
  import opened Store

  const NameTooShort: string := "Star name must be at least 3 characters long"
  const NotFoundPrefix: string := "Star not found with id: "

  /** The not-found error for `id`: the fixed prefix, then the id in decimal. */
  function NotFoundError(id: int): (e: Error)
    ensures e.NotFound? && NotFoundPrefix <= e.message
    ensures e.message[|NotFoundPrefix|..] == DecimalString(id)
  {
    NotFound(NotFoundPrefix + DecimalString(id))
  }

  /** The message tells the ids apart: different ids give different errors. */
  lemma NotFoundErrorInjective(a: int, b: int)
    requires NotFoundError(a) == NotFoundError(b)
    ensures a == b
  {
    DecimalStringInjective(a, b);
  }

  /*
   * Two small facts about the record map and the call log, stated apart so
   * that the proof of `UpdateStar` stays small.
   */

  /** Storing under a key the value already there changes nothing. */
  lemma StoreSameValue<K, V>(m: map<K, V>, k: K, v: V)
    requires k in m && m[k] == v
    ensures m[k := v] == m
  {
  }

  /** Two calls logged one after the other. */
  lemma LogTwice<T>(log: seq<T>, first: T, second: T)
    ensures log + [first] + [second] == log + [first, second]
  {
  }

  class StarService {
    /** The repository the service was constructed with; the service never replaces it. */
    const repository: StarStore

    constructor (repository: StarStore)
      ensures this.repository == repository
    {
      this.repository := repository;
    }

    ghost predicate Valid()
      reads this, repository, repository.records.Values
    {
      repository.Valid()
    }

    /**
     * `getStarById`: one `findById`; the stored star, or a not-found error.
     * Nothing stored changes.
     */
    method GetStarById(id: int) returns (r: Result<Star>)
      requires Valid()
      modifies repository`calls
      ensures repository.calls == old(repository.calls) + [Call.FindById(id)]
      ensures id in repository.records ==> r == Success(repository.records[id]) && r.value.id == Some(id)
      ensures id !in repository.records ==> r == Failure(NotFoundError(id))
    {
      var found := repository.FindById(id);
      match found
      case Some(star) => r := Success(star);
      case None => r := Failure(NotFoundError(id));
    }

    /**
     * `addStar`: a name shorter than 3 characters is rejected before the
     * repository is touched; otherwise one `save`, whose result is returned.
     */
    method AddStar(star: Star) returns (r: Result<Star>)
      requires Valid()
      modifies repository, star
      ensures Valid()
      ensures |old(star.name)| < 3 ==>
        && r == Failure(InvalidArgument(NameTooShort))
        && unchanged(repository, star)
        && repository.Rows() == old(repository.Rows())
      ensures 3 <= |old(star.name)| ==>
        && r == Success(star)
        && repository.calls == old(repository.calls) + [Call.Save(star)]
        && star.name == old(star.name) && star.distance == old(star.distance)
        && (old(star.id) == None ==> star.id.Some? && star.id.value !in old(repository.records))
        && (old(star.id) != None ==> star.id == old(star.id))
        && star.id.Some?
        && repository.records == old(repository.records)[star.id.value := star]
        && repository.Rows() == old(repository.Rows())[star.id.value := Row(star.name, star.distance)]
    {
      if |star.name| < 3 {
        r := Failure(InvalidArgument(NameTooShort));
        return;
      }
      var saved := repository.Save(star);
      r := Success(saved);
    }

    /**
     * `updateStar`: looks the star up (failing as `getStarById` does), overwrites
     * its name and distance in place, and saves it. The record stays under the
     * same id and no other record changes.
     */
    method UpdateStar(id: int, star: Star) returns (r: Result<Star>)
      requires Valid()
      modifies repository, repository.records.Values
      ensures Valid()
      ensures id !in old(repository.records) ==>
        && r == Failure(NotFoundError(id))
        && repository.calls == old(repository.calls) + [Call.FindById(id)]
        && repository.records == old(repository.records)
        && repository.Rows() == old(repository.Rows())
      ensures id in old(repository.records) ==>
        && r == Success(old(repository.records[id]))
        && r.value.id == Some(id)
        && repository.calls == old(repository.calls) + [Call.FindById(id), Call.Save(r.value)]
        && repository.records == old(repository.records)
        && repository.Rows() == old(repository.Rows())[id := Row(old(star.name), old(star.distance))]
    {
      var found := GetStarById(id);
      if found.Failure? {
        r := Failure(found.error);
        return;
      }
      var existing := found.value;
      ghost var records, calls := repository.records, repository.calls;
      ghost var rows := old(repository.Rows())[id := Row(star.name, star.distance)];
      existing.SetName(star.name);
      existing.SetDistance(star.distance);
      // every other record is a different object (its id is its own key), so the setters left it alone
      forall k | k in repository.records
        ensures repository.Rows()[k] == rows[k]
      {
        if k != id {
          assert repository.records[k].id != existing.id;
        }
      }
      assert repository.Rows() == rows;
      var saved := repository.Save(existing);
      LogTwice(old(repository.calls), Call.FindById(id), Call.Save(existing));
      StoreSameValue(records, id, existing);
      StoreSameValue(rows, id, Row(existing.name, existing.distance));
      r := Success(saved);
    }

    /**
     * `deleteStar`: one `deleteById`. An absent id is not an error; no other
     * record changes.
     */
    method DeleteStar(id: int)
      requires Valid()
      modifies repository
      ensures Valid()
      ensures repository.calls == old(repository.calls) + [Call.DeleteById(id)]
      ensures repository.records == old(repository.records) - {id}
      ensures repository.Rows() == old(repository.Rows()) - {id}
    {
      repository.DeleteById(id);
    }
  }
}
