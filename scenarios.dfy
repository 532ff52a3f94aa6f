/**
 * The service's unit-test scenarios, replayed against the model: each lemma
 * takes the test's stars and proves what the test expects, and the lifecycle
 * method drives the service through one store, using only the contracts of
 * the operations it calls.
 */
module Scenarios {
  import opened Errors
  import opened Stars
  import opened Store
  import opened Analytics
  import opened Service

  /** The closest-stars test: distances 4, 6, 8, 9 and size 2 give the first two stars. */
  lemma ClosestStarsExample(alpha: Star, barnard: Star, wolf: Star, sirius: Star)
    requires alpha.distance == 4 && barnard.distance == 6 && wolf.distance == 8 && sirius.distance == 9
    ensures FindClosestStars([alpha, barnard, wolf, sirius], 2) == Success([alpha, barnard])
    ensures FindClosestStars([], 2) == Failure(InvalidArgument(EmptyList))
  {
    var stars := [alpha, barnard, wolf, sirius];
    assert Limit(stars, 2) == [alpha, barnard];
    assert SortedByDistance(stars);
    StableSortOfSorted(stars);
  }

  /** Sorting distances 5, 1, 5 moves the closer star to the front and keeps the two 5s in order. */
  lemma StableSortExample(tie1: Star, near: Star, tie2: Star)
    requires tie1.distance == 5 && near.distance == 1 && tie2.distance == 5
    ensures StableSort([tie1, near, tie2]) == [near, tie1, tie2]
  {
    assert [tie1, near, tie2][1..] == [near, tie2];
    assert [near, tie2][1..] == [tie2];
    assert StableSort([tie2]) == [tie2];
    assert StableSort([near, tie2]) == [near, tie2];
    assert InsertByDistance(tie1, [tie2]) == [tie1, tie2];
    assert InsertByDistance(tie1, [near, tie2]) == [near, tie1, tie2];
  }

  /** The distance-count test: distances 4, 6, 8, 8 give {4: 1, 6: 1, 8: 2}. */
  lemma DistanceCountsExample(alpha: Star, barnard: Star, wolf: Star, sirius: Star)
    requires alpha.distance == 4 && barnard.distance == 6 && wolf.distance == 8 && sirius.distance == 8
    ensures GetNumberOfStarsByDistances([alpha, barnard, wolf, sirius])
      == Success([DistanceCount(4, 1), DistanceCount(6, 1), DistanceCount(8, 2)])
  {
    var stars := [alpha, barnard, wolf, sirius];
    assert stars[..3] == [alpha, barnard, wolf];
    assert stars[..3][..2] == [alpha, barnard];
    assert stars[..3][..2][..1] == [alpha];
    assert stars[..3][..2][..1][..0] == [];
    var m1 := [DistanceCount(4, 1)];
    var m2 := [DistanceCount(4, 1), DistanceCount(6, 1)];
    var m3 := [DistanceCount(4, 1), DistanceCount(6, 1), DistanceCount(8, 1)];
    assert GroupCounts([alpha]) == m1;
    assert m1[1..] == [];
    assert GroupCounts([alpha, barnard]) == m2;
    assert m2[1..] == [DistanceCount(6, 1)] && m2[1..][1..] == [];
    assert GroupCounts([alpha, barnard, wolf]) == m3;
    assert m3[1..] == [DistanceCount(6, 1), DistanceCount(8, 1)] && m3[1..][1..] == [DistanceCount(8, 1)];
    assert Increment(m3, 8) == [DistanceCount(4, 1), DistanceCount(6, 1), DistanceCount(8, 2)];
  }

  /** The unique-stars test: a second "Alpha Centauri" is dropped, whatever its distance. */
  lemma UniqueStarsExample(alpha: Star, barnard: Star, wolf: Star, alpha2: Star)
    requires alpha.name == "Alpha Centauri" && barnard.name == "Barnard's Star"
    requires wolf.name == "Wolf 359" && alpha2.name == "Alpha Centauri"
    ensures GetUniqueStars([alpha, barnard, wolf, alpha2]) == Success([alpha, barnard, wolf])
  {
    var stars := [alpha, barnard, wolf, alpha2];
    assert stars[..3] == [alpha, barnard, wolf];
    assert NamesDistinct(stars[..3]);
    UniqueOfDistinct(stars[..3]);
    assert ContainsEqual(stars[..3], alpha2);
  }

  /**
   * The look-up, add, update and delete tests, run in sequence against one
   * fresh store: a two-letter name is refused, a new star is saved and found,
   * updated in place, deleted, and afterwards neither found nor updatable;
   * deleting it twice is harmless.
   */
  method LifecycleScenario() returns (rejected: Result<Star>, updated: Result<Star>, updatedName: string,
                                      updatedDistance: int, missing: Result<Star>, stillMissing: Result<Star>)
    ensures rejected == Failure(InvalidArgument(NameTooShort))
    ensures updated.Success? && updatedName == "Updated Star" && updatedDistance == 25
    ensures missing.Failure? && missing.error.NotFound? && NotFoundPrefix <= missing.error.message
    ensures stillMissing.Failure? && stillMissing.error.NotFound?
  {
    var store := new StarStore();
    var service := new StarService(store);

    var tooShort := new Star("Xi", 15);
    rejected := service.AddStar(tooShort);
    assert store.records == map[];

    var newStar := new Star("New Star", 15);
    var added := service.AddStar(newStar);
    assert added == Success(newStar) && newStar.id.Some?;
    var id := newStar.id.value;

    var fetched := service.GetStarById(id);
    assert fetched == Success(newStar);

    var updatedStar := new Star("Updated Star", 25);
    updated := service.UpdateStar(id, updatedStar);
    assert updated.value == newStar && newStar.id == Some(id);
    updatedName, updatedDistance := newStar.name, newStar.distance;

    service.DeleteStar(id);
    missing := service.GetStarById(id);
    service.DeleteStar(id);
    stillMissing := service.UpdateStar(id, updatedStar);
  }
}
