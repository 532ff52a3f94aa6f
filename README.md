# MyTimePlan star service, modelled in Dafny

MyTimePlan is a Spring Boot application that keeps a catalogue of stars. Each
star has a store-assigned id, a name and a distance in light-years. Its
`StarService` does two kinds of work:

* **Analytics** over a list of stars supplied by the caller:
  * the `size` closest stars, closest first, with ties kept in input order;
  * the number of stars at each distance, in a map sorted by distance;
  * the stars with duplicate names removed, the first of each name kept.
* **Lifecycle** operations against the star repository: get by id, add
  (the name must be at least 3 characters long), update in place, and delete.

The `Star` entity compares and hashes by name only, and that decides which
stars count as duplicates.

The model has six modules:

* `Errors` holds the two exception kinds the service throws, as an `Error`
  datatype inside a `Result`: `IllegalArgumentException` becomes
  `InvalidArgument` and `NoSuchElementException` becomes `NotFound`. Each
  keeps the exception's message text. The module also defines `Long.toString`,
  which both error messages use.
* `Stars` holds the `Star` entity as a class with mutable fields. It includes
  the constructor, the setters, name-only `equals`, `hashCode` (Java's 32-bit
  `String.hashCode` arithmetic written out) and the two declared validation
  constraints.
* `Store` is the repository the service talks to. It keeps a map from id to
  managed `Star` object and an identity counter that hands out fresh ids. It
  also logs the calls made to it, which is the interaction the unit tests
  check with their mocks.
* `Analytics` holds the three analytics operations as functions over
  `seq<Star>`:
  * the stable sort is an insertion sort, which is stable;
  * the sorted `TreeMap` is a list of entries with strictly ascending keys;
  * the `LinkedHashSet` copy is a left fold that adds a star unless an equal
    one is already there.
* `Service` holds `StarService` as a class over one `StarStore`. Its methods
  make the same repository calls as the Java code, in the same order.
* `Scenarios` replays the unit tests against the model.

`findClosestStars` does not check `size` itself. `Stream.limit`
(StarService.java:51) throws `IllegalArgumentException` for a negative size,
with `Long.toString(size)` as its message. `FindClosestStars` models that as
an `InvalidArgument` failure carrying that text.

## Model

| member | source | states |
|---|---|---|
| Errors.DecimalString | src/main/java/com/example/mytimeplan/service/StarService.java:101 | `Long.toString`: never empty; a minus sign first exactly when the number is negative; every other character an ASCII digit; no leading zero; reads back as the number |
| Errors.DecimalStringInjective | src/main/java/com/example/mytimeplan/service/StarService.java:101 | different numbers have different decimal texts |
| Errors.DigitsRoundTrip | src/main/java/com/example/mytimeplan/service/StarService.java:101 | reading the decimal digits of a natural number back gives that number |
| Stars.ToInt32 | src/main/java/com/example/mytimeplan/model/Star.java:69-72 | reads a 32-bit pattern as a Java `int`: in int range and congruent to the pattern modulo 2^32 |
| Stars.StringHashBits | src/main/java/com/example/mytimeplan/model/Star.java:69-72 | the result is a 32-bit pattern, in [0, 2^32); the body computes `String.hashCode`'s `31*h + c` recurrence modulo 2^32 |
| Stars.NameHash | src/main/java/com/example/mytimeplan/model/Star.java:69-72 | the result is a Java `int`; the body computes `Objects.hash(name)`, that is `31 + name.hashCode()` with int wrap-around |
| Stars.TrimStart | src/main/java/com/example/mytimeplan/model/Star.java:22-23 | `String.trim`'s forward scan stops at the first character above U+0020, having passed only characters at or below it |
| Stars.TrimEnd | src/main/java/com/example/mytimeplan/model/Star.java:22-23 | `String.trim`'s backward scan stops just after the last character above U+0020 (never below the start), having passed only characters at or below it |
| Stars.Trim | src/main/java/com/example/mytimeplan/model/Star.java:22-23 | `String.trim`: a slice of the input such that everything cut off before and after it is at or below U+0020, and the slice is empty or starts and ends above U+0020 |
| Stars.TrimEmptyIffBlank | src/main/java/com/example/mytimeplan/model/Star.java:22-23 | trimming leaves nothing exactly when every character is at or below U+0020 |
| Stars.NotBlank | src/main/java/com/example/mytimeplan/model/Star.java:22-23 | `@NotBlank` holds exactly when the name has a character above U+0020 |
| Stars.Star.IsValid | src/main/java/com/example/mytimeplan/model/Star.java:22-26 | the declared constraints hold exactly when the name has a character above U+0020 and the distance is at least 0 |
| Stars.Star.constructor | src/main/java/com/example/mytimeplan/model/Star.java:40-43 | a new star has the given name and distance and no id yet |
| Stars.Star.SetName | src/main/java/com/example/mytimeplan/model/Star.java:50-52 | replaces the name; id and distance unchanged |
| Stars.Star.SetDistance | src/main/java/com/example/mytimeplan/model/Star.java:58-60 | replaces the distance; id and name unchanged |
| Stars.Star.Equals | src/main/java/com/example/mytimeplan/model/Star.java:62-67 | true exactly when the other object is a `Star` with the same name (false for null and for non-stars) |
| Stars.Star.HashCode | src/main/java/com/example/mytimeplan/model/Star.java:69-72 | the hash of the name alone, a Java `int` |
| Stars.EqualsIffSameName | src/main/java/com/example/mytimeplan/model/Star.java:62-67 | two stars are equal exactly when their names are, whatever their ids and distances |
| Stars.EqualsReflexive | src/main/java/com/example/mytimeplan/model/Star.java:64 | every star equals itself |
| Stars.EqualsSymmetric | src/main/java/com/example/mytimeplan/model/Star.java:62-67 | `a.equals(b)` exactly when `b.equals(a)` |
| Stars.EqualsTransitive | src/main/java/com/example/mytimeplan/model/Star.java:62-67 | equality of stars is transitive |
| Stars.HashCodeConsistentWithEquals | src/main/java/com/example/mytimeplan/model/Star.java:62-72 | equal stars have equal hash codes, so hashed collections treat them as duplicates |
| Store.StarStore.constructor | src/main/java/com/example/mytimeplan/repository/StarRepository.java:7-8 | an empty repository that has logged no calls |
| Store.StarStore.FindById | src/main/java/com/example/mytimeplan/repository/StarRepository.java:7-8 | `findById`: the managed star under the id, or empty; logs the call and changes nothing else |
| Store.StarStore.Save | src/main/java/com/example/mytimeplan/model/Star.java:18-20 | `save`: a star without an id gets a fresh one that no stored record uses, and an existing id is kept; the star is stored under its id and the other records are untouched; the returned object is the argument; the store invariant (every record carries its own key) is preserved |
| Store.StarStore.DeleteById | src/main/java/com/example/mytimeplan/repository/StarRepository.java:7-8 | `deleteById`: removes exactly the record under the id; an absent id changes nothing |
| Service.NotFoundError | src/main/java/com/example/mytimeplan/service/StarService.java:99-102 | a not-found error whose message is "Star not found with id: " followed by the id in decimal |
| Service.NotFoundErrorInjective | src/main/java/com/example/mytimeplan/service/StarService.java:99-102 | different ids give different not-found errors, so the message names the id exactly |
| Service.StarService.constructor | src/main/java/com/example/mytimeplan/service/StarService.java:30-33 | the service keeps the repository it is given |
| Service.StarService.GetStarById | src/main/java/com/example/mytimeplan/service/StarService.java:95-103 | one `findById`; the stored star, whose id is the one asked for, or a not-found error when the id is absent |
| Service.StarService.AddStar | src/main/java/com/example/mytimeplan/service/StarService.java:111-118 | a name shorter than 3 characters fails with the service's message and leaves the repository and the star untouched; otherwise exactly one `save` of the star, which is stored under its (possibly new) id and returned |
| Service.StarService.UpdateStar | src/main/java/com/example/mytimeplan/service/StarService.java:128-135 | an absent id fails as `getStarById` does, after one `findById` and nothing else; otherwise `findById` then `save` of the stored object, which keeps its id and now holds the new name and distance; no other record changes |
| Service.StarService.DeleteStar | src/main/java/com/example/mytimeplan/service/StarService.java:142-146 | one `deleteById`; the record is gone and nothing else changes; an absent id is not an error |
| Analytics.InsertByDistance | src/main/java/com/example/mytimeplan/service/StarService.java:50 | one insertion step: the result is the list plus the star (as a multiset) and stays sorted by distance |
| Analytics.InsertAtDistance | src/main/java/com/example/mytimeplan/service/StarService.java:50 | the inserted star lands in front of the stars at its own distance and leaves their order alone |
| Analytics.StableSort | src/main/java/com/example/mytimeplan/service/StarService.java:50 | `sorted(comparingLong(getDistance))`: a permutation of the input, sorted by ascending distance |
| Analytics.StableSortIsStable | src/main/java/com/example/mytimeplan/service/StarService.java:50 | for every distance, the stars at that distance come out in their input order |
| Analytics.StableSortOfSorted | src/main/java/com/example/mytimeplan/service/StarService.java:50 | an input already sorted by distance comes out unchanged |
| Analytics.Limit | src/main/java/com/example/mytimeplan/service/StarService.java:51 | `Stream.limit(n)` for `n >= 0`: a prefix of the input of length `min(n, size)` |
| Analytics.FindClosestStars | src/main/java/com/example/mytimeplan/service/StarService.java:43-53 | an empty list fails with "Star list cannot be null or empty"; a negative size fails with the size as its message; otherwise the result has `min(size, n)` stars, is sorted by distance and is drawn from the input |
| Analytics.ClosestStarsAreStable | src/main/java/com/example/mytimeplan/service/StarService.java:49-52 | for every distance, the result's stars at that distance are the first ones at that distance in the input, in input order |
| Analytics.ClosestStarsAreClosest | src/main/java/com/example/mytimeplan/service/StarService.java:49-52 | every star left out is at least as far as every star returned |
| Analytics.Lookup | src/main/java/com/example/mytimeplan/service/StarService.java:69 | `TreeMap.get`: nothing exactly when no entry has the key, otherwise the count of an entry with that key |
| Analytics.Increment | src/main/java/com/example/mytimeplan/service/StarService.java:69 | one grouping step keeps the keys strictly ascending and adds one to the total count |
| Analytics.IncrementLookup | src/main/java/com/example/mytimeplan/service/StarService.java:69 | after a grouping step the count under that distance is one more (1 if it was absent), and every other entry is unchanged |
| Analytics.GroupCounts | src/main/java/com/example/mytimeplan/service/StarService.java:68-69 | the `TreeMap` built by `groupingBy`: keys strictly ascending, counts summing to the number of stars |
| Analytics.GroupCountsLookup | src/main/java/com/example/mytimeplan/service/StarService.java:68-69 | the count under a distance is the number of input stars at it; distances no star has are absent |
| Analytics.GetNumberOfStarsByDistances | src/main/java/com/example/mytimeplan/service/StarService.java:62-70 | an empty list fails with "Star list cannot be null or empty"; otherwise a map in ascending distance order whose counts add up to the list's length |
| Analytics.DistanceCountsExact | src/main/java/com/example/mytimeplan/service/StarService.java:62-70 | on a non-empty list, each distance maps to exactly the number of stars at it, and only distances that occur are keys |
| Analytics.ContainsEqual | src/main/java/com/example/mytimeplan/service/StarService.java:85 | `LinkedHashSet.add`'s duplicate test holds exactly when a star with the same name is already there |
| Analytics.Unique | src/main/java/com/example/mytimeplan/service/StarService.java:85 | the `LinkedHashSet` copy: only input stars, every input name present, no name twice |
| Analytics.UniqueKeepsFirst | src/main/java/com/example/mytimeplan/service/StarService.java:85 | each star kept is the first input star with its name |
| Analytics.UniqueInFirstSeenOrder | src/main/java/com/example/mytimeplan/service/StarService.java:85 | the stars kept are in the order in which their names first appear in the input |
| Analytics.UniqueSize | src/main/java/com/example/mytimeplan/service/StarService.java:85 | as many stars are kept as there are distinct names |
| Analytics.UniqueOfDistinct | src/main/java/com/example/mytimeplan/service/StarService.java:85 | a list without duplicate names is returned unchanged |
| Analytics.GetUniqueStars | src/main/java/com/example/mytimeplan/service/StarService.java:79-86 | an empty collection fails with "Star collection cannot be null or empty"; otherwise input stars only, all names present, no name twice |
| Analytics.GetUniqueStarsIdempotent | src/main/java/com/example/mytimeplan/service/StarService.java:79-86 | de-duplicating the result again gives the same result |
| Scenarios.ClosestStarsExample | src/test/java/com/example/mytimeplan/StarServiceTest.java:37-49 | distances 4, 6, 8, 9 with size 2 give exactly the first two stars; an empty list fails |
| Scenarios.StableSortExample | src/main/java/com/example/mytimeplan/service/StarService.java:50 | distances 5, 1, 5 sort to the 1 first, then the two 5s in input order |
| Scenarios.DistanceCountsExample | src/test/java/com/example/mytimeplan/StarServiceTest.java:56-68 | distances 4, 6, 8, 8 give the map {4: 1, 6: 1, 8: 2} |
| Scenarios.UniqueStarsExample | src/test/java/com/example/mytimeplan/StarServiceTest.java:75-88 | a second "Alpha Centauri" is dropped, leaving the first three stars in order |
| Scenarios.LifecycleScenario | src/test/java/com/example/mytimeplan/StarServiceTest.java:95-150 | on one store: a two-letter name is refused; a new star is added, found and updated to "Updated Star" at 25; once deleted it is neither found nor updatable, and deleting it twice is harmless |

## Left out

- The HTTP controller, the application entry point and the exception handler are left out. The handler only turns `InvalidArgument` into HTTP 400 and `NotFound` into HTTP 404, each with the message as the body. The two error kinds and their messages are modelled.
- Logging and `@Transactional` are not modelled. The transaction boundary only matters under concurrency.
- `@Cacheable` on the three analytics operations is not modelled; the model computes every result afresh. With caching enabled (MyTimePlanApplication.java:8), the cache key compares argument lists with `List.equals`, and so with `Star.equals`, which looks at names only. A call can therefore return a cached result computed for an earlier list whose stars had the same names but different distances. For example, `getNumberOfStarsByDistances([Star("A", 4)])` followed by `getNumberOfStarsByDistances([Star("A", 9)])` returns `{4: 1}` again.
- Concurrency is not modelled. `updateStar`'s read-modify-write is not atomic against concurrent updates of the same id, and the model has a single caller.
- Null arguments are not modelled: a null list, a null collection, a null id, a null star or a null name. Model values cannot be null. The empty-list and empty-collection failures are modelled.
- The no-argument JPA constructor is left out. It creates a star with a null name, which the model has no value for.
- Java's `long` and `int` ranges for ids and distances are not modelled. Ids and distances are unbounded integers. The service only compares, stores and prints them, so no overflow is reachable through it. Counts in the distance map are natural numbers; an `Integer` count would overflow only past 2^31 stars.
- Characters are Dafny `char`s, not UTF-16 code units. The 3-character length check and `String.hashCode` count a character outside the Basic Multilingual Plane once, where Java counts two code units.
- The database behind `StarRepository` is not modelled. It is reduced to the id-keyed map of managed objects and the identity counter. Detached-entity merging, flushing, constraint enforcement on save and errors raised by the database are left out.
- `Analytics.GetNumberOfStarsByDistances`: the `TreeMap` is an ordered list of (distance, count) entries with strictly ascending keys, and `Lookup` stands for `get`. The map interface itself is not modelled.
- `Analytics.GetUniqueStars`: the result is a sequence with unique names and `LinkedHashSet` iteration order, not a set object. Hash buckets and `HashMap` internals are not modelled, and only the equality they decide by is modelled.
