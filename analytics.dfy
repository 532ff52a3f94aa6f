/**
 * The three analytics operations of the star service. Each works on a list of
 * stars supplied by the caller (not on the store), rejects an empty list, and
 * changes nothing.
 */
module Analytics {
  import opened Errors
  import opened Stars

  const EmptyList: string := "Star list cannot be null or empty"
  const EmptyCollection: string := "Star collection cannot be null or empty"

  function Min(a: int, b: int): int
  {
    if a <= b then a else b
  }

  /*
   * Stars at one distance
   */

  /** The stars of `s` at distance `d`, in their order in `s`. */
  function AtDistance(s: seq<Star>, d: int): (r: seq<Star>)
    reads s
    ensures |r| <= |s|
    ensures forall i | 0 <= i < |r| :: r[i].distance == d
  {
    if s == [] then []
    else (if s[0].distance == d then [s[0]] else []) + AtDistance(s[1..], d)
  }

  lemma {:induction false} AtDistanceAppend(a: seq<Star>, b: seq<Star>, d: int)
    ensures AtDistance(a + b, d) == AtDistance(a, d) + AtDistance(b, d)
  {
    if a == [] {
      assert a + b == b;
    } else {
      assert (a + b)[0] == a[0];
      assert (a + b)[1..] == a[1..] + b;
      AtDistanceAppend(a[1..], b, d);
    }
  }

  /** `AtDistance` of a list split before its last star. */
  lemma AtDistanceSnoc(s: seq<Star>, d: int)
    requires s != []
    ensures AtDistance(s, d) ==
      AtDistance(s[..|s| - 1], d) + (if s[|s| - 1].distance == d then [s[|s| - 1]] else [])
  {
    var init, last := s[..|s| - 1], s[|s| - 1];
    assert s == init + [last];
    AtDistanceAppend(init, [last], d);
    assert [last][1..] == [];
  }

  /** The stars at distance `d` in a prefix of `s` are a prefix of those in `s`. */
  lemma AtDistancePrefix(s: seq<Star>, k: nat, d: int)
    requires k <= |s|
    ensures AtDistance(s[..k], d) <= AtDistance(s, d)
  {
    assert s == s[..k] + s[k..];
    AtDistanceAppend(s[..k], s[k..], d);
  }

  /** Some star of `s` is at distance `d` exactly when `AtDistance(s, d)` is not empty. */
  lemma {:induction false} AtDistanceNonEmpty(s: seq<Star>, d: int)
    ensures AtDistance(s, d) != [] <==> exists i | 0 <= i < |s| :: s[i].distance == d
  {
    if s != [] {
      AtDistanceNonEmpty(s[1..], d);
      if s[0].distance != d && exists i | 0 <= i < |s| :: s[i].distance == d {
        var i :| 0 <= i < |s| && s[i].distance == d;
        assert s[1..][i - 1].distance == d;
      }
    }
  }

  /*
   * findClosestStars: a stable sort by distance, then the first `size` stars
   */

  /** Sequences with the same multiset of stars hold the same stars. */
  lemma SameMembers(a: seq<Star>, b: seq<Star>)
    requires multiset(a) <= multiset(b)
    ensures forall i | 0 <= i < |a| :: a[i] in b
  {
    forall i | 0 <= i < |a| ensures a[i] in b {
      assert a[i] in multiset(a);
    }
  }

  /** The facts about `s[0]` and the sorted tail that the sort's recursive step needs. */
  lemma SortStep(s: seq<Star>, rest: seq<Star>)
    requires s != [] && multiset(rest) == multiset(s[1..])
    ensures forall i | 0 <= i < |rest| :: rest[i] in s
    ensures multiset(rest) + multiset{s[0]} == multiset(s)
  {
    assert s == [s[0]] + s[1..];
    SameMembers(rest, s[1..]);
  }

  predicate SortedByDistance(s: seq<Star>)
    reads s
  {
    forall i, j | 0 <= i < j < |s| :: s[i].distance <= s[j].distance
  }

  /** Dropping the first star of a sorted list leaves a sorted list. */
  lemma SortedTail(t: seq<Star>)
    ensures t != [] && SortedByDistance(t) ==> SortedByDistance(t[1..])
  {
  }

  /** A star no farther than the head of a sorted list can go in front of it. */
  lemma SortedCons(y: Star, r: seq<Star>)
    ensures SortedByDistance(r) && (r != [] ==> y.distance <= r[0].distance) ==> SortedByDistance([y] + r)
  {
    if SortedByDistance(r) && (r != [] ==> y.distance <= r[0].distance) {
      forall i, j | 0 <= i < j < |r| + 1
        ensures ([y] + r)[i].distance <= ([y] + r)[j].distance
      {
        if i == 0 {
          assert r[0].distance <= r[j - 1].distance;
        }
      }
    }
  }

  /** Puts `x` in front of the first star of `t` that is not closer than `x`. */
  function InsertByDistance(x: Star, t: seq<Star>): (r: seq<Star>)
    reads x, t
    ensures |r| == |t| + 1
    ensures r[0] == x || (t != [] && r[0] == t[0])
    ensures multiset(r) == multiset(t) + multiset{x}
    ensures SortedByDistance(t) ==> SortedByDistance(r)
  {
    if t == [] || x.distance <= t[0].distance then
      SortedCons(x, t);
      [x] + t
    else
      SortedTail(t);
      var rest := InsertByDistance(x, t[1..]);
      SortedCons(t[0], rest);
      assert t == [t[0]] + t[1..];
      [t[0]] + rest
  }

  /** A first star at distance `d` heads `AtDistance`. */
  lemma ConsAt(y: Star, t: seq<Star>, d: int)
    requires y.distance == d
    ensures AtDistance([y] + t, d) == [y] + AtDistance(t, d)
  {
    assert ([y] + t)[1..] == t;
  }

  /** A first star at another distance is skipped by `AtDistance`. */
  lemma ConsNotAt(y: Star, t: seq<Star>, d: int)
    requires y.distance != d
    ensures AtDistance([y] + t, d) == AtDistance(t, d)
  {
    assert ([y] + t)[1..] == t;
  }

  /** Putting a star closer than `x` in front of both sides keeps `x` ahead of the others at distance `d`. */
  lemma FartherBehind(x: Star, y: Star, rest: seq<Star>, tail: seq<Star>, d: int)
    requires y.distance < x.distance
    requires AtDistance(rest, d) == (if x.distance == d then [x] else []) + AtDistance(tail, d)
    ensures AtDistance([y] + rest, d) == (if x.distance == d then [x] else []) + AtDistance([y] + tail, d)
  {
    if x.distance == d {
      ConsNotAt(y, rest, d);
      ConsNotAt(y, tail, d);
    } else if y.distance == d {
      ConsAt(y, rest, d);
      ConsAt(y, tail, d);
      assert AtDistance(rest, d) == AtDistance(tail, d);
    } else {
      ConsNotAt(y, rest, d);
      ConsNotAt(y, tail, d);
      assert AtDistance(rest, d) == AtDistance(tail, d);
    }
  }

  /** A star inserted in front of the equally distant ones keeps them behind it. */
  lemma {:induction false} InsertAtDistance(x: Star, t: seq<Star>, d: int)
    requires SortedByDistance(t)
    ensures AtDistance(InsertByDistance(x, t), d) == (if x.distance == d then [x] else []) + AtDistance(t, d)
  {
    if t == [] || x.distance <= t[0].distance {
      if x.distance == d {
        ConsAt(x, t, d);
      } else {
        ConsNotAt(x, t, d);
      }
    } else {
      var rest := InsertByDistance(x, t[1..]);
      assert InsertByDistance(x, t) == [t[0]] + rest;
      SortedTail(t);
      InsertAtDistance(x, t[1..], d);
      FartherBehind(x, t[0], rest, t[1..], d);
      assert t == [t[0]] + t[1..];
    }
  }

  /**
   * The stable sort by ascending distance that `sorted(comparingLong(getDistance))`
   * performs: an insertion sort that puts each star in front of the equally
   * distant stars that follow it in the input.
   */
  function StableSort(s: seq<Star>): (r: seq<Star>)
    reads s
    ensures |r| == |s|
    ensures multiset(r) == multiset(s)
    ensures SortedByDistance(r)
  {
    if s == [] then []
    else
      var rest := StableSort(s[1..]);
      SortStep(s, rest);
      InsertByDistance(s[0], rest)
  }

  /** Sorting keeps equally distant stars in their input order. */
  lemma {:induction false} StableSortIsStable(s: seq<Star>, d: int)
    ensures AtDistance(StableSort(s), d) == AtDistance(s, d)
  {
    if s != [] {
      StableSortIsStable(s[1..], d);
      InsertAtDistance(s[0], StableSort(s[1..]), d);
    }
  }

  /** A list already in distance order comes out of the sort unchanged. */
  lemma {:induction false} StableSortOfSorted(s: seq<Star>)
    requires SortedByDistance(s)
    ensures StableSort(s) == s
  {
    if s != [] {
      SortedTail(s);
      StableSortOfSorted(s[1..]);
      assert s == [s[0]] + s[1..];
    }
  }

  /** `Stream.limit(n)`: the first `n` elements, or all of them when there are fewer. */
  function Limit(s: seq<Star>, n: nat): (r: seq<Star>)
    ensures r <= s && |r| == Min(n, |s|)
  {
    if n < |s| then s[..n] else s
  }

  /**
   * `findClosestStars`: the `size` closest stars, closest first. An empty list
   * is rejected; a negative `size` is rejected by `limit`, whose message is the
   * number itself.
   */
  function FindClosestStars(stars: seq<Star>, size: int): (r: Result<seq<Star>>)
    reads stars
    ensures stars == [] ==> r == Failure(InvalidArgument(EmptyList))
    ensures stars != [] && size < 0 ==> r == Failure(InvalidArgument(DecimalString(size)))
    ensures stars != [] && 0 <= size ==>
      && r.Success?
      && |r.value| == Min(size, |stars|)
      && SortedByDistance(r.value)
      && multiset(r.value) <= multiset(stars)
  {
    if stars == [] then Failure(InvalidArgument(EmptyList))
    else if size < 0 then Failure(InvalidArgument(DecimalString(size)))
    else
      var sorted := StableSort(stars);
      assert sorted == Limit(sorted, size) + sorted[|Limit(sorted, size)|..];
      Success(Limit(sorted, size))
  }

  /**
   * Equally distant stars in the result are the first ones at that distance
   * in the input, in input order.
   */
  lemma ClosestStarsAreStable(stars: seq<Star>, size: int, d: int)
    requires stars != [] && 0 <= size
    ensures AtDistance(FindClosestStars(stars, size).value, d) <= AtDistance(stars, d)
  {
    var sorted := StableSort(stars);
    assert FindClosestStars(stars, size).value == Limit(sorted, size);
    AtDistancePrefix(sorted, Min(size, |stars|), d);
    StableSortIsStable(stars, d);
  }

  /** In a sorted list, every star of a prefix is at most as far as every star after it. */
  lemma SortedPrefixFirst(s: seq<Star>, k: nat, x: Star, y: Star)
    requires SortedByDistance(s) && k <= |s|
    requires x in s[..k]
    requires y in multiset(s) - multiset(s[..k])
    ensures x.distance <= y.distance
  {
    assert s == s[..k] + s[k..];
    assert multiset(s) == multiset(s[..k]) + multiset(s[k..]);
    assert y in s[k..];
    var j :| 0 <= j < |s[k..]| && s[k..][j] == y;
    var i :| 0 <= i < k && s[i] == x;
    assert s[k + j] == y;
  }

  /** Every star left out is at least as far as every star returned. */
  lemma ClosestStarsAreClosest(stars: seq<Star>, size: int, x: Star, y: Star)
    requires stars != [] && 0 <= size
    requires x in FindClosestStars(stars, size).value
    requires y in multiset(stars) - multiset(FindClosestStars(stars, size).value)
    ensures x.distance <= y.distance
  {
    var sorted := StableSort(stars);
    var k := Min(size, |stars|);
    assert FindClosestStars(stars, size).value == sorted[..k];
    SortedPrefixFirst(sorted, k, x, y);
  }

  /*
   * getNumberOfStarsByDistances: counts per distance in a map ordered by distance
   */

  /** One entry of the `TreeMap<Long, Integer>`: a distance and how many stars are at it. */
  datatype DistanceCount = DistanceCount(distance: int, count: nat)

  /** The entries in the iteration order of a sorted map: strictly ascending keys. */
  predicate KeysAscending(m: seq<DistanceCount>)
  {
    forall i, j | 0 <= i < j < |m| :: m[i].distance < m[j].distance
  }

  lemma KeysTail(m: seq<DistanceCount>)
    ensures m != [] && KeysAscending(m) ==> KeysAscending(m[1..])
  {
  }

  lemma KeysCons(c: DistanceCount, m: seq<DistanceCount>)
    ensures KeysAscending(m) && (m != [] ==> c.distance < m[0].distance) ==> KeysAscending([c] + m)
  {
    if KeysAscending(m) && (m != [] ==> c.distance < m[0].distance) {
      forall i, j | 0 <= i < j < |[c] + m|
        ensures ([c] + m)[i].distance < ([c] + m)[j].distance
      {
        if i == 0 {
          assert c.distance <= m[j - 1].distance;
        }
      }
    }
  }

  /** `TreeMap.get`: the count of an entry with key `d`, or nothing when no entry has that key. */
  function Lookup(m: seq<DistanceCount>, d: int): (r: Option<nat>)
    ensures r == None <==> forall i | 0 <= i < |m| :: m[i].distance != d
    ensures r.Some? ==> exists i | 0 <= i < |m| :: m[i] == DistanceCount(d, r.value)
  {
    if m == [] then None
    else if m[0].distance == d then Some(m[0].count)
    else Lookup(m[1..], d)
  }

  /** The sum of all counts. */
  function TotalCount(m: seq<DistanceCount>): nat
  {
    if m == [] then 0 else m[0].count + TotalCount(m[1..])
  }

  /** In a sorted map, a key below the first key is absent. */
  lemma {:induction false} LookupBelowFirst(m: seq<DistanceCount>, d: int)
    requires KeysAscending(m)
    requires m != [] && d < m[0].distance
    ensures Lookup(m, d) == None
  {
    if 1 < |m| {
      LookupBelowFirst(m[1..], d);
    }
  }

  /**
   * What the grouping collector does with one star at distance `d`: the count
   * under `d` goes up by one, or a new key `d` with count 1 goes in its place
   * in key order.
   */
  function Increment(m: seq<DistanceCount>, d: int): (r: seq<DistanceCount>)
    ensures r != [] && (r[0].distance == d || (m != [] && r[0].distance == m[0].distance))
    ensures KeysAscending(m) ==> KeysAscending(r)
    ensures TotalCount(r) == TotalCount(m) + 1
  {
    if m == [] then [DistanceCount(d, 1)]
    else if d < m[0].distance then
      KeysCons(DistanceCount(d, 1), m);
      [DistanceCount(d, 1)] + m
    else if d == m[0].distance then
      KeysTail(m);
      KeysCons(DistanceCount(d, m[0].count + 1), m[1..]);
      [DistanceCount(d, m[0].count + 1)] + m[1..]
    else
      KeysTail(m);
      var rest := Increment(m[1..], d);
      KeysCons(m[0], rest);
      [m[0]] + rest
  }

  /** `Lookup` in a list with a known first entry. */
  lemma LookupCons(c: DistanceCount, m: seq<DistanceCount>, e: int)
    ensures Lookup([c] + m, e) == if c.distance == e then Some(c.count) else Lookup(m, e)
  {
    assert ([c] + m)[1..] == m;
  }

  /** After `Increment(m, d)` the count under `d` is one more (or 1), and other keys are untouched. */
  lemma {:induction false} IncrementLookup(m: seq<DistanceCount>, d: int, e: int)
    requires KeysAscending(m)
    ensures Lookup(Increment(m, d), e) ==
      if e == d then Some(match Lookup(m, d) case Some(c) => c + 1 case None => 1)
      else Lookup(m, e)
  {
    if m == [] {
      assert Increment(m, d) == [DistanceCount(d, 1)] + [];
      LookupCons(DistanceCount(d, 1), [], e);
    } else if d < m[0].distance {
      assert Increment(m, d) == [DistanceCount(d, 1)] + m;
      LookupCons(DistanceCount(d, 1), m, e);
      LookupBelowFirst(m, d);
    } else {
      assert m == [m[0]] + m[1..];
      LookupCons(m[0], m[1..], e);
      LookupCons(m[0], m[1..], d);
      if d == m[0].distance {
        assert Increment(m, d) == [DistanceCount(d, m[0].count + 1)] + m[1..];
        LookupCons(DistanceCount(d, m[0].count + 1), m[1..], e);
      } else {
        assert Increment(m, d) == [m[0]] + Increment(m[1..], d);
        IncrementLookup(m[1..], d, e);
        LookupCons(m[0], Increment(m[1..], d), e);
      }
    }
  }

  /** The grouping collector: one `Increment` per star, in list order. */
  function GroupCounts(s: seq<Star>): (m: seq<DistanceCount>)
    reads s
    ensures KeysAscending(m)
    ensures TotalCount(m) == |s|
  {
    if s == [] then [] else Increment(GroupCounts(s[..|s| - 1]), s[|s| - 1].distance)
  }

  /** The count under each distance is the number of input stars at that distance; other distances are absent. */
  lemma {:induction false} GroupCountsLookup(s: seq<Star>, d: int)
    ensures Lookup(GroupCounts(s), d) ==
      if AtDistance(s, d) == [] then None else Some(|AtDistance(s, d)|)
  {
    if s != [] {
      var init, last := s[..|s| - 1], s[|s| - 1];
      GroupCountsLookup(init, d);
      IncrementLookup(GroupCounts(init), last.distance, d);
      AtDistanceSnoc(s, d);
    }
  }

  /**
   * `getNumberOfStarsByDistances`: the number of stars at each distance, in
   * ascending order of distance. An empty list is rejected.
   */
  function GetNumberOfStarsByDistances(stars: seq<Star>): (r: Result<seq<DistanceCount>>)
    reads stars
    ensures stars == [] ==> r == Failure(InvalidArgument(EmptyList))
    ensures stars != [] ==>
      && r.Success?
      && KeysAscending(r.value)
      && TotalCount(r.value) == |stars|
  {
    if stars == [] then Failure(InvalidArgument(EmptyList)) else Success(GroupCounts(stars))
  }

  /**
   * The keys are exactly the distances present in the input, and each maps to
   * the number of input stars at that distance.
   */
  lemma DistanceCountsExact(stars: seq<Star>, d: int)
    requires stars != []
    ensures var m := GetNumberOfStarsByDistances(stars).value;
      && (Lookup(m, d).Some? <==> exists i | 0 <= i < |stars| :: stars[i].distance == d)
      && (Lookup(m, d).Some? ==> Lookup(m, d).value == |AtDistance(stars, d)|)
  {
    GroupCountsLookup(stars, d);
    AtDistanceNonEmpty(stars, d);
  }

  /*
   * getUniqueStars: a LinkedHashSet copy, so duplicates by name go and the first one stays
   */

  /** The names that occur in `s`. */
  function Names(s: seq<Star>): (r: set<string>)
    reads s
    ensures forall i | 0 <= i < |s| :: s[i].name in r
  {
    if s == [] then {}
    else Names(s[..|s| - 1]) + {s[|s| - 1].name}
  }

  /** A name is in `Names(s)` only if some star of `s` carries it. */
  lemma {:induction false} NamesOccur(s: seq<Star>, n: string)
    requires n in Names(s)
    ensures exists i | 0 <= i < |s| :: s[i].name == n
  {
    var init := s[..|s| - 1];
    if n in Names(init) {
      NamesOccur(init, n);
      var i :| 0 <= i < |init| && init[i].name == n;
      assert s[i] == init[i];
    }
  }

  predicate NamesDistinct(s: seq<Star>)
    reads s
  {
    forall i, j | 0 <= i < j < |s| :: s[i].name != s[j].name
  }

  /** `LinkedHashSet.add`'s duplicate test: some element already present equals `x`. */
  function ContainsEqual(acc: seq<Star>, x: Star): (b: bool)
    reads acc, x
    ensures b <==> x.name in Names(acc)
  {
    if acc == [] then false
    else x.Equals(acc[|acc| - 1]) || ContainsEqual(acc[..|acc| - 1], x)
  }

  /** Copying into a `LinkedHashSet`: each star is added unless an equal one is already there. */
  function Unique(s: seq<Star>): (r: seq<Star>)
    reads s
    ensures forall i | 0 <= i < |r| :: r[i] in s
    ensures Names(r) == Names(s)
    ensures NamesDistinct(r)
  {
    if s == [] then []
    else
      var acc := Unique(s[..|s| - 1]);
      var x := s[|s| - 1];
      if ContainsEqual(acc, x) then acc else acc + [x]
  }

  /** The position of the first star of `s` named `n`. */
  function FirstIndex(s: seq<Star>, n: string): (k: nat)
    reads s
    requires n in Names(s)
    ensures k < |s| && s[k].name == n
    ensures forall j | 0 <= j < k :: s[j].name != n
  {
    var init := s[..|s| - 1];
    if n in Names(init) then FirstIndex(init, n) else |s| - 1
  }

  /** Each star kept is the first input star with its name. */
  lemma {:induction false} UniqueKeepsFirst(s: seq<Star>)
    ensures forall i | 0 <= i < |Unique(s)| ::
      Unique(s)[i].name in Names(s) && Unique(s)[i] == s[FirstIndex(s, Unique(s)[i].name)]
  {
    if s != [] {
      var init, x := s[..|s| - 1], s[|s| - 1];
      var acc := Unique(init);
      UniqueKeepsFirst(init);
      forall i | 0 <= i < |acc|
        ensures acc[i].name in Names(s) && acc[i] == s[FirstIndex(s, acc[i].name)]
      {
        var k := FirstIndex(init, acc[i].name);
        assert init[k] == s[k];
      }
      if !ContainsEqual(acc, x) {
        assert Unique(s) == acc + [x];
        assert FirstIndex(s, x.name) == |s| - 1;
      }
    }
  }

  /** A name already seen before the last star keeps its first position. */
  lemma FirstIndexInit(s: seq<Star>, n: string)
    requires s != [] && n in Names(s[..|s| - 1])
    ensures n in Names(s)
    ensures FirstIndex(s, n) == FirstIndex(s[..|s| - 1], n) < |s| - 1
  {
  }

  /** The stars kept are in the order in which their names first occur in the input. */
  lemma {:induction false} UniqueInFirstSeenOrder(s: seq<Star>)
    ensures forall i, j | 0 <= i < j < |Unique(s)| ::
      FirstIndex(s, Unique(s)[i].name) < FirstIndex(s, Unique(s)[j].name)
  {
    if s != [] {
      var init, x := s[..|s| - 1], s[|s| - 1];
      var acc, r := Unique(init), Unique(s);
      UniqueInFirstSeenOrder(init);
      forall i, j | 0 <= i < j < |r|
        ensures FirstIndex(s, r[i].name) < FirstIndex(s, r[j].name)
      {
        assert r[i] == acc[i];
        FirstIndexInit(s, acc[i].name);
        if j < |acc| {
          assert r[j] == acc[j];
          FirstIndexInit(s, acc[j].name);
        } else {
          assert r[j] == x && x.name !in Names(init);
        }
      }
    }
  }

  /** Without duplicate names, the last star's name does not occur before it. */
  lemma DistinctLast(s: seq<Star>)
    requires s != [] && NamesDistinct(s)
    ensures NamesDistinct(s[..|s| - 1])
    ensures s[|s| - 1].name !in Names(s[..|s| - 1])
  {
    var init := s[..|s| - 1];
    if s[|s| - 1].name in Names(init) {
      NamesOccur(init, s[|s| - 1].name);
      assert false;
    }
  }

  /** A list without duplicate names comes back unchanged. */
  lemma {:induction false} UniqueOfDistinct(s: seq<Star>)
    requires NamesDistinct(s)
    ensures Unique(s) == s
  {
    if s != [] {
      var init, x := s[..|s| - 1], s[|s| - 1];
      DistinctLast(s);
      UniqueOfDistinct(init);
      assert s == init + [x];
    }
  }

  /** There are as many stars kept as distinct names. */
  lemma {:induction false} UniqueSize(s: seq<Star>)
    ensures |Unique(s)| == |Names(s)|
  {
    if s != [] {
      var init := s[..|s| - 1];
      UniqueSize(init);
    }
  }

  /**
   * `getUniqueStars`: the stars with duplicates by name removed, the first of
   * each name kept, in first-seen order. An empty collection is rejected.
   */
  function GetUniqueStars(stars: seq<Star>): (r: Result<seq<Star>>)
    reads stars
    ensures stars == [] ==> r == Failure(InvalidArgument(EmptyCollection))
    ensures stars != [] ==>
      && r.Success?
      && NamesDistinct(r.value)
      && Names(r.value) == Names(stars)
      && forall i | 0 <= i < |r.value| :: r.value[i] in stars
  {
    if stars == [] then Failure(InvalidArgument(EmptyCollection)) else Success(Unique(stars))
  }

  /** De-duplicating a second time changes nothing. */
  lemma GetUniqueStarsIdempotent(stars: seq<Star>)
    requires stars != []
    ensures GetUniqueStars(GetUniqueStars(stars).value) == GetUniqueStars(stars)
  {
    UniqueOfDistinct(Unique(stars));
  }
}
