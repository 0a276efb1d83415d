/**
 * findCities2BST.c: one tree keyed by latitude and one keyed by longitude, a range
 * query on each, and the intersection of the two lists under comparison_city.
 */
module FindCities2 {

  import opened Options
  import opened Seqs
  import opened BinarySearchTree
  import opened Intersection
  import opened Cities
  import FindCities1

  /** findCities on its success path.  It returns the very list the latitude-then-
      filter strategy returns: same cities, same order. */
  function FindCities(cities: seq<City>, latMin: real, latMax: real, lonMin: real, lonMax: real): (r: seq<City>)
    ensures r == FindCities1.FindCities(cities, latMin, latMax, lonMin, lonMax)
    ensures multiset(r) == multiset(Filter(cities, InRectangle(latMin, latMax, lonMin, lonMax)))
  {
    var citiesLat := CoordinateRange(cities, Latitude, latMin, latMax);
    var citiesLong := CoordinateRange(cities, Longitude, lonMin, lonMax);
    MatchIsLongitudeBand(cities, citiesLat, lonMin, lonMax);
    Intersect(citiesLat, citiesLong, CompareCity)
  }

  /** Within the latitude band, a city has a comparison_city match in the longitude
      band exactly when its own longitude is in [lonMin, lonMax]. */
  lemma MatchIsLongitudeBand(cities: seq<City>, citiesLat: seq<City>, lonMin: real, lonMax: real)
    requires forall c :: c in citiesLat ==> c in cities
    ensures Intersect(citiesLat, CoordinateRange(cities, Longitude, lonMin, lonMax), CompareCity)
         == Filter(citiesLat, Within(Longitude, lonMin, lonMax))
  {
    var citiesLong := CoordinateRange(cities, Longitude, lonMin, lonMax);
    LongitudeWithin(lonMin, lonMax);
    forall c | c in citiesLat
      ensures MatchedIn(citiesLong, CompareCity)(c) == Within(Longitude, lonMin, lonMax)(c)
    {
      if lonMin <= c.longitude <= lonMax {
        assert Longitude(c) == c.longitude;
        assert c in citiesLong;
        var j :| 0 <= j < |citiesLong| && citiesLong[j] == c;
        assert CompareCity(c, citiesLong[j]) == 0;
      } else {
        forall j | 0 <= j < |citiesLong|
          ensures CompareCity(c, citiesLong[j]) != 0
        {
          assert citiesLong[j] in citiesLong;
        }
      }
    }
    FilterCongruent(citiesLat, MatchedIn(citiesLong, CompareCity), Within(Longitude, lonMin, lonMax));
  }

  /** One turn of the interleaved insertion loop: a malloc for the latitude tree,
      then one for the longitude tree; `ok` is false as soon as one fails. */
  method InsertCity(lat: BST<real, City>, long: BST<real, City>, c: City, avail: nat)
    returns (ok: bool, lat': BST<real, City>, long': BST<real, City>, left: nat)
    requires WellFormed(lat) && WellFormed(long)
    ensures ok <==> 2 <= avail
    ensures ok ==> lat' == InsertInBST(lat, Latitude(c), c) && long' == InsertInBST(long, Longitude(c), c)
    ensures ok ==> left == avail - 2
  {
    lat', long', left := lat, long, avail;
    if left == 0 {
      return false, lat', long', left;
    }
    lat', left := InsertInBST(lat, Latitude(c), c), left - 1;
    if left == 0 {
      return false, lat', long', left;
    }
    long', left := InsertInBST(long, Longitude(c), c), left - 1;
    ok := true;
  }

  /** The state of the insertion loop before city `i`: inserting the remaining
      cities into the two trees yields the two trees of the whole list. */
  ghost predicate Building(cities: seq<City>, i: nat, lat: BST<real, City>, long: BST<real, City>) {
    i <= |cities| && WellFormed(lat) && WellFormed(long)
    && InsertAll(lat, cities[i..], Latitude) == CoordinateTree(cities, Latitude)
    && InsertAll(long, cities[i..], Longitude) == CoordinateTree(cities, Longitude)
  }

  lemma BuildingStep(cities: seq<City>, i: nat, lat: BST<real, City>, long: BST<real, City>)
    requires Building(cities, i, lat, long) && i < |cities|
    ensures Building(cities, i + 1, InsertInBST(lat, Latitude(cities[i]), cities[i]),
                                    InsertInBST(long, Longitude(cities[i]), cities[i]))
  {
    InsertAllStep(lat, cities, Latitude, i);
    InsertAllStep(long, cities, Longitude, i);
  }

  lemma BuildingDone(cities: seq<City>, lat: BST<real, City>, long: BST<real, City>)
    requires Building(cities, |cities|, lat, long)
    ensures lat == CoordinateTree(cities, Latitude) && long == CoordinateTree(cities, Longitude)
  {
    assert cities[|cities|..] == [];
  }

  /** The insertion loop of findCities: every city goes into both trees, in list
      order; a failed malloc ends with NULL. */
  method InsertCitiesTwice(cities: seq<City>, avail: nat)
    returns (r: Option<(BST<real, City>, BST<real, City>)>, left: nat)
    ensures r.Some? <==> 2 * |cities| <= avail
    ensures r.Some? ==>
      r.value.0 == CoordinateTree(cities, Latitude) && r.value.1 == CoordinateTree(cities, Longitude)
    ensures r.Some? ==> left == avail - 2 * |cities|
  {
    var lat: BST<real, City> := NewBST(CompareDouble);
    var long: BST<real, City> := NewBST(CompareDouble);
    assert cities[0..] == cities;
    left := avail;
    var i := 0;
    while i < |cities|
      invariant Building(cities, i, lat, long)
      invariant left + 2 * i == avail
    {
      BuildingStep(cities, i, lat, long);
      var ok;
      ok, lat, long, left := InsertCity(lat, long, cities[i], left);
      if !ok {
        return None, left;
      }
      i := i + 1;
    }
    BuildingDone(cities, lat, long);
    return Some((lat, long)), left;
  }

  /** findCities as written, with `avail` the number of mallocs that will still
      succeed: two trees, two nodes per city, the two range lists and the
      intersection, each list costing one malloc plus one per element.  Any
      failure yields NULL. */
  method FindCitiesAlloc(cities: seq<City>, latMin: real, latMax: real, lonMin: real, lonMax: real, avail: nat)
    returns (r: Option<seq<City>>)
    ensures r.Some? <==>
      5 + 2 * |cities| + |Filter(cities, Within(Latitude, latMin, latMax))|
        + |Filter(cities, Within(Longitude, lonMin, lonMax))|
        + |Filter(cities, InRectangle(latMin, latMax, lonMin, lonMax))| <= avail
    ensures r.Some? ==> r.value == FindCities(cities, latMin, latMax, lonMin, lonMax)
  {
    ghost var bandLat := CoordinateRange(cities, Latitude, latMin, latMax);
    ghost var bandLong := CoordinateRange(cities, Longitude, lonMin, lonMax);
    ghost var result := FindCities(cities, latMin, latMax, lonMin, lonMax);
    assert result == Intersect(bandLat, bandLong, CompareCity);
    assert |result| == |Filter(cities, InRectangle(latMin, latMax, lonMin, lonMax))|;
    if avail < 2 {
      return None;
    }
    var trees, left := InsertCitiesTwice(cities, avail - 2);
    if trees.None? {
      return None;
    }
    var (citiesBSTLat, citiesBSTLong) := trees.value;
    CompareDoubleIsValid();
    var citiesLat;
    citiesLat, left := GetInRangeAlloc(citiesBSTLat, latMin, latMax, left);
    assert GetInRange(citiesBSTLat, latMin, latMax) == bandLat;
    if citiesLat.None? {
      return None;
    }
    var citiesLong;
    citiesLong, left := GetInRangeAlloc(citiesBSTLong, lonMin, lonMax, left);
    assert GetInRange(citiesBSTLong, lonMin, lonMax) == bandLong;
    if citiesLong.None? {
      return None;
    }
    var intersectList;
    intersectList, left := IntersectLists(citiesLat, citiesLong, CompareCity, left);
    return intersectList;
  }
}
