/**
 * findCities1BST.c: one tree keyed by latitude, a latitude range query, then a
 * linear filter on longitude.
 */
module FindCities1 {

  import opened Options
  import opened Order
  import opened Seqs
  import opened BinarySearchTree
  import opened Cities

  /** filter: the cities of `ll` whose longitude lies in [lonMin, lonMax], in the
      order of `ll`. */
  function FilterLongitude(ll: seq<City>, lonMin: real, lonMax: real): (r: seq<City>)
    ensures forall c :: c in r ==> c in ll && lonMin <= c.longitude <= lonMax
    ensures forall c :: c in ll && lonMin <= c.longitude <= lonMax ==> c in r
    ensures IsSubsequence(r, ll)
    ensures forall c :: c in ll ==>
      multiset(r)[c] == if lonMin <= c.longitude <= lonMax then multiset(ll)[c] else 0
  {
    FilterIsSubsequence(ll, Within(Longitude, lonMin, lonMax));
    FilterCount(ll, Within(Longitude, lonMin, lonMax));
    LongitudeWithin(lonMin, lonMax);
    Filter(ll, Within(Longitude, lonMin, lonMax))
  }

  /** findCities on its success path: the cities inside the closed rectangle,
      each as often as in the input, in nondecreasing latitude. */
  function FindCities(cities: seq<City>, latMin: real, latMax: real, lonMin: real, lonMax: real): (r: seq<City>)
    ensures multiset(r) == multiset(Filter(cities, InRectangle(latMin, latMax, lonMin, lonMax)))
    ensures |r| == |Filter(cities, InRectangle(latMin, latMax, lonMin, lonMax))|
    ensures forall i, j :: 0 <= i < j < |r| ==> r[i].latitude <= r[j].latitude
  {
    var citiesLat := CoordinateRange(cities, Latitude, latMin, latMax);
    RectangleFacts(cities, citiesLat, latMin, latMax, lonMin, lonMax);
    FilterKeepsLatitudeOrder(citiesLat, Within(Longitude, lonMin, lonMax));
    SameMultiset(Filter(citiesLat, Within(Longitude, lonMin, lonMax)),
                 Filter(cities, InRectangle(latMin, latMax, lonMin, lonMax)));
    FilterLongitude(citiesLat, lonMin, lonMax)
  }

  /** Filtering the latitude band on longitude keeps exactly the cities in the
      rectangle. */
  lemma RectangleFacts(cities: seq<City>, citiesLat: seq<City>, latMin: real, latMax: real, lonMin: real, lonMax: real)
    requires citiesLat == CoordinateRange(cities, Latitude, latMin, latMax)
    ensures multiset(Filter(citiesLat, Within(Longitude, lonMin, lonMax)))
         == multiset(Filter(cities, InRectangle(latMin, latMax, lonMin, lonMax)))
  {
    var lon := Within(Longitude, lonMin, lonMax);
    var lat := Within(Latitude, latMin, latMax);
    FilterSameMultiset(citiesLat, Filter(cities, lat), lon);
    RectangleIsBothBands(latMin, latMax, lonMin, lonMax);
    FilterFilter(cities, lat, lon, InRectangle(latMin, latMax, lonMin, lonMax));
  }

  /** A filter of a list sorted by latitude is sorted by latitude. */
  lemma FilterKeepsLatitudeOrder(ll: seq<City>, keep: City -> bool)
    requires forall i, j :: 0 <= i < j < |ll| ==> ll[i].latitude <= ll[j].latitude
    ensures forall i, j :: 0 <= i < j < |Filter(ll, keep)| ==> Filter(ll, keep)[i].latitude <= Filter(ll, keep)[j].latitude
  {
    assert SortedBy(ll, Latitude, CompareDouble);
    FilterSorted(ll, keep, Latitude, CompareDouble);
    var f := Filter(ll, keep);
    forall i, j | 0 <= i < j < |f| ensures f[i].latitude <= f[j].latitude {
      assert CompareDouble(Latitude(f[i]), Latitude(f[j])) <= 0;
    }
  }

  /** The bounds are closed: a city of the input lying in the rectangle, on its
      border included, is returned. */
  lemma BoundsAreClosed(cities: seq<City>, latMin: real, latMax: real, lonMin: real, lonMax: real, c: City)
    requires c in cities && latMin <= c.latitude <= latMax && lonMin <= c.longitude <= lonMax
    ensures c in FindCities(cities, latMin, latMax, lonMin, lonMax)
  {
    var r := FindCities(cities, latMin, latMax, lonMin, lonMax);
    assert InRectangle(latMin, latMax, lonMin, lonMax)(c);
    assert c in multiset(Filter(cities, InRectangle(latMin, latMax, lonMin, lonMax)));
    assert c in multiset(r);
  }

  /** findCities as written, with `avail` the number of mallocs that will still
      succeed: the tree (1), one node per city, the range list (1 + one node per
      city in the latitude band) and the filtered list (1 + one node per result).
      Any failure yields NULL. */
  method FindCitiesAlloc(cities: seq<City>, latMin: real, latMax: real, lonMin: real, lonMax: real, avail: nat)
    returns (r: Option<seq<City>>)
    ensures r.Some? <==>
      3 + |cities| + |Filter(cities, Within(Latitude, latMin, latMax))|
        + |Filter(cities, InRectangle(latMin, latMax, lonMin, lonMax))| <= avail
    ensures r.Some? ==> r.value == FindCities(cities, latMin, latMax, lonMin, lonMax)
  {
    ghost var band := CoordinateRange(cities, Latitude, latMin, latMax);
    ghost var result := FindCities(cities, latMin, latMax, lonMin, lonMax);
    assert result == Filter(band, Within(Longitude, lonMin, lonMax));
    if avail == 0 {
      return None;
    }
    var built, left := InsertCities(NewBST(CompareDouble), cities, Latitude, avail - 1);
    if built.None? {
      return None;
    }
    var citiesBST := built.value;
    assert citiesBST == CoordinateTree(cities, Latitude);
    CompareDoubleIsValid();
    var citiesLat;
    citiesLat, left := GetInRangeAlloc(citiesBST, latMin, latMax, left);
    assert GetInRange(citiesBST, latMin, latMax) == band;
    if citiesLat.None? {
      return None;
    }
    var filteredList;
    filteredList, left := FilterList(citiesLat.value, Within(Longitude, lonMin, lonMax), left);
    return filteredList;
  }
}
