/**
 * Cities and the pieces the three findCities strategies share: the coordinate
 * comparators, the query rectangle, the coordinate-keyed trees and the filtering
 * loop that copies the cities satisfying a condition into a new list.
 */
module Cities {

  import opened Options
  import opened Order
  import opened Seqs
  import opened BinarySearchTree

  /** A city: a name and two coordinates. */
  datatype City = City(name: string, latitude: real, longitude: real)

  function Latitude(c: City): real { c.latitude }
  function Longitude(c: City): real { c.longitude }

  /** comparison_double: `(a > b) - (a < b)`, the sign of a - b. */
  function CompareDouble(a: real, b: real): (r: int)
    ensures -1 <= r <= 1
    ensures r < 0 <==> a < b
    ensures r > 0 <==> a > b
  {
    (if a > b then 1 else 0) - (if a < b then 1 else 0)
  }

  lemma CompareDoubleIsValid()
    ensures ValidComparator(CompareDouble)
  {
    forall a: real, b: real, c: real {:trigger Chain(a, b, c)}
      ensures Chain(a, b, c) ==> CompareDouble(a, b) <= 0 && CompareDouble(b, c) <= 0 ==> CompareDouble(a, c) <= 0
    {
    }
  }

  /** comparison_city: 0 when both coordinates are equal, 1 otherwise. */
  function CompareCity(a: City, b: City): (r: int)
    ensures 0 <= r <= 1
    ensures r == 0 <==> a.latitude == b.latitude && a.longitude == b.longitude
  {
    if a.latitude == b.latitude && a.longitude == b.longitude then 0 else 1
  }

  /** comparison_city never reports an order, only equality of position, and that
      equality is an equivalence. */
  lemma CompareCityIsEquality(a: City, b: City, c: City)
    ensures CompareCity(a, b) >= 0
    ensures CompareCity(a, b) == 0 <==> a.latitude == b.latitude && a.longitude == b.longitude
    ensures CompareCity(a, a) == 0
    ensures CompareCity(a, b) == CompareCity(b, a)
    ensures CompareCity(a, b) == 0 && CompareCity(b, c) == 0 ==> CompareCity(a, c) == 0
  {
  }

  /** The cities whose coordinate `key` lies in the closed interval [lo, hi]. */
  function Within(key: City -> real, lo: real, hi: real): City -> bool {
    (c: City) => lo <= key(c) <= hi
  }

  lemma LongitudeWithin(lo: real, hi: real)
    ensures forall c: City :: Within(Longitude, lo, hi)(c) == (lo <= c.longitude <= hi)
  {
    forall c: City
      ensures Within(Longitude, lo, hi)(c) == (lo <= c.longitude <= hi)
    {
      assert Longitude(c) == c.longitude;
    }
  }

  /** The closed query rectangle. */
  function InRectangle(latMin: real, latMax: real, lonMin: real, lonMax: real): City -> bool {
    (c: City) => latMin <= c.latitude <= latMax && lonMin <= c.longitude <= lonMax
  }

  /** A city is in the rectangle exactly when it is in both coordinate bands. */
  lemma RectangleIsBothBands(latMin: real, latMax: real, lonMin: real, lonMax: real)
    ensures forall c: City :: (Within(Latitude, latMin, latMax)(c) && Within(Longitude, lonMin, lonMax)(c))
                              == InRectangle(latMin, latMax, lonMin, lonMax)(c)
  {
    forall c: City
      ensures (Within(Latitude, latMin, latMax)(c) && Within(Longitude, lonMin, lonMax)(c))
              == InRectangle(latMin, latMax, lonMin, lonMax)(c)
    {
      assert Latitude(c) == c.latitude && Longitude(c) == c.longitude;
    }
  }

  /** The tree a strategy builds: every city inserted in list order, keyed by one
      of its coordinates under comparison_double. */
  function CoordinateTree(cities: seq<City>, key: City -> real): (b: BST<real, City>)
    ensures WellFormed(b) && b.cmp == CompareDouble && b.size == |cities|
    ensures multiset(InOrder(b.root)) == multiset(Keyed(cities, key))
  {
    InsertAll(NewBST(CompareDouble), cities, key)
  }

  /** getInRange on that tree: exactly the cities with the coordinate in [lo, hi],
      each as often as in the input, in nondecreasing coordinate order. */
  function CoordinateRange(cities: seq<City>, key: City -> real, lo: real, hi: real): (r: seq<City>)
    ensures multiset(r) == multiset(Filter(cities, Within(key, lo, hi)))
    ensures |r| == |Filter(cities, Within(key, lo, hi))|
    ensures forall c :: c in r ==> c in cities && lo <= key(c) <= hi
    ensures forall c :: c in cities && lo <= key(c) <= hi ==> c in r
    ensures forall i, j :: 0 <= i < j < |r| ==> key(r[i]) <= key(r[j])
  {
    CompareDoubleIsValid();
    RangeOfKeyed(cities, key, CompareDouble, lo, hi);
    RangeOfKeyedSorted(cities, key, CompareDouble, lo, hi);
    FilterCongruent(cities, KeyWithin(key, lo, hi, CompareDouble), Within(key, lo, hi));
    SameMultiset(GetInRange(CoordinateTree(cities, key), lo, hi), Filter(cities, Within(key, lo, hi)));
    GetInRange(CoordinateTree(cities, key), lo, hi)
  }

  /** The insertion loop of findCities1BST.c and findCitiesZBST.c: one malloc per
      city, in list order; a failure ends the loop and the function returns NULL. */
  method InsertCities<K>(tree: BST<K, City>, cities: seq<City>, key: City -> K, avail: nat)
    returns (r: Option<BST<K, City>>, left: nat)
    requires WellFormed(tree)
    ensures r.Some? <==> |cities| <= avail
    ensures r.Some? ==> r.value == InsertAll(tree, cities, key) && left == avail - |cities|
  {
    var t := tree;
    left := avail;
    var i := 0;
    while i < |cities|
      invariant 0 <= i <= |cities|
      invariant WellFormed(t)
      invariant InsertAll(t, cities[i..], key) == InsertAll(tree, cities, key)
      invariant left + i == avail
    {
      if left == 0 {
        return None, left;
      }
      InsertAllStep(t, cities, key, i);
      t := InsertInBST(t, key(cities[i]), cities[i]);
      left, i := left - 1, i + 1;
    }
    assert cities[|cities|..] == [];
    return Some(t), left;
  }

  /** The filter loop of findCities1BST.c and findCitiesZBST.c: a new list (one
      malloc), then one malloc per kept city; the first failure ends the loop and
      the function returns NULL. */
  method FilterList(ll: seq<City>, keep: City -> bool, avail: nat) returns (r: Option<seq<City>>, left: nat)
    ensures r.Some? <==> 1 + |Filter(ll, keep)| <= avail
    ensures r.Some? ==> r.value == Filter(ll, keep) && left == avail - 1 - |r.value|
  {
    if avail == 0 {
      return None, avail;
    }
    left := avail - 1;
    var filtered: seq<City> := [];
    var error := false;
    var i := 0;
    while !error && i < |ll|
      invariant 0 <= i <= |ll|
      invariant !error ==> filtered == Filter(ll[..i], keep) && left == avail - 1 - |filtered|
      invariant error ==> avail < 1 + |Filter(ll, keep)|
    {
      FilterStep(ll, i, keep);
      if keep(ll[i]) {
        if left == 0 {
          error := true;
        } else {
          filtered, left := filtered + [ll[i]], left - 1;
        }
      }
      i := i + 1;
    }
    if error {
      return None, left;
    }
    assert ll[..|ll|] == ll;
    return Some(filtered), left;
  }
}
