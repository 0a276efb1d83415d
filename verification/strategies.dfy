/**
 * The three findCities strategies side by side: they answer the same query.
 */
module Strategies {

  import opened Seqs
  import opened Cities
  import FindCities1
  import FindCities2
  import FindCitiesZ

  /** The latitude-then-filter and the two-tree strategies return the same list;
      the Z-order strategy returns the same cities, in code order, provided the
      encoder is monotone in both coordinates. */
  lemma StrategiesAgree(cities: seq<City>, zEncode: FindCitiesZ.ZEncoder,
                        latMin: real, latMax: real, lonMin: real, lonMax: real)
    requires FindCitiesZ.ZMonotone(zEncode)
    ensures FindCities2.FindCities(cities, latMin, latMax, lonMin, lonMax)
         == FindCities1.FindCities(cities, latMin, latMax, lonMin, lonMax)
    ensures multiset(FindCitiesZ.FindCities(cities, zEncode, latMin, latMax, lonMin, lonMax))
         == multiset(FindCities1.FindCities(cities, latMin, latMax, lonMin, lonMax))
  {
  }

  /** A list holding two cities of different latitudes, in nondecreasing latitude,
      is those two in latitude order. */
  lemma TwoByLatitude(r: seq<City>, a: City, b: City)
    requires multiset(r) == multiset([a, b]) && a.latitude < b.latitude
    requires forall i, j :: 0 <= i < j < |r| ==> r[i].latitude <= r[j].latitude
    ensures r == [a, b]
  {
    assert |r| == |multiset(r)| == 2;
    assert r[0] in multiset(r) && r[1] in multiset(r);
    assert r == [r[0], r[1]];
    assert r[0] == a;
  }

  /** Three cities and the box [0, 60] x [0, 60]: the cities at (10, 20) and
      (50, 50) lie inside, the one at (-5, 100) does not. */
  lemma BoxKeepsFirstTwo(p: City, q: City, r: City)
    requires p.latitude == 10.0 && p.longitude == 20.0
    requires q.latitude == 50.0 && q.longitude == 50.0
    requires r.latitude == -5.0 && r.longitude == 100.0
    ensures Filter([p, q, r], InRectangle(0.0, 60.0, 0.0, 60.0)) == [p, q]
  {
    var box := InRectangle(0.0, 60.0, 0.0, 60.0);
    assert box(p) && box(q) && !box(r);
    assert [p, q, r][1..] == [q, r] && [q, r][1..] == [r];
    assert Filter([r], box) == [];
  }

  /** The latitude-then-filter strategy lists the two cities inside, by latitude. */
  lemma ThreeCitiesByLatitude(p: City, q: City, r: City)
    requires p.latitude == 10.0 && p.longitude == 20.0
    requires q.latitude == 50.0 && q.longitude == 50.0
    requires r.latitude == -5.0 && r.longitude == 100.0
    ensures FindCities1.FindCities([p, q, r], 0.0, 60.0, 0.0, 60.0) == [p, q]
  {
    BoxKeepsFirstTwo(p, q, r);
    TwoByLatitude(FindCities1.FindCities([p, q, r], 0.0, 60.0, 0.0, 60.0), p, q);
  }

  /** Every strategy finds exactly the two cities inside the box; the
      sequence-returning ones list them by latitude. */
  lemma ThreeCities(p: City, q: City, r: City, zEncode: FindCitiesZ.ZEncoder)
    requires p.latitude == 10.0 && p.longitude == 20.0
    requires q.latitude == 50.0 && q.longitude == 50.0
    requires r.latitude == -5.0 && r.longitude == 100.0
    requires FindCitiesZ.ZMonotone(zEncode)
    ensures FindCities1.FindCities([p, q, r], 0.0, 60.0, 0.0, 60.0) == [p, q]
    ensures FindCities2.FindCities([p, q, r], 0.0, 60.0, 0.0, 60.0) == [p, q]
    ensures multiset(FindCitiesZ.FindCities([p, q, r], zEncode, 0.0, 60.0, 0.0, 60.0)) == multiset{p, q}
  {
    ThreeCitiesByLatitude(p, q, r);
    BoxKeepsFirstTwo(p, q, r);
    assert multiset([p, q]) == multiset{p, q};
  }
}
