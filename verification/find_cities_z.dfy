/**
 * findCitiesZBST.c: one tree keyed by the Z-order code of each city's position, a
 * range query between the codes of the rectangle's lower-left and upper-right
 * corners, then a filter on both coordinates.
 */
module FindCitiesZ {

  import opened Options
  import opened Order
  import opened Seqs
  import opened BinarySearchTree
  import opened Cities

  /** uint64_t. */
  type uint64 = x: int | 0 <= x < 0x1_0000_0000_0000_0000

  /** zEncode (zscore.h): some map from a position to a 64-bit code.  Its
      definition is not part of this model, so it is a parameter of every query. */
  type ZEncoder = (real, real) -> uint64

  /** comparison_uint64_t: `(a > b) - (a < b)`. */
  function CompareUint64(a: uint64, b: uint64): (r: int)
    ensures -1 <= r <= 1
    ensures r < 0 <==> a < b
    ensures r > 0 <==> a > b
  {
    (if a > b then 1 else 0) - (if a < b then 1 else 0)
  }

  lemma CompareUint64IsValid()
    ensures ValidComparator(CompareUint64)
  {
    forall a: uint64, b: uint64, c: uint64 {:trigger Chain(a, b, c)}
      ensures Chain(a, b, c) ==> CompareUint64(a, b) <= 0 && CompareUint64(b, c) <= 0 ==> CompareUint64(a, c) <= 0
    {
    }
  }

  /** The key of a city: `tabKeyZ[i] = zEncode(city->latitude, city->longitude)`. */
  function ZKey(zEncode: ZEncoder): City -> uint64 {
    (c: City) => zEncode(c.latitude, c.longitude)
  }

  /** The cities whose code lies in [zMin, zMax]. */
  function InZRange(zEncode: ZEncoder, zMin: uint64, zMax: uint64): City -> bool {
    (c: City) => zMin <= zEncode(c.latitude, c.longitude) <= zMax
  }

  /** The condition under which the corner codes bound every position of the
      rectangle: the code does not decrease when either coordinate grows.  A
      Z-order (Morton) code of coordinates mapped monotonically to unsigned
      integers has this property; it is an assumption about zscore.h here. */
  ghost predicate ZMonotone(zEncode: ZEncoder) {
    forall la1: real, lo1: real, la2: real, lo2: real ::
      la1 <= la2 && lo1 <= lo2 ==> zEncode(la1, lo1) <= zEncode(la2, lo2)
  }

  /** filter (findCitiesZBST.c): the cities of `ll` inside the closed rectangle, in
      the order of `ll`. */
  function FilterRectangle(ll: seq<City>, latMin: real, latMax: real, lonMin: real, lonMax: real): (r: seq<City>)
    ensures forall c :: c in r ==> c in ll && latMin <= c.latitude <= latMax && lonMin <= c.longitude <= lonMax
    ensures forall c :: c in ll && latMin <= c.latitude <= latMax && lonMin <= c.longitude <= lonMax ==> c in r
    ensures IsSubsequence(r, ll)
    ensures forall c :: c in ll ==>
      multiset(r)[c] == if latMin <= c.latitude <= latMax && lonMin <= c.longitude <= lonMax then multiset(ll)[c] else 0
  {
    FilterIsSubsequence(ll, InRectangle(latMin, latMax, lonMin, lonMax));
    FilterCount(ll, InRectangle(latMin, latMax, lonMin, lonMax));
    Filter(ll, InRectangle(latMin, latMax, lonMin, lonMax))
  }

  /** The Z tree: every city inserted once, in list order, keyed by the code of
      its own coordinates. */
  function ZTree(cities: seq<City>, zEncode: ZEncoder): (b: BST<uint64, City>)
    ensures WellFormed(b) && b.cmp == CompareUint64 && b.size == |cities|
    ensures multiset(InOrder(b.root)) == multiset(Keyed(cities, ZKey(zEncode)))
  {
    InsertAll(NewBST(CompareUint64), cities, ZKey(zEncode))
  }

  /** getInRange on the Z tree: exactly the cities whose code lies between the
      corner codes, in nondecreasing code order. */
  function ZRange(cities: seq<City>, zEncode: ZEncoder, zMin: uint64, zMax: uint64): (r: seq<City>)
    ensures multiset(r) == multiset(Filter(cities, InZRange(zEncode, zMin, zMax)))
    ensures |r| == |Filter(cities, InZRange(zEncode, zMin, zMax))|
    ensures forall i, j :: 0 <= i < j < |r| ==> ZKey(zEncode)(r[i]) <= ZKey(zEncode)(r[j])
  {
    CompareUint64IsValid();
    RangeOfKeyed(cities, ZKey(zEncode), CompareUint64, zMin, zMax);
    RangeOfKeyedSorted(cities, ZKey(zEncode), CompareUint64, zMin, zMax);
    ZWithinIsInZRange(cities, zEncode, zMin, zMax);
    SameMultiset(GetInRange(ZTree(cities, zEncode), zMin, zMax), Filter(cities, InZRange(zEncode, zMin, zMax)));
    GetInRange(ZTree(cities, zEncode), zMin, zMax)
  }

  lemma ZWithinIsInZRange(cities: seq<City>, zEncode: ZEncoder, zMin: uint64, zMax: uint64)
    ensures Filter(cities, KeyWithin(ZKey(zEncode), zMin, zMax, CompareUint64))
         == Filter(cities, InZRange(zEncode, zMin, zMax))
  {
    forall c | c in cities
      ensures KeyWithin(ZKey(zEncode), zMin, zMax, CompareUint64)(c) == InZRange(zEncode, zMin, zMax)(c)
    {
      assert ZKey(zEncode)(c) == zEncode(c.latitude, c.longitude);
    }
    FilterCongruent(cities, KeyWithin(ZKey(zEncode), zMin, zMax, CompareUint64), InZRange(zEncode, zMin, zMax));
  }

  /** findCities on its success path.  Every city returned lies in the rectangle
      and between the corner codes, none more often than in the input, in
      nondecreasing code order; when the code is monotone in both coordinates,
      no city of the rectangle is missed. */
  function FindCities(cities: seq<City>, zEncode: ZEncoder, latMin: real, latMax: real, lonMin: real, lonMax: real)
    : (r: seq<City>)
    ensures forall c :: c in r ==> c in cities && InRectangle(latMin, latMax, lonMin, lonMax)(c)
    ensures forall c :: c in r ==> zEncode(latMin, lonMin) <= ZKey(zEncode)(c) <= zEncode(latMax, lonMax)
    ensures multiset(r) <= multiset(Filter(cities, InRectangle(latMin, latMax, lonMin, lonMax)))
    ensures IsSubsequence(r, ZRange(cities, zEncode, zEncode(latMin, lonMin), zEncode(latMax, lonMax)))
    ensures |r| <= |cities|
    ensures forall i, j :: 0 <= i < j < |r| ==> ZKey(zEncode)(r[i]) <= ZKey(zEncode)(r[j])
    ensures ZMonotone(zEncode) ==>
      multiset(r) == multiset(Filter(cities, InRectangle(latMin, latMax, lonMin, lonMax)))
  {
    var zMin, zMax := zEncode(latMin, lonMin), zEncode(latMax, lonMax);
    var citiesList := ZRange(cities, zEncode, zMin, zMax);
    ZSound(cities, zEncode, latMin, latMax, lonMin, lonMax);
    ZKeeps(cities, zEncode, latMin, latMax, lonMin, lonMax);
    FilterWeaker(cities, InZRangeAndRectangle(zEncode, latMin, latMax, lonMin, lonMax), InRectangle(latMin, latMax, lonMin, lonMax));
    ZSorted(citiesList, zEncode, InRectangle(latMin, latMax, lonMin, lonMax));
    ZComplete(cities, zEncode, latMin, latMax, lonMin, lonMax);
    SubMultisetShorter(Filter(citiesList, InRectangle(latMin, latMax, lonMin, lonMax)),
                       Filter(cities, InRectangle(latMin, latMax, lonMin, lonMax)));
    FilterRectangle(citiesList, latMin, latMax, lonMin, lonMax)
  }

  lemma SubMultisetShorter(a: seq<City>, b: seq<City>)
    requires multiset(a) <= multiset(b)
    ensures |a| <= |b|
  {
    assert |multiset(a)| <= |multiset(b)| by {
      assert multiset(b) == multiset(a) + (multiset(b) - multiset(a));
    }
  }

  /** The cities kept by both the Z range and the rectangle. */
  function InZRangeAndRectangle(zEncode: ZEncoder, latMin: real, latMax: real, lonMin: real, lonMax: real): City -> bool {
    (c: City) => InZRange(zEncode, zEncode(latMin, lonMin), zEncode(latMax, lonMax))(c)
              && InRectangle(latMin, latMax, lonMin, lonMax)(c)
  }

  /** Each city the filter keeps is a city of the input, inside the rectangle and
      between the corner codes. */
  lemma ZSound(cities: seq<City>, zEncode: ZEncoder, latMin: real, latMax: real, lonMin: real, lonMax: real)
    ensures forall c ::
      c in Filter(ZRange(cities, zEncode, zEncode(latMin, lonMin), zEncode(latMax, lonMax)), InRectangle(latMin, latMax, lonMin, lonMax)) ==>
        c in cities && InRectangle(latMin, latMax, lonMin, lonMax)(c)
        && zEncode(latMin, lonMin) <= ZKey(zEncode)(c) <= zEncode(latMax, lonMax)
  {
    var zMin, zMax := zEncode(latMin, lonMin), zEncode(latMax, lonMax);
    var citiesList := ZRange(cities, zEncode, zMin, zMax);
    var inZ := InZRange(zEncode, zMin, zMax);
    SameMultiset(citiesList, Filter(cities, inZ));
    forall c | c in Filter(citiesList, InRectangle(latMin, latMax, lonMin, lonMax))
      ensures c in cities && zMin <= ZKey(zEncode)(c) <= zMax
    {
      assert c in Filter(cities, inZ);
    }
  }

  /** The filtered Z range, as a multiset, is the input filtered by both the Z
      range and the rectangle. */
  lemma ZKeeps(cities: seq<City>, zEncode: ZEncoder, latMin: real, latMax: real, lonMin: real, lonMax: real)
    ensures multiset(Filter(ZRange(cities, zEncode, zEncode(latMin, lonMin), zEncode(latMax, lonMax)), InRectangle(latMin, latMax, lonMin, lonMax)))
         == multiset(Filter(cities, InZRangeAndRectangle(zEncode, latMin, latMax, lonMin, lonMax)))
  {
    var zMin, zMax := zEncode(latMin, lonMin), zEncode(latMax, lonMax);
    var citiesList := ZRange(cities, zEncode, zMin, zMax);
    var rect := InRectangle(latMin, latMax, lonMin, lonMax);
    var inZ := InZRange(zEncode, zMin, zMax);
    FilterSameMultiset(citiesList, Filter(cities, inZ), rect);
    FilterFilter(cities, inZ, rect, InZRangeAndRectangle(zEncode, latMin, latMax, lonMin, lonMax));
  }

  /** Under the monotonicity assumption a city of the rectangle lies between the
      corner codes, so the Z range loses none of them. */
  lemma ZComplete(cities: seq<City>, zEncode: ZEncoder, latMin: real, latMax: real, lonMin: real, lonMax: real)
    ensures ZMonotone(zEncode) ==>
      Filter(cities, InZRangeAndRectangle(zEncode, latMin, latMax, lonMin, lonMax))
        == Filter(cities, InRectangle(latMin, latMax, lonMin, lonMax))
  {
    var rect := InRectangle(latMin, latMax, lonMin, lonMax);
    var both := InZRangeAndRectangle(zEncode, latMin, latMax, lonMin, lonMax);
    if ZMonotone(zEncode) {
      forall c | c in cities
        ensures both(c) == rect(c)
      {
        if rect(c) {
          assert zEncode(latMin, lonMin) <= zEncode(c.latitude, c.longitude);
          assert zEncode(c.latitude, c.longitude) <= zEncode(latMax, lonMax);
        }
      }
      FilterCongruent(cities, both, rect);
    }
  }

  lemma ZSorted(citiesList: seq<City>, zEncode: ZEncoder, keep: City -> bool)
    requires forall i, j :: 0 <= i < j < |citiesList| ==> ZKey(zEncode)(citiesList[i]) <= ZKey(zEncode)(citiesList[j])
    ensures forall i, j :: 0 <= i < j < |Filter(citiesList, keep)| ==>
      ZKey(zEncode)(Filter(citiesList, keep)[i]) <= ZKey(zEncode)(Filter(citiesList, keep)[j])
  {
    assert SortedBy(citiesList, ZKey(zEncode), CompareUint64);
    FilterSorted(citiesList, keep, ZKey(zEncode), CompareUint64);
    var f := Filter(citiesList, keep);
    forall i, j | 0 <= i < j < |f| ensures ZKey(zEncode)(f[i]) <= ZKey(zEncode)(f[j]) {
      assert CompareUint64(ZKey(zEncode)(f[i]), ZKey(zEncode)(f[j])) <= 0;
    }
  }

  /** Whatever the encoder, a city whose code lies outside the corner codes is
      not returned, even when it lies inside the rectangle. */
  lemma MissedOutsideCorners(cities: seq<City>, zEncode: ZEncoder, latMin: real, latMax: real,
                             lonMin: real, lonMax: real, a: City)
    requires ZKey(zEncode)(a) < zEncode(latMin, lonMin) || ZKey(zEncode)(a) > zEncode(latMax, lonMax)
    ensures a !in FindCities(cities, zEncode, latMin, latMax, lonMin, lonMax)
  {
  }

  /** A result none of whose elements is `a`, drawn from `[a]`, is empty. */
  lemma OnlyCandidateMissed(r: seq<City>, a: City)
    requires multiset(r) <= multiset([a]) && a !in r
    ensures r == []
  {
    assert multiset(r)[a] == 0;
    assert multiset(r) == multiset{};
  }

  /** An encoder that is not monotone: the code dips to 0 on the line latitude 5. */
  function DipEncoder(la: real, lo: real): uint64 {
    if la == 5.0 then 0 else 10
  }

  /** Without the monotonicity assumption the Z range can miss a city inside the
      rectangle: with DipEncoder the corners of [0, 10] x [0, 10] both have code
      10, and the city at (5, 5), which is inside, has code 0. */
  lemma MonotoneIsNeeded()
    ensures Filter([City("a", 5.0, 5.0)], InRectangle(0.0, 10.0, 0.0, 10.0)) == [City("a", 5.0, 5.0)]
    ensures FindCities([City("a", 5.0, 5.0)], DipEncoder, 0.0, 10.0, 0.0, 10.0) == []
  {
    var a := City("a", 5.0, 5.0);
    assert InRectangle(0.0, 10.0, 0.0, 10.0)(a);
    var r := FindCities([a], DipEncoder, 0.0, 10.0, 0.0, 10.0);
    MissedOutsideCorners([a], DipEncoder, 0.0, 10.0, 0.0, 10.0, a);
    OnlyCandidateMissed(r, a);
  }

  /** What a run of findCities as written can end in: a returned list (NULL is
      `None`), or undefined behaviour. */
  datatype Outcome = Returned(list: Option<seq<City>>) | Undefined

  /** The number of mallocs a successful findCities makes: the tree, the key
      array, one node per city, the Z range list and the filtered list. */
  function Allocations(cities: seq<City>, zEncode: ZEncoder, latMin: real, latMax: real, lonMin: real, lonMax: real): nat {
    4 + |cities| + |Filter(cities, InZRange(zEncode, zEncode(latMin, lonMin), zEncode(latMax, lonMax)))|
      + |FindCities(cities, zEncode, latMin, latMax, lonMin, lonMax)|
  }

  /** The work after the key array: the insertion loop, the Z range query and the
      filter, with `avail` mallocs left. */
  method QueryAlloc(cities: seq<City>, zEncode: ZEncoder, latMin: real, latMax: real, lonMin: real, lonMax: real, avail: nat)
    returns (r: Option<seq<City>>)
    ensures r.Some? <==> Allocations(cities, zEncode, latMin, latMax, lonMin, lonMax) <= avail + 2
    ensures r.Some? ==> r.value == FindCities(cities, zEncode, latMin, latMax, lonMin, lonMax)
  {
    var zMin, zMax := zEncode(latMin, lonMin), zEncode(latMax, lonMax);
    ghost var citiesZ := ZRange(cities, zEncode, zMin, zMax);
    var built, left := InsertCities(NewBST(CompareUint64), cities, ZKey(zEncode), avail);
    if built.None? {
      return None;
    }
    var citiesZBST := built.value;
    assert citiesZBST == ZTree(cities, zEncode);
    CompareUint64IsValid();
    var citiesList;
    citiesList, left := GetInRangeAlloc(citiesZBST, zMin, zMax, left);
    assert GetInRange(citiesZBST, zMin, zMax) == citiesZ;
    if citiesList.None? {
      return None;
    }
    var filteredList;
    filteredList, left := FilterList(citiesList.value, InRectangle(latMin, latMax, lonMin, lonMax), left);
    return filteredList;
  }

  /** findCities as written.  The key array's malloc is not checked: when it fails
      and there is at least one city, the first turn of the loop writes through
      NULL. */
  method FindCitiesAsWritten(cities: seq<City>, zEncode: ZEncoder, latMin: real, latMax: real, lonMin: real, lonMax: real, avail: nat)
    returns (r: Outcome)
    ensures r.Undefined? <==> avail == 1 && |cities| > 0
    ensures r == Returned(None) <==>
      !(avail == 1 && |cities| > 0) && avail < Allocations(cities, zEncode, latMin, latMax, lonMin, lonMax)
    ensures r.Returned? && r.list.Some? ==> r.list.value == FindCities(cities, zEncode, latMin, latMax, lonMin, lonMax)
  {
    if avail == 0 {
      return Returned(None);
    }
    var left := avail - 1;
    var tabKeyZ := left > 0;
    if tabKeyZ {
      left := left - 1;
    }
    if !tabKeyZ && |cities| > 0 {
      return Undefined;
    }
    var list := QueryAlloc(cities, zEncode, latMin, latMax, lonMin, lonMax, left);
    return Returned(list);
  }

  /** findCities with the key array's malloc checked: a failure yields NULL like
      every other one. */
  method FindCitiesAlloc(cities: seq<City>, zEncode: ZEncoder, latMin: real, latMax: real, lonMin: real, lonMax: real, avail: nat)
    returns (r: Option<seq<City>>)
    ensures r.Some? <==> Allocations(cities, zEncode, latMin, latMax, lonMin, lonMax) <= avail
    ensures r.Some? ==> r.value == FindCities(cities, zEncode, latMin, latMax, lonMin, lonMax)
  {
    if avail < 2 {
      return None;
    }
    r := QueryAlloc(cities, zEncode, latMin, latMax, lonMin, lonMax, avail - 2);
  }
}
