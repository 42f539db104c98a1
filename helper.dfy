/** The route-search helpers of src/helper.py: the hop cost model, the
    eastward predicate across the antimeridian, and the table of the three
    nearest eastward neighbours of every city. */
module Helper {
  import opened Wrappers

  /** One row of the city table. */
  datatype City = City(name: string, country: string, population: int, latitude: real, longitude: real)

  // ------------------------------------------------------------------------
  // Cost model

  /** The `ValueError` raised for a neighbour rank the cost table lacks. */
  datatype CostError = InvalidNeighborIndex(index: int)

  /** Base hours of a hop, by the rank of the neighbour taken. */
  const BaseTime: map<int, nat> := map[0 := 2, 1 := 4, 2 := 8]

  /** A destination with more inhabitants than this costs two hours more. */
  const BigCityPopulation: int := 200000

  /** Hours needed to hop from `fromCity` to its neighbour `toCity` of the
      given rank; ranks other than 0, 1 and 2 raise. */
  function TravelTime(fromCity: City, toCity: City, rank: int): (r: Result<nat, CostError>)
    ensures r.Success? <==> 0 <= rank <= 2
    ensures r.Failure? ==> r.error == InvalidNeighborIndex(rank)
    ensures r.Success? ==> 2 <= r.value <= 12
  {
    if rank !in BaseTime then Failure(InvalidNeighborIndex(rank))
    else
      var time := BaseTime[rank];
      var time := if fromCity.country != toCity.country then time + 2 else time;
      var time := if toCity.population > BigCityPopulation then time + 2 else time;
      Success(time)
  }

  /** Without surcharges a hop costs 2, 4 or 8 hours for rank 0, 1 or 2. */
  lemma TravelTimeBase(fromCity: City, toCity: City)
    requires fromCity.country == toCity.country && toCity.population <= BigCityPopulation
    ensures TravelTime(fromCity, toCity, 0) == Success(2)
    ensures TravelTime(fromCity, toCity, 1) == Success(4)
    ensures TravelTime(fromCity, toCity, 2) == Success(8)
  {
  }

  /** Crossing a border and arriving in a big city each add exactly two
      hours to the same hop. */
  lemma TravelTimeSurcharges(fromCity: City, toCity: City, rank: int)
    requires 0 <= rank <= 2
    ensures TravelTime(fromCity, toCity, rank).value
         == TravelTime(fromCity.(country := toCity.country), toCity, rank).value
            + (if fromCity.country != toCity.country then 2 else 0)
    ensures TravelTime(fromCity, toCity, rank).value
         == TravelTime(fromCity, toCity.(population := BigCityPopulation), rank).value
            + (if toCity.population > BigCityPopulation then 2 else 0)
  {
  }

  /** A farther-ranked neighbour always costs more than a nearer one. */
  lemma TravelTimeGrowsWithRank(fromCity: City, toCity: City, a: int, b: int)
    requires 0 <= a < b <= 2
    ensures TravelTime(fromCity, toCity, a).value < TravelTime(fromCity, toCity, b).value
  {
  }

  // ------------------------------------------------------------------------
  // Eastward predicate

  /** The longitude half a turn away (`antimeridean`). */
  function Antimeridian(longitude: real): (r: real)
    ensures r == longitude - 180.0 || r == longitude + 180.0
    ensures r < longitude <==> longitude >= 0.0
  {
    if longitude >= 0.0 then longitude - 180.0 else longitude + 180.0
  }

  /** How many degrees one must travel east from `lon1` to reach `lon2`. */
  function EastOffset(lon1: real, lon2: real): real
  {
    if lon2 >= lon1 then lon2 - lon1 else lon2 - lon1 + 360.0
  }

  /** Reference meaning of "eastward": `lon2` is strictly between -180 and
      180, is not the prime meridian, and lies less than half a turn east of
      `lon1`. */
  predicate EastwardArc(lon1: real, lon2: real)
  {
    -180.0 < lon2 < 180.0 && lon2 != 0.0 && 0.0 < EastOffset(lon1, lon2) < 180.0
  }

  /** A departure longitude that falls through every quadrant test: a
      cardinal meridian or a value out of range. */
  predicate Undecided(lon: real)
  {
    lon <= -180.0 || lon == -90.0 || lon == 0.0 || lon == 90.0 || lon >= 180.0
  }

  /** Whether travelling from `fromCity` to `toCity` goes east; `None` where
      the source prints an error and returns nothing. */
  function IsEast(fromCity: City, toCity: City): (r: Option<bool>)
    ensures r.None? <==> Undecided(fromCity.longitude)
    ensures r.Some? ==> (r.value <==> EastwardArc(fromCity.longitude, toCity.longitude))
  {
    var lon1, lon2 := fromCity.longitude, toCity.longitude;
    if 0.0 < lon1 < 90.0 then
      Some((lon1 < lon2 < 180.0) || (-180.0 < lon2 < Antimeridian(lon1)))
    else if 90.0 < lon1 < 180.0 then
      Some((lon1 < lon2 < 180.0) || (lon2 < Antimeridian(lon1) && lon2 > -180.0))
    else if -180.0 < lon1 < -90.0 then
      Some((lon1 < lon2 < 0.0) || (0.0 < lon2 < Antimeridian(lon1)))
    else if -90.0 < lon1 < 0.0 then
      Some((lon1 < lon2 < 0.0) || (0.0 < lon2 < Antimeridian(lon1)))
    else
      None
  }

  /** A city is never east of a city on its own meridian. */
  lemma IsEastIrreflexive(a: City, b: City)
    requires a.longitude == b.longitude
    ensures IsEast(a, b) != Some(true)
  {
  }

  /** Two cities are never each east of the other. */
  lemma IsEastAntisymmetric(a: City, b: City)
    ensures !(IsEast(a, b) == Some(true) && IsEast(b, a) == Some(true))
  {
    if a.longitude != b.longitude {
      assert EastOffset(a.longitude, b.longitude) + EastOffset(b.longitude, a.longitude) == 360.0;
    }
  }

  // ------------------------------------------------------------------------
  // Nearest eastward neighbours

  /** How many neighbours each city keeps. */
  const NeighborCount: nat := 3

  /** One entry of a neighbour list: the neighbour's row and its distance. */
  datatype Neighbor = Neighbor(index: nat, distance: real)

  /** Row `j` is a candidate neighbour of row `i`: another row, lying east. */
  predicate Eligible(cities: seq<City>, i: nat, j: nat): (b: bool)
    requires i < |cities|
    ensures b <==> j < |cities| && i != j && !Undecided(cities[i].longitude) &&
                   EastwardArc(cities[i].longitude, cities[j].longitude)
  {
    j < |cities| && i != j && IsEast(cities[i], cities[j]) == Some(true)
  }

  function IndexSet(s: seq<Neighbor>): set<nat>
  {
    set k | 0 <= k < |s| :: s[k].index
  }

  predicate IndicesIncreasing(s: seq<Neighbor>)
  {
    forall a, b :: 0 <= a < b < |s| ==> s[a].index < s[b].index
  }

  /** `x` comes before `y` by distance, ties going to the earlier row. */
  predicate KeyBefore(x: Neighbor, y: Neighbor)
  {
    x.distance < y.distance || (x.distance == y.distance && x.index < y.index)
  }

  predicate SortedByDistance(s: seq<Neighbor>)
  {
    forall a, b :: 0 <= a < b < |s| ==> s[a].distance <= s[b].distance
  }

  predicate SortedByKey(s: seq<Neighbor>)
  {
    forall a, b :: 0 <= a < b < |s| ==> KeyBefore(s[a], s[b])
  }

  /** The eastward rows other than `i` among the first `n` rows, in table
      order, each with its distance from row `i`. */
  function CandidatesBefore(cities: seq<City>, dist: (City, City) -> real, i: nat, n: nat): (r: seq<Neighbor>)
    requires i < |cities| && n <= |cities|
    ensures forall k :: 0 <= k < |r| ==>
              r[k].index < n && Eligible(cities, i, r[k].index) && r[k].distance == dist(cities[i], cities[r[k].index])
    ensures IndicesIncreasing(r)
  {
    if n == 0 then []
    else
      var r := CandidatesBefore(cities, dist, i, n - 1);
      if Eligible(cities, i, n - 1) then r + [Neighbor(n - 1, dist(cities[i], cities[n - 1]))] else r
  }

  /** No eastward row is missing from the candidates. */
  lemma {:induction false} CandidatesComplete(cities: seq<City>, dist: (City, City) -> real, i: nat, n: nat, j: nat)
    requires i < |cities| && n <= |cities|
    requires j < n && Eligible(cities, i, j)
    ensures j in IndexSet(CandidatesBefore(cities, dist, i, n))
  {
    var r := CandidatesBefore(cities, dist, i, n - 1);
    if j == n - 1 {
      var r' := CandidatesBefore(cities, dist, i, n);
      assert r'[|r|].index == j;
    } else {
      CandidatesComplete(cities, dist, i, n - 1, j);
      var k :| 0 <= k < |r| && r[k].index == j;
      assert CandidatesBefore(cities, dist, i, n)[k] == r[k];
    }
  }

  /** Inserts `x` in front of the first entry at least as far away. */
  function InsertByDistance(x: Neighbor, s: seq<Neighbor>): (r: seq<Neighbor>)
    ensures |r| == |s| + 1
    ensures multiset(r) == multiset(s) + multiset{x}
  {
    if s == [] then [x]
    else if x.distance <= s[0].distance then [x] + s
    else
      assert s == [s[0]] + s[1..];
      [s[0]] + InsertByDistance(x, s[1..])
  }

  /** Every entry after an insertion is the inserted one or an old one. */
  lemma InsertedFrom(x: Neighbor, s: seq<Neighbor>, k: nat)
    requires k < |InsertByDistance(x, s)|
    ensures InsertByDistance(x, s)[k] == x || InsertByDistance(x, s)[k] in s
  {
    var r := InsertByDistance(x, s);
    assert r[k] in multiset(r);
  }

  /** Inserting keeps a list sorted by distance. */
  lemma {:induction false} InsertKeepsOrder(x: Neighbor, s: seq<Neighbor>)
    requires SortedByDistance(s)
    ensures SortedByDistance(InsertByDistance(x, s))
  {
    if s != [] && x.distance > s[0].distance {
      var rest := InsertByDistance(x, s[1..]);
      InsertKeepsOrder(x, s[1..]);
      forall k | 0 <= k < |rest|
        ensures rest[k] == x || rest[k] in s[1..]
      {
        InsertedFrom(x, s[1..], k);
      }
    }
  }

  /** Inserting an entry whose row precedes every row already there keeps a
      list sorted by distance then row. */
  lemma {:induction false} InsertKeepsStable(x: Neighbor, s: seq<Neighbor>)
    requires SortedByKey(s)
    requires forall k :: 0 <= k < |s| ==> x.index < s[k].index
    ensures SortedByKey(InsertByDistance(x, s))
  {
    if s != [] && x.distance > s[0].distance {
      var rest := InsertByDistance(x, s[1..]);
      InsertKeepsStable(x, s[1..]);
      forall k | 0 <= k < |rest|
        ensures KeyBefore(s[0], rest[k])
      {
        InsertedFrom(x, s[1..], k);
        if rest[k] != x {
          var m :| 0 <= m < |s[1..]| && s[1..][m] == rest[k];
          assert s[1 + m] == rest[k];
        }
      }
      assert InsertByDistance(x, s) == [s[0]] + rest;
    }
  }

  /** A stable sort by distance, standing for Python's `list.sort`. */
  function SortByDistance(s: seq<Neighbor>): (r: seq<Neighbor>)
    ensures |r| == |s|
    ensures multiset(r) == multiset(s)
  {
    if s == [] then []
    else
      assert s == [s[0]] + s[1..];
      InsertByDistance(s[0], SortByDistance(s[1..]))
  }

  /** The sort orders by distance; when the rows come in table order, equal
      distances stay in table order (the sort is stable). */
  lemma {:induction false} SortByDistanceOrders(s: seq<Neighbor>)
    ensures SortedByDistance(SortByDistance(s))
    ensures IndicesIncreasing(s) ==> SortedByKey(SortByDistance(s))
  {
    if s != [] {
      var rest := SortByDistance(s[1..]);
      SortByDistanceOrders(s[1..]);
      InsertKeepsOrder(s[0], rest);
      if IndicesIncreasing(s) {
        assert IndicesIncreasing(s[1..]);
        forall k | 0 <= k < |rest|
          ensures s[0].index < rest[k].index
        {
          assert rest[k] in multiset(s[1..]);
          var m :| 0 <= m < |s[1..]| && s[1..][m] == rest[k];
          assert s[1 + m] == rest[k];
        }
        InsertKeepsStable(s[0], rest);
      }
    }
  }

  /** The neighbour list of row `i`: its eastward rows sorted by distance,
      cut to the first three. */
  function NearestEast(cities: seq<City>, dist: (City, City) -> real, i: nat): (r: seq<Neighbor>)
    requires i < |cities|
    ensures |r| <= NeighborCount
    ensures forall k :: 0 <= k < |r| ==>
              Eligible(cities, i, r[k].index) && r[k].distance == dist(cities[i], cities[r[k].index])
  {
    var candidates := CandidatesBefore(cities, dist, i, |cities|);
    var sorted := SortByDistance(candidates);
    assert forall k :: 0 <= k < |sorted| ==> sorted[k] in multiset(candidates);
    FirstNeighbors(sorted)
  }

  /** The first three entries of a list (Python's `[:3]`). */
  function FirstNeighbors(s: seq<Neighbor>): (r: seq<Neighbor>)
    ensures |r| == if |s| <= NeighborCount then |s| else NeighborCount
    ensures forall k :: 0 <= k < |r| ==> r[k] == s[k]
  {
    if |s| <= NeighborCount then s else s[..NeighborCount]
  }

  /** In a list sorted by distance then row, an entry beyond the first three
      comes after the third. */
  lemma FirstNeighborsAreNearest(sorted: seq<Neighbor>, q: nat)
    requires SortedByKey(sorted) && q < |sorted|
    requires sorted[q].index !in IndexSet(FirstNeighbors(sorted))
    ensures |FirstNeighbors(sorted)| == NeighborCount
    ensures KeyBefore(FirstNeighbors(sorted)[NeighborCount - 1], sorted[q])
  {
  }

  /** An eastward row that did not make the list is no nearer than the
      last neighbour kept, and the list is full. */
  lemma LeftOutIsFarther(cities: seq<City>, dist: (City, City) -> real, i: nat, j: nat)
    requires i < |cities| && Eligible(cities, i, j)
    requires j !in IndexSet(NearestEast(cities, dist, i))
    ensures |NearestEast(cities, dist, i)| == NeighborCount
    ensures KeyBefore(NearestEast(cities, dist, i)[NeighborCount - 1], Neighbor(j, dist(cities[i], cities[j])))
  {
    var candidates := CandidatesBefore(cities, dist, i, |cities|);
    var sorted := SortByDistance(candidates);
    SortByDistanceOrders(candidates);
    CandidatesComplete(cities, dist, i, |cities|, j);
    var p :| 0 <= p < |candidates| && candidates[p].index == j;
    assert candidates[p] in multiset(sorted);
    var q :| 0 <= q < |sorted| && sorted[q] == candidates[p];
    FirstNeighborsAreNearest(sorted, q);
  }

  /** The kept neighbours are ordered by distance with ties in table order,
      and every eastward row left out is no nearer than the last one kept;
      so when fewer than three rows lie east, all of them are kept. */
  lemma NearestEastIsNearest(cities: seq<City>, dist: (City, City) -> real, i: nat)
    requires i < |cities|
    ensures SortedByKey(NearestEast(cities, dist, i))
    ensures forall j: nat :: Eligible(cities, i, j) && j !in IndexSet(NearestEast(cities, dist, i)) ==>
              |NearestEast(cities, dist, i)| == NeighborCount &&
              KeyBefore(NearestEast(cities, dist, i)[NeighborCount - 1], Neighbor(j, dist(cities[i], cities[j])))
  {
    var candidates := CandidatesBefore(cities, dist, i, |cities|);
    SortByDistanceOrders(candidates);
    forall j: nat | Eligible(cities, i, j) && j !in IndexSet(NearestEast(cities, dist, i)) {
      LeftOutIsFarther(cities, dist, i, j);
    }
  }

  /** Builds the neighbour table of every row (`nearest_neighbors_algorithm`). */
  method NearestNeighbors(cities: seq<City>, dist: (City, City) -> real) returns (neighbors: map<nat, seq<Neighbor>>)
    ensures forall i: nat :: i in neighbors <==> i < |cities|
    ensures forall i: nat :: i < |cities| ==> neighbors[i] == NearestEast(cities, dist, i)
  {
    neighbors := map[];
    var idx := 0;
    while idx < |cities|
      invariant idx <= |cities|
      invariant forall i: nat :: i in neighbors <==> i < idx
      invariant forall i: nat :: i < idx ==> neighbors[i] == NearestEast(cities, dist, i)
    {
      var distances: seq<Neighbor> := [];
      var otherIdx := 0;
      while otherIdx < |cities|
        invariant otherIdx <= |cities|
        invariant distances == CandidatesBefore(cities, dist, idx, otherIdx)
      {
        if idx != otherIdx && IsEast(cities[idx], cities[otherIdx]) == Some(true) {
          distances := distances + [Neighbor(otherIdx, dist(cities[idx], cities[otherIdx]))];
        }
        otherIdx := otherIdx + 1;
      }
      distances := SortByDistance(distances);
      neighbors := neighbors[idx := FirstNeighbors(distances)];
      idx := idx + 1;
    }
  }
}
