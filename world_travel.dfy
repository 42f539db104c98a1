/** The greedy circumnavigation of world_travel.py: find the start city, then
    keep hopping to the lowest-ranked eastward neighbour that is not on the
    path yet and still fits the hour budget, until the start city's name is
    reached again or nothing qualifies. */
module WorldTravel {
  import opened Wrappers
  import opened Helper

  /** The two `IndexError`s the search can raise. */
  datatype TravelError =
    | StartNotFound  // no row matches the start city and country
    | NoHopTaken     // not even the first hop qualified, so the path is empty

  /** What the search returns: the route of city names and the hours taken. */
  datatype Journey = Journey(route: seq<string>, hours: int)
  {
    /** The days handed back to the caller. */
    function Days(): (d: real)
      ensures d * 24.0 == hours as real
    {
      hours as real / 24.0
    }

    /** The route came back to where it started. */
    predicate Completed()
    {
      |route| >= 2 && route[|route| - 1] == route[0]
    }
  }

  predicate NoDuplicates<T(==)>(s: seq<T>)
  {
    forall a, b :: 0 <= a < b < |s| ==> s[a] != s[b]
  }

  function Elems<T(==)>(s: seq<T>): set<T>
  {
    set x | x in s
  }

  /** The city names the table holds. */
  function Names(cities: seq<City>): set<string>
  {
    set k | 0 <= k < |cities| :: cities[k].name
  }

  // ------------------------------------------------------------------------
  // Start lookup

  function LowerChar(c: char): char
  {
    if 'A' <= c <= 'Z' then (c as int + 32) as char else c
  }

  /** Lower-casing, for the ASCII letters: each capital becomes its small
      letter, so none is left, and every other character stays. */
  function Lower(s: string): (r: string)
    ensures |r| == |s|
    ensures forall k :: 0 <= k < |r| ==> !('A' <= r[k] <= 'Z')
    ensures forall k :: 0 <= k < |r| && !('A' <= s[k] <= 'Z') ==> r[k] == s[k]
    ensures forall k :: 0 <= k < |r| && 'A' <= s[k] <= 'Z' ==> r[k] == (s[k] as int + 32) as char
  {
    seq(|s|, k requires 0 <= k < |s| => LowerChar(s[k]))
  }

  /** Lower-casing twice is lower-casing once. */
  lemma LowerIdempotent(s: string)
    ensures Lower(Lower(s)) == Lower(s)
  {
  }

  /** The row has the given city name and country, ignoring case: the same
      lengths, and the same characters once lower-cased. */
  predicate Matches(city: City, name: string, country: string): (m: bool)
    ensures m <==> && |city.name| == |name| && |city.country| == |country|
                   && (forall k :: 0 <= k < |name| ==> LowerChar(city.name[k]) == LowerChar(name[k]))
                   && (forall k :: 0 <= k < |country| ==> LowerChar(city.country[k]) == LowerChar(country[k]))
  {
    Lower(city.name) == Lower(name) && Lower(city.country) == Lower(country)
  }

  /** Lower-casing the searched name and country first changes no match. */
  lemma MatchesIgnoresCase(city: City, name: string, country: string)
    ensures Matches(city, Lower(name), Lower(country)) <==> Matches(city, name, country)
  {
    LowerIdempotent(name);
    LowerIdempotent(country);
  }

  /** The first row at or after `from` that matches the start city. */
  function FirstMatch(cities: seq<City>, name: string, country: string, from: nat): (r: Option<nat>)
    requires from <= |cities|
    decreases |cities| - from
    ensures r.Some? ==>
              from <= r.value < |cities| && Matches(cities[r.value], name, country) &&
              forall j :: from <= j < r.value ==> !Matches(cities[j], name, country)
    ensures r.None? ==> forall j :: from <= j < |cities| ==> !Matches(cities[j], name, country)
  {
    if from == |cities| then None
    else if Matches(cities[from], name, country) then Some(from)
    else FirstMatch(cities, name, country, from + 1)
  }

  // ------------------------------------------------------------------------
  // The greedy hop

  /** A neighbour list of at most three rows of the table. */
  predicate ValidEntry(cities: seq<City>, entry: seq<Neighbor>)
  {
    |entry| <= NeighborCount && forall k :: 0 <= k < |entry| ==> entry[k].index < |cities|
  }

  /** Every row has a neighbour list of at most three rows. */
  predicate ValidTable(cities: seq<City>, neighbors: map<nat, seq<Neighbor>>)
  {
    forall i: nat :: i < |cities| ==> i in neighbors && ValidEntry(cities, neighbors[i])
  }

  /** The neighbour table of every row, as `NearestNeighbors` builds it. */
  function NeighborTable(cities: seq<City>, dist: (City, City) -> real): (t: map<nat, seq<Neighbor>>)
    ensures ValidTable(cities, t)
  {
    map i: nat | i < |cities| :: NearestEast(cities, dist, i)
  }

  /** A map that holds `NearestEast` for exactly the rows is the table. */
  lemma IsNeighborTable(cities: seq<City>, dist: (City, City) -> real, neighbors: map<nat, seq<Neighbor>>)
    requires forall i: nat :: i in neighbors <==> i < |cities|
    requires forall i: nat :: i < |cities| ==> neighbors[i] == NearestEast(cities, dist, i)
    ensures neighbors == NeighborTable(cities, dist)
  {
  }

  /** What stays fixed during one search: the table, its neighbour lists,
      the start row and the budget in hours. */
  datatype Search = Search(cities: seq<City>, neighbors: map<nat, seq<Neighbor>>, start: nat, budget: int)
  {
    predicate Valid()
    {
      && start < |cities|
      && ValidTable(cities, neighbors)
    }

    function StartName(): string
      requires Valid()
    {
      cities[start].name
    }
  }

  /** The loop's state: the current row, the names visited, the hours spent. */
  datatype Progress = Progress(current: nat, path: seq<string>, hours: int)

  predicate At(s: Search, p: Progress)
  {
    s.Valid() && p.current < |s.cities|
  }

  /** The neighbour list of the current city. */
  function Options(s: Search, p: Progress): (entry: seq<Neighbor>)
    requires At(s, p)
    ensures ValidEntry(s.cities, entry)
  {
    s.neighbors[p.current]
  }

  /** Hours of the hop to the current city's neighbour of the given rank. */
  function HopHours(s: Search, p: Progress, rank: nat): (h: nat)
    requires At(s, p) && rank < |Options(s, p)|
    ensures 2 <= h <= 12
  {
    TravelTime(s.cities[p.current], s.cities[Options(s, p)[rank].index], rank).value
  }

  /** The neighbour of this rank may be taken: its name is not on the path
      yet and the hop still fits the budget. */
  predicate Qualifies(s: Search, p: Progress, rank: nat): (q: bool)
    requires At(s, p) && rank < |Options(s, p)|
    ensures q ==> s.cities[Options(s, p)[rank].index].name !in p.path && p.hours + 2 <= s.budget
    ensures s.cities[Options(s, p)[rank].index].name !in p.path && p.hours + 12 <= s.budget ==> q
  {
    s.cities[Options(s, p)[rank].index].name !in p.path && p.hours + HopHours(s, p, rank) <= s.budget
  }

  /** The lowest rank from `rank` on whose neighbour qualifies. */
  function FirstQualifying(s: Search, p: Progress, rank: nat): (r: Option<nat>)
    requires At(s, p) && rank <= |Options(s, p)|
    decreases |Options(s, p)| - rank
    ensures r.Some? ==>
              rank <= r.value < |Options(s, p)| && Qualifies(s, p, r.value) &&
              forall m :: rank <= m < r.value ==> !Qualifies(s, p, m)
    ensures r.None? ==> forall m :: rank <= m < |Options(s, p)| ==> !Qualifies(s, p, m)
  {
    if rank == |Options(s, p)| then None
    else if Qualifies(s, p, rank) then Some(rank)
    else FirstQualifying(s, p, rank + 1)
  }

  /** The state right after committing the hop of the given rank; the
      current city moves only if the loop goes on. */
  function Commit(s: Search, p: Progress, rank: nat): (c: Progress)
    requires At(s, p) && rank < |Options(s, p)|
    ensures c.current == p.current
    ensures |c.path| == |p.path| + 1 && c.path[..|p.path|] == p.path
    ensures c.path[|p.path|] == s.cities[Options(s, p)[rank].index].name
    ensures c.hours == p.hours + HopHours(s, p, rank) && p.hours + 2 <= c.hours <= p.hours + 12
  {
    Progress(p.current, p.path + [s.cities[Options(s, p)[rank].index].name], p.hours + HopHours(s, p, rank))
  }

  lemma FreshNameShrinks(cities: seq<City>, path: seq<string>, name: string)
    requires name in Names(cities) && name !in path
    ensures |Names(cities) - Elems(path + [name])| < |Names(cities) - Elems(path)|
  {
    var before, after := Names(cities) - Elems(path), Names(cities) - Elems(path + [name]);
    assert Elems(path + [name]) == Elems(path) + {name};
    assert before == after + {name};
  }

  /** The greedy loop from state `p` to the state it stops in. */
  function Walk(s: Search, p: Progress): (w: Progress)
    requires At(s, p)
    decreases |Names(s.cities) - Elems(p.path)|
    ensures At(s, w)
  {
    match FirstQualifying(s, p, 0)
    case None => p
    case Some(rank) =>
      var next := Options(s, p)[rank].index;
      var committed := Commit(s, p, rank);
      if s.cities[next].name == s.StartName() then committed
      else
        FreshNameShrinks(s.cities, p.path, s.cities[next].name);
        Walk(s, committed.(current := next))
  }

  /** The whole search (`travel_around_the_world`). */
  function AroundTheWorld(cities: seq<City>, neighbors: map<nat, seq<Neighbor>>, name: string, country: string, maxDays: int)
    : (r: Result<Journey, TravelError>)
    requires ValidTable(cities, neighbors)
    ensures r == Failure(StartNotFound) <==> FirstMatch(cities, name, country, 0).None?
    ensures r.Success? ==>
              |r.value.route| >= 2 && r.value.route[0] == cities[FirstMatch(cities, name, country, 0).value].name
  {
    match FirstMatch(cities, name, country, 0)
    case None => Failure(StartNotFound)
    case Some(start) =>
      var final := Walk(Search(cities, neighbors, start, maxDays * 24), Progress(start, [], 0));
      if final.path == [] then Failure(NoHopTaken)
      else Success(Journey([cities[start].name] + final.path, final.hours))
  }

  // ------------------------------------------------------------------------
  // Properties of the walk

  /** The walk only appends to the path. */
  lemma {:induction false} WalkExtends(s: Search, p: Progress)
    requires At(s, p)
    decreases |Names(s.cities) - Elems(p.path)|
    ensures |p.path| <= |Walk(s, p).path| && Walk(s, p).path[..|p.path|] == p.path
  {
    match FirstQualifying(s, p, 0)
    case None =>
    case Some(rank) =>
      var next := Options(s, p)[rank].index;
      if s.cities[next].name != s.StartName() {
        var q := Commit(s, p, rank).(current := next);
        FreshNameShrinks(s.cities, p.path, s.cities[next].name);
        WalkExtends(s, q);
        assert Walk(s, p) == Walk(s, q);
        assert Walk(s, q).path[..|p.path|] == Walk(s, q).path[..|q.path|][..|p.path|];
      }
  }

  /** Every hop adds between 2 and 12 hours, so the hours never go down. */
  lemma {:induction false} WalkHours(s: Search, p: Progress)
    requires At(s, p)
    decreases |Names(s.cities) - Elems(p.path)|
    ensures 2 * (|Walk(s, p).path| - |p.path|) <= Walk(s, p).hours - p.hours <= 12 * (|Walk(s, p).path| - |p.path|)
  {
    match FirstQualifying(s, p, 0)
    case None =>
    case Some(rank) =>
      var next := Options(s, p)[rank].index;
      if s.cities[next].name != s.StartName() {
        var q := Commit(s, p, rank).(current := next);
        FreshNameShrinks(s.cities, p.path, s.cities[next].name);
        WalkHours(s, q);
        assert Walk(s, p) == Walk(s, q);
      }
  }

  /** Once a hop has been taken, the hours spent are within the budget. */
  lemma {:induction false} WalkWithinBudget(s: Search, p: Progress)
    requires At(s, p)
    decreases |Names(s.cities) - Elems(p.path)|
    ensures |Walk(s, p).path| != |p.path| ==> Walk(s, p).hours <= s.budget
  {
    match FirstQualifying(s, p, 0)
    case None =>
    case Some(rank) =>
      var next := Options(s, p)[rank].index;
      if s.cities[next].name != s.StartName() {
        var q := Commit(s, p, rank).(current := next);
        FreshNameShrinks(s.cities, p.path, s.cities[next].name);
        WalkWithinBudget(s, q);
        WalkHours(s, q);
      }
  }

  /** No name is visited twice. */
  lemma {:induction false} WalkNoRepeats(s: Search, p: Progress)
    requires At(s, p) && NoDuplicates(p.path)
    decreases |Names(s.cities) - Elems(p.path)|
    ensures NoDuplicates(Walk(s, p).path)
  {
    match FirstQualifying(s, p, 0)
    case None =>
    case Some(rank) =>
      var next := Options(s, p)[rank].index;
      var name := s.cities[next].name;
      var q := Commit(s, p, rank);
      assert q.path == p.path + [name];
      AppendFresh(p.path, name);
      if name != s.StartName() {
        FreshNameShrinks(s.cities, p.path, name);
        assert Walk(s, p) == Walk(s, q.(current := next));
        WalkNoRepeats(s, q.(current := next));
      } else {
        assert Walk(s, p) == q;
      }
  }

  /** The start's name, once absent from the path, can only come back as
      the walk's last name. */
  lemma {:induction false} WalkStartLast(s: Search, p: Progress)
    requires At(s, p) && s.StartName() !in p.path
    decreases |Names(s.cities) - Elems(p.path)|
    ensures s.StartName() in Walk(s, p).path ==> Walk(s, p).path[|Walk(s, p).path| - 1] == s.StartName()
  {
    match FirstQualifying(s, p, 0)
    case None =>
    case Some(rank) =>
      var next := Options(s, p)[rank].index;
      var name := s.cities[next].name;
      var q := Commit(s, p, rank);
      assert q.path == p.path + [name];
      if name != s.StartName() {
        assert s.StartName() !in q.path;
        FreshNameShrinks(s.cities, p.path, name);
        assert Walk(s, p) == Walk(s, q.(current := next));
        WalkStartLast(s, q.(current := next));
      } else {
        assert Walk(s, p) == q;
      }
  }

  /** Every name the walk appends comes from the table. */
  lemma {:induction false} WalkNamesFromTable(s: Search, p: Progress)
    requires At(s, p)
    decreases |Names(s.cities) - Elems(p.path)|
    ensures Elems(Walk(s, p).path) <= Elems(p.path) + Names(s.cities)
  {
    match FirstQualifying(s, p, 0)
    case None =>
    case Some(rank) =>
      var next := Options(s, p)[rank].index;
      var name := s.cities[next].name;
      var q := Commit(s, p, rank);
      assert Elems(q.path) == Elems(p.path) + {name};
      assert name in Names(s.cities);
      if name != s.StartName() {
        FreshNameShrinks(s.cities, p.path, name);
        assert Walk(s, p) == Walk(s, q.(current := next));
        WalkNamesFromTable(s, q.(current := next));
      } else {
        assert Walk(s, p) == q;
      }
  }

  /** Appending a name not yet on a repeat-free path. */
  lemma AppendFresh(path: seq<string>, name: string)
    requires NoDuplicates(path) && name !in path
    ensures NoDuplicates(path + [name]) && Elems(path + [name]) == Elems(path) + {name}
  {
  }

  /** The last name appended is the start's name. */
  predicate ClosedCircle(s: Search, f: Progress)
    requires s.Valid()
  {
    f.path != [] && f.path[|f.path| - 1] == s.StartName()
  }

  /** No neighbour of the current city qualifies. */
  predicate Stuck(s: Search, f: Progress)
    requires At(s, f)
  {
    FirstQualifying(s, f, 0).None?
  }

  /** The loop stops exactly when the start's name has just been appended
      or no neighbour of the current city qualifies. */
  lemma {:induction false} WalkStops(s: Search, p: Progress)
    requires At(s, p)
    decreases |Names(s.cities) - Elems(p.path)|
    ensures ClosedCircle(s, Walk(s, p)) || Stuck(s, Walk(s, p))
  {
    match FirstQualifying(s, p, 0)
    case None =>
      assert Walk(s, p) == p;
      assert Stuck(s, p);
    case Some(rank) =>
      var next := Options(s, p)[rank].index;
      var committed := Commit(s, p, rank);
      if s.cities[next].name == s.StartName() {
        assert Walk(s, p) == committed;
        assert ClosedCircle(s, committed);
      } else {
        var q := committed.(current := next);
        FreshNameShrinks(s.cities, p.path, s.cities[next].name);
        assert Walk(s, p) == Walk(s, q);
        WalkStops(s, q);
      }
  }

  /** A list without repeats has as many distinct elements as entries. */
  lemma {:induction false} DistinctCount<T>(q: seq<T>)
    requires NoDuplicates(q)
    ensures |Elems(q)| == |q|
  {
    if q != [] {
      var last := |q| - 1;
      assert q == q[..last] + [q[last]];
      assert Elems(q) == Elems(q[..last]) + {q[last]};
      DistinctCount(q[..last]);
    }
  }

  // ------------------------------------------------------------------------
  // Properties of the whole search

  /** The search fails for want of a start exactly when no row matches the
      city and country; otherwise the route starts at the first match. */
  lemma AroundTheWorldStart(cities: seq<City>, neighbors: map<nat, seq<Neighbor>>, name: string, country: string, maxDays: int)
    requires ValidTable(cities, neighbors)
    ensures AroundTheWorld(cities, neighbors, name, country, maxDays) == Failure(StartNotFound)
            <==> forall k :: 0 <= k < |cities| ==> !Matches(cities[k], name, country)
    ensures AroundTheWorld(cities, neighbors, name, country, maxDays).Success? ==>
              exists k :: 0 <= k < |cities| && Matches(cities[k], name, country) &&
                (forall j :: 0 <= j < k ==> !Matches(cities[j], name, country)) &&
                AroundTheWorld(cities, neighbors, name, country, maxDays).value.route[0] == cities[k].name
  {
    var found := FirstMatch(cities, name, country, 0);
    if found.Some? {
      var k := found.value;
      assert Matches(cities[k], name, country);
    }
  }

  /** The search raises on an empty path exactly when the very first
      iteration commits nothing. */
  lemma AroundTheWorldNoHop(cities: seq<City>, neighbors: map<nat, seq<Neighbor>>, name: string, country: string, maxDays: int)
    requires ValidTable(cities, neighbors)
    requires FirstMatch(cities, name, country, 0).Some?
    ensures var start := FirstMatch(cities, name, country, 0).value;
            AroundTheWorld(cities, neighbors, name, country, maxDays) == Failure(NoHopTaken)
            <==> FirstQualifying(Search(cities, neighbors, start, maxDays * 24), Progress(start, [], 0), 0).None?
  {
    var start := FirstMatch(cities, name, country, 0).value;
    var s := Search(cities, neighbors, start, maxDays * 24);
    match FirstQualifying(s, Progress(start, [], 0), 0)
    case None =>
    case Some(rank) =>
      var next := Options(s, Progress(start, [], 0))[rank].index;
      var q := Commit(s, Progress(start, [], 0), rank);
      if s.cities[next].name != s.StartName() {
        FreshNameShrinks(s.cities, [], s.cities[next].name);
        assert Walk(s, Progress(start, [], 0)) == Walk(s, q.(current := next));
        WalkExtends(s, q.(current := next));
      }
  }

  /** A returned route starts with the start's name, visits no city name
      twice except for closing the circle, and is at most one longer than
      the number of names in the table. */
  lemma AroundTheWorldRoute(cities: seq<City>, neighbors: map<nat, seq<Neighbor>>, name: string, country: string, maxDays: int)
    requires ValidTable(cities, neighbors)
    ensures var r := AroundTheWorld(cities, neighbors, name, country, maxDays);
            r.Success? ==>
              && |r.value.route| >= 2
              && NoDuplicates(r.value.route[1..])
              && NoDuplicates(r.value.route[..|r.value.route| - 1])
              && Elems(r.value.route) <= Names(cities)
              && |r.value.route| <= |Names(cities)| + 1
  {
    var r := AroundTheWorld(cities, neighbors, name, country, maxDays);
    if r.Success? {
      var start := FirstMatch(cities, name, country, 0).value;
      var s := Search(cities, neighbors, start, maxDays * 24);
      var path := Walk(s, Progress(start, [], 0)).path;
      WalkNoRepeats(s, Progress(start, [], 0));
      WalkStartLast(s, Progress(start, [], 0));
      WalkNamesFromTable(s, Progress(start, [], 0));
      assert r.value.route == [s.StartName()] + path;
      assert s.StartName() in Names(cities);
      RouteShape(s.StartName(), path, Names(cities));
    }
  }

  /** Prefixing a repeat-free path whose only possible copy of `first` is its
      last entry. */
  lemma RouteShape(first: string, path: seq<string>, names: set<string>)
    requires path != [] && NoDuplicates(path) && Elems(path) <= names && first in names
    requires first in path ==> path[|path| - 1] == first
    ensures var route := [first] + path;
            && NoDuplicates(route[1..])
            && NoDuplicates(route[..|route| - 1])
            && Elems(route) <= names
            && |route| <= |names| + 1
  {
    var route := [first] + path;
    assert route[1..] == path;
    assert Elems(route) == {first} + Elems(path);
    DistinctCount(path);
    SubsetCount(Elems(path), names);
    PrefixNoDuplicates(first, path);
  }

  /** The route without its last entry repeats nothing. */
  lemma PrefixNoDuplicates(first: string, path: seq<string>)
    requires path != [] && NoDuplicates(path)
    requires first in path ==> path[|path| - 1] == first
    ensures NoDuplicates(([first] + path)[..|path|])
  {
    var front := ([first] + path)[..|path|];
    assert front == [first] + path[..|path| - 1];
    forall a, b | 0 <= a < b < |front|
      ensures front[a] != front[b]
    {
      assert front[b] == path[b - 1];
      if a > 0 {
        assert front[a] == path[a - 1];
      }
    }
  }

  lemma {:induction false} SubsetCount<T>(a: set<T>, b: set<T>)
    requires a <= b
    ensures |a| <= |b|
  {
    assert b == a + (b - a);
  }

  /** A returned journey took between 2 and 12 hours per hop and never more
      than the budget of `maxDays * 24` hours. */
  lemma AroundTheWorldHours(cities: seq<City>, neighbors: map<nat, seq<Neighbor>>, name: string, country: string, maxDays: int)
    requires ValidTable(cities, neighbors)
    ensures var r := AroundTheWorld(cities, neighbors, name, country, maxDays);
            r.Success? ==>
              && 2 * (|r.value.route| - 1) <= r.value.hours <= 12 * (|r.value.route| - 1)
              && r.value.hours <= maxDays * 24
              && r.value.Days() <= maxDays as real
  {
    var r := AroundTheWorld(cities, neighbors, name, country, maxDays);
    if r.Success? {
      var start := FirstMatch(cities, name, country, 0).value;
      var s := Search(cities, neighbors, start, maxDays * 24);
      WalkHours(s, Progress(start, [], 0));
      WalkWithinBudget(s, Progress(start, [], 0));
    }
  }

  /** A returned journey that does not close the circle ended because no
      neighbour of the last city reached qualified. */
  lemma AroundTheWorldIncomplete(cities: seq<City>, neighbors: map<nat, seq<Neighbor>>, name: string, country: string, maxDays: int)
    requires ValidTable(cities, neighbors)
    requires FirstMatch(cities, name, country, 0).Some?
    ensures var start := FirstMatch(cities, name, country, 0).value;
            var s := Search(cities, neighbors, start, maxDays * 24);
            var r := AroundTheWorld(cities, neighbors, name, country, maxDays);
            r.Success? && !r.value.Completed() ==>
              At(s, Walk(s, Progress(start, [], 0))) && FirstQualifying(s, Walk(s, Progress(start, [], 0)), 0).None?
  {
    var start := FirstMatch(cities, name, country, 0).value;
    var s := Search(cities, neighbors, start, maxDays * 24);
    var final := Walk(s, Progress(start, [], 0));
    WalkStops(s, Progress(start, [], 0));
    var r := AroundTheWorld(cities, neighbors, name, country, maxDays);
    if r.Success? && !r.value.Completed() {
      assert final.path != [] && r == Success(Journey([s.StartName()] + final.path, final.hours));
      assert !ClosedCircle(s, final);
      assert Stuck(s, final);
    }
  }

  // ------------------------------------------------------------------------
  // The loop

  /** One pass of the inner `for` loop: scan the current city's neighbours
      by rank and commit the first whose name is not on the path and whose
      hop fits the budget. */
  method TakeHop(cities: seq<City>, neighbors: map<nat, seq<Neighbor>>, ghost start: nat, maxHours: int,
                 currentCity: nat, path: seq<string>, hours: int)
    returns (nextCity: Option<nat>, travelPath: seq<string>, totalHours: int)
    requires At(Search(cities, neighbors, start, maxHours), Progress(currentCity, path, hours))
    ensures var s := Search(cities, neighbors, start, maxHours);
            match FirstQualifying(s, Progress(currentCity, path, hours), 0)
            case None => nextCity == None && travelPath == path && totalHours == hours
            case Some(rank) =>
              && nextCity == Some(Options(s, Progress(currentCity, path, hours))[rank].index)
              && Progress(currentCity, travelPath, totalHours) == Commit(s, Progress(currentCity, path, hours), rank)
  {
    ghost var s := Search(cities, neighbors, start, maxHours);
    ghost var before := Progress(currentCity, path, hours);
    var nearest := neighbors[currentCity];
    nextCity, travelPath, totalHours := None, path, hours;
    var idx := 0;
    while idx < |nearest|
      invariant idx <= |nearest|
      invariant nextCity.None? && travelPath == path && totalHours == hours
      invariant FirstQualifying(s, before, idx) == FirstQualifying(s, before, 0)
    {
      var neighbor := nearest[idx].index;
      if cities[neighbor].name !in travelPath {
        var travelTime := TravelTime(cities[currentCity], cities[neighbor], idx).value;
        if totalHours + travelTime <= maxHours {
          nextCity := Some(neighbor);
          totalHours := totalHours + travelTime;
          travelPath := travelPath + [cities[neighbor].name];
          return;
        }
      }
      idx := idx + 1;
    }
  }

  method TravelAroundTheWorld(cities: seq<City>, dist: (City, City) -> real, startCityName: string, startCountry: string, maxDays: int)
    returns (r: Result<Journey, TravelError>)
    ensures r == AroundTheWorld(cities, NeighborTable(cities, dist), startCityName, startCountry, maxDays)
  {
    var found := FirstMatch(cities, startCityName, startCountry, 0);
    if found.None? {
      return Failure(StartNotFound);
    }
    var start: nat := found.value;
    var neighbors := NearestNeighbors(cities, dist);
    IsNeighborTable(cities, dist, neighbors);
    var currentCity: nat := start;
    var travelPath: seq<string> := [];
    var maxHours := maxDays * 24;
    var totalHours: int := 0;
    ghost var s := Search(cities, neighbors, start, maxHours);
    ghost var goal := Walk(s, Progress(start, [], 0));
    while true
      invariant currentCity < |cities|
      invariant Walk(s, Progress(currentCity, travelPath, totalHours)) == goal
      decreases |Names(cities) - Elems(travelPath)|
    {
      ghost var before := Progress(currentCity, travelPath, totalHours);
      var nextCity;
      nextCity, travelPath, totalHours := TakeHop(cities, neighbors, start, maxHours, currentCity, travelPath, totalHours);
      if nextCity.None? || cities[nextCity.value].name == cities[start].name {
        break;
      }
      FreshNameShrinks(cities, before.path, cities[nextCity.value].name);
      currentCity := nextCity.value;
    }
    if |travelPath| == 0 {
      return Failure(NoHopTaken);
    }
    travelPath := [cities[start].name] + travelPath;
    r := Success(Journey(travelPath, totalHours));
  }
}
