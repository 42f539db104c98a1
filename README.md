# Around the world in eighty days: the route-search core

This project models the route-search engine of a small program that plans a
trip around the world over a table of cities. Three pieces make up the engine:

- **The hop cost model.** A hop to the neighbour of rank 0, 1 or 2 costs 2, 4
  or 8 hours. Crossing a border adds 2 hours. Arriving in a city of more than
  200000 inhabitants adds 2 hours. Any other rank is an error.
- **The eastward test.** It decides whether a city lies east of another,
  taking the wrap-around at the antimeridian into account.
- **The neighbour table.** For every city it lists at most three eastward
  cities, nearest first.

On top of these, a greedy search runs from the start city. At each step it
takes the lowest-ranked neighbour that is not yet on the path and still fits
the budget of `maxDays * 24` hours. It stops when it reaches a city whose name
is the start city's name, or when no neighbour qualifies.

There are three files:

- `wrappers.dfy` holds `Option` and `Result`.
- `helper.dfy` (module `Helper`) models `src/helper.py`.
- `world_travel.dfy` (module `WorldTravel`) models `world_travel.py`.

Each loop of the source is a method with a loop. That method is proved equal
to a specification function:

- `NearestNeighbors` is proved against `NearestEast`.
- `TakeHop` is proved against `FirstQualifying` and `Commit`.
- `TravelAroundTheWorld` is proved against `AroundTheWorld`. The loop keeps
  the invariant that `Walk` from the current state equals `Walk` from the
  start.

The lemmas then state what the source promises about those functions.

Decisions where the model follows the code:

- **The source's two `IndexError`s are `Result` failures.**
  - `StartNotFound`: no row matches the start city and country.
  - `NoHopTaken`: not even the first hop qualified, so `travel_path[-1]`
    fails on an empty path.
- **A search that ends early returns its partial route with the hours
  spent.** The code does this; it does not report an empty route.
- **Only the greedy strategy exists.** The code has no backtracking search,
  so none is modelled.
- **Ties in the start lookup go to the first matching row**, as `.iloc[0]`
  does.
- **`is_east` returns nothing for some departure longitudes.** It falls
  through every quadrant test for a departure longitude of exactly -90, 0 or
  90, or one outside (-180, 180). The model returns `None` there. The
  neighbour finder treats that as "not east", as Python treats `None` as
  false.
- **Under `IsEast`, a city on the prime meridian is never east of another
  city.** `EastwardArc` states this. It is a consequence of the strict
  comparisons with 0 in the western quadrants.

## Model

| member | source | states |
|---|---|---|
| Helper.TravelTime | src/helper.py:143-161 | the hop succeeds exactly for ranks 0, 1 and 2; any other rank fails with that rank as the invalid index; a successful hop costs between 2 and 12 hours |
| Helper.TravelTimeBase | src/helper.py:145-154 | with no border crossing and no big destination, ranks 0, 1 and 2 cost 2, 4 and 8 hours |
| Helper.TravelTimeSurcharges | src/helper.py:156-159 | a border crossing adds exactly 2 hours; a destination above 200000 inhabitants adds exactly 2 hours |
| Helper.TravelTimeGrowsWithRank | src/helper.py:145-154 | for the same pair of cities, a higher rank always costs strictly more hours |
| Helper.Antimeridian | src/helper.py:167-171 | the result is the longitude shifted by half a turn, downwards exactly for non-negative longitudes |
| Helper.IsEast | src/helper.py:164-196 | no answer exactly for the departure longitudes no quadrant test covers; otherwise "east" holds exactly when the destination lies strictly less than half a turn east, strictly inside (-180, 180), and off the prime meridian |
| Helper.IsEastIrreflexive | src/helper.py:173-194 | a city is never east of a city on the same meridian |
| Helper.IsEastAntisymmetric | src/helper.py:173-194 | two cities are never each east of the other |
| Helper.Eligible | src/helper.py:205 | a row is a candidate exactly when it is another row of the table, the city's longitude is one the quadrant tests decide, and the row lies on the eastward arc of less than half a turn |
| Helper.CandidatesBefore | src/helper.py:202-210 | each collected entry is another, eastward row with its distance from the city; rows are collected in table order |
| Helper.CandidatesComplete | src/helper.py:204-210 | every eastward row other than the city itself is collected |
| Helper.InsertByDistance | src/helper.py:213 | inserting one entry yields a permutation of the list plus that entry |
| Helper.InsertKeepsOrder | src/helper.py:213 | inserting into a list sorted by distance keeps it sorted by distance |
| Helper.InsertKeepsStable | src/helper.py:213 | inserting an entry whose row precedes every row already there keeps ties in row order |
| Helper.SortByDistance | src/helper.py:213 | the sort returns a permutation of its input |
| Helper.SortByDistanceOrders | src/helper.py:213 | the result is sorted by distance; for input in table order, equal distances keep table order (stability) |
| Helper.FirstNeighbors | src/helper.py:214 | keeps exactly the first min(3, length) entries of the list |
| Helper.FirstNeighborsAreNearest | src/helper.py:212-214 | in a list ordered by distance then row, an entry that was cut comes after the third kept entry, and three were kept |
| Helper.NearestEast | src/helper.py:199-215 | a neighbour list has at most three entries, each another eastward row with its distance from the city |
| Helper.LeftOutIsFarther | src/helper.py:212-214 | an eastward row missing from the list means the list is full and that row is no nearer than the third neighbour |
| Helper.NearestEastIsNearest | src/helper.py:212-214 | the kept neighbours are ordered by distance with ties in table order, and every eastward row left out is no nearer than the last one kept |
| Helper.NearestNeighbors | src/helper.py:199-215 | the table has an entry for exactly the rows of the city table, and each entry is that row's nearest-eastward list |
| WorldTravel.Journey.Days | world_travel.py:45 | the days returned times 24 are the hours spent |
| WorldTravel.Lower | world_travel.py:10-11 | lower-casing keeps the length, turns each ASCII capital into its small letter, and leaves every other character as it is |
| WorldTravel.LowerIdempotent | world_travel.py:10-11 | lower-casing twice is the same as lower-casing once |
| WorldTravel.Matches | world_travel.py:10-11 | a row matches exactly when its name and country equal the searched ones up to ASCII case: same lengths, same characters once lower-cased |
| WorldTravel.MatchesIgnoresCase | world_travel.py:10-11 | lower-casing the searched name and country first changes no match |
| WorldTravel.FirstMatch | world_travel.py:10-11 | returns the first row whose city and country match ignoring case, or none when no row matches |
| WorldTravel.NeighborTable | src/helper.py:199-215 | every row of the city table has a neighbour list of at most three valid rows |
| WorldTravel.IsNeighborTable | src/helper.py:199-215 | a map with the nearest-eastward list of exactly every row is the neighbour table |
| WorldTravel.Options | world_travel.py:20 | the current city's neighbour list has at most three valid rows |
| WorldTravel.HopHours | world_travel.py:26 | a hop taken by the search costs between 2 and 12 hours |
| WorldTravel.Qualifies | world_travel.py:25-27 | a neighbour qualifies only if its name is not on the path and two more hours still fit the budget; one whose name is new qualifies whenever twelve more hours fit |
| WorldTravel.FirstQualifying | world_travel.py:23-32 | finds the lowest-ranked neighbour whose name is not on the path and whose hop fits the budget; no lower rank qualifies; none is found only when no rank qualifies |
| WorldTravel.Commit | world_travel.py:28-30 | committing a hop keeps the current city, appends exactly the neighbour's name to the path, and adds exactly the hop's travel time (rank-based cost of the current city and that neighbour), which lies between 2 and 12 hours |
| WorldTravel.Walk | world_travel.py:19-37 | the `while True` loop from a given state to the state it stops in; the current city stays a row of the table |
| WorldTravel.AroundTheWorld | world_travel.py:8-45 | the whole search: it fails for want of a start exactly when no row matches, and a returned route has at least two names and starts with the first match's name |
| WorldTravel.WalkExtends | world_travel.py:19-37 | the loop only appends to the path |
| WorldTravel.WalkHours | world_travel.py:26-29 | over the whole loop, the hours added lie between 2 and 12 times the number of names appended |
| WorldTravel.WalkWithinBudget | world_travel.py:27-29 | once a hop has been taken, the total hours stay within the budget |
| WorldTravel.WalkNoRepeats | world_travel.py:25-30 | the loop never appends a name already on the path |
| WorldTravel.WalkStartLast | world_travel.py:34-35 | the start city's name, once appended, ends the path |
| WorldTravel.WalkNamesFromTable | world_travel.py:30 | every appended name is a city name of the table |
| WorldTravel.WalkStops | world_travel.py:34-35 | when the loop stops, either the last name appended is the start city's name, or no neighbour of the city reached qualifies |
| WorldTravel.AroundTheWorldStart | world_travel.py:10-11 | the search fails for want of a start exactly when no row matches; otherwise the route starts with the name of the first matching row |
| WorldTravel.AroundTheWorldNoHop | world_travel.py:39 | the search fails on an empty path exactly when no neighbour of the start qualifies |
| WorldTravel.AroundTheWorldRoute | world_travel.py:39-45 | a returned route has at least two names and names only from the table; apart from closing the circle it repeats no name; it is at most one longer than the number of distinct names |
| WorldTravel.AroundTheWorldHours | world_travel.py:16-45 | the returned hours are 2 to 12 per hop, within `maxDays * 24`, and so the days are at most `maxDays` |
| WorldTravel.AroundTheWorldIncomplete | world_travel.py:34-40 | a returned route that does not end at its start ended because no neighbour of the last city reached qualified |
| WorldTravel.TakeHop | world_travel.py:22-32 | one scan of the neighbours commits exactly the first qualifying one (path, hours and next city); it changes nothing when none qualifies |
| WorldTravel.TravelAroundTheWorld | world_travel.py:8-45 | the loop computes exactly the search's result: start lookup, greedy walk and final route |

## Left out

- The haversine distance (src/helper.py:126-140) is not part of this model.
  The distance is a parameter `dist` of the neighbour finder and of the
  search. Every property holds for any distance function.
- The city table loader `CitiesDataset` (src/helper.py:5-123), the user
  interface `app.py` and the map drawing `src/visualization.py` are not part
  of this model. The city table is a sequence of `City` rows.
- The console output is left out:
  - the `print` of each hop;
  - the success and failure messages;
  - the message `is_east` prints when it cannot decide.
- Row labels are modelled as positions in the table. The source only compares
  labels for equality and uses them as dictionary keys, so this matches any
  table with unique row labels. The loader's filtered table, whose labels
  have gaps, is such a table.
- Longitudes, latitudes and distances are mathematical reals. Floating-point
  rounding is not modelled, and neither is a NaN coordinate.
- Lower-casing covers the ASCII letters only, not Unicode case mapping.
- WorldTravel.Journey.Days: the days are the exact quotient of the hours by
  24, not a rounded float.
- WorldTravel.TravelAroundTheWorld: the source rebuilds the neighbour table
  on every pass of the loop. The model builds it once. The table depends only
  on the city table, so every pass would see the same lists.
- The default of 80 days for `max_days` is left to the caller.
