# Public transport route optimizer, modelled in Dafny

This project models `PublicTransportMap` from the route-optimizer program in Dafny and proves properties of the model. `PublicTransportMap` is the component that:

- builds a directed station graph from parsed metro/rail map data;
- answers whether a station name exists;
- finds, with Dijkstra's algorithm, the route between two stations with the least total distance or the fewest stations.

The modules follow the program's structure:

- `Wrappers`: `Option`, and `Result` for the error path.
- `TravelModes`: the two travel modes, `ShortestDistance` and `FewerStations`.
- `Distances`: a distance is either finite (`Fin(n)`) or `Inf`, the program's `INFINITY`. This module defines their order and addition.
- `TransportGraph`: the parsed map data (lines, station records, connections), the graph value `PublicTransportMap(stations, fullStationsMap)`, and the two builders.
  - The builders are imperative loops, proved against recursive specification functions: `AllStations` is the first-seen, de-duplicated list of names, and `FullStationsMap` gives every declared name the connections of all its records, in input order.
  - `ExistsStation` is the exact-match lookup.
- `Routes`: the reference the search is judged against.
  - A route is a non-empty sequence of stations joined by edges in the direction of travel.
  - Its cost under a travel mode is the sum of its hop weights: an edge's distance, or 1 when counting stations.
  - Between parallel edges, a hop's weight is that of the lightest one.
- `RouteOptimizer`: the search of `__calculate_path`, with its helpers, as methods:
  - the distance initialisation;
  - the `min` selection;
  - the two relaxation loops, and the dispatcher that picks one by mode;
  - the main loop, with its two early exits;
  - the walk back along predecessor links;
  - `shortest_path`, `shortest_distance`, and the query with its unknown-station errors.

The main loop carries the invariant of Dijkstra's algorithm:

- **Partition:** every station is either visited or still in the unvisited list.
- **Tree:** every predecessor link points to a visited station. The link is tight: the station's distance equals the predecessor's distance plus the lightest hop between them.
- **Relaxed:** every edge out of a visited station has been relaxed.
- **Settled:** no unvisited station is closer than a visited one.
- **Optimal:** no route to a visited station is cheaper than its distance.

From this invariant, the search is proved to return one of two results:

- a cheapest route from start to end, whose cost is the returned metric;
- or, when no route exists, the path `[start]` with `INFINITY`.

When the end cannot be reached, the code returns `[start]`: the walk back starts at the end, which has no predecessor, and then prepends the start. That is lines 109-116 of `public_transport_route_optimizer.py`.

## Model

| member | source | states |
|---|---|---|
| TransportGraph.GetAllStations | public_transport_route_optimizer.py:57-64 | The station list is the declared names in first-seen order, each name once. It has no duplicates and holds exactly the names some station record declares. |
| TransportGraph.DedupProperties | public_transport_route_optimizer.py:62-63 | Keeping a name only when it is not already in the list gives a list without repeats. The list has the same members as the input and keeps the order of first occurrences. |
| TransportGraph.GetFullStationsMap | public_transport_route_optimizer.py:48-55 | The adjacency map is the specification `FullStationsMap` of the data. Its keys are the declared names. Each name maps to the connections of all its records, as (target, distance) edges, record after record, in input order. |
| TransportGraph.AppendConnections | public_transport_route_optimizer.py:53-54 | Appending one record's connections extends that station's edge list by exactly those edges, in order. Every other station is unchanged. |
| TransportGraph.EdgesOfMembership | public_transport_route_optimizer.py:50-54 | An edge is in a station's list if and only if some record with that name has a connection converting to it. |
| TransportGraph.EdgesOfSingleEntry | public_transport_route_optimizer.py:50-54 | A station declared by one record has exactly that record's connections as edges. |
| TransportGraph.EdgesOfAbsent | public_transport_route_optimizer.py:50 | A station none of whose records has connections maps to the empty list. |
| TransportGraph.NewPublicTransportMap | public_transport_route_optimizer.py:37-39 | The constructor stores the two built attributes. When every connection leads to a declared station, the map is valid: no duplicate stations, station names equal the map's keys, and no edge dangles. |
| TransportGraph.BuiltMapValid | public_transport_route_optimizer.py:38-39 | Building from data whose connections all lead to declared stations yields a valid map. |
| TransportGraph.ExistsStation | public_transport_route_optimizer.py:66-67 | A name exists exactly when some entry of the station list equals it, character by character. |
| TransportGraph.ExistsStationIffDeclared | public_transport_route_optimizer.py:66-67 | A name exists if and only if some station record declares exactly that name. There is no case folding or trimming. |
| RouteOptimizer.InitDistanceFromStartStation | public_transport_route_optimizer.py:118-125 | Every station gets an entry: 0 for the start, INFINITY for every other station. |
| RouteOptimizer.SelectMin | public_transport_route_optimizer.py:93 | Returns the position of an unvisited station whose distance is minimal. It is the first such position: every earlier station is strictly farther, as with Python's `min`. |
| RouteOptimizer.CalculatePathByTravelMode | public_transport_route_optimizer.py:127-136 | Relaxes the current station's edges with the weighting of the mode. No distance rises. A predecessor changes only to the current station, and only where the distance drops strictly. |
| RouteOptimizer.CalculateDistance | public_transport_route_optimizer.py:138-143 | After the loop, a station takes the distance through the current station, and the current station as predecessor, exactly when that distance via the lightest edge to it is strictly smaller. Every other station keeps both. |
| RouteOptimizer.CalculatePathWithFixedDistance | public_transport_route_optimizer.py:145-150 | The same as CalculateDistance, with every edge weighing 1. |
| RouteOptimizer.RelaxOneEdge | public_transport_route_optimizer.py:139-143 | One strict-improvement update per edge accumulates to the net effect of relaxing with the lightest edge to each neighbour. |
| RouteOptimizer.RelaxedFromEffect | public_transport_route_optimizer.py:141-143 | Relaxation never raises a distance. It changes a predecessor only to the current station, with a strict decrease. |
| RouteOptimizer.FirstUnvisited | public_transport_route_optimizer.py:90-101 | Any route from the start to an unvisited station passes through an unvisited station whose tentative distance is at most the route's cost. This is the core argument of Dijkstra's algorithm. |
| RouteOptimizer.VisitedUnchanged | public_transport_route_optimizer.py:101 | Visiting the nearest station changes neither the distances nor the predecessors of visited stations or of itself. A station that was at least as far as it stays at least as far. |
| RouteOptimizer.OptimalStep | public_transport_route_optimizer.py:93-94 | The nearest unvisited station's distance is the cheapest cost of any route to it. |
| RouteOptimizer.RootedStep | public_transport_route_optimizer.py:101 | After a visit, the start still has distance 0 and no predecessor. Every other station without a predecessor is still at INFINITY. |
| RouteOptimizer.LinksStep | public_transport_route_optimizer.py:142-143 | After a visit, every predecessor link still points to a visited station, with a tight distance. A visited station's predecessor was visited before it. |
| RouteOptimizer.RelaxedStep | public_transport_route_optimizer.py:101 | After a visit, every edge out of every visited station, the new one included, is relaxed. |
| RouteOptimizer.SettledStep | public_transport_route_optimizer.py:93-94 | No unvisited station is closer than a visited one after the visit. |
| RouteOptimizer.VisitPreserves | public_transport_route_optimizer.py:90-104 | One iteration of the main loop keeps the whole search invariant: partition, predecessor tree, relaxed, settled and optimal. |
| RouteOptimizer.NoRouteAtInfinity | public_transport_route_optimizer.py:96-99 | When the nearest unvisited station is at INFINITY, no route from start to end exists, and the end's distance is INFINITY. |
| RouteOptimizer.CalculatePath | public_transport_route_optimizer.py:75-116 | The path starts at the start station. With a finite metric, the path is a route from start to end, its cost under the mode is the metric, and no route costs less. With INFINITY, the path is `[start]` and no route exists. From a station to itself, the result is `[start]` with 0. |
| RouteOptimizer.WalkBack | public_transport_route_optimizer.py:109-113 | The predecessor walk ends at a station without predecessor. The prepended stations form a route to the end, whose cost makes up the difference between the two distances. |
| RouteOptimizer.TrailStep | public_transport_route_optimizer.py:111-113 | One step back along a predecessor link extends the route. It reaches a station visited earlier, which is why the walk ends. |
| RouteOptimizer.TrailFound | public_transport_route_optimizer.py:111-116 | When the end was reached, the walk stops at the start. The start followed by the walk is a route from start to end, and its cost is the end's distance. |
| RouteOptimizer.VisitedCheapest | public_transport_route_optimizer.py:103-104 | Once the end has been visited, no route from the start to it costs less than its distance. Breaking out of the loop there loses nothing. |
| RouteOptimizer.TrailLost | public_transport_route_optimizer.py:111-114 | When the end is at INFINITY, the walk collects nothing, so the path is `[start]`. |
| RouteOptimizer.RebuildPath | public_transport_route_optimizer.py:106-116 | Turns a finished search into the returned pair: either a cheapest route with its cost, or `[start]` with INFINITY when no route exists. |
| RouteOptimizer.ShortestPath | public_transport_route_optimizer.py:69-70 | With a finite result, the path is a route from start to end, the returned steps are its number of hops, and no route has fewer stations. With INFINITY, the path is `[start]` and no route exists. From a station to itself, the result is `[start]` with 0. |
| RouteOptimizer.ShortestDistanceRoute | public_transport_route_optimizer.py:72-73 | With a finite result, the path is a route from start to end, its total distance is the result, and no route is shorter. With INFINITY, the path is `[start]` and no route exists. From a station to itself, the result is `[start]` with 0. |
| RouteOptimizer.FindPath | public_transport_route_optimizer.py:182-204 | An unknown start station fails with UnknownStation(start), checked first. An unknown end station fails with UnknownStation(end). Otherwise, the search result of the chosen mode is returned, with the optimality guarantees above, and `[start]` with 0 when start and end are the same station. |
| RouteOptimizer.HopsAreCost | public_transport_route_optimizer.py:202-204 | In the fewest-stations mode, the hop count of the route with fewest stations is its cost, and no route costs less. |
| RouteOptimizer.ModesCompared | tests_comparing_shortest_path_and_shortest_distance.py:7-25 | Given what the two searches guarantee for one query, both modes agree on whether a route exists. The fewest-stations path has no more stations than the shortest-distance path. The shortest distance is at most the distance of the fewest-stations path. |
| RouteOptimizer.CompareModes | tests_comparing_shortest_path_and_shortest_distance.py:7-25 | Runs both searches on the same query. Each result carries its search's full guarantee: a route from start to end that is fewest-stations or cheapest in distance, `[start]` with INFINITY when no route exists, and `[start]` with 0 for start = end. The two results agree on reachability. The fewest-stations path has no more stations than the shortest-distance path. The shortest distance is at most the distance along the fewest-stations path. |
| Routes.HopCount | public_transport_route_optimizer.py:145-150 | Counting every hop as 1, a route of n stations costs n - 1. |
| Routes.MinWeightFinite | public_transport_route_optimizer.py:139-141 | The lightest edge to a station is finite exactly when some edge leads there. |
| Routes.RouteCostFinite | public_transport_route_optimizer.py:98-99 | Every route has a finite cost, so a finite distance and INFINITY cannot both describe a reachable station. |

## Left out

- Reading the map file and decoding JSON (`__get_data_from_file`, lines 41-46), and the choice of data file by transport type (lines 183-188). The parsed data is a parameter of type `MapData`.
- The console program: `main`, the menus, option input and validation, printing the path and the metric (lines 153-262). The `Transport` and `MenuOption` enums belong only to that part.
- Floating-point distances. A connection's distance is a natural number and `INFINITY` is a separate value, so negative, fractional and NaN distances are not modelled.
- Connections to undeclared stations. The source would raise a `KeyError` when relaxing such an edge (line 141). The search therefore requires a valid map, and `NewPublicTransportMap` proves that data whose connections all lead to declared stations produces one.
- CalculatePath: it does not state which of several equally cheap routes is returned. That depends on the order of the station list and of each edge list; the loop and its strict-improvement test follow the source, but the contract says only that the route is a cheapest one.
- CalculatePath: `__calculate_path` is split into the main loop, `RebuildPath` and `WalkBack`. This keeps each proof small; the steps and their order are the source's.
- The `PublicTransportMap` object: its two attributes are assigned once in `__init__` and never updated, so the map is an immutable value. The deque of the path reconstruction is a sequence built by prepending.
- The concrete maps of the test files are not part of this model. `CompareModes` states the comparison those tests make, for every map.
- CalculatePath: it requires both stations to be in the map, and so do `ShortestPath` and `ShortestDistanceRoute`. Called directly with an unknown start, the source returns `([start], INFINITY)`, because the first station selected is already at INFINITY (lines 84, 93-99, 111-116). With an unknown end, it raises a `KeyError` at line 111. Neither case is modelled. The only caller, the query, rejects unknown names first (lines 190-194), which `FindPath` models as an error result.
