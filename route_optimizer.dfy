/** The shortest-route search of PublicTransportMap
    (public_transport_route_optimizer.py:69-150, and the station checks of
    lines 190-194): Dijkstra's algorithm with a linear-scan minimum over the
    list of unvisited stations, two weightings, early exits, and the path
    rebuilt by walking predecessor links back from the destination. */
module RouteOptimizer {
  import opened Wrappers
  import opened TravelModes
  import opened Distances
  import opened TransportGraph
  import opened Routes

  type Adjacency = map<string, seq<Edge>>

  /** The error raised when a queried station name is not in the map. */
  datatype UnknownStationError = UnknownStation(name: string)

  /** The pair a query returns: the path and its metric. */
  datatype Answer = Answer(path: seq<string>, metric: Dist)

  // ---------------------------------------------------------------------------
  // Initialisation, minimum selection, relaxation
  // ---------------------------------------------------------------------------

  /** __init_distance_from_start_station: 0 for the start station, INFINITY
      for every other station. */
  method InitDistanceFromStartStation(stations: seq<string>, startStation: string) returns (dist: map<string, Dist>)
    ensures dist.Keys == set s | s in stations
    ensures forall s :: s in dist ==> dist[s] == (if s == startStation then Fin(0) else Inf)
  {
    dist := map[];
    for i := 0 to |stations|
      invariant dist.Keys == set s | s in stations[..i]
      invariant forall s :: s in dist ==> dist[s] == (if s == startStation then Fin(0) else Inf)
    {
      assert stations[..i + 1] == stations[..i] + [stations[i]];
      if stations[i] == startStation {
        dist := dist[stations[i] := Fin(0)];
      } else {
        dist := dist[stations[i] := Inf];
      }
    }
    assert stations[..|stations|] == stations;
  }

  /** min(unvisited_stations, key=distance_from_start): the position of the
      first unvisited station whose tentative distance is least. */
  method SelectMin(unvisited: seq<string>, dist: map<string, Dist>) returns (k: nat)
    requires unvisited != []
    requires forall s :: s in unvisited ==> s in dist
    ensures k < |unvisited|
    ensures forall j :: 0 <= j < |unvisited| ==> LessEq(dist[unvisited[k]], dist[unvisited[j]])
    ensures forall j :: 0 <= j < k ==> Less(dist[unvisited[k]], dist[unvisited[j]])
  {
    k := 0;
    for i := 1 to |unvisited|
      invariant k < i
      invariant forall j :: 0 <= j < i ==> LessEq(dist[unvisited[k]], dist[unvisited[j]])
      invariant forall j :: 0 <= j < k ==> Less(dist[unvisited[k]], dist[unvisited[j]])
    {
      if Less(dist[unvisited[i]], dist[unvisited[k]]) {
        k := i;
      }
    }
  }

  /** The net effect of relaxing the edges es of station current: a station
      whose distance through current (via the lightest edge to it) is strictly
      smaller takes that distance and current as predecessor; every other
      station keeps both. */
  ghost predicate RelaxedFrom(es: seq<Edge>, current: string, mode: TravelMode,
                              dist: map<string, Dist>, prev: map<string, Option<string>>,
                              dist': map<string, Dist>, prev': map<string, Option<string>>)
  {
    && dist'.Keys == dist.Keys
    && prev'.Keys == prev.Keys
    && current in dist
    && forall v :: v in dist && v in prev ==> RelaxedAt(es, current, mode, dist, prev, dist', prev', v)
  }

  /** The effect of relaxing es on the one station v. */
  ghost predicate RelaxedAt(es: seq<Edge>, current: string, mode: TravelMode,
                            dist: map<string, Dist>, prev: map<string, Option<string>>,
                            dist': map<string, Dist>, prev': map<string, Option<string>>, v: string)
    requires current in dist && v in dist && v in prev && dist'.Keys == dist.Keys && prev'.Keys == prev.Keys
  {
    var candidate := Add(dist[current], MinWeight(es, v, mode));
    if Less(candidate, dist[v]) then dist'[v] == candidate && prev'[v] == Some(current)
    else dist'[v] == dist[v] && prev'[v] == prev[v]
  }

  /** __calculate_path_by_travel_mode: relax the edges of current with the
      weighting the travel mode selects. */
  method CalculatePathByTravelMode(m: PublicTransportMap, current: string,
                                   dist: map<string, Dist>, prev: map<string, Option<string>>, mode: TravelMode)
    returns (newDist: map<string, Dist>, newPrev: map<string, Option<string>>)
    requires current in m.fullStationsMap && current in dist && dist[current].Fin?
    requires prev.Keys == dist.Keys
    requires forall e :: e in m.fullStationsMap[current] ==> e.target in dist
    ensures RelaxedFrom(m.fullStationsMap[current], current, mode, dist, prev, newDist, newPrev)
    ensures forall v :: v in dist ==> LessEq(newDist[v], dist[v])
    ensures forall v :: v in prev && newPrev[v] != prev[v] ==> newPrev[v] == Some(current) && Less(newDist[v], dist[v])
  {
    match mode {
      case ShortestDistance =>
        newDist, newPrev := CalculateDistance(m, current, dist, prev);
      case FewerStations =>
        newDist, newPrev := CalculatePathWithFixedDistance(m, current, dist, prev);
    }
    RelaxedFromEffect(m.fullStationsMap[current], current, mode, dist, prev, newDist, newPrev);
  }

  /** __calculate_distance: for each edge of current in order, a neighbour
      reached more cheaply through current, by the edge's distance, takes the
      new distance and current as predecessor. */
  method CalculateDistance(m: PublicTransportMap, current: string,
                           dist: map<string, Dist>, prev: map<string, Option<string>>)
    returns (newDist: map<string, Dist>, newPrev: map<string, Option<string>>)
    requires current in m.fullStationsMap && current in dist && dist[current].Fin?
    requires prev.Keys == dist.Keys
    requires forall e :: e in m.fullStationsMap[current] ==> e.target in dist
    ensures RelaxedFrom(m.fullStationsMap[current], current, TravelMode.ShortestDistance, dist, prev, newDist, newPrev)
  {
    var edges := m.fullStationsMap[current];
    newDist, newPrev := dist, prev;
    assert edges[..0] == [];
    for k := 0 to |edges|
      invariant RelaxedFrom(edges[..k], current, TravelMode.ShortestDistance, dist, prev, newDist, newPrev)
    {
      var e := edges[k];
      var newDistance := Add(newDist[current], Fin(e.distance));
      ghost var d0, p0 := newDist, newPrev;
      if Less(newDistance, newDist[e.target]) {
        newDist := newDist[e.target := newDistance];
        newPrev := newPrev[e.target := Some(current)];
      }
      RelaxOneEdge(edges, k, current, TravelMode.ShortestDistance, dist, prev, d0, p0, newDist, newPrev);
    }
    assert edges[..|edges|] == edges;
  }

  /** __calculate_path_with_fixed_distance: the same loop with every edge
      weighing 1, so that distances count stations. */
  method CalculatePathWithFixedDistance(m: PublicTransportMap, current: string,
                                        dist: map<string, Dist>, prev: map<string, Option<string>>)
    returns (newDist: map<string, Dist>, newPrev: map<string, Option<string>>)
    requires current in m.fullStationsMap && current in dist && dist[current].Fin?
    requires prev.Keys == dist.Keys
    requires forall e :: e in m.fullStationsMap[current] ==> e.target in dist
    ensures RelaxedFrom(m.fullStationsMap[current], current, FewerStations, dist, prev, newDist, newPrev)
  {
    var edges := m.fullStationsMap[current];
    newDist, newPrev := dist, prev;
    assert edges[..0] == [];
    for k := 0 to |edges|
      invariant RelaxedFrom(edges[..k], current, FewerStations, dist, prev, newDist, newPrev)
    {
      var e := edges[k];
      var newDistance := Add(newDist[current], Fin(1));
      ghost var d0, p0 := newDist, newPrev;
      if Less(newDistance, newDist[e.target]) {
        newDist := newDist[e.target := newDistance];
        newPrev := newPrev[e.target := Some(current)];
      }
      RelaxOneEdge(edges, k, current, FewerStations, dist, prev, d0, p0, newDist, newPrev);
    }
    assert edges[..|edges|] == edges;
  }

  /** Relaxation never raises a distance, and a predecessor changes only
      together with a strict improvement through current. */
  lemma RelaxedFromEffect(es: seq<Edge>, current: string, mode: TravelMode,
                          dist: map<string, Dist>, prev: map<string, Option<string>>,
                          dist': map<string, Dist>, prev': map<string, Option<string>>)
    requires prev.Keys == dist.Keys
    requires RelaxedFrom(es, current, mode, dist, prev, dist', prev')
    ensures forall v :: v in dist ==> LessEq(dist'[v], dist[v])
    ensures forall v :: v in prev && prev'[v] != prev[v] ==> prev'[v] == Some(current) && Less(dist'[v], dist[v])
  {
    forall v | v in dist
      ensures LessEq(dist'[v], dist[v])
      ensures prev'[v] != prev[v] ==> prev'[v] == Some(current) && Less(dist'[v], dist[v])
    {
      assert RelaxedAt(es, current, mode, dist, prev, dist', prev', v);
    }
  }

  lemma MinWeightSnoc(es: seq<Edge>, k: nat, v: string, mode: TravelMode)
    requires k < |es|
    ensures MinWeight(es[..k + 1], v, mode) ==
      if es[k].target == v && Less(Fin(Weight(mode, es[k])), MinWeight(es[..k], v, mode)) then Fin(Weight(mode, es[k]))
      else MinWeight(es[..k], v, mode)
  {
    assert es[..k + 1][..k] == es[..k];
  }

  /** One iteration of the relaxation loop keeps RelaxedFrom for one more edge. */
  lemma RelaxOneEdge(es: seq<Edge>, k: nat, current: string, mode: TravelMode,
                     dist: map<string, Dist>, prev: map<string, Option<string>>,
                     d0: map<string, Dist>, p0: map<string, Option<string>>,
                     d1: map<string, Dist>, p1: map<string, Option<string>>)
    requires k < |es| && es[k].target in dist && current in dist && dist[current].Fin?
    requires prev.Keys == dist.Keys
    requires RelaxedFrom(es[..k], current, mode, dist, prev, d0, p0)
    requires var nd := Add(d0[current], Fin(Weight(mode, es[k])));
      if Less(nd, d0[es[k].target]) then d1 == d0[es[k].target := nd] && p1 == p0[es[k].target := Some(current)]
      else d1 == d0 && p1 == p0
    ensures RelaxedFrom(es[..k + 1], current, mode, dist, prev, d1, p1)
  {
    assert RelaxedAt(es[..k], current, mode, dist, prev, d0, p0, current);
    forall v | v in dist && v in prev
      ensures RelaxedAt(es[..k + 1], current, mode, dist, prev, d1, p1, v)
    {
      assert RelaxedAt(es[..k], current, mode, dist, prev, d0, p0, v);
      RelaxOneStation(es, k, current, mode, dist, prev, d0, p0, d1, p1, v);
    }
  }

  /** The same, for one station v. */
  lemma RelaxOneStation(es: seq<Edge>, k: nat, current: string, mode: TravelMode,
                        dist: map<string, Dist>, prev: map<string, Option<string>>,
                        d0: map<string, Dist>, p0: map<string, Option<string>>,
                        d1: map<string, Dist>, p1: map<string, Option<string>>, v: string)
    requires k < |es| && es[k].target in dist && current in dist && dist[current].Fin? && v in dist
    requires prev.Keys == dist.Keys && d0.Keys == dist.Keys && p0.Keys == dist.Keys
    requires d0[current] == dist[current]
    requires RelaxedAt(es[..k], current, mode, dist, prev, d0, p0, v)
    requires var nd := Add(d0[current], Fin(Weight(mode, es[k])));
      if Less(nd, d0[es[k].target]) then d1 == d0[es[k].target := nd] && p1 == p0[es[k].target := Some(current)]
      else d1 == d0 && p1 == p0
    ensures d1.Keys == dist.Keys && p1.Keys == dist.Keys
    ensures RelaxedAt(es[..k + 1], current, mode, dist, prev, d1, p1, v)
  {
    MinWeightSnoc(es, k, v, mode);
  }

  // ---------------------------------------------------------------------------
  // The search invariants
  // ---------------------------------------------------------------------------

  /** The unvisited list and the visited set split the stations. */
  ghost predicate Partition(adj: Adjacency, visited: set<string>, unvisited: seq<string>)
  {
    && NoDuplicates(unvisited)
    && visited <= adj.Keys
    && (forall v :: v in unvisited ==> v in adj)
    && (forall v :: v in adj ==> (v in visited <==> v !in unvisited))
  }

  /** u, the predecessor of v, is visited, and v's distance is u's plus the
      hop u -> v; a visited v was visited after u. */
  ghost predicate PredecessorLink(adj: Adjacency, mode: TravelMode, visited: set<string>,
                                  dist: map<string, Dist>, rank: map<string, nat>, v: string, u: string)
  {
    && u in visited && u in adj && u in dist && u in rank && v in dist
    && dist[u].Fin? && dist[v].Fin?
    && dist[v] == Add(dist[u], MinWeight(adj[u], v, mode))
    && (v in visited ==> v in rank && rank[u] < rank[v])
  }

  /** The predecessor links form a tree rooted at the start station.
      rank records the order in which stations were visited. */
  ghost predicate Tree(adj: Adjacency, mode: TravelMode, start: string, visited: set<string>,
                       dist: map<string, Dist>, prev: map<string, Option<string>>,
                       rank: map<string, nat>, steps: nat)
  {
    && Rooted(adj, start, visited, dist, prev, rank, steps)
    && Links(adj, mode, visited, dist, prev, rank)
  }

  /** The shape of the search state: which maps cover which stations, the
      start at distance 0 without predecessor, and every other station
      without predecessor at INFINITY. */
  ghost predicate Rooted(adj: Adjacency, start: string, visited: set<string>,
                         dist: map<string, Dist>, prev: map<string, Option<string>>,
                         rank: map<string, nat>, steps: nat)
  {
    && dist.Keys == adj.Keys && prev.Keys == adj.Keys && rank.Keys == visited && visited <= adj.Keys
    && start in adj && dist[start] == Fin(0) && prev[start] == None
    && (forall v :: v in prev && prev[v].None? && v != start ==> dist[v] == Inf)
    && (forall u :: u in visited ==> dist[u].Fin? && rank[u] < steps)
  }

  /** Every station with a predecessor is linked to it. */
  ghost predicate Links(adj: Adjacency, mode: TravelMode, visited: set<string>,
                        dist: map<string, Dist>, prev: map<string, Option<string>>, rank: map<string, nat>)
  {
    forall v {:trigger prev[v]} :: v in prev && prev[v].Some? ==> PredecessorLink(adj, mode, visited, dist, rank, v, prev[v].value)
  }

  /** Every edge out of a visited station has been relaxed. */
  ghost predicate Relaxed(adj: Adjacency, mode: TravelMode, visited: set<string>, dist: map<string, Dist>)
  {
    forall u, v :: u in visited && u in adj && u in dist && v in dist ==>
      LessEq(dist[v], Add(dist[u], MinWeight(adj[u], v, mode)))
  }

  /** No unvisited station is closer than a visited one. */
  ghost predicate Settled(visited: set<string>, unvisited: seq<string>, dist: map<string, Dist>)
  {
    forall u, v :: u in visited && u in dist && v in unvisited && v in dist ==> LessEq(dist[u], dist[v])
  }

  /** The distance of every visited station is at most the cost of every
      route from start to it. */
  ghost predicate Optimal(adj: Adjacency, mode: TravelMode, start: string, visited: set<string>, dist: map<string, Dist>)
  {
    forall u, q {:trigger RouteBetween(adj, start, u, q)} ::
      u in visited && u in dist && RouteBetween(adj, start, u, q) ==> LessEq(dist[u], Cost(adj, mode, q))
  }

  ghost predicate NoRoute(adj: Adjacency, s: string, t: string)
  {
    forall q :: !RouteBetween(adj, s, t, q)
  }

  // ---------------------------------------------------------------------------
  // Why one iteration keeps the invariants
  // ---------------------------------------------------------------------------

  /** Removing the selected station from the unvisited list visits it. */
  lemma RemovePartition(adj: Adjacency, visited: set<string>, unvisited: seq<string>, k: nat)
    requires Partition(adj, visited, unvisited) && k < |unvisited|
    ensures Partition(adj, visited + {unvisited[k]}, unvisited[..k] + unvisited[k + 1..])
    ensures forall v :: v in unvisited[..k] + unvisited[k + 1..] ==> v in unvisited
  {
    var rest := unvisited[..k] + unvisited[k + 1..];
    forall v | v in rest
      ensures v in unvisited && v != unvisited[k]
    {
      var i :| 0 <= i < |rest| && rest[i] == v;
      if i < k {
        assert v == unvisited[i];
      } else {
        assert v == unvisited[i + 1];
      }
    }
    forall v | v in unvisited && v != unvisited[k]
      ensures v in rest
    {
      var i :| 0 <= i < |unvisited| && unvisited[i] == v;
      if i < k {
        assert rest[i] == v;
      } else {
        assert rest[i - 1] == v;
      }
    }
    forall i, j | 0 <= i < j < |rest|
      ensures rest[i] != rest[j]
    {
      var i' := if i < k then i else i + 1;
      var j' := if j < k then j else j + 1;
      assert rest[i] == unvisited[i'] && rest[j] == unvisited[j'];
    }
  }

  /** The argument at the heart of Dijkstra's algorithm: a route from the
      start to an unvisited station meets some unvisited station whose
      tentative distance is already at most the route's cost. */
  lemma {:induction false} FirstUnvisited(adj: Adjacency, mode: TravelMode, start: string, visited: set<string>,
                                          unvisited: seq<string>, dist: map<string, Dist>,
                                          prev: map<string, Option<string>>, rank: map<string, nat>, steps: nat,
                                          t: string, q: seq<string>)
    returns (y: string)
    requires Tree(adj, mode, start, visited, dist, prev, rank, steps)
    requires Partition(adj, visited, unvisited)
    requires Relaxed(adj, mode, visited, dist)
    requires Optimal(adj, mode, start, visited, dist)
    requires RouteBetween(adj, start, t, q) && t in unvisited
    ensures y in unvisited && y in dist && LessEq(dist[y], Cost(adj, mode, q))
    decreases |q|
  {
    if |q| == 1 {
      y := start;
    } else {
      var p := q[..|q| - 1];
      var x := q[|q| - 2];
      RoutePrefix(adj, q, |q| - 1);
      assert RouteBetween(adj, start, x, p);
      AddGrows(Cost(adj, mode, p), Step(adj, mode, x, t));
      if x in unvisited {
        y := FirstUnvisited(adj, mode, start, visited, unvisited, dist, prev, rank, steps, x, p);
        LessEqTransitive(dist[y], Cost(adj, mode, p), Cost(adj, mode, q));
      } else {
        y := t;
        assert Hop(adj, q, |q| - 2);
        assert x in visited;
        AddMonotone(dist[x], Cost(adj, mode, p), MinWeight(adj[x], t, mode));
        LessEqTransitive(dist[t], Add(dist[x], MinWeight(adj[x], t, mode)), Cost(adj, mode, q));
      }
    }
  }

  /** Visited stations, and the selected one, are never updated: their
      distances are at most the selected one's, and relaxing only offers
      distances at least the selected one's. */
  lemma VisitedUnchanged(adj: Adjacency, mode: TravelMode, visited: set<string>, unvisited: seq<string>, k: nat,
                         dist: map<string, Dist>, prev: map<string, Option<string>>,
                         dist': map<string, Dist>, prev': map<string, Option<string>>)
    requires k < |unvisited| && unvisited[k] in adj && unvisited[k] in dist && dist[unvisited[k]].Fin?
    requires Settled(visited, unvisited, dist) && prev.Keys == dist.Keys
    requires RelaxedFrom(adj[unvisited[k]], unvisited[k], mode, dist, prev, dist', prev')
    ensures forall u :: u in visited + {unvisited[k]} && u in dist ==> dist'[u] == dist[u] && prev'[u] == prev[u]
    ensures forall v :: v in dist && LessEq(dist[unvisited[k]], dist[v]) ==> LessEq(dist[unvisited[k]], dist'[v])
  {
    var c := unvisited[k];
    forall u | u in visited + {c} && u in dist
      ensures dist'[u] == dist[u] && prev'[u] == prev[u]
    {
      AddGrows(dist[c], MinWeight(adj[c], u, mode));
    }
    forall v | v in dist && LessEq(dist[c], dist[v])
      ensures LessEq(dist[c], dist'[v])
    {
      AddGrows(dist[c], MinWeight(adj[c], v, mode));
    }
  }

  /** The predecessor link of one station survives visiting c. */
  lemma LinkStep(adj: Adjacency, mode: TravelMode, visited: set<string>, c: string,
                 dist: map<string, Dist>, prev: map<string, Option<string>>, rank: map<string, nat>, steps: nat,
                 dist': map<string, Dist>, prev': map<string, Option<string>>, v: string)
    requires v in dist && prev.Keys == dist.Keys && dist'.Keys == dist.Keys && prev'.Keys == dist.Keys
    requires c in adj && c in dist && c !in visited && dist[c].Fin?
    requires prev[v].Some? ==> PredecessorLink(adj, mode, visited, dist, rank, v, prev[v].value)
    requires prev[v].Some? ==> prev[v].value in rank && rank[prev[v].value] < steps
    requires var candidate := Add(dist[c], MinWeight(adj[c], v, mode));
      if Less(candidate, dist[v]) then dist'[v] == candidate && prev'[v] == Some(c)
      else dist'[v] == dist[v] && prev'[v] == prev[v]
    requires forall u :: u in visited + {c} && u in dist ==> dist'[u] == dist[u] && prev'[u] == prev[u]
    requires prev'[v].Some?
    ensures PredecessorLink(adj, mode, visited + {c}, dist', rank[c := steps], v, prev'[v].value)
  {
  }

  /** The links of every station survive visiting c. */
  lemma LinksStep(adj: Adjacency, mode: TravelMode, visited: set<string>, c: string,
                  dist: map<string, Dist>, prev: map<string, Option<string>>, rank: map<string, nat>, steps: nat,
                  dist': map<string, Dist>, prev': map<string, Option<string>>)
    requires prev.Keys == dist.Keys && rank.Keys == visited
    requires forall u :: u in visited ==> rank[u] < steps
    requires Links(adj, mode, visited, dist, prev, rank)
    requires c in adj && c in dist && c !in visited && dist[c].Fin?
    requires RelaxedFrom(adj[c], c, mode, dist, prev, dist', prev')
    requires forall u :: u in visited + {c} && u in dist ==> dist'[u] == dist[u] && prev'[u] == prev[u]
    ensures Links(adj, mode, visited + {c}, dist', prev', rank[c := steps])
  {
    forall v | v in prev' && prev'[v].Some?
      ensures PredecessorLink(adj, mode, visited + {c}, dist', rank[c := steps], v, prev'[v].value)
    {
      LinkStep(adj, mode, visited, c, dist, prev, rank, steps, dist', prev', v);
    }
  }

  lemma TreeStep(adj: Adjacency, mode: TravelMode, start: string, visited: set<string>, c: string,
                 dist: map<string, Dist>, prev: map<string, Option<string>>, rank: map<string, nat>, steps: nat,
                 dist': map<string, Dist>, prev': map<string, Option<string>>)
    requires Tree(adj, mode, start, visited, dist, prev, rank, steps)
    requires c in adj && c !in visited && dist[c].Fin?
    requires RelaxedFrom(adj[c], c, mode, dist, prev, dist', prev')
    requires forall u :: u in visited + {c} && u in dist ==> dist'[u] == dist[u] && prev'[u] == prev[u]
    ensures Tree(adj, mode, start, visited + {c}, dist', prev', rank[c := steps], steps + 1)
  {
    RootedStep(adj, mode, start, visited, c, dist, prev, rank, steps, dist', prev');
    LinksStep(adj, mode, visited, c, dist, prev, rank, steps, dist', prev');
  }

  lemma RootedStep(adj: Adjacency, mode: TravelMode, start: string, visited: set<string>, c: string,
                   dist: map<string, Dist>, prev: map<string, Option<string>>, rank: map<string, nat>, steps: nat,
                   dist': map<string, Dist>, prev': map<string, Option<string>>)
    requires Rooted(adj, start, visited, dist, prev, rank, steps)
    requires c in adj && c !in visited && dist[c].Fin?
    requires RelaxedFrom(adj[c], c, mode, dist, prev, dist', prev')
    requires forall u :: u in visited + {c} && u in dist ==> dist'[u] == dist[u] && prev'[u] == prev[u]
    ensures Rooted(adj, start, visited + {c}, dist', prev', rank[c := steps], steps + 1)
  {
    assert RelaxedAt(adj[c], c, mode, dist, prev, dist', prev', start);
    forall v | v in prev' && prev'[v].None? && v != start
      ensures dist'[v] == Inf
    {
      assert RelaxedAt(adj[c], c, mode, dist, prev, dist', prev', v);
    }
  }

  lemma RelaxedStep(adj: Adjacency, mode: TravelMode, visited: set<string>, unvisited: seq<string>, k: nat,
                    dist: map<string, Dist>, prev: map<string, Option<string>>,
                    dist': map<string, Dist>, prev': map<string, Option<string>>)
    requires Relaxed(adj, mode, visited, dist) && prev.Keys == dist.Keys
    requires k < |unvisited| && unvisited[k] in adj && unvisited[k] in dist
    requires RelaxedFrom(adj[unvisited[k]], unvisited[k], mode, dist, prev, dist', prev')
    requires forall u :: u in visited + {unvisited[k]} && u in dist ==> dist'[u] == dist[u] && prev'[u] == prev[u]
    ensures Relaxed(adj, mode, visited + {unvisited[k]}, dist')
  {
    var c := unvisited[k];
    forall u, v | u in visited + {c} && u in adj && u in dist' && v in dist'
      ensures LessEq(dist'[v], Add(dist'[u], MinWeight(adj[u], v, mode)))
    {
      if u != c {
        LessEqTransitive(dist'[v], dist[v], Add(dist[u], MinWeight(adj[u], v, mode)));
      }
    }
  }

  lemma SettledStep(adj: Adjacency, visited: set<string>, unvisited: seq<string>, k: nat,
                    dist: map<string, Dist>, dist': map<string, Dist>)
    requires Settled(visited, unvisited, dist) && dist'.Keys == dist.Keys
    requires k < |unvisited| && forall v :: v in unvisited ==> v in dist
    requires forall j :: 0 <= j < |unvisited| ==> LessEq(dist[unvisited[k]], dist[unvisited[j]])
    requires forall u :: u in visited + {unvisited[k]} && u in dist ==> dist'[u] == dist[u]
    requires forall v :: v in dist && LessEq(dist[unvisited[k]], dist[v]) ==> LessEq(dist[unvisited[k]], dist'[v])
    requires forall v :: v in unvisited[..k] + unvisited[k + 1..] ==> v in unvisited
    ensures Settled(visited + {unvisited[k]}, unvisited[..k] + unvisited[k + 1..], dist')
  {
    var c := unvisited[k];
    forall u, v | u in visited + {c} && u in dist' && v in unvisited[..k] + unvisited[k + 1..] && v in dist'
      ensures LessEq(dist'[u], dist'[v])
    {
      var j :| 0 <= j < |unvisited| && unvisited[j] == v;
      if u != c {
        assert LessEq(dist[u], dist[c]);
      }
      LessEqTransitive(dist'[u], dist[c], dist'[v]);
    }
  }

  lemma OptimalStep(adj: Adjacency, mode: TravelMode, start: string, visited: set<string>, unvisited: seq<string>, k: nat,
                    dist: map<string, Dist>, prev: map<string, Option<string>>, rank: map<string, nat>, steps: nat,
                    dist': map<string, Dist>)
    requires Tree(adj, mode, start, visited, dist, prev, rank, steps)
    requires Partition(adj, visited, unvisited)
    requires Relaxed(adj, mode, visited, dist)
    requires Optimal(adj, mode, start, visited, dist)
    requires k < |unvisited| && dist'.Keys == dist.Keys
    requires forall j :: 0 <= j < |unvisited| ==> LessEq(dist[unvisited[k]], dist[unvisited[j]])
    requires forall u :: u in visited + {unvisited[k]} && u in dist ==> dist'[u] == dist[u]
    ensures Optimal(adj, mode, start, visited + {unvisited[k]}, dist')
  {
    var c := unvisited[k];
    forall u, q | u in visited + {c} && u in dist' && RouteBetween(adj, start, u, q)
      ensures LessEq(dist'[u], Cost(adj, mode, q))
    {
      if u == c {
        var y := FirstUnvisited(adj, mode, start, visited, unvisited, dist, prev, rank, steps, c, q);
        var j :| 0 <= j < |unvisited| && unvisited[j] == y;
        LessEqTransitive(dist[c], dist[y], Cost(adj, mode, q));
      }
    }
  }

  /** When the least tentative distance left is INFINITY, the destination
      (still unvisited) cannot be reached at all. */
  lemma NoRouteAtInfinity(adj: Adjacency, mode: TravelMode, start: string, end: string, visited: set<string>,
                          unvisited: seq<string>, k: nat,
                          dist: map<string, Dist>, prev: map<string, Option<string>>, rank: map<string, nat>, steps: nat)
    requires Tree(adj, mode, start, visited, dist, prev, rank, steps)
    requires Partition(adj, visited, unvisited)
    requires Relaxed(adj, mode, visited, dist)
    requires Optimal(adj, mode, start, visited, dist)
    requires end in adj && end !in visited
    requires k < |unvisited| && dist[unvisited[k]] == Inf
    requires forall j :: 0 <= j < |unvisited| ==> LessEq(dist[unvisited[k]], dist[unvisited[j]])
    ensures NoRoute(adj, start, end) && dist[end] == Inf
  {
    assert end in unvisited;
    forall q | RouteBetween(adj, start, end, q)
      ensures false
    {
      var y := FirstUnvisited(adj, mode, start, visited, unvisited, dist, prev, rank, steps, end, q);
      RouteCostFinite(adj, mode, q);
    }
    var j :| 0 <= j < |unvisited| && unvisited[j] == end;
  }

  /** What holds of the search after every visit. */
  ghost predicate Searching(adj: Adjacency, mode: TravelMode, start: string, end: string,
                            visited: set<string>, unvisited: seq<string>,
                            dist: map<string, Dist>, prev: map<string, Option<string>>,
                            rank: map<string, nat>, steps: nat)
  {
    && Partition(adj, visited, unvisited)
    && Tree(adj, mode, start, visited, dist, prev, rank, steps)
    && Relaxed(adj, mode, visited, dist)
    && Settled(visited, unvisited, dist)
    && Optimal(adj, mode, start, visited, dist)
    && end in adj
  }

  /** Visiting the nearest unvisited station, at a finite distance, and
      relaxing its edges keeps the search invariants. */
  lemma VisitPreserves(adj: Adjacency, mode: TravelMode, start: string, end: string,
                       visited: set<string>, unvisited: seq<string>, k: nat,
                       dist: map<string, Dist>, prev: map<string, Option<string>>,
                       rank: map<string, nat>, steps: nat,
                       dist': map<string, Dist>, prev': map<string, Option<string>>)
    requires Searching(adj, mode, start, end, visited, unvisited, dist, prev, rank, steps)
    requires k < |unvisited| && unvisited[k] in dist && dist[unvisited[k]].Fin?
    requires forall j :: 0 <= j < |unvisited| ==> LessEq(dist[unvisited[k]], dist[unvisited[j]])
    requires RelaxedFrom(adj[unvisited[k]], unvisited[k], mode, dist, prev, dist', prev')
    ensures Searching(adj, mode, start, end, visited + {unvisited[k]}, unvisited[..k] + unvisited[k + 1..],
                      dist', prev', rank[unvisited[k] := steps], steps + 1)
  {
    var c := unvisited[k];
    RemovePartition(adj, visited, unvisited, k);
    VisitedUnchanged(adj, mode, visited, unvisited, k, dist, prev, dist', prev');
    TreeStep(adj, mode, start, visited, c, dist, prev, rank, steps, dist', prev');
    RelaxedStep(adj, mode, visited, unvisited, k, dist, prev, dist', prev');
    SettledStep(adj, visited, unvisited, k, dist, dist');
    OptimalStep(adj, mode, start, visited, unvisited, k, dist, prev, rank, steps, dist');
  }

  // ---------------------------------------------------------------------------
  // The search
  // ---------------------------------------------------------------------------

  /** __calculate_path. When the destination can be reached, the result is a
      route from start to end whose cost under mode is the metric, and no
      route costs less; when it cannot, the result is ([start], INFINITY). */
  method CalculatePath(m: PublicTransportMap, startStation: string, endStation: string, mode: TravelMode)
    returns (path: seq<string>, metric: Dist)
    requires ValidMap(m)
    requires startStation in m.stations && endStation in m.stations
    ensures |path| > 0 && path[0] == startStation
    ensures metric.Fin? ==> RouteBetween(m.fullStationsMap, startStation, endStation, path)
    ensures metric.Fin? ==> Cost(m.fullStationsMap, mode, path) == metric
    ensures metric.Fin? ==> Cheapest(m.fullStationsMap, mode, startStation, endStation, metric)
    ensures metric.Inf? ==> path == [startStation] && NoRoute(m.fullStationsMap, startStation, endStation)
    ensures startStation == endStation ==> path == [startStation] && metric == Fin(0)
  {
    var adj := m.fullStationsMap;
    var unvisited := m.stations;
    var dist := InitDistanceFromStartStation(m.stations, startStation);
    var prev: map<string, Option<string>> := map s | s in m.stations :: None;
    ghost var visited: set<string> := {};
    ghost var rank: map<string, nat> := map[];
    ghost var steps: nat := 0;
    while unvisited != []
      invariant Searching(adj, mode, startStation, endStation, visited, unvisited, dist, prev, rank, steps)
      invariant endStation !in visited
      decreases |unvisited|
    {
      var k := SelectMin(unvisited, dist);
      var current := unvisited[k];
      ghost var before := unvisited;
      // unvisited_stations.remove(current_station): its first occurrence is
      // at k, since every station before k is strictly farther.
      unvisited := unvisited[..k] + unvisited[k + 1..];
      if dist[current] == Inf {
        NoRouteAtInfinity(adj, mode, startStation, endStation, visited, before, k, dist, prev, rank, steps);
        break;
      }
      var newDist, newPrev := CalculatePathByTravelMode(m, current, dist, prev, mode);
      VisitPreserves(adj, mode, startStation, endStation, visited, before, k, dist, prev, rank, steps, newDist, newPrev);
      dist, prev := newDist, newPrev;
      visited, rank, steps := visited + {current}, rank[current := steps], steps + 1;
      if current == endStation {
        break;
      }
    }
    if endStation in visited {
      VisitedCheapest(adj, mode, startStation, visited, dist, endStation);
    }
    path, metric := RebuildPath(adj, mode, startStation, endStation, visited, dist, prev, rank, steps);
  }

  /** The stations collected so far while walking back from end: a route
      [cur] + path to end, whose cost makes up the difference between the
      distances of cur and end. */
  ghost predicate Trail(adj: Adjacency, mode: TravelMode, end: string, visited: set<string>,
                        dist: map<string, Dist>, cur: string, path: seq<string>)
  {
    && cur in adj && cur in dist && end in dist
    && IsRoute(adj, [cur] + path) && ([cur] + path)[|path|] == end
    && dist[end] == Add(dist[cur], Cost(adj, mode, [cur] + path))
    && (path != [] ==> cur in visited)
    && (path == [] ==> cur == end)
  }

  /** One step back along a predecessor link extends the trail, and the
      predecessor was visited earlier. */
  lemma TrailStep(adj: Adjacency, mode: TravelMode, start: string, end: string, visited: set<string>,
                  dist: map<string, Dist>, prev: map<string, Option<string>>, rank: map<string, nat>, steps: nat,
                  cur: string, path: seq<string>)
    requires Tree(adj, mode, start, visited, dist, prev, rank, steps)
    requires Trail(adj, mode, end, visited, dist, cur, path)
    requires prev[cur].Some?
    ensures Trail(adj, mode, end, visited, dist, prev[cur].value, [cur] + path)
    ensures prev[cur].value in rank && rank[prev[cur].value] < (if cur in visited then rank[cur] else steps)
  {
    var u := prev[cur].value;
    assert PredecessorLink(adj, mode, visited, dist, rank, cur, u);
    MinWeightFinite(adj[u], cur, mode);
    RouteCons(adj, u, [cur] + path);
    CostCons(adj, mode, u, [cur] + path);
    AddAssociative(dist[u], MinWeight(adj[u], cur, mode), Cost(adj, mode, [cur] + path));
    assert ([u] + ([cur] + path))[|[cur] + path|] == end;
  }

  /** A trail that has reached a station without predecessor, with end
      reached by the search, starts at start: start followed by the trail is
      a route to end whose cost is the end's distance. */
  lemma TrailFound(adj: Adjacency, mode: TravelMode, start: string, end: string, visited: set<string>,
                   dist: map<string, Dist>, prev: map<string, Option<string>>, rank: map<string, nat>, steps: nat,
                   cur: string, trail: seq<string>)
    requires Rooted(adj, start, visited, dist, prev, rank, steps)
    requires Trail(adj, mode, end, visited, dist, cur, trail)
    requires prev[cur].None? && end in visited
    ensures cur == start
    ensures RouteBetween(adj, start, end, [cur] + trail)
    ensures Cost(adj, mode, [cur] + trail) == dist[end]
  {
    TrailFromStart(adj, mode, start, end, visited, dist, prev, rank, steps, cur, trail);
    TrailRoute(adj, mode, end, visited, dist, cur, trail);
  }

  /** Only the start lacks a predecessor at a finite distance, so a trail to
      a reachable end begins at start, and its cost is the end's distance. */
  lemma TrailFromStart(adj: Adjacency, mode: TravelMode, start: string, end: string, visited: set<string>,
                       dist: map<string, Dist>, prev: map<string, Option<string>>, rank: map<string, nat>, steps: nat,
                       cur: string, trail: seq<string>)
    requires Rooted(adj, start, visited, dist, prev, rank, steps)
    requires Trail(adj, mode, end, visited, dist, cur, trail)
    requires prev[cur].None? && end in visited
    ensures cur == start
    ensures Cost(adj, mode, [cur] + trail) == dist[end]
  {
    RouteCostFinite(adj, mode, [cur] + trail);
  }

  /** A trail is a route from its current station to end. */
  lemma TrailRoute(adj: Adjacency, mode: TravelMode, end: string, visited: set<string>,
                   dist: map<string, Dist>, cur: string, trail: seq<string>)
    requires Trail(adj, mode, end, visited, dist, cur, trail)
    ensures RouteBetween(adj, cur, end, [cur] + trail)
  {
    var p := [cur] + trail;
    assert p[0] == cur;
  }

  /** A visited station's distance is the cheapest cost of reaching it. */
  lemma VisitedCheapest(adj: Adjacency, mode: TravelMode, start: string, visited: set<string>,
                        dist: map<string, Dist>, end: string)
    requires Optimal(adj, mode, start, visited, dist)
    requires end in visited && end in dist
    ensures Cheapest(adj, mode, start, end, dist[end])
  {
    forall q | RouteBetween(adj, start, end, q)
      ensures LessEq(dist[end], Cost(adj, mode, q))
    {
      assert end in visited && end in dist;
    }
  }

  /** A trail that has reached a station without predecessor, with end
      unreachable, is just end, and the answer is [start]. */
  lemma TrailLost(adj: Adjacency, mode: TravelMode, start: string, end: string, visited: set<string>,
                  dist: map<string, Dist>, prev: map<string, Option<string>>, rank: map<string, nat>, steps: nat,
                  cur: string, trail: seq<string>)
    requires Rooted(adj, start, visited, dist, prev, rank, steps)
    requires Trail(adj, mode, end, visited, dist, cur, trail)
    requires prev[cur].None? && dist[end] == Inf
    ensures trail == []
  {
    if trail != [] {
      RouteCostFinite(adj, mode, [cur] + trail);
    }
  }

  /** The end of __calculate_path: walk the predecessor links back from the
      destination and return the path with the destination's distance. */
  method RebuildPath(adj: Adjacency, mode: TravelMode, startStation: string, endStation: string,
                     ghost visited: set<string>, dist: map<string, Dist>, prev: map<string, Option<string>>,
                     ghost rank: map<string, nat>, ghost steps: nat)
    returns (path: seq<string>, metric: Dist)
    requires Tree(adj, mode, startStation, visited, dist, prev, rank, steps)
    requires endStation in adj
    requires endStation in visited ==> Cheapest(adj, mode, startStation, endStation, dist[endStation])
    requires endStation in visited || (NoRoute(adj, startStation, endStation) && dist[endStation] == Inf)
    ensures |path| > 0 && path[0] == startStation
    ensures metric.Fin? ==> RouteBetween(adj, startStation, endStation, path)
    ensures metric.Fin? ==> Cost(adj, mode, path) == metric
    ensures metric.Fin? ==> Cheapest(adj, mode, startStation, endStation, metric)
    ensures metric.Inf? ==> path == [startStation] && NoRoute(adj, startStation, endStation)
    ensures startStation == endStation ==> path == [startStation] && metric == Fin(0)
  {
    var cur, trail := WalkBack(adj, mode, startStation, endStation, visited, dist, prev, rank, steps);
    path := [startStation] + trail;
    metric := dist[endStation];
    if endStation in visited {
      TrailFound(adj, mode, startStation, endStation, visited, dist, prev, rank, steps, cur, trail);
    } else {
      TrailLost(adj, mode, startStation, endStation, visited, dist, prev, rank, steps, cur, trail);
    }
    if startStation == endStation {
      assert dist[startStation] == Fin(0);
    }
  }

  /** The deque loop of __calculate_path: from the destination, prepend each
      station and step to its predecessor until a station has none. */
  method WalkBack(adj: Adjacency, mode: TravelMode, startStation: string, endStation: string,
                  ghost visited: set<string>, dist: map<string, Dist>, prev: map<string, Option<string>>,
                  ghost rank: map<string, nat>, ghost steps: nat)
    returns (cur: string, path: seq<string>)
    requires Tree(adj, mode, startStation, visited, dist, prev, rank, steps)
    requires endStation in adj
    ensures Trail(adj, mode, endStation, visited, dist, cur, path) && prev[cur].None?
    ensures startStation == endStation ==> path == []
  {
    path := [];
    cur := endStation;
    assert [cur] + path == [endStation];
    while prev[cur].Some?
      invariant Trail(adj, mode, endStation, visited, dist, cur, path)
      invariant startStation == endStation ==> path == []
      decreases if cur in visited then rank[cur] else steps
    {
      TrailStep(adj, mode, startStation, endStation, visited, dist, prev, rank, steps, cur, path);
      path := [cur] + path;
      cur := prev[cur].value;
    }
  }

  /** shortest_path: the route with the fewest stations. */
  method ShortestPath(m: PublicTransportMap, startStation: string, endStation: string)
    returns (path: seq<string>, steps: Dist)
    requires ValidMap(m)
    requires startStation in m.stations && endStation in m.stations
    ensures |path| > 0 && path[0] == startStation
    ensures steps.Fin? ==> RouteBetween(m.fullStationsMap, startStation, endStation, path) && steps.n == |path| - 1
    ensures steps.Fin? ==> forall q :: RouteBetween(m.fullStationsMap, startStation, endStation, q) ==> |path| <= |q|
    ensures steps.Inf? ==> path == [startStation] && NoRoute(m.fullStationsMap, startStation, endStation)
    ensures startStation == endStation ==> path == [startStation] && steps == Fin(0)
  {
    path, steps := CalculatePath(m, startStation, endStation, FewerStations);
    if steps.Fin? {
      HopCount(m.fullStationsMap, path);
      forall q | RouteBetween(m.fullStationsMap, startStation, endStation, q)
        ensures |path| <= |q|
      {
        HopCount(m.fullStationsMap, q);
      }
    }
  }

  /** shortest_distance: the route with the least total distance. */
  method ShortestDistanceRoute(m: PublicTransportMap, startStation: string, endStation: string)
    returns (path: seq<string>, distance: Dist)
    requires ValidMap(m)
    requires startStation in m.stations && endStation in m.stations
    ensures |path| > 0 && path[0] == startStation
    ensures distance.Fin? ==> RouteBetween(m.fullStationsMap, startStation, endStation, path)
    ensures distance.Fin? ==> Cost(m.fullStationsMap, TravelMode.ShortestDistance, path) == distance
    ensures distance.Fin? ==> Cheapest(m.fullStationsMap, TravelMode.ShortestDistance, startStation, endStation, distance)
    ensures distance.Inf? ==> path == [startStation] && NoRoute(m.fullStationsMap, startStation, endStation)
    ensures startStation == endStation ==> path == [startStation] && distance == Fin(0)
  {
    path, distance := CalculatePath(m, startStation, endStation, TravelMode.ShortestDistance);
  }

  /** The query behind the route finder (lines 190-204 without the console):
      reject an unknown start station, then an unknown end station, then
      answer with the search of the chosen travel mode. */
  method FindPath(m: PublicTransportMap, mode: TravelMode, startStation: string, endStation: string)
    returns (r: Result<Answer, UnknownStationError>)
    requires ValidMap(m)
    ensures !ExistsStation(m, startStation) ==> r == Failure(UnknownStation(startStation))
    ensures ExistsStation(m, startStation) && !ExistsStation(m, endStation) ==> r == Failure(UnknownStation(endStation))
    ensures ExistsStation(m, startStation) && ExistsStation(m, endStation) ==>
      && r.Success?
      && |r.value.path| > 0 && r.value.path[0] == startStation
      && (r.value.metric.Fin? ==> RouteBetween(m.fullStationsMap, startStation, endStation, r.value.path))
      && (r.value.metric.Fin? ==> Cost(m.fullStationsMap, mode, r.value.path) == r.value.metric)
      && (r.value.metric.Fin? ==> Cheapest(m.fullStationsMap, mode, startStation, endStation, r.value.metric))
      && (r.value.metric.Inf? ==> r.value.path == [startStation] && NoRoute(m.fullStationsMap, startStation, endStation))
      && (startStation == endStation ==> r.value.path == [startStation] && r.value.metric == Fin(0))
  {
    if !ExistsStation(m, startStation) {
      return Failure(UnknownStation(startStation));
    }
    if !ExistsStation(m, endStation) {
      return Failure(UnknownStation(endStation));
    }
    match mode {
      case ShortestDistance =>
        var path, distance := ShortestDistanceRoute(m, startStation, endStation);
        r := Success(Answer(path, distance));
      case FewerStations =>
        var path, steps := ShortestPath(m, startStation, endStation);
        HopsAreCost(m.fullStationsMap, startStation, endStation, path, steps);
        r := Success(Answer(path, steps));
    }
  }

  /** In the station-counting mode the hop count is the route's cost. */
  lemma HopsAreCost(adj: Adjacency, s: string, t: string, path: seq<string>, steps: Dist)
    requires steps.Fin? ==> RouteBetween(adj, s, t, path) && steps.n == |path| - 1
    requires steps.Fin? ==> forall q :: RouteBetween(adj, s, t, q) ==> |path| <= |q|
    ensures steps.Fin? ==> Cost(adj, FewerStations, path) == steps
    ensures steps.Fin? ==> Cheapest(adj, FewerStations, s, t, steps)
  {
    if steps.Fin? {
      HopCount(adj, path);
      forall q | RouteBetween(adj, s, t, q)
        ensures LessEq(steps, Cost(adj, FewerStations, q))
      {
        HopCount(adj, q);
      }
    }
  }

  /** What comparing the two modes on one query shows: the fewest-stations
      path has no more stations than the shortest-distance path, which in turn
      is no longer in distance than the fewest-stations path; and both modes
      agree on whether the destination can be reached. */
  lemma ModesCompared(adj: Adjacency, s: string, t: string,
                      fewest: seq<string>, steps: Dist, shortest: seq<string>, distance: Dist)
    requires steps.Fin? ==> RouteBetween(adj, s, t, fewest)
    requires steps.Fin? ==> forall q :: RouteBetween(adj, s, t, q) ==> |fewest| <= |q|
    requires distance.Fin? ==> RouteBetween(adj, s, t, shortest)
    requires steps.Inf? ==> NoRoute(adj, s, t)
    requires distance.Fin? ==> Cheapest(adj, TravelMode.ShortestDistance, s, t, distance)
    requires distance.Inf? ==> NoRoute(adj, s, t)
    ensures steps.Fin? <==> distance.Fin?
    ensures steps.Fin? ==> |fewest| <= |shortest|
    ensures steps.Fin? ==> LessEq(distance, Cost(adj, TravelMode.ShortestDistance, fewest))
  {
  }

  /** Both searches on one query, side by side: they agree on whether the
      destination can be reached, the fewest-stations path has no more
      stations than the shortest-distance path, and the shortest distance is
      at most the distance along the fewest-stations path. */
  method CompareModes(m: PublicTransportMap, startStation: string, endStation: string)
    returns (fewest: seq<string>, steps: Dist, shortest: seq<string>, distance: Dist)
    requires ValidMap(m)
    requires startStation in m.stations && endStation in m.stations
    ensures |fewest| > 0 && fewest[0] == startStation
    ensures steps.Fin? ==> RouteBetween(m.fullStationsMap, startStation, endStation, fewest) && steps.n == |fewest| - 1
    ensures steps.Fin? ==> forall q :: RouteBetween(m.fullStationsMap, startStation, endStation, q) ==> |fewest| <= |q|
    ensures steps.Inf? ==> fewest == [startStation] && NoRoute(m.fullStationsMap, startStation, endStation)
    ensures |shortest| > 0 && shortest[0] == startStation
    ensures distance.Fin? ==> RouteBetween(m.fullStationsMap, startStation, endStation, shortest)
    ensures distance.Fin? ==> Cost(m.fullStationsMap, TravelMode.ShortestDistance, shortest) == distance
    ensures distance.Fin? ==> Cheapest(m.fullStationsMap, TravelMode.ShortestDistance, startStation, endStation, distance)
    ensures distance.Inf? ==> shortest == [startStation] && NoRoute(m.fullStationsMap, startStation, endStation)
    ensures startStation == endStation ==> fewest == [startStation] && steps == Fin(0)
    ensures startStation == endStation ==> shortest == [startStation] && distance == Fin(0)
    ensures steps.Fin? <==> distance.Fin?
    ensures steps.Fin? ==> |fewest| <= |shortest|
    ensures steps.Fin? ==> LessEq(distance, Cost(m.fullStationsMap, TravelMode.ShortestDistance, fewest))
  {
    fewest, steps := ShortestPath(m, startStation, endStation);
    shortest, distance := ShortestDistanceRoute(m, startStation, endStation);
    ModesCompared(m.fullStationsMap, startStation, endStation, fewest, steps, shortest, distance);
  }
}
