/** Routes through the station graph and what they weigh under each travel
    mode; the reference against which the search result is judged. */
module Routes {
  import opened TravelModes
  import opened Distances
  import opened TransportGraph

  /** The weight relaxation uses for one edge: its stored distance when
      optimising distance (line 140), 1 when counting stations (line 147). */
  function Weight(mode: TravelMode, e: Edge): nat
  {
    match mode
    case ShortestDistance => e.distance
    case FewerStations => 1
  }

  /** The smallest weight among the edges of es that lead to v, or INFINITY
      when none does. Parallel edges are all kept in the map; a route through
      them can do no better than the lightest. */
  function MinWeight(es: seq<Edge>, v: string, mode: TravelMode): Dist
  {
    if es == [] then Inf
    else
      var rest := MinWeight(es[..|es| - 1], v, mode);
      var e := es[|es| - 1];
      if e.target == v && Less(Fin(Weight(mode, e)), rest) then Fin(Weight(mode, e)) else rest
  }

  ghost predicate HasEdgeTo(es: seq<Edge>, v: string)
  {
    exists i :: 0 <= i < |es| && es[i].target == v
  }

  /** The weight of the hop u -> v: INFINITY when there is no such edge. */
  function Step(adj: map<string, seq<Edge>>, mode: TravelMode, u: string, v: string): Dist
  {
    if u in adj then MinWeight(adj[u], v, mode) else Inf
  }

  /** The total weight of a sequence of stations, hop by hop. */
  function Cost(adj: map<string, seq<Edge>>, mode: TravelMode, p: seq<string>): Dist
  {
    if |p| <= 1 then Fin(0)
    else Add(Cost(adj, mode, p[..|p| - 1]), Step(adj, mode, p[|p| - 2], p[|p| - 1]))
  }

  /** A route: a non-empty sequence of stations, each consecutive pair joined
      by an edge of the adjacency map in the direction of travel. */
  ghost predicate IsRoute(adj: map<string, seq<Edge>>, p: seq<string>)
  {
    && |p| > 0
    && p[0] in adj
    && forall i :: 0 <= i < |p| - 1 ==> Hop(adj, p, i)
  }

  /** Stations i and i + 1 of p are joined by an edge. Kept apart from
      IsRoute so that a hop does not mention the next one. */
  ghost predicate Hop(adj: map<string, seq<Edge>>, p: seq<string>, i: nat)
    requires i + 1 < |p|
  {
    p[i] in adj && HasEdgeTo(adj[p[i]], p[i + 1])
  }

  ghost predicate RouteBetween(adj: map<string, seq<Edge>>, s: string, t: string, p: seq<string>)
  {
    IsRoute(adj, p) && p[0] == s && p[|p| - 1] == t
  }

  /** No route from s to t costs less than c. */
  ghost predicate Cheapest(adj: map<string, seq<Edge>>, mode: TravelMode, s: string, t: string, c: Dist)
  {
    forall q :: RouteBetween(adj, s, t, q) ==> LessEq(c, Cost(adj, mode, q))
  }

  // ---------------------------------------------------------------------------
  // Lemmas
  // ---------------------------------------------------------------------------

  /** An edge to v exists exactly when the lightest edge to v is finite. */
  lemma {:induction false} MinWeightFinite(es: seq<Edge>, v: string, mode: TravelMode)
    ensures MinWeight(es, v, mode).Fin? <==> HasEdgeTo(es, v)
  {
    if es != [] {
      var init := es[..|es| - 1];
      MinWeightFinite(init, v, mode);
      if HasEdgeTo(init, v) {
        var i :| 0 <= i < |init| && init[i].target == v;
        assert es[i].target == v;
      }
      if HasEdgeTo(es, v) && es[|es| - 1].target != v {
        var i :| 0 <= i < |es| && es[i].target == v;
        assert init[i].target == v;
      }
    }
  }

  /** MinWeight is at most the weight of every edge to v. */
  lemma {:induction false} MinWeightBelow(es: seq<Edge>, v: string, mode: TravelMode, i: nat)
    requires i < |es| && es[i].target == v
    ensures LessEq(MinWeight(es, v, mode), Fin(Weight(mode, es[i])))
  {
    if i < |es| - 1 {
      MinWeightBelow(es[..|es| - 1], v, mode, i);
    }
  }

  /** MinWeight is the weight of some edge to v, and in the station-counting
      mode every hop weighs exactly 1. */
  lemma {:induction false} MinWeightAttained(es: seq<Edge>, v: string, mode: TravelMode) returns (i: nat)
    requires MinWeight(es, v, mode).Fin?
    ensures i < |es| && es[i].target == v && MinWeight(es, v, mode) == Fin(Weight(mode, es[i]))
  {
    var init := es[..|es| - 1];
    var e := es[|es| - 1];
    if e.target == v && Less(Fin(Weight(mode, e)), MinWeight(init, v, mode)) {
      i := |es| - 1;
    } else {
      i := MinWeightAttained(init, v, mode);
    }
  }

  lemma {:induction false} RoutePrefix(adj: map<string, seq<Edge>>, p: seq<string>, k: nat)
    requires IsRoute(adj, p) && 0 < k <= |p|
    ensures IsRoute(adj, p[..k])
  {
    var q := p[..k];
    forall i | 0 <= i < |q| - 1
      ensures Hop(adj, q, i)
    {
      assert q[i] == p[i] && q[i + 1] == p[i + 1];
      assert Hop(adj, p, i);
    }
  }

  /** Every route has a finite cost. */
  lemma {:induction false} RouteCostFinite(adj: map<string, seq<Edge>>, mode: TravelMode, p: seq<string>)
    requires IsRoute(adj, p)
    ensures Cost(adj, mode, p).Fin?
  {
    if |p| > 1 {
      RoutePrefix(adj, p, |p| - 1);
      RouteCostFinite(adj, mode, p[..|p| - 1]);
      assert Hop(adj, p, |p| - 2);
      MinWeightFinite(adj[p[|p| - 2]], p[|p| - 1], mode);
    }
  }

  /** Prepending a station: the first hop's weight plus the rest. */
  lemma {:induction false} CostCons(adj: map<string, seq<Edge>>, mode: TravelMode, u: string, p: seq<string>)
    requires |p| > 0
    ensures Cost(adj, mode, [u] + p) == Add(Step(adj, mode, u, p[0]), Cost(adj, mode, p))
  {
    var up := [u] + p;
    if |p| > 1 {
      var init := p[..|p| - 1];
      assert up[..|up| - 1] == [u] + init;
      CostCons(adj, mode, u, init);
      AddAssociative(Step(adj, mode, u, p[0]), Cost(adj, mode, init), Step(adj, mode, p[|p| - 2], p[|p| - 1]));
    } else {
      assert up[..1] == [u];
    }
  }

  lemma RouteCons(adj: map<string, seq<Edge>>, u: string, p: seq<string>)
    requires IsRoute(adj, p) && u in adj && HasEdgeTo(adj[u], p[0])
    ensures IsRoute(adj, [u] + p)
  {
    var up := [u] + p;
    forall i | 0 <= i < |up| - 1
      ensures Hop(adj, up, i)
    {
      if i > 0 {
        assert up[i] == p[i - 1] && up[i + 1] == p[i];
        assert Hop(adj, p, i - 1);
      }
    }
  }

  /** Counting stations, a route of n stations costs n - 1: the metric of
      shortest_path is the number of hops. */
  lemma {:induction false} HopCount(adj: map<string, seq<Edge>>, p: seq<string>)
    requires IsRoute(adj, p)
    ensures Cost(adj, FewerStations, p) == Fin(|p| - 1)
  {
    if |p| > 1 {
      RoutePrefix(adj, p, |p| - 1);
      HopCount(adj, p[..|p| - 1]);
      assert Hop(adj, p, |p| - 2);
      MinWeightFinite(adj[p[|p| - 2]], p[|p| - 1], FewerStations);
      var i := MinWeightAttained(adj[p[|p| - 2]], p[|p| - 1], FewerStations);
    }
  }
}
