/** The two travel modes a route query can optimise for (travel_mode.py). */
module TravelModes {

  /** SHORTEST_DISTANCE weighs each hop by its stored distance;
      FEWER_STATIONS weighs every hop as 1. */
  datatype TravelMode = ShortestDistance | FewerStations
}
