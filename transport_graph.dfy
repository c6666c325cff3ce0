/** The station graph of a public-transport map, built from already-parsed map
    data (public_transport_route_optimizer.py, PublicTransportMap.__init__ and
    the two static builders it calls), and the exact station lookup. */
module TransportGraph {

  // ---------------------------------------------------------------------------
  // Parsed input: data["lines"][i]["stations"][j]["connections"][k]
  // ---------------------------------------------------------------------------

  /** One connection record: the target station's name and the distance to it. */
  datatype Connection = Connection(to: string, distance: nat)

  /** One station record of a line: its name and its outgoing connections. */
  datatype StationEntry = StationEntry(name: string, connections: seq<Connection>)

  datatype Line = Line(stations: seq<StationEntry>)

  datatype MapData = MapData(lines: seq<Line>)

  // ---------------------------------------------------------------------------
  // The graph
  // ---------------------------------------------------------------------------

  /** A directed edge as stored in the adjacency map: (target, distance). */
  datatype Edge = Edge(target: string, distance: nat)

  /** The two attributes of a PublicTransportMap: the ordered list of station
      names and the map from each name to its outgoing edges. */
  datatype PublicTransportMap = PublicTransportMap(stations: seq<string>, fullStationsMap: map<string, seq<Edge>>)

  ghost predicate NoDuplicates(s: seq<string>)
  {
    forall i, j :: 0 <= i < j < |s| ==> s[i] != s[j]
  }

  /** What the search engine relies on: the station list has no repeats, its
      names are exactly the keys of the adjacency map, and no edge dangles. */
  ghost predicate ValidMap(m: PublicTransportMap)
  {
    && NoDuplicates(m.stations)
    && m.fullStationsMap.Keys == (set s | s in m.stations)
    && forall u :: u in m.fullStationsMap ==> forall e :: e in m.fullStationsMap[u] ==> e.target in m.fullStationsMap
  }

  // ---------------------------------------------------------------------------
  // Specification of the two builders
  // ---------------------------------------------------------------------------

  /** All station records, line after line, in input order. */
  function Entries(lines: seq<Line>): seq<StationEntry>
  {
    if lines == [] then [] else Entries(lines[..|lines| - 1]) + lines[|lines| - 1].stations
  }

  function Names(entries: seq<StationEntry>): (r: seq<string>)
    ensures |r| == |entries|
    ensures forall i :: 0 <= i < |entries| ==> r[i] == entries[i].name
  {
    if entries == [] then [] else Names(entries[..|entries| - 1]) + [entries[|entries| - 1].name]
  }

  /** The names in first-seen order, each kept at its first occurrence only. */
  function Dedup(names: seq<string>): seq<string>
  {
    if names == [] then []
    else
      var kept := Dedup(names[..|names| - 1]);
      var last := names[|names| - 1];
      if last in kept then kept else kept + [last]
  }

  /** Every name declared by some station record of the data. */
  function StationNames(data: MapData): seq<string>
  {
    Names(Entries(data.lines))
  }

  /** The value of self.stations built from data. */
  function AllStations(data: MapData): seq<string>
  {
    Dedup(StationNames(data))
  }

  /** A connection record converted to an adjacency-map edge. */
  function ToEdge(c: Connection): Edge
  {
    Edge(c.to, c.distance)
  }

  function ToEdges(cs: seq<Connection>): seq<Edge>
  {
    if cs == [] then [] else ToEdges(cs[..|cs| - 1]) + [ToEdge(cs[|cs| - 1])]
  }

  /** The edges of station n: the connections of every record named n, record
      after record in input order, each record's connections in their own order. */
  function EdgesOf(entries: seq<StationEntry>, n: string): seq<Edge>
  {
    if entries == [] then []
    else
      var last := entries[|entries| - 1];
      EdgesOf(entries[..|entries| - 1], n) + (if last.name == n then ToEdges(last.connections) else [])
  }

  /** The value of self.full_stations_map built from data. */
  function FullStationsMap(data: MapData): map<string, seq<Edge>>
  {
    map n | n in StationNames(data) :: EdgesOf(Entries(data.lines), n)
  }

  /** The constraint the loader leaves to the data: every connection leads to a
      declared station. */
  ghost predicate WellFormedData(data: MapData)
  {
    forall e, c :: e in Entries(data.lines) && c in e.connections ==> c.to in StationNames(data)
  }

  // ---------------------------------------------------------------------------
  // The builders, as the source runs them
  // ---------------------------------------------------------------------------

  /** __get_all_stations: append each station name not already in the list. */
  method GetAllStations(data: MapData) returns (stations: seq<string>)
    ensures stations == AllStations(data)
    ensures NoDuplicates(stations)
    ensures forall n :: n in stations <==> n in StationNames(data)
  {
    stations := [];
    ghost var done: seq<StationEntry> := [];
    var i := 0;
    while i < |data.lines|
      invariant 0 <= i <= |data.lines|
      invariant done == Entries(data.lines[..i])
      invariant stations == Dedup(Names(done))
    {
      var line := data.lines[i];
      ghost var prefix := done;
      EntriesSnoc(data.lines, i);
      var j := 0;
      while j < |line.stations|
        invariant 0 <= j <= |line.stations|
        invariant done == prefix + line.stations[..j]
        invariant stations == Dedup(Names(done))
      {
        var name := line.stations[j].name;
        NamesSnoc(done, line.stations[j]);
        if name !in stations {
          stations := stations + [name];
        }
        PrefixSnoc(prefix, line.stations, j);
        done := done + [line.stations[j]];
        j := j + 1;
      }
      assert line.stations[..|line.stations|] == line.stations;
      i := i + 1;
    }
    assert data.lines[..|data.lines|] == data.lines;
    DedupProperties(StationNames(data));
  }

  /** __get_full_stations_map: start every declared name at [], then append
      each connection of each station record, in input order. */
  method GetFullStationsMap(data: MapData) returns (full: map<string, seq<Edge>>)
    ensures full == FullStationsMap(data)
  {
    var declared := StationNames(data);
    full := map n | n in declared :: [];
    ghost var keys := full.Keys;
    ghost var done: seq<StationEntry> := [];
    var i := 0;
    while i < |data.lines|
      invariant 0 <= i <= |data.lines|
      invariant done == Entries(data.lines[..i])
      invariant full.Keys == keys
      invariant forall n :: n in full ==> full[n] == EdgesOf(done, n)
    {
      var line := data.lines[i];
      ghost var prefix := done;
      EntriesSnoc(data.lines, i);
      var j := 0;
      while j < |line.stations|
        invariant 0 <= j <= |line.stations|
        invariant done == prefix + line.stations[..j]
        invariant full.Keys == keys
        invariant forall n :: n in full ==> full[n] == EdgesOf(done, n)
      {
        var station := line.stations[j];
        EntryNameDeclared(data, i, j);
        ghost var before := full;
        full := AppendConnections(full, station.name, station.connections);
        AppendedEntry(before, full, done, station);
        PrefixSnoc(prefix, line.stations, j);
        done := done + [station];
        j := j + 1;
      }
      assert line.stations[..|line.stations|] == line.stations;
      i := i + 1;
    }
    assert data.lines[..|data.lines|] == data.lines;
    FullStationsMapExtensional(data, full);
  }

  /** The innermost loop of __get_full_stations_map: append one station
      record's connections, in order, to that station's edge list. */
  method AppendConnections(full0: map<string, seq<Edge>>, name: string, connections: seq<Connection>)
    returns (full: map<string, seq<Edge>>)
    requires name in full0
    ensures full == full0[name := full0[name] + ToEdges(connections)]
  {
    full := full0;
    var k := 0;
    assert connections[..0] == [] && full0[name] + ToEdges(connections[..0]) == full0[name];
    UpdateSame(full0, name);
    while k < |connections|
      invariant 0 <= k <= |connections|
      invariant full == full0[name := full0[name] + ToEdges(connections[..k])]
    {
      var c := connections[k];
      ToEdgesSnoc(connections, k);
      assert full[name] + [Edge(c.to, c.distance)] == full0[name] + ToEdges(connections[..k + 1]);
      UpdateTwice(full0, name, full0[name] + ToEdges(connections[..k]), full0[name] + ToEdges(connections[..k + 1]));
      full := full[name := full[name] + [Edge(c.to, c.distance)]];
      k := k + 1;
    }
    assert connections[..|connections|] == connections;
  }

  /** PublicTransportMap.__init__ on already-parsed data. */
  method NewPublicTransportMap(data: MapData) returns (m: PublicTransportMap)
    ensures m.stations == AllStations(data)
    ensures m.fullStationsMap == FullStationsMap(data)
    ensures WellFormedData(data) ==> ValidMap(m)
  {
    var stations := GetAllStations(data);
    var full := GetFullStationsMap(data);
    m := PublicTransportMap(stations, full);
    if WellFormedData(data) {
      BuiltMapValid(data);
    }
  }

  /** exists_station: exact membership in the station list. */
  predicate ExistsStation(m: PublicTransportMap, name: string): (r: bool)
    ensures r <==> exists i :: 0 <= i < |m.stations| && m.stations[i] == name
  {
    name in m.stations
  }

  // ---------------------------------------------------------------------------
  // Properties of the builders
  // ---------------------------------------------------------------------------

  lemma {:induction false} EntriesSnoc(lines: seq<Line>, i: nat)
    requires i < |lines|
    ensures Entries(lines[..i + 1]) == Entries(lines[..i]) + lines[i].stations
  {
    assert lines[..i + 1][..i] == lines[..i];
  }

  lemma NamesSnoc(entries: seq<StationEntry>, e: StationEntry)
    ensures Names(entries + [e]) == Names(entries) + [e.name]
  {
    assert (entries + [e])[..|entries|] == entries;
  }

  lemma PrefixSnoc<T>(prefix: seq<T>, s: seq<T>, j: nat)
    requires j < |s|
    ensures (prefix + s[..j]) + [s[j]] == prefix + s[..j + 1]
  {
    assert s[..j + 1] == s[..j] + [s[j]];
  }

  lemma UpdateSame<K, V>(m: map<K, V>, k: K)
    requires k in m
    ensures m[k := m[k]] == m
  {
  }

  lemma UpdateTwice<K, V>(m: map<K, V>, k: K, a: V, b: V)
    ensures m[k := a][k := b] == m[k := b]
  {
  }

  /** Converting connections keeps their number and their order. */
  lemma {:induction false} ToEdgesAt(cs: seq<Connection>, k: nat)
    requires k < |cs|
    ensures |ToEdges(cs)| == |cs| && ToEdges(cs)[k] == ToEdge(cs[k])
  {
    ToEdgesLength(cs[..|cs| - 1]);
    if k < |cs| - 1 {
      ToEdgesAt(cs[..|cs| - 1], k);
    }
  }

  lemma {:induction false} ToEdgesLength(cs: seq<Connection>)
    ensures |ToEdges(cs)| == |cs|
  {
    if cs != [] {
      ToEdgesLength(cs[..|cs| - 1]);
    }
  }

  lemma ToEdgesSnoc(cs: seq<Connection>, k: nat)
    requires k < |cs|
    ensures ToEdges(cs[..k + 1]) == ToEdges(cs[..k]) + [Edge(cs[k].to, cs[k].distance)]
  {
    assert cs[..k + 1][..k] == cs[..k];
  }

  lemma EdgesOfSnoc(before: seq<StationEntry>, station: StationEntry, n: string)
    ensures EdgesOf(before + [station], n) == EdgesOf(before, n) + (if station.name == n then ToEdges(station.connections) else [])
  {
    assert (before + [station])[..|before|] == before;
  }

  lemma AppendedEntry(full: map<string, seq<Edge>>, full': map<string, seq<Edge>>, done: seq<StationEntry>, station: StationEntry)
    requires station.name in full
    requires forall n :: n in full ==> full[n] == EdgesOf(done, n)
    requires full' == full[station.name := full[station.name] + ToEdges(station.connections)]
    ensures full'.Keys == full.Keys
    ensures forall n :: n in full' ==> full'[n] == EdgesOf(done + [station], n)
  {
    forall n | n in full'
      ensures full'[n] == EdgesOf(done + [station], n)
    {
      EdgesOfSnoc(done, station, n);
    }
  }

  lemma FullStationsMapExtensional(data: MapData, full: map<string, seq<Edge>>)
    requires full.Keys == set n | n in StationNames(data)
    requires forall n :: n in full ==> full[n] == EdgesOf(Entries(data.lines), n)
    ensures full == FullStationsMap(data)
  {
  }

  /** Every record of every line is among the flattened records. */
  lemma {:induction false} EntryInEntries(lines: seq<Line>, i: nat, j: nat)
    requires i < |lines| && j < |lines[i].stations|
    ensures lines[i].stations[j] in Entries(lines)
  {
    if i < |lines| - 1 {
      EntryInEntries(lines[..|lines| - 1], i, j);
    }
  }

  lemma EntryNameDeclared(data: MapData, i: nat, j: nat)
    requires i < |data.lines| && j < |data.lines[i].stations|
    ensures data.lines[i].stations[j].name in StationNames(data)
  {
    EntryInEntries(data.lines, i, j);
  }

  /** First index of x in s (|s| when absent). */
  function FirstIndex(s: seq<string>, x: string): (r: nat)
    ensures r <= |s|
    ensures r < |s| <==> x in s
  {
    if s == [] then 0
    else if x in s[..|s| - 1] then FirstIndex(s[..|s| - 1], x)
    else if s[|s| - 1] == x then |s| - 1
    else |s|
  }

  /** The station list holds each name exactly once, holds exactly the declared
      names, and lists them in the order of their first appearance. */
  lemma {:induction false} DedupProperties(names: seq<string>)
    ensures NoDuplicates(Dedup(names))
    ensures forall n :: n in Dedup(names) <==> n in names
    ensures forall i, j :: 0 <= i < j < |Dedup(names)| ==> FirstIndex(names, Dedup(names)[i]) < FirstIndex(names, Dedup(names)[j])
  {
    if names != [] {
      var init := names[..|names| - 1];
      var last := names[|names| - 1];
      DedupProperties(init);
      assert names == init + [last];
      var d := Dedup(init);
      forall n | n in init
        ensures FirstIndex(names, n) == FirstIndex(init, n)
      {
      }
      if last !in d {
        assert FirstIndex(names, last) == |init|;
        forall i | 0 <= i < |d|
          ensures FirstIndex(names, d[i]) < |init|
        {
          assert d[i] in init;
        }
      }
    }
  }

  /** A station with records named n has exactly the connections of those
      records as edges (every connection kept, duplicates included). */
  lemma {:induction false} EdgesOfMembership(entries: seq<StationEntry>, n: string, e: Edge)
    ensures e in EdgesOf(entries, n) <==> exists i, c :: 0 <= i < |entries| && entries[i].name == n && c in entries[i].connections && e == ToEdge(c)
  {
    if entries != [] {
      var init := entries[..|entries| - 1];
      var last := entries[|entries| - 1];
      EdgesOfMembership(init, n, e);
      if e in EdgesOf(entries, n) && e !in EdgesOf(init, n) {
        assert last.name == n && e in ToEdges(last.connections);
        ToEdgesLength(last.connections);
        var k :| 0 <= k < |last.connections| && ToEdges(last.connections)[k] == e;
        ToEdgesAt(last.connections, k);
        assert entries[|entries| - 1].name == n && last.connections[k] in entries[|entries| - 1].connections;
      }
      if exists i, c :: 0 <= i < |entries| && entries[i].name == n && c in entries[i].connections && e == ToEdge(c) {
        var i, c :| 0 <= i < |entries| && entries[i].name == n && c in entries[i].connections && e == ToEdge(c);
        if i < |init| {
          assert init[i] == entries[i];
        } else {
          var k :| 0 <= k < |last.connections| && last.connections[k] == c;
          ToEdgesAt(last.connections, k);
        }
      }
    }
  }

  /** When one record is the only one named n, the edges of n are exactly that
      record's connections, in their order. */
  lemma {:induction false} EdgesOfSingleEntry(entries: seq<StationEntry>, n: string, i: nat)
    requires i < |entries| && entries[i].name == n
    requires forall j :: 0 <= j < |entries| && j != i ==> entries[j].name != n
    ensures EdgesOf(entries, n) == ToEdges(entries[i].connections)
  {
    var init := entries[..|entries| - 1];
    if i < |entries| - 1 {
      EdgesOfSingleEntry(init, n, i);
    } else {
      EdgesOfAbsent(init, n);
    }
  }

  /** A station whose every record has no connection is mapped to []. */
  lemma {:induction false} EdgesOfAbsent(entries: seq<StationEntry>, n: string)
    requires forall j :: 0 <= j < |entries| ==> entries[j].name != n || entries[j].connections == []
    ensures EdgesOf(entries, n) == []
  {
    if entries != [] {
      EdgesOfAbsent(entries[..|entries| - 1], n);
    }
  }

  /** Building from well-formed data gives what the search engine relies on. */
  lemma BuiltMapValid(data: MapData)
    requires WellFormedData(data)
    ensures ValidMap(PublicTransportMap(AllStations(data), FullStationsMap(data)))
  {
    var m := PublicTransportMap(AllStations(data), FullStationsMap(data));
    DedupProperties(StationNames(data));
    forall u, e | u in m.fullStationsMap && e in m.fullStationsMap[u]
      ensures e.target in m.fullStationsMap
    {
      var entries := Entries(data.lines);
      EdgesOfMembership(entries, u, e);
      var i, c :| 0 <= i < |entries| && entries[i].name == u && c in entries[i].connections && e == ToEdge(c);
      assert entries[i] in entries;
    }
  }

  /** exists_station answers true exactly for names some station record
      declares, compared character by character. */
  lemma ExistsStationIffDeclared(data: MapData, m: PublicTransportMap, name: string)
    requires m.stations == AllStations(data)
    ensures ExistsStation(m, name) <==> exists i :: 0 <= i < |Entries(data.lines)| && Entries(data.lines)[i].name == name
  {
    var entries := Entries(data.lines);
    var ns := StationNames(data);
    DedupProperties(ns);
    if ExistsStation(m, name) {
      assert name in ns;
      var i :| 0 <= i < |ns| && ns[i] == name;
      assert entries[i].name == name;
      assert exists j :: 0 <= j < |Entries(data.lines)| && Entries(data.lines)[j].name == name;
    }
    if exists i :: 0 <= i < |entries| && entries[i].name == name {
      var i :| 0 <= i < |entries| && entries[i].name == name;
      assert ns[i] == name;
      assert name in ns;
      assert name in m.stations;
    }
  }
}
