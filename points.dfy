/** The stations of the map and the ordered point list createRoute builds from
    them (s.js:144-162, learnjs.js:10-26, script.js:117-133): the first
    "Starting Point", every other station in order, the first "Ending Point". */
module Points {
  import opened Common

  /** One entry of `jsonData`; coordinates are decimal degrees. */
  datatype Station = Station(name: string, latitude: real, longitude: real)

  /** `L.latLng(latitude, longitude)`, the form a waypoint is handed over in. */
  datatype LatLng = LatLng(lat: real, lng: real)

  const StartName: string := "Starting Point"
  const EndName: string := "Ending Point"

  datatype AssemblyError = MissingEndpoint

  function LatLngOf(s: Station): LatLng
  {
    LatLng(s.latitude, s.longitude)
  }

  /** A station carrying one of the two role names. */
  predicate IsSentinel(s: Station)
  {
    s.name == StartName || s.name == EndName
  }

  /** `jsonData.find(station => station.name === name)`, as an index. */
  function FindNamed(stations: seq<Station>, name: string): (r: Option<nat>)
    ensures r.Some? ==> r.value < |stations| && stations[r.value].name == name
    ensures r.Some? ==> forall k :: 0 <= k < r.value ==> stations[k].name != name
    ensures r.None? <==> forall k :: 0 <= k < |stations| ==> stations[k].name != name
  {
    if stations == [] then None
    else if stations[0].name == name then Some(0)
    else match FindNamed(stations[1..], name)
      case None => None
      case Some(i) => Some(i + 1)
  }

  /** `jsonData.filter(station => station.name !== "Starting Point" && station.name !== "Ending Point")`. */
  function Intermediates(stations: seq<Station>): (r: seq<Station>)
    ensures |r| <= |stations|
    ensures forall k :: 0 <= k < |r| ==> !IsSentinel(r[k])
  {
    if stations == [] then []
    else
      var init := stations[..|stations| - 1];
      var last := stations[|stations| - 1];
      assert stations == init + [last];
      Intermediates(init) + (if IsSentinel(last) then [] else [last])
  }

  /** The filter drops every start or end station and keeps every other
      station as often as it occurs. */
  lemma {:induction false} IntermediatesKeep(stations: seq<Station>)
    ensures forall s :: multiset(Intermediates(stations))[s] == if IsSentinel(s) then 0 else multiset(stations)[s]
  {
    if stations != [] {
      var init, last := stations[..|stations| - 1], stations[|stations| - 1];
      assert stations == init + [last];
      IntermediatesKeep(init);
    }
  }

  /** Filtering keeps relative order: the filter of a concatenation is the
      concatenation of the filters. */
  lemma {:induction false} IntermediatesAppend(a: seq<Station>, b: seq<Station>)
    ensures Intermediates(a + b) == Intermediates(a) + Intermediates(b)
  {
    if b != [] {
      var b', x := b[..|b| - 1], b[|b| - 1];
      assert (a + b)[..|a + b| - 1] == a + b' && (a + b)[|a + b| - 1] == x;
      IntermediatesAppend(a, b');
      assert Intermediates(b) == Intermediates(b') + (if IsSentinel(x) then [] else [x]);
    } else {
      assert a + b == a;
    }
  }

  /** The number of stations that carry the given name. */
  function CountNamed(stations: seq<Station>, name: string): (c: nat)
    ensures c <= |stations|
    ensures c == 0 <==> forall k :: 0 <= k < |stations| ==> stations[k].name != name
  {
    if stations == [] then 0
    else CountNamed(stations[..|stations| - 1], name) + (if stations[|stations| - 1].name == name then 1 else 0)
  }

  /** Every station is either an intermediate or carries exactly one of the two
      role names. */
  lemma {:induction false} IntermediatesCount(stations: seq<Station>)
    ensures |Intermediates(stations)| + CountNamed(stations, StartName) + CountNamed(stations, EndName) == |stations|
  {
    if stations != [] {
      IntermediatesCount(stations[..|stations| - 1]);
    }
  }

  /** x is the first station named `name`, the one `find` returns. */
  ghost predicate IsFirstNamed(stations: seq<Station>, x: Station, name: string)
  {
    exists i :: 0 <= i < |stations| && stations[i] == x && x.name == name &&
      forall k :: 0 <= k < i ==> stations[k].name != name
  }

  /** `[startingPoint, ...intermediatePoints, endingPoint]`, or the error of
      the "Starting or Ending Point not found" branch. */
  function AssemblePoints(stations: seq<Station>): (r: Result<seq<Station>, AssemblyError>)
    ensures r.Err? <==> ((forall k :: 0 <= k < |stations| ==> stations[k].name != StartName) ||
                         (forall k :: 0 <= k < |stations| ==> stations[k].name != EndName))
    ensures r.Ok? ==> |r.value| == |Intermediates(stations)| + 2
    ensures r.Ok? ==> IsFirstNamed(stations, r.value[0], StartName)
    ensures r.Ok? ==> IsFirstNamed(stations, r.value[|r.value| - 1], EndName)
    ensures r.Ok? ==> forall k :: 0 < k < |r.value| - 1 ==> !IsSentinel(r.value[k])
    ensures r.Ok? ==> r.value[1..|r.value| - 1] == Intermediates(stations)
  {
    var startIndex := FindNamed(stations, StartName);
    var endIndex := FindNamed(stations, EndName);
    if startIndex.None? || endIndex.None? then Err(MissingEndpoint)
    else
      var points := [stations[startIndex.value]] + Intermediates(stations) + [stations[endIndex.value]];
      assert points[1..|points| - 1] == Intermediates(stations);
      Ok(points)
  }

  /** With the two roles present, the point list has one entry per station
      exactly when each role name is used once. */
  lemma PointsCoverStations(stations: seq<Station>)
    requires AssemblePoints(stations).Ok?
    ensures |AssemblePoints(stations).value| <= |stations|
    ensures |AssemblePoints(stations).value| == |stations| <==>
              CountNamed(stations, StartName) == 1 && CountNamed(stations, EndName) == 1
  {
    IntermediatesCount(stations);
  }
}
