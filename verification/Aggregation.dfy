/** The latch: last values by bus and signal, and the last GPS record. */
module Aggregation {
  import opened Results
  import opened Codec

  datatype GpsData = GpsData(
    timestamp: string,
    latitude: real,
    longitude: real,
    altitude: real,
    speed: real,
    climb: real,
    track: real
  )

  datatype Latch = Latch(vehicle: map<string, Values>, gpsData: Option<GpsData>)

  const EMPTY_LATCH := Latch(map[], None)

  datatype LocationSnapshot = LocationSnapshot(
    latitude: real,
    longitude: real,
    altitude: real,
    speed: real,
    timestamp: string
  )

  datatype Snapshot = Snapshot(timestamp: string, vehicle: map<string, Values>, location: Option<LocationSnapshot>)

  function BusValues(l: Latch, bus: string): Values {
    if bus in l.vehicle then l.vehicle[bus] else map[]
  }

  function LatchCan(l: Latch, msg: DecodeMsg): Latch {
    l.(vehicle := l.vehicle[msg.busID := BusValues(l, msg.busID) + Latest(msg.signals)])
  }

  /** A message changes its own bus only, and there only the names it carries: each gets the
      value of its last occurrence. */
  lemma LatchCanMeans(l: Latch, msg: DecodeMsg, name: string, p: nat)
    ensures LatchCan(l, msg).gpsData == l.gpsData
    ensures LatchCan(l, msg).vehicle.Keys == l.vehicle.Keys + {msg.busID}
    ensures forall bus :: bus in l.vehicle && bus != msg.busID ==> LatchCan(l, msg).vehicle[bus] == l.vehicle[bus]
    ensures var v := LatchCan(l, msg).vehicle[msg.busID];
            && (p < |msg.signals| && msg.signals[p].name == name
                && (forall q :: p < q < |msg.signals| ==> msg.signals[q].name != name) ==>
                  name in v && v[name] == msg.signals[p].value)
            && ((forall q :: 0 <= q < |msg.signals| ==> msg.signals[q].name != name) ==>
                  (name in v <==> msg.busID in l.vehicle && name in l.vehicle[msg.busID])
                  && (name in v ==> v[name] == l.vehicle[msg.busID][name]))
  {
    LatestIsLast(msg.signals, name);
  }

  function LatchGps(l: Latch, data: GpsData): Latch {
    l.(gpsData := Some(data))
  }

  lemma LatestExtends(base: Values, sigs: seq<Signal>, i: nat)
    requires i < |sigs|
    ensures base + Latest(sigs[..i + 1]) == (base + Latest(sigs[..i]))[sigs[i].name := sigs[i].value]
  {
    assert sigs[..i + 1][..i] == sigs[..i];
  }

  function LocationOf(l: Latch): Option<LocationSnapshot> {
    match l.gpsData
    case None => None
    case Some(g) => Some(LocationSnapshot(g.latitude, g.longitude, g.altitude, g.speed, g.timestamp))
  }

  class Aggregator {
    var vehicle: map<string, Values>
    var gpsData: Option<GpsData>

    ghost function Contents(): Latch
      reads this
    {
      Latch(vehicle, gpsData)
    }

    constructor ()
      ensures Contents() == EMPTY_LATCH
    {
      vehicle := map[];
      gpsData := None;
    }

    method UpdateCAN(msg: DecodeMsg)
      modifies this
      ensures Contents() == LatchCan(old(Contents()), msg)
    {
      ghost var before := Contents();
      if msg.busID !in vehicle {
        vehicle := vehicle[msg.busID := map[]];
      }
      assert BusValues(before, msg.busID) + Latest(msg.signals[..0]) == BusValues(before, msg.busID);
      for i := 0 to |msg.signals|
        invariant gpsData == before.gpsData
        invariant vehicle == before.vehicle[msg.busID := BusValues(before, msg.busID) + Latest(msg.signals[..i])]
      {
        var sig := msg.signals[i];
        LatestExtends(BusValues(before, msg.busID), msg.signals, i);
        vehicle := vehicle[msg.busID := vehicle[msg.busID][sig.name := sig.value]];
      }
      assert msg.signals[..|msg.signals|] == msg.signals;
    }

    method UpdateGPS(data: GpsData)
      modifies this
      ensures Contents() == LatchGps(old(Contents()), data)
      ensures vehicle == old(vehicle) && gpsData == Some(data)
    {
      gpsData := Some(data);
    }

    method MarshalSnapshot(now: string) returns (s: Snapshot)
      ensures s == Snapshot(now, Contents().vehicle, LocationOf(Contents()))
      ensures s.timestamp == now && s.vehicle == vehicle
      ensures s.location.Some? <==> gpsData.Some?
      ensures s.location.Some? ==>
                var at, g := s.location.value, gpsData.value;
                && at.latitude == g.latitude && at.longitude == g.longitude && at.altitude == g.altitude
                && at.speed == g.speed && at.timestamp == g.timestamp
    {
      var location := None;
      if gpsData.Some? {
        var g := gpsData.value;
        location := Some(LocationSnapshot(g.latitude, g.longitude, g.altitude, g.speed, g.timestamp));
      }
      s := Snapshot(now, vehicle, location);
    }
  }
}
