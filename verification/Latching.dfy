/** The publisher's two inputs, the whitelist filter, and what the latch holds after any
    sequence of inputs. */
module Latching {
  import opened Results
  import opened Codec
  import opened Aggregation

  datatype Input = Can(msg: DecodeMsg) | Gps(data: GpsData)

  /** Frame identifiers to latch, by bus. */
  type Whitelist = map<string, set<FrameId>>

  predicate Passes(w: Whitelist, msg: DecodeMsg) {
    msg.busID in w && msg.frameID in w[msg.busID]
  }

  function Consume(w: Whitelist, l: Latch, x: Input): Latch {
    match x
    case Can(msg) => if Passes(w, msg) then LatchCan(l, msg) else l
    case Gps(data) => LatchGps(l, data)
  }

  /** The latch after a sequence of inputs. */
  function After(w: Whitelist, xs: seq<Input>): Latch {
    if xs == [] then EMPTY_LATCH else Consume(w, After(w, xs[..|xs| - 1]), xs[|xs| - 1])
  }

  class Publisher {
    const latchFrameIDSet: Whitelist
    const agg: Aggregator

    constructor (latchFrameIDSet: Whitelist, agg: Aggregator)
      ensures this.latchFrameIDSet == latchFrameIDSet && this.agg == agg
    {
      this.latchFrameIDSet := latchFrameIDSet;
      this.agg := agg;
    }

    method OnGps(gpsMsg: GpsData)
      modifies agg
      ensures agg.Contents() == Consume(latchFrameIDSet, old(agg.Contents()), Gps(gpsMsg))
      ensures agg.vehicle == old(agg.vehicle) && agg.gpsData == Some(gpsMsg)
    {
      agg.UpdateGPS(gpsMsg);
    }

    method OnCan(canMsg: DecodeMsg)
      modifies agg
      ensures agg.Contents() == Consume(latchFrameIDSet, old(agg.Contents()), Can(canMsg))
      ensures agg.Contents() ==
              if canMsg.busID in latchFrameIDSet && canMsg.frameID in latchFrameIDSet[canMsg.busID]
              then LatchCan(old(agg.Contents()), canMsg) else old(agg.Contents())
    {
      if canMsg.busID !in latchFrameIDSet {
        return;
      }
      var ifIDs := latchFrameIDSet[canMsg.busID];
      if canMsg.frameID !in ifIDs {
        return;
      }
      agg.UpdateCAN(canMsg);
    }
  }

  // ---------------------------------------------------------------- last accepted write wins

  predicate Writes(w: Whitelist, x: Input, bus: string, name: string) {
    x.Can? && Passes(w, x.msg) && x.msg.busID == bus && name in Latest(x.msg.signals)
  }

  /** Position of the last input that writes a signal of a bus, or -1. */
  function LastWrite(w: Whitelist, xs: seq<Input>, bus: string, name: string): (i: int)
    ensures -1 <= i < |xs|
    ensures i >= 0 ==> Writes(w, xs[i], bus, name)
    ensures forall j :: i < j < |xs| ==> !Writes(w, xs[j], bus, name)
  {
    if xs == [] then -1
    else if Writes(w, xs[|xs| - 1], bus, name) then |xs| - 1
    else
      var init := xs[..|xs| - 1];
      assert forall j :: 0 <= j < |init| ==> init[j] == xs[j];
      LastWrite(w, init, bus, name)
  }

  function LastGps(xs: seq<Input>): (i: int)
    ensures -1 <= i < |xs|
    ensures i >= 0 ==> xs[i].Gps?
    ensures forall j :: i < j < |xs| ==> !xs[j].Gps?
  {
    if xs == [] then -1
    else if xs[|xs| - 1].Gps? then |xs| - 1
    else
      var init := xs[..|xs| - 1];
      assert forall j :: 0 <= j < |init| ==> init[j] == xs[j];
      LastGps(init)
  }

  /** A signal of a bus is latched exactly when a whitelisted message of that bus carried
      it, with the value of the last such message. */
  lemma {:induction false} LastWriteWins(w: Whitelist, xs: seq<Input>, bus: string, name: string)
    ensures name in BusValues(After(w, xs), bus) <==> exists i :: 0 <= i < |xs| && Writes(w, xs[i], bus, name)
    ensures var i := LastWrite(w, xs, bus, name);
            i >= 0 ==> name in BusValues(After(w, xs), bus)
                       && BusValues(After(w, xs), bus)[name] == Latest(xs[i].msg.signals)[name]
  {
    if xs != [] {
      var init := xs[..|xs| - 1];
      LastWriteWins(w, init, bus, name);
      assert forall i :: 0 <= i < |init| ==> init[i] == xs[i];
    }
  }

  /** The location is the last GPS record. */
  lemma {:induction false} LastGpsWins(w: Whitelist, xs: seq<Input>)
    ensures After(w, xs).gpsData == if LastGps(xs) >= 0 then Some(xs[LastGps(xs)].data) else None
  {
    if xs != [] {
      LastGpsWins(w, xs[..|xs| - 1]);
    }
  }

  // ---------------------------------------------------------------- confluence

  function CanPart(xs: seq<Input>): seq<DecodeMsg> {
    if xs == [] then []
    else CanPart(xs[..|xs| - 1]) + if xs[|xs| - 1].Can? then [xs[|xs| - 1].msg] else []
  }

  function GpsPart(xs: seq<Input>): seq<GpsData> {
    if xs == [] then []
    else GpsPart(xs[..|xs| - 1]) + if xs[|xs| - 1].Gps? then [xs[|xs| - 1].data] else []
  }

  /** The messages of one bus, in order. */
  function OfBus(msgs: seq<DecodeMsg>, bus: string): seq<DecodeMsg> {
    if msgs == [] then []
    else OfBus(msgs[..|msgs| - 1], bus) + if msgs[|msgs| - 1].busID == bus then [msgs[|msgs| - 1]] else []
  }

  lemma {:induction false} OfBusConcat(a: seq<DecodeMsg>, b: seq<DecodeMsg>, bus: string)
    ensures OfBus(a + b, bus) == OfBus(a, bus) + OfBus(b, bus)
  {
    if b == [] {
      assert a + b == a;
    } else {
      assert (a + b)[..|a + b| - 1] == a + b[..|b| - 1];
      OfBusConcat(a, b[..|b| - 1], bus);
    }
  }

  lemma OfBusAppend(a: seq<DecodeMsg>, m: DecodeMsg, bus: string)
    ensures OfBus(a + [m], bus) == OfBus(a, bus) + if m.busID == bus then [m] else []
  {
  }

  /** What one bus contributes: its entry of the latch, if it has one. */
  function BusEntry(w: Whitelist, msgs: seq<DecodeMsg>): Option<Values> {
    if msgs == [] then None
    else
      var last := msgs[|msgs| - 1];
      var before := BusEntry(w, msgs[..|msgs| - 1]);
      if Passes(w, last) then Some((if before.Some? then before.value else map[]) + Latest(last.signals))
      else before
  }

  function EntryOf(l: Latch, bus: string): Option<Values> {
    if bus in l.vehicle then Some(l.vehicle[bus]) else None
  }

  /** The entry of a bus depends on that bus's messages alone. */
  lemma {:induction false} BusesAreIndependent(w: Whitelist, xs: seq<Input>, bus: string)
    ensures EntryOf(After(w, xs), bus) == BusEntry(w, OfBus(CanPart(xs), bus))
  {
    if xs != [] {
      var init, x := xs[..|xs| - 1], xs[|xs| - 1];
      BusesAreIndependent(w, init, bus);
      if x.Can? {
        OfBusAppend(CanPart(init), x.msg, bus);
        var ms := OfBus(CanPart(init), bus);
        if x.msg.busID == bus {
          assert (ms + [x.msg])[..|ms|] == ms;
          assert BusEntry(w, ms + [x.msg]) ==
                 if Passes(w, x.msg) then Some(BusValues(After(w, init), bus) + Latest(x.msg.signals))
                 else BusEntry(w, ms);
        } else {
          assert ms + [] == ms;
        }
      } else {
        assert CanPart(xs) == CanPart(init);
      }
    }
  }

  function LastOf(gs: seq<GpsData>): Option<GpsData> {
    if gs == [] then None else Some(gs[|gs| - 1])
  }

  lemma {:induction false} GpsIsIndependent(w: Whitelist, xs: seq<Input>)
    ensures After(w, xs).gpsData == LastOf(GpsPart(xs))
  {
    if xs != [] {
      GpsIsIndependent(w, xs[..|xs| - 1]);
    }
  }

  /** Any two interleavings of the same per-bus sequences and the same GPS sequence leave
      the same latch. */
  lemma Confluence(w: Whitelist, xs: seq<Input>, ys: seq<Input>)
    requires forall bus :: OfBus(CanPart(xs), bus) == OfBus(CanPart(ys), bus)
    requires GpsPart(xs) == GpsPart(ys)
    ensures After(w, xs) == After(w, ys)
  {
    var a, b := After(w, xs), After(w, ys);
    forall bus
      ensures EntryOf(a, bus) == EntryOf(b, bus)
    {
      BusesAreIndependent(w, xs, bus);
      BusesAreIndependent(w, ys, bus);
    }
    assert forall bus :: bus in a.vehicle <==> EntryOf(a, bus).Some?;
    assert forall bus :: bus in b.vehicle <==> EntryOf(b, bus).Some?;
    assert forall bus :: bus in a.vehicle ==> EntryOf(a, bus) == Some(a.vehicle[bus]);
    assert forall bus :: bus in b.vehicle ==> EntryOf(b, bus) == Some(b.vehicle[bus]);
    assert a.vehicle == b.vehicle;
    GpsIsIndependent(w, xs);
    GpsIsIndependent(w, ys);
  }
}
