/** From the CAN and GPS receivers to the latch: listeners, bounded queues and the
    publisher as a step machine with histories, and what every run keeps. */
module Uplink {
  import opened Results
  import opened Codec
  import opened CanHandler
  import opened Reencode
  import opened Aggregation
  import opened Latching
  import opened Config

  const CAN_RX_CAPACITY := 200
  const GPS_RX_CAPACITY := 100

  /** A listening goroutine. `decoded` is the history of its non-empty decodes; `pending`
      is the one it is trying to send; `dropped` is what it gave up after cancellation. */
  datatype Listener = Listener(
    decoded: seq<DecodeMsg>,
    pending: Option<DecodeMsg>,
    dropped: seq<DecodeMsg>,
    stopped: bool
  )

  /** `gpsPending` is the record the GPS callback is blocked on: its send has no way out on
      cancellation. `gpsProduced` and `consumed` are histories. */
  datatype State = State(
    cancelled: bool,
    listeners: map<string, Listener>,
    canRx: seq<DecodeMsg>,
    gpsProduced: seq<GpsData>,
    gpsPending: Option<GpsData>,
    gpsRx: seq<GpsData>,
    consumed: seq<Input>,
    latch: Latch,
    publisherStopped: bool
  )

  datatype Event =
    | Cancel
    | Receive(bus: string, frame: Frame)
    | Forward(bus: string)
    | Abandon(bus: string)
    | Hangup(bus: string)
    | GpsReport(data: GpsData)
    | ForwardGps
    | TakeGps
    | TakeCan
    | Tick
    | StopPublisher

  function Initial(cfg: Buses): State {
    State(false, map bus | bus in cfg :: Listener([], None, [], false), [], [], None, [], [], EMPTY_LATCH, false)
  }

  predicate Enabled(s: State, e: Event) {
    match e
    case Cancel => true
    case Receive(bus, _) => bus in s.listeners && s.listeners[bus].pending.None? && !s.listeners[bus].stopped
    case Forward(bus) => bus in s.listeners && s.listeners[bus].pending.Some? && |s.canRx| < CAN_RX_CAPACITY
    case Abandon(bus) => bus in s.listeners && s.listeners[bus].pending.Some? && s.cancelled
    case Hangup(bus) => bus in s.listeners && s.listeners[bus].pending.None? && !s.listeners[bus].stopped
    case GpsReport(_) => s.gpsPending.None?
    case ForwardGps => s.gpsPending.Some? && |s.gpsRx| < GPS_RX_CAPACITY
    case TakeGps => !s.publisherStopped && s.gpsRx != []
    case TakeCan => !s.publisherStopped && s.canRx != []
    case Tick => !s.publisherStopped
    case StopPublisher => s.cancelled
  }

  function Decoded(s: State, bus: string, m: DecodeMsg): State
    requires bus in s.listeners
  {
    var l := s.listeners[bus];
    s.(listeners := s.listeners[bus := l.(decoded := l.decoded + [m], pending := Some(m))])
  }

  function Forwarded(s: State, bus: string): State
    requires bus in s.listeners && s.listeners[bus].pending.Some?
  {
    var l := s.listeners[bus];
    s.(canRx := s.canRx + [l.pending.value], listeners := s.listeners[bus := l.(pending := None)])
  }

  function Abandoned(s: State, bus: string): State
    requires bus in s.listeners && s.listeners[bus].pending.Some?
  {
    var l := s.listeners[bus];
    s.(listeners := s.listeners[bus := l.(pending := None, dropped := [l.pending.value], stopped := true)])
  }

  function TookCan(w: Whitelist, s: State): State
    requires s.canRx != []
  {
    var x := Can(s.canRx[0]);
    s.(canRx := s.canRx[1..], consumed := s.consumed + [x], latch := Consume(w, s.latch, x))
  }

  function TookGps(w: Whitelist, s: State): State
    requires s.gpsRx != []
  {
    var x := Gps(s.gpsRx[0]);
    s.(gpsRx := s.gpsRx[1..], consumed := s.consumed + [x], latch := Consume(w, s.latch, x))
  }

  function ForwardedGps(s: State): State
    requires s.gpsPending.Some?
  {
    s.(gpsRx := s.gpsRx + [s.gpsPending.value], gpsPending := None)
  }

  function Next(cfg: Buses, s: State, e: Event): State
    requires ValidBuses(cfg) && s.listeners.Keys == cfg.Keys && Enabled(s, e)
  {
    match e
    case Cancel => s.(cancelled := true)
    case Receive(bus, frame) =>
      (match Received(bus, cfg[bus].db, frame)
       case None => s
       case Some(m) => Decoded(s, bus, m))
    case Forward(bus) => Forwarded(s, bus)
    case Abandon(bus) => Abandoned(s, bus)
    case Hangup(bus) => s.(listeners := s.listeners[bus := s.listeners[bus].(stopped := true)])
    case GpsReport(data) => s.(gpsPending := Some(data), gpsProduced := s.gpsProduced + [data])
    case ForwardGps => ForwardedGps(s)
    case TakeGps => TookGps(WhitelistOf(cfg), s)
    case TakeCan => TookCan(WhitelistOf(cfg), s)
    case Tick => s
    case StopPublisher => s.(publisherStopped := true)
  }

  /** The state a sequence of events leads to, if each event is enabled in its turn. */
  function Exec(cfg: Buses, es: seq<Event>): (r: Option<State>)
    requires ValidBuses(cfg)
    ensures r.Some? ==> r.value.listeners.Keys == cfg.Keys
  {
    if es == [] then Some(Initial(cfg))
    else
      match Exec(cfg, es[..|es| - 1])
      case None => None
      case Some(s) => if Enabled(s, es[|es| - 1]) then Some(Next(cfg, s, es[|es| - 1])) else None
  }

  // ---------------------------------------------------------------- the invariant

  function PendingOf(l: Listener): seq<DecodeMsg> {
    if l.pending.Some? then [l.pending.value] else []
  }

  function PendingGps(s: State): seq<GpsData> {
    if s.gpsPending.Some? then [s.gpsPending.value] else []
  }

  /** Everything a bus decoded is consumed, queued, pending or dropped, in that order. */
  ghost predicate Conserved(s: State, bus: string)
    requires bus in s.listeners
  {
    s.listeners[bus].decoded ==
    OfBus(CanPart(s.consumed), bus) + OfBus(s.canRx, bus) + PendingOf(s.listeners[bus]) + s.listeners[bus].dropped
  }

  ghost predicate BusFlow(s: State, bus: string)
    requires bus in s.listeners
  {
    var l := s.listeners[bus];
    && Conserved(s, bus)
    && (l.pending.Some? ==> !l.stopped && l.dropped == [] && l.pending.value.busID == bus)
    && (l.dropped != [] ==> s.cancelled && l.stopped && |l.dropped| == 1)
  }

  /** What the queues and the histories keep. */
  ghost predicate Flow(s: State) {
    && |s.canRx| <= CAN_RX_CAPACITY && |s.gpsRx| <= GPS_RX_CAPACITY
    && (forall bus :: bus in s.listeners ==> BusFlow(s, bus))
    && s.gpsProduced == GpsPart(s.consumed) + s.gpsRx + PendingGps(s)
  }

  lemma ConsumedAppend(xs: seq<Input>, x: Input)
    ensures CanPart(xs + [x]) == CanPart(xs) + if x.Can? then [x.msg] else []
    ensures GpsPart(xs + [x]) == GpsPart(xs) + if x.Gps? then [x.data] else []
  {
  }

  lemma DecodedBus(s: State, bus: string, m: DecodeMsg, b: string)
    requires Enabled(s, Hangup(bus)) && m.busID == bus && b in s.listeners && BusFlow(s, b)
    ensures BusFlow(Decoded(s, bus, m), b)
  {
    if b == bus {
      assert s.listeners[bus].dropped == [] && PendingOf(s.listeners[bus]) == [];
    }
  }

  lemma DecodedFlow(s: State, bus: string, m: DecodeMsg)
    requires Flow(s) && Enabled(s, Hangup(bus)) && m.busID == bus
    ensures Flow(Decoded(s, bus, m))
  {
    forall b | b in s.listeners
      ensures BusFlow(Decoded(s, bus, m), b)
    {
      DecodedBus(s, bus, m, b);
    }
  }

  lemma TailJoins(c: seq<DecodeMsg>, q: seq<DecodeMsg>, m: DecodeMsg)
    ensures c + q + [m] + [] == c + (q + [m]) + [] + []
    ensures q + [] == q
  {
  }

  lemma ForwardedBus(s: State, bus: string, b: string)
    requires Enabled(s, Forward(bus)) && BusFlow(s, bus) && b in s.listeners && BusFlow(s, b)
    ensures BusFlow(Forwarded(s, bus), b)
  {
    var m := s.listeners[bus].pending.value;
    OfBusAppend(s.canRx, m, b);
    TailJoins(OfBus(CanPart(s.consumed), b), OfBus(s.canRx, b), m);
  }

  lemma ForwardedFlow(s: State, bus: string)
    requires Flow(s) && Enabled(s, Forward(bus))
    ensures Flow(Forwarded(s, bus))
  {
    forall b | b in s.listeners
      ensures BusFlow(Forwarded(s, bus), b)
    {
      ForwardedBus(s, bus, b);
    }
  }

  lemma AbandonedFlow(s: State, bus: string)
    requires Flow(s) && Enabled(s, Abandon(bus))
    ensures Flow(Abandoned(s, bus))
  {
  }

  lemma HeadMoves(c: seq<DecodeMsg>, q: seq<DecodeMsg>, bus: string)
    requires q != []
    ensures OfBus(c + [q[0]], bus) + OfBus(q[1..], bus) == OfBus(c, bus) + OfBus(q, bus)
  {
    assert q == [q[0]] + q[1..];
    OfBusConcat([q[0]], q[1..], bus);
    OfBusConcat(c, [q[0]], bus);
  }

  lemma TookCanBus(w: Whitelist, s: State, bus: string)
    requires s.canRx != [] && bus in s.listeners && BusFlow(s, bus)
    ensures BusFlow(TookCan(w, s), bus)
  {
    ConsumedAppend(s.consumed, Can(s.canRx[0]));
    HeadMoves(CanPart(s.consumed), s.canRx, bus);
  }

  lemma TookCanFlow(w: Whitelist, s: State)
    requires Flow(s) && s.canRx != []
    ensures Flow(TookCan(w, s))
  {
    ConsumedAppend(s.consumed, Can(s.canRx[0]));
    assert GpsPart(TookCan(w, s).consumed) == GpsPart(s.consumed);
    forall bus | bus in s.listeners
      ensures BusFlow(TookCan(w, s), bus)
    {
      TookCanBus(w, s, bus);
    }
  }

  lemma TookGpsFlow(w: Whitelist, s: State)
    requires Flow(s) && s.gpsRx != []
    ensures Flow(TookGps(w, s))
  {
    var t := TookGps(w, s);
    var g := s.gpsRx[0];
    ConsumedAppend(s.consumed, Gps(g));
    assert CanPart(t.consumed) == CanPart(s.consumed);
    assert GpsPart(s.consumed) + s.gpsRx == (GpsPart(s.consumed) + [g]) + s.gpsRx[1..];
    assert PendingGps(t) == PendingGps(s);
    forall b | b in t.listeners
      ensures BusFlow(t, b)
    {
      assert BusFlow(s, b);
    }
  }

  lemma ForwardedGpsFlow(s: State)
    requires Flow(s) && Enabled(s, ForwardGps)
    ensures Flow(ForwardedGps(s))
  {
    var t := ForwardedGps(s);
    var g := s.gpsPending.value;
    assert GpsPart(s.consumed) + s.gpsRx + [g] == GpsPart(s.consumed) + (s.gpsRx + [g]) + [];
    forall b | b in t.listeners
      ensures BusFlow(t, b)
    {
      assert BusFlow(s, b);
    }
  }

  lemma HungUpFlow(cfg: Buses, s: State, bus: string)
    requires ValidBuses(cfg) && s.listeners.Keys == cfg.Keys && Flow(s) && Enabled(s, Hangup(bus))
    ensures Flow(Next(cfg, s, Hangup(bus)))
  {
    var t := Next(cfg, s, Hangup(bus));
    forall b | b in t.listeners
      ensures BusFlow(t, b)
    {
      assert BusFlow(s, b);
    }
  }

  lemma OtherFlow(cfg: Buses, s: State, e: Event)
    requires ValidBuses(cfg) && s.listeners.Keys == cfg.Keys && Flow(s) && Enabled(s, e)
    requires e.Cancel? || e.GpsReport? || e.Tick? || e.StopPublisher?
    ensures Flow(Next(cfg, s, e))
  {
    var t := Next(cfg, s, e);
    assert t.listeners == s.listeners && t.canRx == s.canRx && t.consumed == s.consumed;
    forall b | b in t.listeners
      ensures BusFlow(t, b)
    {
      assert BusFlow(s, b);
    }
  }

  lemma StepFlow(cfg: Buses, s: State, e: Event)
    requires ValidBuses(cfg) && s.listeners.Keys == cfg.Keys && Flow(s) && Enabled(s, e)
    ensures Flow(Next(cfg, s, e))
  {
    match e
    case Receive(bus, frame) =>
      var r := Received(bus, cfg[bus].db, frame);
      if r.Some? {
        DecodedFlow(s, bus, r.value);
      }
    case Forward(bus) => ForwardedFlow(s, bus);
    case Abandon(bus) => AbandonedFlow(s, bus);
    case Hangup(bus) => HungUpFlow(cfg, s, bus);
    case ForwardGps => ForwardedGpsFlow(s);
    case TakeGps => TookGpsFlow(WhitelistOf(cfg), s);
    case TakeCan => TookCanFlow(WhitelistOf(cfg), s);
    case _ => OtherFlow(cfg, s, e);
  }

  /** The message is what the handler of its bus makes of some frame. */
  ghost predicate Genuine(cfg: Buses, m: DecodeMsg)
    requires ValidBuses(cfg)
  {
    m.busID in cfg && exists f :: Received(m.busID, cfg[m.busID].db, f) == Some(m)
  }

  /** Every message on its way or consumed is genuine, and the latch is what the consumed
      inputs make of it. */
  ghost predicate Sourced(cfg: Buses, s: State)
    requires ValidBuses(cfg)
  {
    && (forall bus :: bus in s.listeners && s.listeners[bus].pending.Some? ==>
          Genuine(cfg, s.listeners[bus].pending.value))
    && (forall m :: m in s.canRx ==> Genuine(cfg, m))
    && (forall m :: m in CanPart(s.consumed) ==> Genuine(cfg, m))
    && s.latch == After(WhitelistOf(cfg), s.consumed)
  }

  lemma DecodedSourced(cfg: Buses, s: State, bus: string, m: DecodeMsg)
    requires ValidBuses(cfg) && Sourced(cfg, s) && bus in s.listeners && Genuine(cfg, m)
    ensures Sourced(cfg, Decoded(s, bus, m))
  {
  }

  lemma TookCanSourced(cfg: Buses, s: State)
    requires ValidBuses(cfg) && Sourced(cfg, s) && s.canRx != []
    ensures Sourced(cfg, TookCan(WhitelistOf(cfg), s))
  {
  }

  lemma TookGpsSourced(cfg: Buses, s: State)
    requires ValidBuses(cfg) && Sourced(cfg, s) && s.gpsRx != []
    ensures Sourced(cfg, TookGps(WhitelistOf(cfg), s))
  {
  }

  lemma ReceivedSourced(cfg: Buses, s: State, bus: string, frame: Frame)
    requires ValidBuses(cfg) && s.listeners.Keys == cfg.Keys && Sourced(cfg, s) && Enabled(s, Receive(bus, frame))
    ensures Sourced(cfg, Next(cfg, s, Receive(bus, frame)))
  {
    var r := Received(bus, cfg[bus].db, frame);
    if r.Some? {
      assert Genuine(cfg, r.value);
      DecodedSourced(cfg, s, bus, r.value);
    }
  }

  lemma StepSourced(cfg: Buses, s: State, e: Event)
    requires ValidBuses(cfg) && s.listeners.Keys == cfg.Keys && Sourced(cfg, s) && Enabled(s, e)
    ensures Sourced(cfg, Next(cfg, s, e))
  {
    match e
    case Receive(bus, frame) => ReceivedSourced(cfg, s, bus, frame);
    case TakeGps => TookGpsSourced(cfg, s);
    case TakeCan => TookCanSourced(cfg, s);
    case _ =>
  }

  ghost predicate Inv(cfg: Buses, s: State)
    requires ValidBuses(cfg)
  {
    Flow(s) && Sourced(cfg, s)
  }

  /** Every reachable state satisfies the invariant. */
  lemma {:induction false} RunKeeps(cfg: Buses, es: seq<Event>)
    requires ValidBuses(cfg) && Exec(cfg, es).Some?
    ensures Inv(cfg, Exec(cfg, es).value)
  {
    if es != [] {
      RunKeeps(cfg, es[..|es| - 1]);
      var s := Exec(cfg, es[..|es| - 1]).value;
      StepFlow(cfg, s, es[|es| - 1]);
      StepSourced(cfg, s, es[|es| - 1]);
    }
  }

  // ---------------------------------------------------------------- theorems about runs

  /** The non-empty decodes of the frames a run receives on `bus`. */
  function Decodes(cfg: Buses, es: seq<Event>, bus: string): seq<DecodeMsg>
    requires ValidBuses(cfg) && bus in cfg
  {
    if es == [] then []
    else Decodes(cfg, es[..|es| - 1], bus) + DecodeOf(cfg, es[|es| - 1], bus)
  }

  function DecodeOf(cfg: Buses, e: Event, bus: string): seq<DecodeMsg>
    requires ValidBuses(cfg) && bus in cfg
  {
    if e.Receive? && e.bus == bus then
      match Received(bus, cfg[bus].db, e.frame)
      case None => []
      case Some(m) => [m]
    else []
  }

  /** The records a run's GPS receiver produces. */
  function GpsReports(es: seq<Event>): seq<GpsData> {
    if es == [] then []
    else GpsReports(es[..|es| - 1]) + if es[|es| - 1].GpsReport? then [es[|es| - 1].data] else []
  }

  lemma StepHistories(cfg: Buses, s: State, e: Event, bus: string)
    requires ValidBuses(cfg) && s.listeners.Keys == cfg.Keys && Enabled(s, e) && bus in cfg
    ensures Next(cfg, s, e).listeners[bus].decoded == s.listeners[bus].decoded + DecodeOf(cfg, e, bus)
  {
  }

  lemma {:induction false} Histories(cfg: Buses, es: seq<Event>, bus: string)
    requires ValidBuses(cfg) && Exec(cfg, es).Some? && bus in cfg
    ensures Exec(cfg, es).value.listeners[bus].decoded == Decodes(cfg, es, bus)
  {
    if es != [] {
      var init := es[..|es| - 1];
      Histories(cfg, init, bus);
      StepHistories(cfg, Exec(cfg, init).value, es[|es| - 1], bus);
    }
  }

  lemma StepGpsHistory(cfg: Buses, s: State, e: Event)
    requires ValidBuses(cfg) && s.listeners.Keys == cfg.Keys && Enabled(s, e)
    ensures Next(cfg, s, e).gpsProduced == s.gpsProduced + if e.GpsReport? then [e.data] else []
  {
  }

  lemma {:induction false} GpsHistory(cfg: Buses, es: seq<Event>)
    requires ValidBuses(cfg) && Exec(cfg, es).Some?
    ensures Exec(cfg, es).value.gpsProduced == GpsReports(es)
  {
    if es != [] {
      var init := es[..|es| - 1];
      GpsHistory(cfg, init);
      StepGpsHistory(cfg, Exec(cfg, init).value, es[|es| - 1]);
    }
  }

  /** What the frames received on a bus decode to is consumed, queued or pending, with no
      loss, duplication or reordering, and the shared queue stays within its capacity; after
      cancellation what was consumed and queued is still a prefix of it, and at most one
      message short. No GPS record is ever lost. */
  lemma UplinkConservation(cfg: Buses, es: seq<Event>, bus: string)
    requires ValidBuses(cfg) && Exec(cfg, es).Some? && bus in cfg
    ensures var s := Exec(cfg, es).value;
            var arrived := OfBus(CanPart(s.consumed), bus) + OfBus(s.canRx, bus);
            && |s.canRx| <= 200 && |s.gpsRx| <= 100
            && arrived <= Decodes(cfg, es, bus)
            && |Decodes(cfg, es, bus)| <= |arrived| + 1
            && (s.cancelled || Decodes(cfg, es, bus) == arrived + PendingOf(s.listeners[bus]))
            && GpsReports(es) == GpsPart(s.consumed) + s.gpsRx + PendingGps(s)
  {
    RunKeeps(cfg, es);
    Histories(cfg, es, bus);
    GpsHistory(cfg, es);
    ArrivedInOrder(Exec(cfg, es).value, bus);
  }

  lemma ArrivedInOrder(s: State, bus: string)
    requires Flow(s) && bus in s.listeners
    ensures var arrived := OfBus(CanPart(s.consumed), bus) + OfBus(s.canRx, bus);
            && arrived <= s.listeners[bus].decoded
            && |s.listeners[bus].decoded| <= |arrived| + 1
            && (s.cancelled || s.listeners[bus].decoded == arrived + PendingOf(s.listeners[bus]))
  {
  }

  /** The input is a message of a configured bus, with an identifier configured for latching
      there, that carries the signal. */
  ghost predicate Carries(cfg: Buses, x: Input, bus: string, name: string) {
    && x.Can? && x.msg.busID == bus && bus in cfg && x.msg.frameID in cfg[bus].latchFrameIDs
    && exists j :: 0 <= j < |x.msg.signals| && x.msg.signals[j].name == name
  }

  /** Consumed input `i` is the last that carries the signal, and its entry `j` the last one
      of that name. */
  ghost predicate LastCarried(cfg: Buses, xs: seq<Input>, bus: string, name: string, i: int, j: int) {
    && 0 <= i < |xs| && Carries(cfg, xs[i], bus, name)
    && (forall n :: i < n < |xs| ==> !Carries(cfg, xs[n], bus, name))
    && 0 <= j < |xs[i].msg.signals| && xs[i].msg.signals[j].name == name
    && forall n :: j < n < |xs[i].msg.signals| ==> xs[i].msg.signals[n].name != name
  }

  lemma CarriesIsWrites(cfg: Buses, x: Input, bus: string, name: string)
    ensures Carries(cfg, x, bus, name) <==> Writes(WhitelistOf(cfg), x, bus, name)
  {
    if x.Can? {
      LatestIsLast(x.msg.signals, name);
    }
  }

  lemma CarriedLast(cfg: Buses, xs: seq<Input>, bus: string, name: string, i: int, j: int)
    requires LastCarried(cfg, xs, bus, name, i, j)
    ensures LastWrite(WhitelistOf(cfg), xs, bus, name) == i
    ensures name in Latest(xs[i].msg.signals) && Latest(xs[i].msg.signals)[name] == xs[i].msg.signals[j].value
  {
    forall n | i <= n < |xs|
      ensures Carries(cfg, xs[n], bus, name) <==> Writes(WhitelistOf(cfg), xs[n], bus, name)
    {
      CarriesIsWrites(cfg, xs[n], bus, name);
    }
    LatestAt(xs[i].msg.signals, j);
  }

  lemma LatchOfConsumed(cfg: Buses, xs: seq<Input>, bus: string, name: string)
    ensures var v := BusValues(After(WhitelistOf(cfg), xs), bus);
            && (name in v <==> exists i :: 0 <= i < |xs| && Carries(cfg, xs[i], bus, name))
            && forall i, j :: LastCarried(cfg, xs, bus, name, i, j) ==>
                 name in v && v[name] == xs[i].msg.signals[j].value
  {
    LastWriteWins(WhitelistOf(cfg), xs, bus, name);
    forall i | 0 <= i < |xs|
      ensures Carries(cfg, xs[i], bus, name) <==> Writes(WhitelistOf(cfg), xs[i], bus, name)
    {
      CarriesIsWrites(cfg, xs[i], bus, name);
    }
    forall i, j | LastCarried(cfg, xs, bus, name, i, j)
      ensures LastWrite(WhitelistOf(cfg), xs, bus, name) == i
      ensures Latest(xs[i].msg.signals)[name] == xs[i].msg.signals[j].value
    {
      CarriedLast(cfg, xs, bus, name, i, j);
    }
  }

  /** In every reachable state a name is latched on a bus if and only if some consumed message
      of that bus with a configured identifier carried it, and then with the value of the
      last such message. */
  lemma LatchRefinement(cfg: Buses, es: seq<Event>, bus: string, name: string)
    requires ValidBuses(cfg) && Exec(cfg, es).Some?
    ensures var s := Exec(cfg, es).value;
            && (bus in s.latch.vehicle && name in s.latch.vehicle[bus] <==>
                exists i :: 0 <= i < |s.consumed| && Carries(cfg, s.consumed[i], bus, name))
            && forall i, j :: LastCarried(cfg, s.consumed, bus, name, i, j) ==>
                 bus in s.latch.vehicle && name in s.latch.vehicle[bus]
                 && s.latch.vehicle[bus][name] == s.consumed[i].msg.signals[j].value
  {
    RunKeeps(cfg, es);
    LatchOfConsumed(cfg, Exec(cfg, es).value.consumed, bus, name);
  }

  lemma LocationOfConsumed(w: Whitelist, xs: seq<Input>, n: nat)
    requires n <= |xs| && (n < |xs| ==> xs[n].Gps?)
    requires forall m :: 0 <= m < |xs| && (n < m || n == |xs|) ==> !xs[m].Gps?
    ensures After(w, xs).gpsData == if n < |xs| then Some(xs[n].data) else None
  {
    LastGpsWins(w, xs);
  }

  /** The location is that of consumed record `n`, the last one, or absent without one. */
  lemma LocationRefinement(cfg: Buses, es: seq<Event>, n: nat)
    requires ValidBuses(cfg) && Exec(cfg, es).Some?
    requires var xs := Exec(cfg, es).value.consumed;
             && n <= |xs| && (n < |xs| ==> xs[n].Gps?)
             && forall m :: 0 <= m < |xs| && (n < m || n == |xs|) ==> !xs[m].Gps?
    ensures var s := Exec(cfg, es).value;
            && s.latch.gpsData == (if n < |s.consumed| then Some(s.consumed[n].data) else None)
            && s.latch.gpsData == LastOf(GpsPart(s.consumed))
  {
    RunKeeps(cfg, es);
    LocationOfConsumed(WhitelistOf(cfg), Exec(cfg, es).value.consumed, n);
    GpsIsIndependent(WhitelistOf(cfg), Exec(cfg, es).value.consumed);
  }

  /** Nothing is on its way: queues empty, no send pending, none given up. */
  predicate Drained(s: State) {
    && s.canRx == [] && s.gpsRx == [] && s.gpsPending.None?
    && forall bus :: bus in s.listeners ==> s.listeners[bus].pending.None? && s.listeners[bus].dropped == []
  }

  lemma {:induction false} UnknownBusIsSilent(cfg: Buses, ms: seq<DecodeMsg>, bus: string)
    requires ValidBuses(cfg) && bus !in cfg && forall m :: m in ms ==> Genuine(cfg, m)
    ensures OfBus(ms, bus) == []
  {
    if ms != [] {
      assert ms[|ms| - 1] in ms;
      UnknownBusIsSilent(cfg, ms[..|ms| - 1], bus);
    }
  }

  lemma DrainedBus(cfg: Buses, s: State, bus: string)
    requires ValidBuses(cfg) && s.listeners.Keys == cfg.Keys && Inv(cfg, s) && Drained(s)
    ensures OfBus(CanPart(s.consumed), bus) == if bus in cfg then s.listeners[bus].decoded else []
  {
    if bus in cfg {
      assert BusFlow(s, bus);
    } else {
      UnknownBusIsSilent(cfg, CanPart(s.consumed), bus);
    }
  }

  lemma SameHistoriesSameLatch(cfg: Buses, s: State, t: State)
    requires ValidBuses(cfg) && s.listeners.Keys == cfg.Keys == t.listeners.Keys
    requires Inv(cfg, s) && Inv(cfg, t) && Drained(s) && Drained(t)
    requires forall bus :: bus in cfg ==> s.listeners[bus].decoded == t.listeners[bus].decoded
    requires s.gpsProduced == t.gpsProduced
    ensures s.latch == t.latch
  {
    forall bus
      ensures OfBus(CanPart(s.consumed), bus) == OfBus(CanPart(t.consumed), bus)
    {
      DrainedBus(cfg, s, bus);
      DrainedBus(cfg, t, bus);
    }
    assert s.gpsProduced == GpsPart(s.consumed) && t.gpsProduced == GpsPart(t.consumed);
    Confluence(WhitelistOf(cfg), s.consumed, t.consumed);
  }

  /** Scheduling does not matter: two drained runs that receive frames with the same
      decodes on each bus and the same GPS records end with the same latch. */
  lemma SchedulingIrrelevant(cfg: Buses, es: seq<Event>, fs: seq<Event>)
    requires ValidBuses(cfg) && Exec(cfg, es).Some? && Exec(cfg, fs).Some?
    requires Drained(Exec(cfg, es).value) && Drained(Exec(cfg, fs).value)
    requires forall bus :: bus in cfg ==> Decodes(cfg, es, bus) == Decodes(cfg, fs, bus)
    requires GpsReports(es) == GpsReports(fs)
    ensures Exec(cfg, es).value.latch == Exec(cfg, fs).value.latch
  {
    var s, t := Exec(cfg, es).value, Exec(cfg, fs).value;
    RunKeeps(cfg, es);
    RunKeeps(cfg, fs);
    GpsHistory(cfg, es);
    GpsHistory(cfg, fs);
    forall bus | bus in cfg
      ensures s.listeners[bus].decoded == t.listeners[bus].decoded
    {
      Histories(cfg, es, bus);
      Histories(cfg, fs, bus);
    }
    SameHistoriesSameLatch(cfg, s, t);
  }

  // ---------------------------------------------------------------- nothing gets stuck

  lemma ExecMore(cfg: Buses, es: seq<Event>, e: Event)
    requires ValidBuses(cfg) && Exec(cfg, es).Some?
    ensures Exec(cfg, es + [e]).Some? <==> Enabled(Exec(cfg, es).value, e)
  {
    assert (es + [e])[..|es|] == es;
  }

  /** What holds a listener up: it may receive any frame when it has nothing to send, until
      it stops; its send waits only while the queue is full. */
  lemma BlockedExactly(cfg: Buses, es: seq<Event>, bus: string, f: Frame)
    requires ValidBuses(cfg) && Exec(cfg, es).Some? && bus in cfg
    ensures var l := Exec(cfg, es).value.listeners[bus];
            && (Exec(cfg, es + [Receive(bus, f)]).Some? <==> l.pending.None? && !l.stopped)
            && (Exec(cfg, es + [Forward(bus)]).Some? <==> l.pending.Some? && |Exec(cfg, es).value.canRx| != 200)
  {
    RunKeeps(cfg, es);
    ExecMore(cfg, es, Receive(bus, f));
    ExecMore(cfg, es, Forward(bus));
  }

  /** The same for GPS records. */
  lemma GpsBlockedExactly(cfg: Buses, es: seq<Event>, g: GpsData)
    requires ValidBuses(cfg) && Exec(cfg, es).Some?
    ensures var s := Exec(cfg, es).value;
            && (Exec(cfg, es + [GpsReport(g)]).Some? <==> s.gpsPending.None?)
            && (Exec(cfg, es + [ForwardGps]).Some? <==> s.gpsPending.Some? && |s.gpsRx| != 100)
  {
    RunKeeps(cfg, es);
    ExecMore(cfg, es, GpsReport(g));
    ExecMore(cfg, es, ForwardGps);
  }

  /** The steps that move messages on: none receives, cancels or gives up. */
  predicate MovesOn(e: Event) {
    e.Forward? || e.ForwardGps? || e.TakeCan? || e.TakeGps?
  }

  function Waiting(s: State): set<string> {
    set bus | bus in s.listeners && s.listeners[bus].pending.Some?
  }

  /** How many such steps are left. */
  function StepsLeft(s: State): nat {
    2 * |Waiting(s)| + |s.canRx| + 2 * |PendingGps(s)| + |s.gpsRx|
  }

  predicate Idle(s: State) {
    s.canRx == [] && s.gpsRx == [] && s.gpsPending.None? && Waiting(s) == {}
  }

  /** Nothing new was received, produced or cancelled. */
  ghost predicate SameInputs(s: State, t: State) {
    && s.listeners.Keys == t.listeners.Keys
    && (forall bus :: bus in s.listeners ==> s.listeners[bus].decoded == t.listeners[bus].decoded)
    && s.gpsProduced == t.gpsProduced
    && s.cancelled == t.cancelled && s.publisherStopped == t.publisherStopped
  }

  /** As long as something is on its way, some such step is enabled. */
  lemma SomeStep(cfg: Buses, s: State) returns (e: Event)
    requires ValidBuses(cfg) && s.listeners.Keys == cfg.Keys
    requires !s.publisherStopped && !Idle(s)
    ensures MovesOn(e) && Enabled(s, e)
    ensures StepsLeft(Next(cfg, s, e)) < StepsLeft(s)
    ensures SameInputs(s, Next(cfg, s, e))
  {
    if s.canRx != [] {
      e := TakeCan;
      assert Waiting(Next(cfg, s, e)) == Waiting(s);
    } else if s.gpsRx != [] {
      e := TakeGps;
      assert Waiting(Next(cfg, s, e)) == Waiting(s);
    } else if s.gpsPending.Some? {
      e := ForwardGps;
      assert Waiting(Next(cfg, s, e)) == Waiting(s);
    } else {
      var bus :| bus in Waiting(s);
      e := Forward(bus);
      assert Waiting(Next(cfg, s, e)) == Waiting(s) - {bus};
    }
  }

  lemma MoveOn(cfg: Buses, es: seq<Event>) returns (e: Event)
    requires ValidBuses(cfg) && Exec(cfg, es).Some?
    requires !Exec(cfg, es).value.publisherStopped && !Idle(Exec(cfg, es).value)
    ensures MovesOn(e) && Exec(cfg, es + [e]).Some?
    ensures var s, t := Exec(cfg, es).value, Exec(cfg, es + [e]).value;
            StepsLeft(t) < StepsLeft(s) && SameInputs(s, t)
  {
    e := SomeStep(cfg, Exec(cfg, es).value);
    assert (es + [e])[..|es|] == es;
  }

  lemma {:induction false} RunsIdle(cfg: Buses, es: seq<Event>) returns (more: seq<Event>)
    requires ValidBuses(cfg) && Exec(cfg, es).Some? && !Exec(cfg, es).value.publisherStopped
    ensures forall e :: e in more ==> MovesOn(e)
    ensures Exec(cfg, es + more).Some? && Idle(Exec(cfg, es + more).value)
    ensures SameInputs(Exec(cfg, es).value, Exec(cfg, es + more).value)
    decreases StepsLeft(Exec(cfg, es).value)
  {
    if Idle(Exec(cfg, es).value) {
      more := [];
      assert es + more == es;
    } else {
      var e := MoveOn(cfg, es);
      var rest := RunsIdle(cfg, es + [e]);
      more := [e] + rest;
      assert es + more == es + [e] + rest;
    }
  }

  /** From every reachable state before cancellation the publisher can catch up, by sends
      and receipts alone: every decoded message and every GPS record gets consumed, in order
      on each bus, whatever blocked until then. */
  lemma NothingIsStuck(cfg: Buses, es: seq<Event>) returns (more: seq<Event>)
    requires ValidBuses(cfg) && Exec(cfg, es).Some?
    requires !Exec(cfg, es).value.publisherStopped && !Exec(cfg, es).value.cancelled
    ensures forall e :: e in more ==> MovesOn(e)
    ensures Exec(cfg, es + more).Some?
    ensures forall bus :: bus in cfg ==>
              OfBus(CanPart(Exec(cfg, es + more).value.consumed), bus) == Decodes(cfg, es, bus)
    ensures GpsPart(Exec(cfg, es + more).value.consumed) == GpsReports(es)
  {
    more := RunsIdle(cfg, es);
    var t := Exec(cfg, es + more).value;
    RunKeeps(cfg, es + more);
    forall bus | bus in cfg
      ensures OfBus(CanPart(t.consumed), bus) == Decodes(cfg, es, bus)
    {
      Histories(cfg, es, bus);
      ArrivedInOrder(t, bus);
      assert bus !in Waiting(t);
    }
    GpsHistory(cfg, es);
  }

  /** The signal names DBC messages with latched identifiers define on a bus. */
  function LatchableNames(cfg: Buses, bus: string): set<string>
    requires bus in cfg
  {
    if cfg[bus].db.None? then {}
    else
      var msgs := cfg[bus].db.value.msgs;
      set id, s | id in cfg[bus].latchFrameIDs && id in msgs && s in msgs[id].signals :: s.name
  }

  lemma GenuineNames(cfg: Buses, m: DecodeMsg, name: string)
    requires ValidBuses(cfg) && Genuine(cfg, m) && Passes(WhitelistOf(cfg), m)
    requires name in Latest(m.signals)
    ensures name in LatchableNames(cfg, m.busID)
  {
    var db := cfg[m.busID].db;
    var f :| Received(m.busID, db, f) == Some(m);
    var defs := db.value.msgs[f.id].signals;
    ReportedNames(defs, SwitchValue(defs, f.data), f.data, name);
    var s :| s in defs && s.name == name;
    assert m.frameID in cfg[m.busID].latchFrameIDs && s in db.value.msgs[m.frameID].signals;
  }

  lemma {:induction false} CanPartHas(xs: seq<Input>, i: nat)
    requires i < |xs| && xs[i].Can?
    ensures xs[i].msg in CanPart(xs)
  {
    if i < |xs| - 1 {
      CanPartHas(xs[..|xs| - 1], i);
    }
  }

  lemma {:induction false} LatchedBusPasses(w: Whitelist, xs: seq<Input>, bus: string)
    requires bus in After(w, xs).vehicle
    ensures bus in w
  {
    var init := xs[..|xs| - 1];
    if bus in After(w, init).vehicle {
      LatchedBusPasses(w, init, bus);
    }
  }

  lemma SubsetSize(a: set<string>, b: set<string>)
    requires a <= b
    ensures |a| <= |b|
  {
    assert b == a + (b - a);
  }

  /** The latch never outgrows the configuration: its buses are configured ones, and on
      each of them only names of whitelisted DBC messages are latched. */
  lemma BoundedLatch(cfg: Buses, es: seq<Event>)
    requires ValidBuses(cfg) && Exec(cfg, es).Some?
    ensures var v := Exec(cfg, es).value.latch.vehicle;
            && v.Keys <= cfg.Keys
            && forall bus :: bus in v ==>
                 v[bus].Keys <= LatchableNames(cfg, bus) && |v[bus]| <= |LatchableNames(cfg, bus)|
  {
    RunKeeps(cfg, es);
    var s := Exec(cfg, es).value;
    var w := WhitelistOf(cfg);
    forall bus | bus in s.latch.vehicle
      ensures bus in cfg
      ensures s.latch.vehicle[bus].Keys <= LatchableNames(cfg, bus)
      ensures |s.latch.vehicle[bus]| <= |LatchableNames(cfg, bus)|
    {
      LatchedBusPasses(w, s.consumed, bus);
      forall name | name in s.latch.vehicle[bus]
        ensures name in LatchableNames(cfg, bus)
      {
        LastWriteWins(w, s.consumed, bus, name);
        var i :| 0 <= i < |s.consumed| && Writes(w, s.consumed[i], bus, name);
        CanPartHas(s.consumed, i);
        GenuineNames(cfg, s.consumed[i].msg, name);
      }
      SubsetSize(s.latch.vehicle[bus].Keys, LatchableNames(cfg, bus));
    }
  }

  /** A latched signal stays latched for the rest of the run. */
  lemma {:induction false} KeysNeverDisappear(cfg: Buses, es: seq<Event>, n: nat, bus: string)
    requires ValidBuses(cfg) && n <= |es| && Exec(cfg, es).Some?
    ensures Exec(cfg, es[..n]).Some?
    ensures BusValues(Exec(cfg, es[..n]).value.latch, bus).Keys <= BusValues(Exec(cfg, es).value.latch, bus).Keys
  {
    if n == |es| {
      assert es[..n] == es;
    } else {
      var init := es[..|es| - 1];
      assert init[..n] == es[..n];
      KeysNeverDisappear(cfg, init, n, bus);
      StepKeepsKeys(cfg, Exec(cfg, init).value, es[|es| - 1], bus);
    }
  }

  lemma StepKeepsKeys(cfg: Buses, s: State, e: Event, bus: string)
    requires ValidBuses(cfg) && s.listeners.Keys == cfg.Keys && Enabled(s, e)
    ensures BusValues(s.latch, bus).Keys <= BusValues(Next(cfg, s, e).latch, bus).Keys
  {
  }
}
