/** From a decoded control payload to a CAN command. The signal table of the payload is a
    Go map: its iteration order is arbitrary. */
module CommandParser {
  import opened Results
  import opened FrameIds
  import opened Codec

  /** The dynamic type of a payload value: what JSON gives, or another Go type. */
  datatype Value = BoolValue(b: bool) | FloatValue(r: real) | IntegerValue(i: int) | OtherValue

  datatype Payload = Payload(busID: string, frameID: string, signals: map<string, Value>)

  datatype ParseError =
    | BusIdRequired
    | FrameIdRequired
    | BadFrameId(reason: FrameIdError)
    | UnsupportedSignal(key: string)

  function SignalToFloat64(v: Value): Option<real> {
    match v
    case BoolValue(b) => Some(if b then 1.0 else 0.0)
    case FloatValue(r) => Some(r)
    case IntegerValue(i) => Some(i as real)
    case OtherValue => None
  }

  predicate AllConvertible(signals: map<string, Value>) {
    forall k :: k in signals ==> SignalToFloat64(signals[k]).Some?
  }

  /** The command's values by name, without any order. */
  function Converted(signals: map<string, Value>): Values
    requires AllConvertible(signals)
  {
    map k | k in signals :: SignalToFloat64(signals[k]).value
  }

  /** Why a payload is refused before its signals are looked at. */
  function HeaderError(p: Payload): Option<ParseError> {
    if TrimSpace(p.busID) == "" then Some(BusIdRequired)
    else if TrimSpace(p.frameID) == "" then Some(FrameIdRequired)
    else match ParsedFrameId(p.frameID)
      case Ok(_) => None
      case Err(e) => Some(BadFrameId(e))
  }

  predicate Accepted(p: Payload) {
    HeaderError(p).None? && AllConvertible(p.signals)
  }

  /** `sigs` lists the entries of `signals`, each once, in some order. */
  ghost predicate Enumerates(sigs: seq<Signal>, signals: map<string, Value>) {
    && (forall i, j :: 0 <= i < j < |sigs| ==> sigs[i].name != sigs[j].name)
    && (forall i :: 0 <= i < |sigs| ==>
          sigs[i].name in signals && SignalToFloat64(signals[sigs[i].name]) == Some(sigs[i].value))
    && (forall k :: k in signals ==> exists i :: 0 <= i < |sigs| && sigs[i].name == k)
  }

  /** `msg` is a command some iteration order makes of payload `p`. */
  ghost predicate CommandOf(p: Payload, msg: DecodeMsg) {
    && HeaderError(p).None?
    && msg.busID == p.busID
    && ParsedFrameId(p.frameID) == Ok(msg.frameID)
    && Enumerates(msg.signals, p.signals)
  }

  method ParseControlCommand(p: Payload) returns (r: Result<DecodeMsg, ParseError>)
    ensures r.Ok? <==> Accepted(p)
    ensures r.Ok? ==> CommandOf(p, r.value)
    ensures r.Err? && HeaderError(p).Some? ==> r.error == HeaderError(p).value
    ensures r.Err? && HeaderError(p).None? ==>
              r.error.UnsupportedSignal? && r.error.key in p.signals
              && SignalToFloat64(p.signals[r.error.key]).None?
    ensures r == Err(BusIdRequired) <==> AllSpace(p.busID)
    ensures r == Err(FrameIdRequired) <==> !AllSpace(p.busID) && AllSpace(p.frameID)
    ensures r == Err(BadFrameId(InvalidFrameId)) <==>
            !AllSpace(p.busID) && !AllSpace(p.frameID) && ParsedFrameId(p.frameID).Err?
    ensures r.Ok? <==>
            && !AllSpace(p.busID) && !AllSpace(p.frameID) && ParsedFrameId(p.frameID).Ok?
            && forall k :: k in p.signals ==> !p.signals[k].OtherValue?
    ensures r.Err? && r.error.UnsupportedSignal? ==> r.error.key in p.signals && p.signals[r.error.key].OtherValue?
  {
    BlankTrims(p.busID);
    BlankTrims(p.frameID);
    if TrimSpace(p.busID) == "" {
      return Err(BusIdRequired);
    }
    if TrimSpace(p.frameID) == "" {
      return Err(FrameIdRequired);
    }
    var frameID := ParseFrameId(p.frameID);
    if frameID.Err? {
      return Err(BadFrameId(frameID.error));
    }
    var signals: seq<Signal> := [];
    var rest := p.signals.Keys;
    while rest != {}
      invariant rest <= p.signals.Keys
      invariant forall i :: 0 <= i < |signals| ==> signals[i].name !in rest
      invariant Enumerates(signals, map k | k in p.signals && k !in rest :: p.signals[k])
      decreases rest
    {
      var key :| key in rest;
      var converted := SignalToFloat64(p.signals[key]);
      if converted.None? {
        return Err(UnsupportedSignal(key));
      }
      ghost var before := signals;
      ghost var seen := map k | k in p.signals && k !in rest :: p.signals[k];
      signals := signals + [Signal(key, converted.value, "")];
      rest := rest - {key};
      ExtendEnumeration(before, seen, key, p.signals[key], converted.value);
      assert (map k | k in p.signals && k !in rest :: p.signals[k]) == seen[key := p.signals[key]];
    }
    assert (map k | k in p.signals && k !in rest :: p.signals[k]) == p.signals;
    assert AllConvertible(p.signals);
    return Ok(DecodeMsg(p.busID, frameID.value, signals));
  }

  lemma ExtendEnumeration(sigs: seq<Signal>, seen: map<string, Value>, key: string, v: Value, x: real)
    requires Enumerates(sigs, seen) && key !in seen && SignalToFloat64(v) == Some(x)
    ensures Enumerates(sigs + [Signal(key, x, "")], seen[key := v])
  {
    var more := sigs + [Signal(key, x, "")];
    var after := seen[key := v];
    forall k | k in after
      ensures exists i :: 0 <= i < |more| && more[i].name == k
    {
      if k == key {
        assert more[|sigs|].name == k;
      } else {
        var i :| 0 <= i < |sigs| && sigs[i].name == k;
        assert more[i].name == k;
      }
    }
  }

  // ---------------------------------------------------------------- what a command says

  /** Exactly which payloads are commands: bus and identifier not blank, the identifier a
      spelling, and no value of another type than the accepted ones. */
  lemma AcceptedExactly(p: Payload)
    ensures Accepted(p) <==>
            && !AllSpace(p.busID) && !AllSpace(p.frameID) && ParsedFrameId(p.frameID).Ok?
            && forall k :: k in p.signals ==> !p.signals[k].OtherValue?
  {
    BlankTrims(p.busID);
    BlankTrims(p.frameID);
  }

  /** What a command says about key `k` of its payload: it has one entry under that name,
      and its value is the payload's, with 1 for true and 0 for false. It has no others. */
  lemma CommandMeans(p: Payload, msg: DecodeMsg, k: string) returns (i: nat)
    requires CommandOf(p, msg) && k in p.signals
    ensures msg.busID == p.busID && ParsedFrameId(p.frameID) == Ok(msg.frameID)
    ensures i < |msg.signals| && msg.signals[i].name == k
    ensures forall j :: 0 <= j < |msg.signals| && msg.signals[j].name == k ==> j == i
    ensures match p.signals[k]
            case BoolValue(b) => msg.signals[i].value == (if b then 1.0 else 0.0)
            case FloatValue(r) => msg.signals[i].value == r
            case IntegerValue(n) => msg.signals[i].value == n as real
            case OtherValue => false
    ensures forall j :: 0 <= j < |msg.signals| ==> msg.signals[j].name in p.signals
  {
    i :| 0 <= i < |msg.signals| && msg.signals[i].name == k;
  }

  // ---------------------------------------------------------------- order independence

  /** However the map was iterated, the command's values are those of the table. */
  lemma EnumerationValues(sigs: seq<Signal>, signals: map<string, Value>)
    requires Enumerates(sigs, signals)
    ensures AllConvertible(signals) && Latest(sigs) == Converted(signals)
  {
    forall k | k in signals
      ensures SignalToFloat64(signals[k]).Some?
      ensures k in Latest(sigs) && Latest(sigs)[k] == SignalToFloat64(signals[k]).value
    {
      var i :| 0 <= i < |sigs| && sigs[i].name == k;
      LatestIsLast(sigs, k);
    }
    forall k | k in Latest(sigs)
      ensures k in signals
    {
      LatestIsLast(sigs, k);
    }
  }

  /** Iteration order decides neither acceptance nor the frame, even when the definitions
      of the message overlap. */
  lemma IterationOrderIrrelevant(db: Option<DbcStore>, p: Payload, m1: DecodeMsg, m2: DecodeMsg)
    requires UsableStore(db) && CommandOf(p, m1) && CommandOf(p, m2)
    ensures Accepted(p)
    ensures EncodeFrame(db, m1) == EncodeFrame(db, m2)
    ensures EncodeFrame(db, m1).Ok? ==>
              EncodeFrame(db, m1).value.data == Encode(db.value.msgs[m1.frameID].signals, Converted(p.signals))
  {
    EnumerationValues(m1.signals, p.signals);
    EnumerationValues(m2.signals, p.signals);
  }
}
