/** From gamepad state to the CAN frame and back, with the shipped definition of GamepadMsg. */
module EndToEnd {
  import opened Results
  import opened Bits
  import opened Layout
  import opened Physical
  import opened Codec
  import opened CanHandler
  import opened RoundTrip
  import opened Reencode
  import opened Aggregation
  import opened Latching
  import opened DbcFile
  import opened FrameIds
  import opened CommandParser
  import opened Gamepad

  const GAMEPAD_ID := 528

  /** The k-th signal of GamepadMsg: four signed bytes, then sixteen single bits. */
  function GamepadSignal(k: nat): SignalEntry {
    if k < 4 then SignalEntry(GamepadName(k), 8 * k, 8, false, true, false, false, 0, 1.0, 0.0, -128.0, 127.0, "")
    else SignalEntry(GamepadName(k), 28 + k, 1, false, false, false, false, 0, 1.0, 0.0, 0.0, 1.0, "")
  }

  function GamepadFile(): seq<Def> {
    [ VersionDef("edgeplant-gamepad-all-inputs"),
      MessageDef(GAMEPAD_ID, "GamepadMsg", 8, "ECU", seq(20, k requires 0 <= k < 20 => GamepadSignal(k))) ]
  }

  /** The definitions a store populated from the file holds for the frame. */
  function GamepadDefs(): (defs: seq<SignalDef>)
    ensures |defs| == 20 && forall k :: 0 <= k < 20 ==> defs[k] == SignalOf(GamepadSignal(k))
  {
    MessageOf(GamepadFile()[1]).signals
  }

  lemma GamepadLast()
    ensures LastDef(GamepadFile(), GAMEPAD_ID) == Some(GamepadFile()[1])
  {
    LastDefAt(GamepadFile(), GAMEPAD_ID, 1);
  }

  lemma GamepadFileDecodable()
    ensures forall d :: d in GamepadFile() && d.MessageDef? ==> Decodable(MessageOf(d).signals)
  {
    GamepadWellFormed();
    var file := GamepadFile();
    assert file[0].VersionDef?;
    assert forall d :: d in file ==> d == file[0] || d == file[1];
  }

  lemma GamepadStored(store: DbcStore)
    requires Populated(GamepadFile(), store)
    ensures DecodableStore(Some(store))
    ensures GAMEPAD_ID in store.msgs
    ensures store.msgs[GAMEPAD_ID].signals == GamepadDefs() && !store.msgs[GAMEPAD_ID].isExtended
  {
    GamepadLast();
    GamepadFileDecodable();
    PopulatedStoreIsDecodable(GamepadFile(), store);
  }

  lemma GamepadRange(k: nat)
    requires k < 20
    ensures SignalOf(GamepadSignal(k)).Range() ==
            if k < 4 then BitRange(8 * k, 8, false) else BitRange(28 + k, 1, false)
  {
  }

  lemma GamepadUsable(k: nat)
    requires k < 20
    ensures SignalOf(GamepadSignal(k)).Usable() && PlainIfOneBit(SignalOf(GamepadSignal(k)))
    ensures !SignalOf(GamepadSignal(k)).isMultiplexed && !SignalOf(GamepadSignal(k)).isMultiplexer
  {
    GamepadRange(k);
  }

  lemma GamepadCovers(k: nat, i: nat)
    requires k < 20 && i < 64
    ensures InFrame(SignalOf(GamepadSignal(k)).Range())
    ensures Covers(SignalOf(GamepadSignal(k)).Range(), i) <==>
            if k < 4 then 8 * k <= i < 8 * k + 8 else i == 28 + k
  {
    GamepadRange(k);
  }

  lemma GamepadDisjoint(k: nat, n: nat)
    requires k < 20 && n < 20 && k != n
    ensures InFrame(SignalOf(GamepadSignal(k)).Range()) && InFrame(SignalOf(GamepadSignal(n)).Range())
    ensures Disjoint(SignalOf(GamepadSignal(k)).Range(), SignalOf(GamepadSignal(n)).Range())
  {
    GamepadCovers(k, 0);
    GamepadCovers(n, 0);
    forall i | 0 <= i < 64
      ensures !(Covers(SignalOf(GamepadSignal(k)).Range(), i) && Covers(SignalOf(GamepadSignal(n)).Range(), i))
    {
      GamepadCovers(k, i);
      GamepadCovers(n, i);
    }
  }

  lemma GamepadIndex(s: SignalDef) returns (k: nat)
    requires s in GamepadDefs()
    ensures k < 20 && s == SignalOf(GamepadSignal(k))
  {
    k :| 0 <= k < 20 && GamepadDefs()[k] == s;
  }

  /** The shipped message is decodable, unmultiplexed and free of overlaps. */
  lemma GamepadWellFormed()
    ensures Decodable(GamepadDefs()) && PairwiseDisjoint(GamepadDefs())
    ensures forall s :: s in GamepadDefs() ==> !s.isMultiplexed
  {
    forall s | s in GamepadDefs()
      ensures s.Usable() && !s.isMultiplexed && !s.isMultiplexer
    {
      var k := GamepadIndex(s);
      GamepadUsable(k);
    }
    forall s, t | s in GamepadDefs() && t in GamepadDefs() && s != t
      ensures Disjoint(s.Range(), t.Range())
    {
      var k := GamepadIndex(s);
      var n := GamepadIndex(t);
      GamepadDisjoint(k, n);
    }
  }

  lemma GamepadUniqueNames()
    ensures UniqueNames(GamepadDefs())
  {
    GamepadNamesDistinct();
    forall i, j | 0 <= i < j < 20
      ensures GamepadDefs()[i].name != GamepadDefs()[j].name
    {
      assert GamepadDefs()[i].name == GamepadName(i) && GamepadDefs()[j].name == GamepadName(j);
    }
  }

  /** The shipped message meets what the re-encoding theorems ask for. */
  lemma GamepadRebuildable()
    ensures Rebuildable(GamepadDefs())
  {
    GamepadWellFormed();
    GamepadUniqueNames();
    forall s | s in GamepadDefs()
      ensures PlainIfOneBit(s)
    {
      var k := GamepadIndex(s);
      GamepadUsable(k);
    }
  }

  /** Every word a gamepad signal can hold decodes inside its declared range. */
  lemma GamepadWordInRange(k: nat, word: seq<bool>)
    requires k < 20 && |word| == SignalOf(GamepadSignal(k)).length
    ensures SignalOf(GamepadSignal(k)).Usable() && DecodesInRange(SignalOf(GamepadSignal(k)), word)
  {
    var d := SignalOf(GamepadSignal(k));
    GamepadUsable(k);
    GamepadRawRange(k);
    assert Scaled(d, RawOf(d, word) as real) == RawOf(d, word) as real;
  }

  lemma GamepadCoverage(i: nat, k: Option<nat>)
    requires i < 64 && AllUsable(GamepadDefs())
    ensures CoveredByActive(GamepadDefs(), k, i) <==> i < 48
  {
    if i < 48 {
      var n := if i < 32 then i / 8 else i - 28;
      GamepadCovers(n, i);
      GamepadUsable(n);
      assert GamepadDefs()[n] in GamepadDefs();
    } else if CoveredByActive(GamepadDefs(), k, i) {
      var s :| s in GamepadDefs() && Active(s, k) && Covers(s.Range(), i);
      var n := GamepadIndex(s);
      GamepadCovers(n, i);
    }
  }

  /** Parsing any GamepadMsg frame, whoever built it, and encoding the parsed list again
      gives that frame with its last two bytes cleared. */
  lemma GamepadRebuilt(d: Data, i: nat)
    requires i < 64
    ensures Decodable(GamepadDefs())
    ensures Rebuild(GamepadDefs(), d)[i] <==> d[i] && i < 48
  {
    GamepadRebuildable();
    forall s | s in GamepadDefs()
      ensures DecodesInRange(s, Read(d, s.Range()))
    {
      var k := GamepadIndex(s);
      GamepadWordInRange(k, Read(d, s.Range()));
    }
    InRangeIsKept(GamepadDefs(), d);
    RebuildIsProjection(GamepadDefs(), d);
    assert ProjectedBit(GamepadDefs(), d, i);
    GamepadCoverage(i, SwitchValue(GamepadDefs(), d));
  }

  /** The value the k-th signal must carry: a stick as signed byte, a button as 0 or 1. */
  function Wanted(s: State, k: nat): int {
    if k < 4 then StickValue(Axis(s, k)) else if ButtonPressed(s, k - 4) then 1 else 0
  }

  lemma GamepadRawRange(k: nat)
    requires k < 20
    ensures var d := SignalOf(GamepadSignal(k));
            if k < 4 then d.MinRaw() == -128 && d.MaxRaw() == 127 else d.MinRaw() == 0 && d.MaxRaw() == 1
  {
    PowersOfTwo();
  }

  lemma WantedFits(s: State, k: nat)
    requires k < 20
    ensures var d := SignalOf(GamepadSignal(k));
            d.MinRaw() <= Wanted(s, k) <= d.MaxRaw() && d.min <= Wanted(s, k) as real <= d.max
  {
    GamepadRawRange(k);
    if k < 4 {
      StickAccuracy(Axis(s, k));
    }
  }

  lemma TableConverts(s: State, t: map<string, Value>)
    requires Table(t, GamepadName, GamepadEntry(s), 0, 20)
    ensures AllConvertible(t)
    ensures forall k :: 0 <= k < 20 ==>
              GamepadName(k) in Converted(t) && Converted(t)[GamepadName(k)] == Wanted(s, k) as real
  {
  }

  /** Each signal arrives exactly. */
  lemma ArrivesExactly(s: State, t: map<string, Value>, k: nat)
    requires k < 20 && Table(t, GamepadName, GamepadEntry(s), 0, 20)
    ensures SignalOf(GamepadSignal(k)).Usable() && AllConvertible(t)
    ensures Arrives(SignalOf(GamepadSignal(k)), Converted(t)) == Wanted(s, k) as real
  {
    var d := SignalOf(GamepadSignal(k));
    GamepadUsable(k);
    TableConverts(s, t);
    WantedFits(s, k);
    ExactInteger(d, Wanted(s, k));
  }

  lemma GamepadIdParses()
    ensures ParsedFrameId("0x210") == Ok(GAMEPAD_ID)
  {
    var body := "210";
    assert body[..2] == "21" && "21"[..1] == "2" && "2"[..0] == "";
    assert Digits("2", 16) && Digits("21", 16);
    assert ValueOf("2", 16) == 2;
    assert ValueOf("21", 16) == 33;
    assert ValueOf(body, 16) == 528;
    SpellingParses("", "0x", body, "");
    assert "" + "0x" + body + "" == "0x210";
  }

  /** Bits past the last button stay zero. */
  lemma HighBytesZero(values: Values, i: nat)
    requires 48 <= i < 64 && AllUsable(GamepadDefs())
    ensures !Encode(GamepadDefs(), values)[i]
  {
    EncodedBit(GamepadDefs(), values, i);
    var o := Owner(GamepadDefs(), values, i);
    if o.Some? {
      var k := GamepadIndex(o.value);
      GamepadCovers(k, i);
    }
  }

  /** The payload is never refused. */
  lemma GamepadAccepted(s: State, bus: string, t: map<string, Value>)
    requires Table(t, GamepadName, GamepadEntry(s), 0, 20) && TrimSpace(bus) != ""
    ensures Accepted(Payload(bus, "0x210", t))
  {
    TableConverts(s, t);
    GamepadIdParses();
  }

  function GamepadData(t: map<string, Value>): (d: Data)
    requires AllConvertible(t) && AllUsable(GamepadDefs())
  {
    Encode(GamepadDefs(), Converted(t))
  }

  lemma GamepadSignalAt(s: State, t: map<string, Value>, k: nat)
    requires Table(t, GamepadName, GamepadEntry(s), 0, 20) && k < 20
    ensures AllConvertible(t) && Decodable(GamepadDefs())
    ensures |Decode(GamepadDefs(), GamepadData(t))| == 20
    ensures Decode(GamepadDefs(), GamepadData(t))[k] == Signal(GamepadName(k), Wanted(s, k) as real, "")
  {
    GamepadWellFormed();
    ArrivesExactly(s, t, k);
    PlainRoundTrip(GamepadDefs(), Converted(t));
    assert GamepadDefs()[k] == SignalOf(GamepadSignal(k));
  }

  lemma GamepadFrame(bus: string, t: map<string, Value>, store: DbcStore, msg: DecodeMsg)
    requires Populated(GamepadFile(), store) && AllConvertible(t)
    requires CommandOf(Payload(bus, "0x210", t), msg)
    ensures DecodableStore(Some(store)) && Decodable(GamepadDefs())
    ensures EncodeFrame(Some(store), msg) ==
            Ok(Frame(GAMEPAD_ID, 8, GamepadData(t), false, false))
    ensures forall f: Frame :: f.id == GAMEPAD_ID ==>
              DecodeFrame(Some(store), f) == Decode(GamepadDefs(), f.data)
  {
    GamepadIdParses();
    GamepadStored(store);
    GamepadWellFormed();
    EnumerationValues(msg.signals, t);
  }

  /** Any gamepad state, sent as a GamepadMsg command, encoded with the shipped definition
      and decoded again, gives its four stick values and sixteen button bits exactly; bytes
      6 and 7 of the frame are zero. */
  lemma GamepadEndToEnd(s: State, bus: string, t: map<string, Value>, store: DbcStore, msg: DecodeMsg)
    requires Table(t, GamepadName, GamepadEntry(s), 0, 20)
    requires Populated(GamepadFile(), store)
    requires CommandOf(Payload(bus, "0x210", t), msg)
    ensures DecodableStore(Some(store)) && EncodeFrame(Some(store), msg).Ok?
    ensures var f := EncodeFrame(Some(store), msg).value;
            && f.id == GAMEPAD_ID && f.length == 8 && !f.isExtended && !f.isRemote
            && (forall i :: 48 <= i < 64 ==> !f.data[i])
            && |DecodeFrame(Some(store), f)| == 20
            && forall k :: 0 <= k < 20 ==>
                 DecodeFrame(Some(store), f)[k] == Signal(GamepadName(k), Wanted(s, k) as real, "")
  {
    TableConverts(s, t);
    GamepadFrame(bus, t, store, msg);
    forall i | 48 <= i < 64
      ensures !GamepadData(t)[i]
    {
      HighBytesZero(Converted(t), i);
    }
    GamepadSignalAt(s, t, 0);
    forall k | 0 <= k < 20
      ensures Decode(GamepadDefs(), GamepadData(t))[k] == Signal(GamepadName(k), Wanted(s, k) as real, "")
    {
      GamepadSignalAt(s, t, k);
    }
  }

  /** A bit inside the k-th signal's range is that signal's. */
  lemma GamepadOwner(values: Values, k: nat, i: nat)
    requires k < 20 && i < 64 && AllUsable(GamepadDefs()) && GamepadName(k) in values
    requires if k < 4 then 8 * k <= i < 8 * k + 8 else i == 28 + k
    ensures Owner(GamepadDefs(), values, i) == Some(SignalOf(GamepadSignal(k)))
  {
    assert GamepadDefs()[k] in GamepadDefs();
    GamepadCovers(k, i);
    var o := Owner(GamepadDefs(), values, i);
    if o.Some? {
      var n := GamepadIndex(o.value);
      GamepadCovers(n, i);
    }
  }

  lemma GamepadWeight(k: nat, i: nat, j: nat)
    requires k < 20
    requires if k < 4 then i == 8 * k + j && j < 8 else i == 28 + k && j == 0
    ensures SignalOf(GamepadSignal(k)).Usable() && Weight(SignalOf(GamepadSignal(k)).Range(), i) == j
  {
    GamepadUsable(k);
    GamepadRange(k);
  }

  lemma WantedEncodes(s: State, k: nat)
    requires k < 20
    ensures SignalOf(GamepadSignal(k)).Usable()
    ensures EncodeRaw(SignalOf(GamepadSignal(k)), Wanted(s, k) as real) == Wanted(s, k)
  {
    GamepadUsable(k);
    WantedFits(s, k);
    ExactInteger(SignalOf(GamepadSignal(k)), Wanted(s, k));
  }

  lemma GamepadBit(s: State, t: map<string, Value>, k: nat, i: nat, j: nat)
    requires k < 20 && Table(t, GamepadName, GamepadEntry(s), 0, 20)
    requires if k < 4 then i == 8 * k + j && j < 8 else i == 28 + k && j == 0
    requires AllConvertible(t) && AllUsable(GamepadDefs())
    ensures GamepadData(t)[i] <==> Wanted(s, k) / Pow2(j) % 2 == 1
  {
    TableConverts(s, t);
    GamepadOwner(Converted(t), k, i);
    GamepadWeight(k, i, j);
    WantedEncodes(s, k);
    OwnedBit(GamepadDefs(), Converted(t), i, SignalOf(GamepadSignal(k)));
  }

  lemma StickBit(s: State, t: map<string, Value>, k: nat, j: nat)
    requires Table(t, GamepadName, GamepadEntry(s), 0, 20) && AllConvertible(t) && AllUsable(GamepadDefs())
    requires k < 4 && j < 8
    ensures GamepadData(t)[8 * k + j] <==> StickValue(Axis(s, k)) / Pow2(j) % 2 == 1
  {
    GamepadBit(s, t, k, 8 * k + j, j);
    assert Wanted(s, k) == StickValue(Axis(s, k));
  }

  lemma StickBits(s: State, t: map<string, Value>)
    requires Table(t, GamepadName, GamepadEntry(s), 0, 20) && AllConvertible(t) && AllUsable(GamepadDefs())
    ensures forall k, j :: 0 <= k < 4 && 0 <= j < 8 ==>
              (GamepadData(t)[8 * k + j] <==> StickValue(Axis(s, k)) / Pow2(j) % 2 == 1)
  {
    forall k, j | 0 <= k < 4 && 0 <= j < 8
      ensures GamepadData(t)[8 * k + j] <==> StickValue(Axis(s, k)) / Pow2(j) % 2 == 1
    {
      StickBit(s, t, k, j);
    }
  }

  lemma WantedButton(s: State, i: nat)
    ensures Wanted(s, 4 + i) / Pow2(0) % 2 == 1 <==> i < |s.buttons| && s.buttons[i].pressed
  {
  }

  lemma ButtonBit(s: State, t: map<string, Value>, i: nat)
    requires Table(t, GamepadName, GamepadEntry(s), 0, 20) && AllConvertible(t) && AllUsable(GamepadDefs())
    requires i < 16
    ensures GamepadData(t)[32 + i] <==> i < |s.buttons| && s.buttons[i].pressed
  {
    GamepadBit(s, t, 4 + i, 32 + i, 0);
    WantedButton(s, i);
  }

  lemma ButtonBits(s: State, t: map<string, Value>)
    requires Table(t, GamepadName, GamepadEntry(s), 0, 20) && AllConvertible(t) && AllUsable(GamepadDefs())
    ensures forall i :: 0 <= i < 16 ==> (GamepadData(t)[32 + i] <==> i < |s.buttons| && s.buttons[i].pressed)
  {
    forall i | 0 <= i < 16
      ensures GamepadData(t)[32 + i] <==> i < |s.buttons| && s.buttons[i].pressed
    {
      ButtonBit(s, t, i);
    }
  }

  /** The whole frame a gamepad state becomes, bit by bit: four sticks as two's complement
      bytes, sixteen buttons, and two zero bytes. `StickAccuracy` and `AxisMeans` say what
      the bytes are. */
  lemma GamepadFrameBits(s: State, bus: string, t: map<string, Value>, store: DbcStore, msg: DecodeMsg)
    requires Table(t, GamepadName, GamepadEntry(s), 0, 20)
    requires Populated(GamepadFile(), store)
    requires CommandOf(Payload(bus, "0x210", t), msg)
    ensures DecodableStore(Some(store)) && EncodeFrame(Some(store), msg).Ok?
    ensures var d := EncodeFrame(Some(store), msg).value.data;
            && (forall k, j :: 0 <= k < 4 && 0 <= j < 8 ==>
                  (d[8 * k + j] <==> StickValue(Axis(s, k)) / Pow2(j) % 2 == 1))
            && (forall i :: 0 <= i < 16 ==> (d[32 + i] <==> i < |s.buttons| && s.buttons[i].pressed))
            && (forall i :: 48 <= i < 64 ==> !d[i])
  {
    TableConverts(s, t);
    GamepadFrame(bus, t, store, msg);
    StickBits(s, t);
    ButtonBits(s, t);
    forall i | 48 <= i < 64
      ensures !GamepadData(t)[i]
    {
      HighBytesZero(Converted(t), i);
    }
  }

  /** Two states give the same frame exactly when their quantised values agree. */
  lemma GamepadInjective(
    s: State, s': State, bus: string, t: map<string, Value>, t': map<string, Value>, store: DbcStore,
    msg: DecodeMsg, msg': DecodeMsg)
    requires Table(t, GamepadName, GamepadEntry(s), 0, 20) && Table(t', GamepadName, GamepadEntry(s'), 0, 20)
    requires Populated(GamepadFile(), store)
    requires CommandOf(Payload(bus, "0x210", t), msg) && CommandOf(Payload(bus, "0x210", t'), msg')
    ensures DecodableStore(Some(store))
    ensures EncodeFrame(Some(store), msg) == EncodeFrame(Some(store), msg') <==>
            forall k :: 0 <= k < 20 ==> Wanted(s, k) == Wanted(s', k)
  {
    TableConverts(s, t);
    TableConverts(s', t');
    GamepadFrame(bus, t, store, msg);
    GamepadFrame(bus, t', store, msg');
    if forall k :: 0 <= k < 20 ==> Wanted(s, k) == Wanted(s', k) {
      SameTable(s, s', t, t');
    }
    SameDataSameValues(s, s', t, t');
  }

  lemma SameDataSameValues(s: State, s': State, t: map<string, Value>, t': map<string, Value>)
    requires Table(t, GamepadName, GamepadEntry(s), 0, 20) && Table(t', GamepadName, GamepadEntry(s'), 0, 20)
    requires AllConvertible(t) && AllConvertible(t') && AllUsable(GamepadDefs())
    ensures GamepadData(t) == GamepadData(t') ==> forall k :: 0 <= k < 20 ==> Wanted(s, k) == Wanted(s', k)
  {
    if GamepadData(t) == GamepadData(t') {
      forall k | 0 <= k < 20
        ensures Wanted(s, k) == Wanted(s', k)
      {
        GamepadSignalAt(s, t, k);
        GamepadSignalAt(s', t', k);
      }
    }
  }

  lemma SameEntry(s: State, s': State, k: nat)
    requires k < 20 && Wanted(s, k) == Wanted(s', k)
    ensures GamepadEntry(s)(k) == GamepadEntry(s')(k)
  {
  }

  lemma SameTable(s: State, s': State, t: map<string, Value>, t': map<string, Value>)
    requires Table(t, GamepadName, GamepadEntry(s), 0, 20) && Table(t', GamepadName, GamepadEntry(s'), 0, 20)
    requires forall k :: 0 <= k < 20 ==> Wanted(s, k) == Wanted(s', k)
    ensures t == t'
  {
    forall n | n in t
      ensures t[n] == t'[n]
    {
      TableNames(t, GamepadName, GamepadEntry(s), 0, 20, n);
      var k: nat :| 0 <= k < 20 && GamepadName(k) == n;
      SameEntry(s, s', k);
    }
  }

  /** A publisher that latches the frame then reports every stick and button of the state. */
  lemma GamepadLatched(
    s: State, bus: string, t: map<string, Value>, store: DbcStore, msg: DecodeMsg, w: Whitelist, l: Latch)
    requires Table(t, GamepadName, GamepadEntry(s), 0, 20)
    requires Populated(GamepadFile(), store)
    requires CommandOf(Payload(bus, "0x210", t), msg)
    requires bus in w && GAMEPAD_ID in w[bus]
    ensures DecodableStore(Some(store)) && EncodeFrame(Some(store), msg).Ok?
    ensures var r := Received(bus, Some(store), EncodeFrame(Some(store), msg).value);
            && r.Some?
            && forall k :: 0 <= k < 20 ==>
                 var v := BusValues(Consume(w, l, Can(r.value)), bus);
                 GamepadName(k) in v && v[GamepadName(k)] == Wanted(s, k) as real
  {
    GamepadEndToEnd(s, bus, t, store, msg);
    var sigs := DecodeFrame(Some(store), EncodeFrame(Some(store), msg).value);
    forall k | 0 <= k < 20
      ensures GamepadName(k) in Latest(sigs) && Latest(sigs)[GamepadName(k)] == Wanted(s, k) as real
    {
      GamepadReported(s, sigs, k);
    }
  }

  lemma GamepadReported(s: State, sigs: seq<Signal>, k: nat)
    requires k < 20 && |sigs| == 20
    requires forall n :: 0 <= n < 20 ==> sigs[n] == Signal(GamepadName(n), Wanted(s, n) as real, "")
    ensures GamepadName(k) in Latest(sigs) && Latest(sigs)[GamepadName(k)] == Wanted(s, k) as real
  {
    LatestIsLast(sigs, GamepadName(k));
    GamepadNamesDistinct();
    assert sigs[k].name == GamepadName(k);
  }

  /** The control value of the shipped CONTROL_CMD messages: tenths in a signed 16-bit word. */
  function ControlSignal(): SignalEntry {
    SignalEntry("ControlValue", 8, 16, false, true, false, false, 0, 0.1, 0.0, -3276.8, 3276.7, "")
  }

  /** The mapper's rounding matches the step of the signal: every control value the default
      mapper produces arrives unchanged. */
  lemma ControlCarriedExactly(v: real)
    requires -1.0 <= v <= 1.0
    ensures var d := SignalOf(ControlSignal());
            d.Usable() && DecodeWord(d, Word(d, ControlValue(v))) == ControlValue(v)
  {
    var d := SignalOf(ControlSignal());
    var t := Throttle(NewMapper(), v);
    var n := Round(t * 10.0);
    TenthAccuracy(t);
    ControlRange(v);
    PowersOfTwo();
    assert d.MinRaw() == -32768 && d.MaxRaw() == 32767;
    assert Scaled(d, n as real) == ControlValue(v);
    ExactMultiple(d, n);
  }
}
