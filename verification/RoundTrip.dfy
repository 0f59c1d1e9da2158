/** Parsing a built frame gives the command back, quantised. */
module RoundTrip {
  import opened Results
  import opened Bits
  import opened Layout
  import opened Physical
  import opened Codec

  /** Two signals that some frame can carry at the same time. */
  predicate CoActive(s: SignalDef, t: SignalDef) {
    s.isMultiplexed && t.isMultiplexed ==> s.multiplexerValue == t.multiplexerValue
  }

  /** What a DBC message must satisfy: decodable, a switch that is always present, and
      no bit shared by two signals that can be active together. */
  ghost predicate WellFormed(defs: seq<SignalDef>) {
    && Decodable(defs)
    && (MultiplexerSignal(defs).Some? ==> !MultiplexerSignal(defs).value.isMultiplexed)
    && forall s, t :: s in defs && t in defs && s != t && CoActive(s, t) ==> Disjoint(s.Range(), t.Range())
  }

  /** The physical value that arrives for `s`: the quantised command value, or the decoding
      of zero bits when the command does not name the signal. */
  function Arrives(s: SignalDef, values: Values): real
    requires s.Usable()
  {
    DecodeWord(s, StoredWord(s, values))
  }

  function StoredWord(s: SignalDef, values: Values): (word: seq<bool>)
    requires s.Usable()
    ensures |word| == s.length
  {
    if s.name in values then Word(s, values[s.name]) else Read(ZeroData(), s.Range())
  }

  /** The switch value a command puts on the wire. */
  function CommandedSwitch(defs: seq<SignalDef>, values: Values): Option<nat>
    requires Decodable(defs)
  {
    match MultiplexerSignal(defs)
    case None => None
    case Some(s) => Some(Arrives(s, values).Floor)
  }

  /** The command names only signals that its own switch value makes active. */
  ghost predicate NamesActiveOnly(defs: seq<SignalDef>, values: Values)
    requires Decodable(defs)
  {
    forall s :: s in defs && s.name in values ==> Active(s, CommandedSwitch(defs, values))
  }

  /** The active definitions in DBC order, each with the value that arrives for it. */
  function Expected(defs: seq<SignalDef>, k: Option<nat>, values: Values): seq<Signal>
    requires AllUsable(defs)
  {
    if defs == [] then []
    else
      var s := defs[|defs| - 1];
      Expected(defs[..|defs| - 1], k, values) +
      if Active(s, k) then [Signal(s.name, Arrives(s, values), s.unit)] else []
  }

  /** A signal reads back its own word when no other written signal touches its bits. */
  lemma {:induction false} ReadBack(defs: seq<SignalDef>, values: Values, s: SignalDef)
    requires AllUsable(defs) && s.Usable()
    requires forall t :: t in defs && t.name in values ==> t == s || Disjoint(t.Range(), s.Range())
    ensures Read(Encode(defs, values), s.Range()) ==
            if s in defs then StoredWord(s, values) else Read(ZeroData(), s.Range())
  {
    if defs != [] {
      var t := defs[|defs| - 1];
      assert t in defs;
      var before := Encode(defs[..|defs| - 1], values);
      ReadBack(defs[..|defs| - 1], values, s);
      if t.name in values {
        if t == s {
          ReadWritten(before, t.Range(), Word(t, values[t.name]));
        } else {
          ReadElsewhere(before, t.Range(), Word(t, values[t.name]), s.Range());
        }
      }
    }
  }

  lemma ActiveReadBack(defs: seq<SignalDef>, values: Values, s: SignalDef)
    requires WellFormed(defs) && NamesActiveOnly(defs, values) && s in defs
    requires Active(s, CommandedSwitch(defs, values))
    ensures Read(Encode(defs, values), s.Range()) == StoredWord(s, values)
  {
    ReadBack(defs, values, s);
  }

  /** An unmultiplexed signal arrives whatever else the command names. */
  lemma UnmultiplexedReadBack(defs: seq<SignalDef>, values: Values, s: SignalDef)
    requires WellFormed(defs) && s in defs && !s.isMultiplexed
    ensures Read(Encode(defs, values), s.Range()) == StoredWord(s, values)
  {
    ReadBack(defs, values, s);
  }

  /** The command's switch value is the one a receiver sees, for every command. */
  lemma SwitchArrives(defs: seq<SignalDef>, values: Values)
    requires WellFormed(defs)
    ensures SwitchValue(defs, Encode(defs, values)) == CommandedSwitch(defs, values)
  {
    if MultiplexerSignal(defs).Some? {
      UnmultiplexedReadBack(defs, values, MultiplexerSignal(defs).value);
    }
  }

  lemma {:induction false} DecodesAsExpected(
    defs: seq<SignalDef>, values: Values, k: Option<nat>, d: Data)
    requires AllUsable(defs)
    requires forall s :: s in defs && Active(s, k) ==> Read(d, s.Range()) == StoredWord(s, values)
    ensures DecodeActive(defs, k, d) == Expected(defs, k, values)
  {
    if defs != [] {
      assert defs[|defs| - 1] in defs;
      DecodesAsExpected(defs[..|defs| - 1], values, k, d);
    }
  }

  /** Multiplexed or not, mixed byte orders and signedness, inactive signals sharing bits
      with active ones: what is parsed is exactly what was commanded, quantised. */
  lemma FrameRoundTrip(defs: seq<SignalDef>, values: Values)
    requires WellFormed(defs) && NamesActiveOnly(defs, values)
    ensures Decode(defs, Encode(defs, values)) == Expected(defs, CommandedSwitch(defs, values), values)
  {
    var k := CommandedSwitch(defs, values);
    SwitchArrives(defs, values);
    forall s | s in defs && Active(s, k)
      ensures Read(Encode(defs, values), s.Range()) == StoredWord(s, values)
    {
      ActiveReadBack(defs, values, s);
    }
    DecodesAsExpected(defs, values, k, Encode(defs, values));
  }

  // ---------------------------------------------------------------- the exact condition

  /** The bit the command's last writer leaves at position `i`. */
  function WireBit(defs: seq<SignalDef>, values: Values, i: nat): bool
    requires AllUsable(defs) && i < 64
  {
    match Owner(defs, values, i)
    case None => false
    case Some(t) => Word(t, values[t.name])[Weight(t.Range(), i)]
  }

  /** The word a receiver finds in the range of `s`, told from the definitions and the
      command alone. */
  function WireWord(defs: seq<SignalDef>, values: Values, s: SignalDef): (word: seq<bool>)
    requires AllUsable(defs) && s.Usable()
    ensures |word| == s.length
  {
    seq(s.length, j requires 0 <= j < s.length => WireBit(defs, values, BitAt(s.Range(), j)))
  }

  lemma WireWordIsRead(defs: seq<SignalDef>, values: Values, s: SignalDef)
    requires AllUsable(defs) && s.Usable()
    ensures Read(Encode(defs, values), s.Range()) == WireWord(defs, values, s)
  {
    forall j | 0 <= j < s.length
      ensures Read(Encode(defs, values), s.Range())[j] == WireWord(defs, values, s)[j]
    {
      EncodedBit(defs, values, BitAt(s.Range(), j));
    }
  }

  /** Whoever writes a bit of `s` last writes what `s` itself wants there. */
  ghost predicate Undisturbed(defs: seq<SignalDef>, values: Values, s: SignalDef)
    requires AllUsable(defs) && s.Usable()
  {
    forall i :: 0 <= i < 64 && Covers(s.Range(), i) ==>
      match Owner(defs, values, i)
      case None => true
      case Some(t) => Word(t, values[t.name])[Weight(t.Range(), i)] == StoredWord(s, values)[Weight(s.Range(), i)]
  }

  lemma UnownedBit(defs: seq<SignalDef>, values: Values, s: SignalDef, i: nat)
    requires AllUsable(defs) && s in defs && i < 64 && Covers(s.Range(), i)
    requires Owner(defs, values, i).None?
    ensures !StoredWord(s, values)[Weight(s.Range(), i)]
  {
    ReadCovered(ZeroData(), s.Range(), i);
  }

  /** Exactly when a signal reads back its own word, for every list of definitions and
      every command, overlaps included. */
  lemma ReadBackExact(defs: seq<SignalDef>, values: Values, s: SignalDef)
    requires AllUsable(defs) && s in defs
    ensures Read(Encode(defs, values), s.Range()) == StoredWord(s, values) <==> Undisturbed(defs, values, s)
  {
    var d, r := Encode(defs, values), s.Range();
    forall i | 0 <= i < 64 && Covers(r, i)
      ensures d[i] == Read(d, r)[Weight(r, i)] == WireBit(defs, values, i)
      ensures Owner(defs, values, i).None? ==> !StoredWord(s, values)[Weight(r, i)]
    {
      EncodedBit(defs, values, i);
      ReadCovered(d, r, i);
      if Owner(defs, values, i).None? {
        UnownedBit(defs, values, s, i);
      }
    }
    if Undisturbed(defs, values, s) {
      forall j | 0 <= j < s.length
        ensures Read(d, r)[j] == StoredWord(s, values)[j]
      {
        assert Covers(r, BitAt(r, j)) && Weight(r, BitAt(r, j)) == j;
      }
    }
  }

  /** Lifted to the message: every active signal reads back its own word if and only if no
      active signal is disturbed. */
  lemma ActiveReadBackExact(defs: seq<SignalDef>, values: Values)
    requires WellFormed(defs)
    ensures var k := SwitchValue(defs, Encode(defs, values));
            && k == CommandedSwitch(defs, values)
            && ((forall s :: s in defs && Active(s, k) ==>
                   Read(Encode(defs, values), s.Range()) == StoredWord(s, values)) <==>
                (forall s :: s in defs && Active(s, k) ==> Undisturbed(defs, values, s)))
  {
    SwitchArrives(defs, values);
    forall s | s in defs
      ensures Read(Encode(defs, values), s.Range()) == StoredWord(s, values) <==> Undisturbed(defs, values, s)
    {
      ReadBackExact(defs, values, s);
    }
  }

  lemma {:induction false} SameListSameValues(defs: seq<SignalDef>, k: Option<nat>, d: Data, values: Values)
    requires AllUsable(defs)
    ensures |DecodeActive(defs, k, d)| == |Expected(defs, k, values)|
    ensures DecodeActive(defs, k, d) == Expected(defs, k, values) <==>
            forall s :: s in defs && Active(s, k) ==> UnmarshalPhysical(s, d) == Arrives(s, values)
  {
    if defs != [] {
      var init, t := defs[..|defs| - 1], defs[|defs| - 1];
      SameListSameValues(init, k, d, values);
      assert defs == init + [t];
      var x := if Active(t, k) then [Signal(t.name, UnmarshalPhysical(t, d), t.unit)] else [];
      var y := if Active(t, k) then [Signal(t.name, Arrives(t, values), t.unit)] else [];
      SameAppend(DecodeActive(init, k, d), x, Expected(init, k, values), y);
    }
  }

  lemma SameAppend(a: seq<Signal>, x: seq<Signal>, b: seq<Signal>, y: seq<Signal>)
    requires |a| == |b| && |x| == |y|
    ensures a + x == b + y <==> a == b && x == y
  {
    if a + x == b + y {
      assert a == (a + x)[..|a|] && b == (b + y)[..|a|];
      assert x == (a + x)[|a|..] && y == (b + y)[|a|..];
    }
  }

  /** Exactly when the parsed list is the commanded one, quantised, for every command to a
      well-formed message: the word on the wire of each active signal decodes to the value
      that should arrive. Undisturbed words always do. */
  lemma FrameRoundTripExact(defs: seq<SignalDef>, values: Values)
    requires WellFormed(defs)
    ensures var k := CommandedSwitch(defs, values);
            Decode(defs, Encode(defs, values)) == Expected(defs, k, values) <==>
            forall s :: s in defs && Active(s, k) ==>
              DecodeWord(s, WireWord(defs, values, s)) == Arrives(s, values)
    ensures var k := CommandedSwitch(defs, values);
            (forall s :: s in defs && Active(s, k) ==> Undisturbed(defs, values, s)) ==>
              Decode(defs, Encode(defs, values)) == Expected(defs, k, values)
  {
    var k := CommandedSwitch(defs, values);
    SwitchArrives(defs, values);
    SameListSameValues(defs, k, Encode(defs, values), values);
    forall s | s in defs
      ensures UnmarshalPhysical(s, Encode(defs, values)) == DecodeWord(s, WireWord(defs, values, s))
      ensures Undisturbed(defs, values, s) ==> UnmarshalPhysical(s, Encode(defs, values)) == Arrives(s, values)
    {
      WireWordIsRead(defs, values, s);
      ReadBackExact(defs, values, s);
    }
  }

  /** A switch that carries every integer of its width unchanged. */
  predicate PlainSwitch(s: SignalDef)
    requires s.length >= 1
  {
    && !s.isSigned && !s.isMultiplexed && s.length <= 64
    && s.scale == 1.0 && s.offset == 0.0
    && (s.HasLimits() ==> s.min <= 0.0 && s.MaxRaw() as real <= s.max)
  }

  lemma {:induction false} PowerOrder(m: nat, n: nat)
    requires m <= n
    ensures Pow2(m) <= Pow2(n)
    decreases n - m
  {
    if m < n {
      PowerOrder(m + 1, n);
    }
  }

  lemma PlainSwitchDecodes(s: SignalDef, word: seq<bool>)
    requires s.Usable() && PlainSwitch(s) && |word| == s.length
    ensures DecodeWord(s, word) == RawOf(s, word) as real
    ensures Word(s, DecodeWord(s, word)) == word
  {
    var n := RawOf(s, word);
    ExactInteger(s, n);
    WordOfRaw(s, word);
  }

  lemma PlainSwitchFitsUint(s: SignalDef)
    requires s.Usable() && PlainSwitch(s)
    ensures FitsUint(s)
  {
    PowerOrder(s.length, 64);
    forall word: seq<bool> | |word| == s.length
      ensures 0.0 <= DecodeWord(s, word) < Pow2(64) as real
    {
      PlainSwitchDecodes(s, word);
    }
  }

  /** The multiplexed round trip: the command supplies the switch as an integer `k` that
      fits its width, and beside it only unmultiplexed signals and those of value `k`. */
  lemma MultiplexedRoundTrip(defs: seq<SignalDef>, values: Values, k: nat)
    requires WellFormed(defs) && MultiplexerSignal(defs).Some?
    requires PlainSwitch(MultiplexerSignal(defs).value)
    requires MultiplexerSignal(defs).value.name in values
    requires values[MultiplexerSignal(defs).value.name] == k as real
    requires k < Pow2(MultiplexerSignal(defs).value.length)
    requires forall s :: s in defs && s.name in values && s.isMultiplexed ==> s.multiplexerValue == k
    ensures SwitchValue(defs, Encode(defs, values)) == Some(k)
    ensures Decode(defs, Encode(defs, values)) == Expected(defs, Some(k), values)
  {
    var s := MultiplexerSignal(defs).value;
    ExactInteger(s, k);
    assert CommandedSwitch(defs, values) == Some(k);
    FrameRoundTrip(defs, values);
    SwitchArrives(defs, values);
  }

  lemma {:induction false} ExpectedOfAll(defs: seq<SignalDef>, k: Option<nat>, values: Values, i: nat)
    requires AllUsable(defs) && forall s :: s in defs ==> !s.isMultiplexed
    ensures |Expected(defs, k, values)| == |defs|
    ensures i < |defs| ==>
              defs[i] in defs &&
              Expected(defs, k, values)[i] == Signal(defs[i].name, Arrives(defs[i], values), defs[i].unit)
  {
    if defs != [] {
      ExpectedOfAll(defs[..|defs| - 1], k, values, i);
      assert defs[|defs| - 1] in defs;
    }
  }

  /** Without multiplexing every command survives: the parsed list has one entry for each
      definition, in DBC order. */
  lemma PlainRoundTrip(defs: seq<SignalDef>, values: Values)
    requires Decodable(defs) && PairwiseDisjoint(defs)
    requires forall s :: s in defs ==> !s.isMultiplexed
    ensures |Decode(defs, Encode(defs, values))| == |defs|
    ensures forall i :: 0 <= i < |defs| ==>
              defs[i] in defs &&
              Decode(defs, Encode(defs, values))[i] == Signal(defs[i].name, Arrives(defs[i], values), defs[i].unit)
  {
    assert NamesActiveOnly(defs, values);
    FrameRoundTrip(defs, values);
    var k := CommandedSwitch(defs, values);
    ExpectedOfAll(defs, k, values, 0);
    forall i | 0 <= i < |defs|
      ensures Expected(defs, k, values)[i] == Signal(defs[i].name, Arrives(defs[i], values), defs[i].unit)
    {
      ExpectedOfAll(defs, k, values, i);
    }
  }

  /** The same theorem about whole frames, as the handler builds and parses them. */
  lemma HandlerRoundTrip(db: Option<DbcStore>, msg: DecodeMsg)
    requires db.Some? && DecodableStore(db) && msg.frameID in db.value.msgs
    requires WellFormed(db.value.msgs[msg.frameID].signals)
    requires NamesActiveOnly(db.value.msgs[msg.frameID].signals, Latest(msg.signals))
    ensures EncodeFrame(db, msg).Ok?
    ensures var defs := db.value.msgs[msg.frameID].signals;
            DecodeFrame(db, EncodeFrame(db, msg).value) ==
            Expected(defs, CommandedSwitch(defs, Latest(msg.signals)), Latest(msg.signals))
  {
    FrameRoundTrip(db.value.msgs[msg.frameID].signals, Latest(msg.signals));
  }

  // ---------------------------------------------------------------- an example

  function Mode(): SignalDef {
    SignalDef("Mode", 0, 8, false, false, true, false, 0, 1.0, 0.0, 0.0, 0.0, "")
  }

  function Torque(): SignalDef {
    SignalDef("Torque", 15, 16, true, true, false, true, 1, 0.1, 0.0, 0.0, 0.0, "Nm")
  }

  function Angle(): SignalDef {
    SignalDef("Angle", 12, 16, false, false, false, true, 2, -0.5, 90.0, 0.0, 90.0, "deg")
  }

  lemma ExampleBits(i: nat)
    requires i < 64
    ensures Mode().Usable() && Torque().Usable() && Angle().Usable()
    ensures Covers(Mode().Range(), i) <==> i < 8
    ensures Covers(Torque().Range(), i) <==> 8 <= i < 24
    ensures Covers(Angle().Range(), i) <==> 12 <= i < 28
  {
  }

  function Example(): seq<SignalDef> {
    [Mode(), Torque(), Angle()]
  }

  lemma ExampleWellFormed()
    ensures WellFormed(Example()) && MultiplexerSignal(Example()) == Some(Mode())
    ensures !Disjoint(Torque().Range(), Angle().Range())
  {
    forall i | 0 <= i < 64
      ensures !(Covers(Mode().Range(), i) && Covers(Torque().Range(), i))
      ensures !(Covers(Mode().Range(), i) && Covers(Angle().Range(), i))
    {
      ExampleBits(i);
    }
    ExampleBits(12);
    PlainSwitchFitsUint(Mode());
  }

  lemma ExampleSwitch(values: Values, k: nat)
    requires k < 256 && "Mode" in values && values["Mode"] == k as real
    ensures Decodable(Example()) && CommandedSwitch(Example(), values) == Some(k)
  {
    ExampleWellFormed();
    PowersOfTwo();
    ExactInteger(Mode(), k);
  }

  lemma ExampleActive(values: Values, k: nat)
    requires 1 <= k <= 2
    requires (k == 1 ==> "Angle" !in values) && (k == 2 ==> "Torque" !in values)
    ensures forall s :: s in Example() && s.name in values ==> Active(s, Some(k))
  {
  }

  /** A switch byte that selects between two overlapping signals of either byte order: the
      message is well formed, and a command for one mode that leaves out the signal of the
      other names active signals only. */
  lemma MultiplexedExample(values: Values, k: nat)
    requires 1 <= k <= 2 && "Mode" in values && values["Mode"] == k as real
    requires (k == 1 ==> "Angle" !in values) && (k == 2 ==> "Torque" !in values)
    ensures WellFormed(Example()) && NamesActiveOnly(Example(), values)
  {
    ExampleWellFormed();
    ExampleSwitch(values, k);
    ExampleActive(values, k);
  }

  lemma AngleWord()
    ensures Angle().Usable() && Word(Angle(), 0.0)[2]
  {
    assert Pow2(16) == 2 * Pow2(15);
    PowersOfTwo();
    assert Scaled(Angle(), 180 as real) == 0.0;
    ExactMultiple(Angle(), 180);
    assert ToBits(180, 16)[2] by {
      assert ToBits(180, 16)[1..] == ToBits(90, 15);
      assert ToBits(90, 15)[1..] == ToBits(45, 14);
    }
  }

  lemma TorqueWord()
    ensures Torque().Usable() && !Word(Torque(), 0.0)[14]
  {
    PowersOfTwo();
    assert Scaled(Torque(), 0 as real) == 0.0;
    ExactMultiple(Torque(), 0);
    ZeroWord(16, 14);
  }

  lemma {:induction false} ZeroWord(len: nat, j: nat)
    requires j < len
    ensures !ToBits(0, len)[j]
  {
    if j > 0 {
      ZeroWord(len - 1, j - 1);
    }
  }

  /** The last definition, if named, decides the bits it covers. */
  lemma LastDecides(defs: seq<SignalDef>, s: SignalDef, values: Values, i: nat)
    requires AllUsable(defs) && defs != [] && defs[|defs| - 1] == s && s.Usable()
    requires s.name in values && i < 64 && Covers(s.Range(), i)
    ensures Encode(defs, values)[i] == Word(s, values[s.name])[Weight(s.Range(), i)]
  {
    EncodedBit(defs, values, i);
  }

  lemma AngleBitSet(values: Values)
    requires AllUsable(Example()) && "Angle" in values && values["Angle"] == 0.0
    ensures Encode(Example(), values)[14]
  {
    ExampleBits(14);
    AngleWord();
    assert Example()[2] == Angle();
    LastDecides(Example(), Angle(), values, 14);
  }

  lemma BitRead(d: Data)
    requires d[14] && InFrame(Torque().Range())
    ensures Read(d, Torque().Range())[14]
  {
    assert Mirror(14) == 54 && Mirror(15) == 55;
    assert Weight(Torque().Range(), 14) == 14;
    ReadCovered(d, Torque().Range(), 14);
  }

  /** Naming a signal of the other mode is not harmless: the encoder writes inactive signals
      too, and here the angle overwrites a bit of the torque the command asked for, so that
      the parsed list is not the commanded one. */
  lemma InactiveSignalOverwrites(defs: seq<SignalDef>, values: Values)
    requires defs == Example()
    requires "Mode" in values && values["Mode"] == 1.0
    requires "Torque" in values && values["Torque"] == 0.0
    requires "Angle" in values && values["Angle"] == 0.0
    ensures WellFormed(defs) && CommandedSwitch(defs, values) == Some(1)
    ensures Decode(defs, Encode(defs, values)) != Expected(defs, CommandedSwitch(defs, values), values)
  {
    ExampleWellFormed();
    ExampleSwitch(values, 1);
    TorqueListed();
    TorqueOverwritten(defs, values);
    DifferentValue(defs, Torque(), values);
  }

  lemma TorqueListed()
    ensures Torque() in Example() && Active(Torque(), Some(1))
  {
    assert Example()[1] == Torque();
  }

  /** One active signal that reads a different value makes the parsed list differ. */
  lemma DifferentValue(defs: seq<SignalDef>, s: SignalDef, values: Values)
    requires WellFormed(defs) && s in defs && Active(s, CommandedSwitch(defs, values))
    requires UnmarshalPhysical(s, Encode(defs, values)) != Arrives(s, values)
    ensures Decode(defs, Encode(defs, values)) != Expected(defs, CommandedSwitch(defs, values), values)
  {
    SwitchArrives(defs, values);
    SameListSameValues(defs, CommandedSwitch(defs, values), Encode(defs, values), values);
  }

  lemma TorqueOverwritten(defs: seq<SignalDef>, values: Values)
    requires defs == Example() && AllUsable(defs) && Torque().Usable()
    requires "Torque" in values && values["Torque"] == 0.0
    requires "Angle" in values && values["Angle"] == 0.0
    ensures UnmarshalPhysical(Torque(), Encode(defs, values)) != Arrives(Torque(), values)
  {
    var d := Encode(defs, values);
    AngleBitSet(values);
    TorqueWord();
    BitRead(d);
    if UnmarshalPhysical(Torque(), d) == Arrives(Torque(), values) {
      DecodeInjective(Torque(), Read(d, Torque().Range()), Word(Torque(), 0.0));
    }
  }
}
