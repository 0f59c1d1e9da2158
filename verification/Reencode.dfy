/** Encoding what was parsed: a projection of frames onto their active signals. */
module Reencode {
  import opened Results
  import opened Layout
  import opened Physical
  import opened Codec
  import opened RoundTrip

  ghost predicate UniqueNames(defs: seq<SignalDef>) {
    forall i, j :: 0 <= i < j < |defs| ==> defs[i].name != defs[j].name
  }

  /** A message whose parsed frames report every active signal under its own name. */
  ghost predicate Reportable(defs: seq<SignalDef>) {
    && WellFormed(defs) && UniqueNames(defs)
    && (MultiplexerSignal(defs).Some? ==> PlainSwitch(MultiplexerSignal(defs).value))
  }

  /** One whose one-bit signals are plain besides. */
  ghost predicate Rebuildable(defs: seq<SignalDef>) {
    Reportable(defs) && forall s :: s in defs ==> PlainIfOneBit(s)
  }

  /** The values a parsed frame reports. */
  function Reported(defs: seq<SignalDef>, d: Data): Values
    requires Decodable(defs)
  {
    Latest(Decode(defs, d))
  }

  function Rebuild(defs: seq<SignalDef>, d: Data): Data
    requires Decodable(defs)
  {
    Encode(defs, Reported(defs, d))
  }

  lemma {:induction false} LatestAppend(a: seq<Signal>, b: seq<Signal>)
    requires |b| <= 1
    ensures Latest(a + b) == if b == [] then Latest(a) else Latest(a)[b[0].name := b[0].value]
  {
    if b == [] {
      assert a + b == a;
    } else {
      assert (a + b)[..|a + b| - 1] == a;
    }
  }

  /** Names reported come from definitions. */
  lemma {:induction false} ReportedNames(defs: seq<SignalDef>, k: Option<nat>, d: Data, n: string)
    requires AllUsable(defs) && n in Latest(DecodeActive(defs, k, d))
    ensures exists s :: s in defs && s.name == n && Active(s, k)
  {
    if defs != [] {
      var init, t := defs[..|defs| - 1], defs[|defs| - 1];
      assert t in defs;
      LatestAppend(DecodeActive(init, k, d),
                   if Active(t, k) then [Signal(t.name, UnmarshalPhysical(t, d), t.unit)] else []);
      if n in Latest(DecodeActive(init, k, d)) {
        ReportedNames(init, k, d, n);
      }
    }
  }

  lemma NameIdentifies(defs: seq<SignalDef>, s: SignalDef, t: SignalDef)
    requires UniqueNames(defs) && s in defs && t in defs && s.name == t.name
    ensures s == t
  {
  }

  /** A parsed list reports an active signal under its own value. */
  lemma {:induction false} ReportsActive(defs: seq<SignalDef>, k: Option<nat>, d: Data, s: SignalDef)
    requires AllUsable(defs) && UniqueNames(defs) && s in defs && Active(s, k)
    ensures s.name in Latest(DecodeActive(defs, k, d))
    ensures Latest(DecodeActive(defs, k, d))[s.name] == UnmarshalPhysical(s, d)
  {
    var init, t := defs[..|defs| - 1], defs[|defs| - 1];
    assert t in defs;
    LatestAppend(DecodeActive(init, k, d),
                 if Active(t, k) then [Signal(t.name, UnmarshalPhysical(t, d), t.unit)] else []);
    if s != t {
      assert s in init by { assert defs == init + [t]; }
      ReportsActive(init, k, d, s);
      if s.name == t.name {
        NameIdentifies(defs, s, t);
      }
    }
  }

  lemma ReportedValues(defs: seq<SignalDef>, d: Data)
    requires Reportable(defs)
    ensures forall s :: s in defs ==> (s.name in Reported(defs, d) <==> Active(s, SwitchValue(defs, d)))
    ensures forall s :: s in defs && Active(s, SwitchValue(defs, d)) ==>
              s.name in Reported(defs, d) && Reported(defs, d)[s.name] == UnmarshalPhysical(s, d)
    ensures CommandedSwitch(defs, Reported(defs, d)) == SwitchValue(defs, d)
    ensures NamesActiveOnly(defs, Reported(defs, d))
  {
    var k := SwitchValue(defs, d);
    forall s | s in defs
      ensures s.name in Reported(defs, d) <==> Active(s, k)
      ensures Active(s, k) ==> Reported(defs, d)[s.name] == UnmarshalPhysical(s, d)
    {
      if Active(s, k) {
        ReportsActive(defs, k, d, s);
      } else if s.name in Reported(defs, d) {
        ReportedNames(defs, k, d, s.name);
        var t :| t in defs && t.name == s.name && Active(t, k);
        NameIdentifies(defs, s, t);
      }
    }
    var m := MultiplexerSignal(defs);
    if m.Some? {
      PlainSwitchDecodes(m.value, Read(d, m.value.Range()));
    }
  }

  /** A rebuilt frame has the same switch value, and each active signal holds the word its
      reported value encodes to. */
  lemma Rebuilt(defs: seq<SignalDef>, d: Data)
    requires Reportable(defs)
    ensures SwitchValue(defs, Rebuild(defs, d)) == SwitchValue(defs, d)
    ensures forall s :: s in defs && Active(s, SwitchValue(defs, d)) ==>
              Read(Rebuild(defs, d), s.Range()) == Word(s, UnmarshalPhysical(s, d))
  {
    var v := Reported(defs, d);
    ReportedValues(defs, d);
    SwitchArrives(defs, v);
    forall s | s in defs && Active(s, SwitchValue(defs, d))
      ensures Read(Encode(defs, v), s.Range()) == Word(s, UnmarshalPhysical(s, d))
    {
      ActiveReadBack(defs, v, s);
    }
  }

  /** Commands that encode to the same words build the same frame. */
  lemma {:induction false} SameWordsSameFrame(defs: seq<SignalDef>, v: Values, w: Values)
    requires AllUsable(defs)
    requires forall s :: s in defs ==> (s.name in v <==> s.name in w)
    requires forall s :: s in defs && s.name in v ==> Word(s, v[s.name]) == Word(s, w[s.name])
    ensures Encode(defs, v) == Encode(defs, w)
  {
    if defs != [] {
      assert defs[|defs| - 1] in defs;
      SameWordsSameFrame(defs[..|defs| - 1], v, w);
    }
  }

  /** The value `s` reports is one that encode, decode, encode keeps. */
  predicate ReportSurvives(s: SignalDef, d: Data)
    requires s.Usable()
  {
    s.length > 1 || OneBitSurvives(s, UnmarshalPhysical(s, d))
  }

  lemma WordSurvives(s: SignalDef, p: real)
    requires s.Usable()
    ensures Word(s, DecodeWord(s, Word(s, p))) == Word(s, p) <==> s.length > 1 || OneBitSurvives(s, p)
  {
    EncodeDecodeEncodeExact(s, p);
    RawOfWord(s, EncodeRaw(s, p));
    RawOfWord(s, EncodeRaw(s, DecodeWord(s, Word(s, p))));
  }

  /** Exactly when re-encoding twice is re-encoding once: the reports of the active one-bit
      signals survive. */
  lemma RebuildIdempotentExact(defs: seq<SignalDef>, d: Data)
    requires Reportable(defs)
    ensures Rebuild(defs, Rebuild(defs, d)) == Rebuild(defs, d) <==>
            forall s :: s in defs && Active(s, SwitchValue(defs, d)) ==> ReportSurvives(s, d)
  {
    var d1 := Rebuild(defs, d);
    var k := SwitchValue(defs, d);
    Rebuilt(defs, d);
    Rebuilt(defs, d1);
    ReportedValues(defs, d);
    ReportedValues(defs, d1);
    forall s | s in defs && Active(s, k)
      ensures Word(s, UnmarshalPhysical(s, d1)) == Word(s, UnmarshalPhysical(s, d)) <==> ReportSurvives(s, d)
    {
      WordSurvives(s, UnmarshalPhysical(s, d));
    }
    if forall s :: s in defs && Active(s, k) ==> ReportSurvives(s, d) {
      SameWordsSameFrame(defs, Reported(defs, d1), Reported(defs, d));
    }
  }

  lemma PlainSurvives(s: SignalDef, p: real)
    requires s.Usable() && PlainIfOneBit(s)
    ensures s.length > 1 || OneBitSurvives(s, p)
  {
    EncodeDecodeEncode(s, p);
    EncodeDecodeEncodeExact(s, p);
  }

  /** With plain one-bit signals re-encoding is idempotent on every frame. */
  lemma RebuildIdempotent(defs: seq<SignalDef>, d: Data)
    requires Rebuildable(defs)
    ensures Rebuild(defs, Rebuild(defs, d)) == Rebuild(defs, d)
  {
    forall s | s in defs
      ensures ReportSurvives(s, d)
    {
      PlainSurvives(s, UnmarshalPhysical(s, d));
    }
    RebuildIdempotentExact(defs, d);
  }

  /** The stored raw value of each active signal comes back to itself. */
  ghost predicate FrameKept(defs: seq<SignalDef>, d: Data)
    requires Decodable(defs)
  {
    forall s :: s in defs && Active(s, SwitchValue(defs, d)) ==> KeepsRaw(s, RawOf(s, Read(d, s.Range())))
  }

  /** Every active signal of the frame decodes inside its declared range. */
  ghost predicate FrameInRange(defs: seq<SignalDef>, d: Data)
    requires Decodable(defs)
  {
    forall s :: s in defs && Active(s, SwitchValue(defs, d)) ==> DecodesInRange(s, Read(d, s.Range()))
  }

  /** Frames in range are among the kept ones. */
  lemma InRangeIsKept(defs: seq<SignalDef>, d: Data)
    requires Rebuildable(defs) && FrameInRange(defs, d)
    ensures FrameKept(defs, d)
  {
    forall s | s in defs && Active(s, SwitchValue(defs, d))
      ensures KeepsRaw(s, RawOf(s, Read(d, s.Range())))
    {
      DecodeEncode(s, Read(d, s.Range()));
      DecodeEncodeExact(s, Read(d, s.Range()));
    }
  }

  /** Some active signal covers bit `i`. */
  ghost predicate CoveredByActive(defs: seq<SignalDef>, k: Option<nat>, i: nat)
    requires AllUsable(defs) && i < 64
  {
    exists s :: s in defs && Active(s, k) && Covers(s.Range(), i)
  }

  /** Bits outside the active signals are cleared. */
  lemma RebuildClearsTheRest(defs: seq<SignalDef>, d: Data, i: nat)
    requires Reportable(defs) && i < 64
    requires !CoveredByActive(defs, SwitchValue(defs, d), i)
    ensures !Rebuild(defs, d)[i]
  {
    ReportedValues(defs, d);
    EncodedBit(defs, Reported(defs, d), i);
  }

  /** Re-encoding keeps an active signal's bits if and only if its raw value comes back to
      itself. */
  lemma KeptActiveExact(defs: seq<SignalDef>, d: Data, s: SignalDef)
    requires Reportable(defs) && s in defs && Active(s, SwitchValue(defs, d))
    ensures Read(Rebuild(defs, d), s.Range()) == Read(d, s.Range()) <==> KeepsRaw(s, RawOf(s, Read(d, s.Range())))
  {
    Rebuilt(defs, d);
    DecodeEncodeExact(s, Read(d, s.Range()));
  }

  /** Bit `i` survives re-encoding when it is an active signal's, and is cleared otherwise. */
  ghost predicate ProjectedBit(defs: seq<SignalDef>, d: Data, i: nat)
    requires Decodable(defs) && i < 64
  {
    Rebuild(defs, d)[i] == (d[i] && CoveredByActive(defs, SwitchValue(defs, d), i))
  }

  lemma KeptBit(defs: seq<SignalDef>, d: Data, i: nat)
    requires Reportable(defs) && FrameKept(defs, d) && i < 64
    ensures ProjectedBit(defs, d, i)
  {
    var k := SwitchValue(defs, d);
    if CoveredByActive(defs, k, i) {
      var s :| s in defs && Active(s, k) && Covers(s.Range(), i);
      KeptActiveExact(defs, d, s);
      ReadCovered(Rebuild(defs, d), s.Range(), i);
      ReadCovered(d, s.Range(), i);
    } else {
      RebuildClearsTheRest(defs, d, i);
    }
  }

  lemma ProjectedWord(defs: seq<SignalDef>, d: Data, s: SignalDef)
    requires Reportable(defs) && s in defs && Active(s, SwitchValue(defs, d))
    requires forall i :: 0 <= i < 64 ==> ProjectedBit(defs, d, i)
    ensures Read(Rebuild(defs, d), s.Range()) == Read(d, s.Range())
  {
    forall j | 0 <= j < s.length
      ensures Read(Rebuild(defs, d), s.Range())[j] == Read(d, s.Range())[j]
    {
      var i := BitAt(s.Range(), j);
      assert ProjectedBit(defs, d, i) && Covers(s.Range(), i);
    }
  }

  /** Exactly when re-encoding is the projection that keeps the active signals' bits and
      clears all others: every active raw value comes back to itself. The parsed list is
      then the same. */
  lemma RebuildIsProjection(defs: seq<SignalDef>, d: Data)
    requires Reportable(defs)
    ensures (forall i :: 0 <= i < 64 ==> ProjectedBit(defs, d, i)) <==> FrameKept(defs, d)
    ensures FrameKept(defs, d) ==> Decode(defs, Rebuild(defs, d)) == Decode(defs, d)
  {
    if FrameKept(defs, d) {
      forall i | 0 <= i < 64
        ensures ProjectedBit(defs, d, i)
      {
        KeptBit(defs, d, i);
      }
      KeptParsesAlike(defs, d);
    }
    if forall i :: 0 <= i < 64 ==> ProjectedBit(defs, d, i) {
      forall s | s in defs && Active(s, SwitchValue(defs, d))
        ensures KeepsRaw(s, RawOf(s, Read(d, s.Range())))
      {
        ProjectedWord(defs, d, s);
        KeptActiveExact(defs, d, s);
      }
    }
  }

  /** Exactly when the rebuilt frame parses to the same list: every reported value is one
      that is encoded and decoded to itself. */
  lemma ParsesAlikeExact(defs: seq<SignalDef>, d: Data)
    requires Reportable(defs)
    ensures Decode(defs, Rebuild(defs, d)) == Decode(defs, d) <==>
            forall s :: s in defs && Active(s, SwitchValue(defs, d)) ==>
              DecodeWord(s, Word(s, UnmarshalPhysical(s, d))) == UnmarshalPhysical(s, d)
  {
    ReportedValues(defs, d);
    FrameRoundTrip(defs, Reported(defs, d));
    SameListSameValues(defs, SwitchValue(defs, d), d, Reported(defs, d));
  }

  lemma KeptParsesAlike(defs: seq<SignalDef>, d: Data)
    requires Reportable(defs) && FrameKept(defs, d)
    ensures Decode(defs, Rebuild(defs, d)) == Decode(defs, d)
  {
    var k := SwitchValue(defs, d);
    Rebuilt(defs, d);
    forall s | s in defs && Active(s, k)
      ensures Read(Rebuild(defs, d), s.Range()) == Read(d, s.Range())
    {
      KeptActiveExact(defs, d, s);
    }
    SameWordsSameSignals(defs, k, Rebuild(defs, d), d);
  }

  lemma {:induction false} SameWordsSameSignals(defs: seq<SignalDef>, k: Option<nat>, d: Data, e: Data)
    requires AllUsable(defs)
    requires forall s :: s in defs && Active(s, k) ==> Read(d, s.Range()) == Read(e, s.Range())
    ensures DecodeActive(defs, k, d) == DecodeActive(defs, k, e)
  {
    if defs != [] {
      assert defs[|defs| - 1] in defs;
      SameWordsSameSignals(defs[..|defs| - 1], k, d, e);
    }
  }

  /** Exactly which frames re-encoding leaves alone, told from the frame: every active raw
      value comes back to itself, and no other bit is set. */
  lemma FixedPointsExact(defs: seq<SignalDef>, d: Data)
    requires Reportable(defs)
    ensures Rebuild(defs, d) == d <==>
            FrameKept(defs, d)
            && forall i :: 0 <= i < 64 && d[i] ==> CoveredByActive(defs, SwitchValue(defs, d), i)
  {
    RebuildIsProjection(defs, d);
    if Rebuild(defs, d) == d {
      forall i | 0 <= i < 64
        ensures ProjectedBit(defs, d, i) && (d[i] ==> CoveredByActive(defs, SwitchValue(defs, d), i))
      {
        if !CoveredByActive(defs, SwitchValue(defs, d), i) {
          RebuildClearsTheRest(defs, d, i);
        }
      }
    }
    if FrameKept(defs, d) && forall i :: 0 <= i < 64 && d[i] ==> CoveredByActive(defs, SwitchValue(defs, d), i) {
      forall i | 0 <= i < 64
        ensures Rebuild(defs, d)[i] == d[i]
      {
        assert ProjectedBit(defs, d, i);
      }
    }
  }

  /** The command names every active signal and no other. */
  ghost predicate NamesExactlyActive(defs: seq<SignalDef>, values: Values)
    requires Decodable(defs)
  {
    forall s :: s in defs ==> (s.name in values <==> Active(s, CommandedSwitch(defs, values)))
  }

  /** The frames that re-encoding leaves alone are exactly those some complete command
      builds. */
  lemma FixedPointsAreBuiltFrames(defs: seq<SignalDef>, d: Data)
    requires Rebuildable(defs)
    ensures Rebuild(defs, d) == d <==> exists v :: NamesExactlyActive(defs, v) && Encode(defs, v) == d
  {
    ReportedValues(defs, d);
    assert NamesExactlyActive(defs, Reported(defs, d));
    if v :| NamesExactlyActive(defs, v) && Encode(defs, v) == d {
      SwitchArrives(defs, v);
      forall s | s in defs && s.name in v
        ensures Word(s, Reported(defs, d)[s.name]) == Word(s, v[s.name])
      {
        ActiveReadBack(defs, v, s);
        EncodeDecodeEncode(s, v[s.name]);
      }
      SameWordsSameFrame(defs, Reported(defs, d), v);
    }
  }

  /** The shipped brake signal: steps of 0.4 up to 100. */
  function Brake(): SignalDef {
    SignalDef("brake", 40, 8, false, false, false, false, 0, 0.4, 0.0, 0.0, 100.0, "%")
  }

  lemma BrakeSaturates(raw: int)
    requires Brake().Usable() && 250 < raw <= Brake().MaxRaw()
    ensures ToPhysical(Brake(), raw as real) == 100.0
    ensures 250 <= Brake().MaxRaw() && EncodeRaw(Brake(), 100.0) == 250
  {
    assert Scaled(Brake(), raw as real) >= 100.4;
    EncodeUnclamped(Brake(), 250, 100.0);
  }

  /** In every message that has it, raw brake values above 250 decode to 100 and come back
      as 250. */
  lemma OutOfRangeIsNotKept(defs: seq<SignalDef>, d: Data)
    requires Reportable(defs) && Brake() in defs
    requires RawOf(Brake(), Read(d, Brake().Range())) > 250
    ensures !FrameKept(defs, d)
    ensures RawOf(Brake(), Read(Rebuild(defs, d), Brake().Range())) == 250
  {
    BrakeSaturates(RawOf(Brake(), Read(d, Brake().Range())));
    RawOfWord(Brake(), 250);
    Rebuilt(defs, d);
    KeptActiveExact(defs, d, Brake());
  }

  /** A value outside the declared range may be kept all the same: with the range starting at
      3.5, raw 3 decodes to 3.5, which truncates back to 3. */
  lemma OutOfRangeYetKept(s: SignalDef)
    requires s.Usable() && s.length == 8 && !s.isSigned
    requires s.scale == 1.0 && s.offset == 0.0 && s.min == 3.5 && s.max == 100.0
    ensures KeepsRaw(s, 3) && !(s.min <= Scaled(s, 3.0))
  {
  }
}
