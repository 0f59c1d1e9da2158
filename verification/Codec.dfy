/** What encoding a command into a frame and decoding a frame into signals mean. The
    methods that do it are in CanHandler; the theorems are in RoundTrip and Reencode. */
module Codec {
  import opened Results
  import opened Bits
  import opened Layout
  import opened Physical

  type FrameId = n: nat | n < 0x1_0000_0000

  datatype Signal = Signal(name: string, value: real, unit: string)

  datatype DecodeMsg = DecodeMsg(busID: string, frameID: FrameId, signals: seq<Signal>)

  datatype Frame = Frame(id: FrameId, length: nat, data: Data, isExtended: bool, isRemote: bool)

  datatype Message = Message(
    name: string,
    id: FrameId,
    isExtended: bool,
    length: nat,
    senderNode: string,
    signals: seq<SignalDef>
  )

  datatype DbcStore = DbcStore(version: string, msgs: map<FrameId, Message>)

  datatype FrameError = NoDbcLoaded | NoMessageDefinition

  /** Physical values by signal name. */
  type Values = map<string, real>

  ghost predicate AllUsable(defs: seq<SignalDef>) {
    forall s :: s in defs ==> s.Usable()
  }

  // ---------------------------------------------------------------- encoding

  /** The last value a signal list gives to each name. */
  function Latest(sigs: seq<Signal>): Values {
    if sigs == [] then map[]
    else
      var last := sigs[|sigs| - 1];
      Latest(sigs[..|sigs| - 1])[last.name := last.value]
  }

  lemma {:induction false} LastOccurrence(sigs: seq<Signal>, name: string) returns (i: int)
    ensures -1 <= i < |sigs| && forall j :: i < j < |sigs| ==> sigs[j].name != name
    ensures i < 0 ==> name !in Latest(sigs)
    ensures i >= 0 ==> sigs[i].name == name && name in Latest(sigs) && Latest(sigs)[name] == sigs[i].value
  {
    i := |sigs| - 1;
    if i >= 0 && sigs[i].name != name {
      i := LastOccurrence(sigs[..i], name);
    }
  }

  /** The value a name gets is that of its last occurrence in the command. */
  lemma LatestIsLast(sigs: seq<Signal>, name: string)
    ensures name in Latest(sigs) <==> exists i :: 0 <= i < |sigs| && sigs[i].name == name
    ensures name in Latest(sigs) ==>
              exists i :: 0 <= i < |sigs| && sigs[i].name == name && sigs[i].value == Latest(sigs)[name]
                          && forall j :: i < j < |sigs| ==> sigs[j].name != name
  {
    var i := LastOccurrence(sigs, name);
  }

  /** The word an encoder stores for physical value `p`. */
  function Word(s: SignalDef, p: real): (word: seq<bool>)
    requires s.Usable()
    ensures |word| == s.length
  {
    WordOf(s, EncodeRaw(s, p))
  }

  function Apply(d: Data, s: SignalDef, values: Values): Data
    requires s.Usable()
  {
    if s.name in values then Write(d, s.Range(), Word(s, values[s.name])) else d
  }

  /** Starting from zero data, the definitions are written in order. */
  function Encode(defs: seq<SignalDef>, values: Values): Data
    requires AllUsable(defs)
  {
    if defs == [] then ZeroData()
    else Apply(Encode(defs[..|defs| - 1], values), defs[|defs| - 1], values)
  }

  ghost predicate UsableStore(db: Option<DbcStore>) {
    db.Some? ==> forall id :: id in db.value.msgs ==> AllUsable(db.value.msgs[id].signals)
  }

  function EncodeFrame(db: Option<DbcStore>, msg: DecodeMsg): Result<Frame, FrameError>
    requires UsableStore(db)
  {
    if db.None? then Err(NoDbcLoaded)
    else if msg.frameID !in db.value.msgs then Err(NoMessageDefinition)
    else
      var m := db.value.msgs[msg.frameID];
      Ok(Frame(msg.frameID, 8, Encode(m.signals, Latest(msg.signals)), m.isExtended, false))
  }

  // ---------------------------------------------------------------- decoding

  function UnmarshalPhysical(s: SignalDef, d: Data): real
    requires s.Usable()
  {
    DecodeWord(s, Read(d, s.Range()))
  }

  /** The first definition marked as multiplexer switch. */
  function MultiplexerSignal(defs: seq<SignalDef>): (r: Option<SignalDef>)
    ensures r.Some? ==> r.value in defs && r.value.isMultiplexer
    ensures r.None? ==> forall s :: s in defs ==> !s.isMultiplexer
  {
    if defs == [] then None
    else if defs[0].isMultiplexer then Some(defs[0])
    else MultiplexerSignal(defs[1..])
  }

  /** The values for which Go defines the conversion from floating point to `uint`. */
  ghost predicate FitsUint(s: SignalDef)
    requires s.length >= 1
  {
    forall word: seq<bool> :: |word| == s.length ==> 0.0 <= DecodeWord(s, word) < Pow2(64) as real
  }

  /** Every signal can be decoded, and the switch, if any, converts to an unsigned value. */
  ghost predicate Decodable(defs: seq<SignalDef>) {
    && AllUsable(defs)
    && (MultiplexerSignal(defs).Some? ==> FitsUint(MultiplexerSignal(defs).value))
  }

  function SwitchValue(defs: seq<SignalDef>, d: Data): (k: Option<nat>)
    requires Decodable(defs)
  {
    match MultiplexerSignal(defs)
    case None => None
    case Some(s) => Some(UnmarshalPhysical(s, d).Floor)
  }

  predicate Active(s: SignalDef, k: Option<nat>) {
    s.isMultiplexed ==> k == Some(s.multiplexerValue)
  }

  /** The active definitions in order, each with its value in `d`. */
  function DecodeActive(defs: seq<SignalDef>, k: Option<nat>, d: Data): seq<Signal>
    requires AllUsable(defs)
  {
    if defs == [] then []
    else
      var s := defs[|defs| - 1];
      DecodeActive(defs[..|defs| - 1], k, d) +
      if Active(s, k) then [Signal(s.name, UnmarshalPhysical(s, d), s.unit)] else []
  }

  function Decode(defs: seq<SignalDef>, d: Data): seq<Signal>
    requires Decodable(defs)
  {
    DecodeActive(defs, SwitchValue(defs, d), d)
  }

  ghost predicate DecodableStore(db: Option<DbcStore>) {
    db.Some? ==> forall id :: id in db.value.msgs ==> Decodable(db.value.msgs[id].signals)
  }

  function DecodeFrame(db: Option<DbcStore>, f: Frame): seq<Signal>
    requires DecodableStore(db)
  {
    if db.None? || f.id !in db.value.msgs then []
    else Decode(db.value.msgs[f.id].signals, f.data)
  }

  // ---------------------------------------------------------------- frame contents

  /** The last named definition that covers bit `i`: the one whose value is found there. */
  function Owner(defs: seq<SignalDef>, values: Values, i: nat): (r: Option<SignalDef>)
    requires AllUsable(defs) && i < 64
    ensures r.Some? ==> r.value in defs && r.value.name in values && Covers(r.value.Range(), i)
    ensures r.None? ==> forall s :: s in defs && s.name in values ==> !Covers(s.Range(), i)
  {
    if defs == [] then None
    else
      var s := defs[|defs| - 1];
      assert s in defs;
      if s.name in values && Covers(s.Range(), i) then Some(s)
      else Owner(defs[..|defs| - 1], values, i)
  }

  /** Every bit of an encoded frame, overlapping definitions included. */
  lemma {:induction false} EncodedBit(defs: seq<SignalDef>, values: Values, i: nat)
    requires AllUsable(defs) && i < 64
    ensures Encode(defs, values)[i] ==
            match Owner(defs, values, i)
            case None => false
            case Some(s) => Word(s, values[s.name])[Weight(s.Range(), i)]
  {
    if defs != [] {
      EncodedBit(defs[..|defs| - 1], values, i);
    }
  }

  /** Commands that agree on the definitions covering a bit agree on that bit: changing
      the value of one name alters bits of that name only. */
  lemma {:induction false} NonInterference(defs: seq<SignalDef>, v: Values, w: Values, i: nat)
    requires AllUsable(defs) && i < 64
    requires forall s :: s in defs && Covers(s.Range(), i) ==>
               (s.name in v <==> s.name in w) && (s.name in v ==> v[s.name] == w[s.name])
    ensures Encode(defs, v)[i] == Encode(defs, w)[i]
  {
    if defs != [] {
      NonInterference(defs[..|defs| - 1], v, w, i);
      assert defs[|defs| - 1] in defs;
    }
  }

  /** No two different definitions share a bit. */
  ghost predicate PairwiseDisjoint(defs: seq<SignalDef>)
    requires AllUsable(defs)
  {
    forall s, t :: s in defs && t in defs && s != t ==> Disjoint(s.Range(), t.Range())
  }

  lemma SameOwner(defs: seq<SignalDef>, other: seq<SignalDef>, values: Values, i: nat)
    requires AllUsable(defs) && AllUsable(other) && PairwiseDisjoint(defs) && i < 64
    requires forall s :: s in defs <==> s in other
    ensures Owner(defs, values, i) == Owner(other, values, i)
  {
  }

  /** With disjoint definitions the frame does not depend on their order. */
  lemma OrderOfDefinitions(defs: seq<SignalDef>, other: seq<SignalDef>, values: Values)
    requires multiset(defs) == multiset(other)
    requires AllUsable(defs) && AllUsable(other) && PairwiseDisjoint(defs)
    ensures Encode(defs, values) == Encode(other, values)
  {
    assert forall s :: s in defs <==> s in multiset(defs);
    assert forall s :: s in other <==> s in multiset(other);
    forall i | 0 <= i < 64
      ensures Encode(defs, values)[i] == Encode(other, values)[i]
    {
      EncodedBit(defs, values, i);
      EncodedBit(other, values, i);
      SameOwner(defs, other, values, i);
    }
  }

  // ---------------------------------------------------------------- by position

  lemma LatestAt(sigs: seq<Signal>, p: nat)
    requires p < |sigs| && forall q :: p < q < |sigs| ==> sigs[q].name != sigs[p].name
    ensures sigs[p].name in Latest(sigs) && Latest(sigs)[sigs[p].name] == sigs[p].value
  {
    LatestIsLast(sigs, sigs[p].name);
  }

  /** Frame bit `i` lies in the range the definition's fields give. */
  predicate SitsAt(s: SignalDef, i: nat) {
    var r := BitRange(s.start, s.length, s.isBigEndian);
    i < 64 && InFrame(r) && Covers(r, i)
  }

  lemma {:induction false} LastOwner(defs: seq<SignalDef>, values: Values, i: nat, n: nat)
    requires AllUsable(defs) && i < 64 && n < |defs|
    requires defs[n].name in values && SitsAt(defs[n], i)
    requires forall m :: n < m < |defs| && defs[m].name in values ==> !SitsAt(defs[m], i)
    ensures Owner(defs, values, i) == Some(defs[n])
  {
    assert defs[|defs| - 1] in defs;
    if n < |defs| - 1 {
      LastOwner(defs[..|defs| - 1], values, i, n);
    }
  }

  /** The frame by positions in the two lists. Bit `i` is that of definition `n`, the last
      one there among those the command names, and it is a bit of the raw value of entry
      `p`, the last one the command has under that name. */
  lemma FrameBit(defs: seq<SignalDef>, sigs: seq<Signal>, i: nat, n: nat, p: nat)
    requires AllUsable(defs) && n < |defs| && defs[n].Usable() && SitsAt(defs[n], i)
    requires p < |sigs| && sigs[p].name == defs[n].name
    requires forall q :: p < q < |sigs| ==> sigs[q].name != defs[n].name
    requires forall m, q :: n < m < |defs| && 0 <= q < |sigs| && sigs[q].name == defs[m].name ==> !SitsAt(defs[m], i)
    ensures var w := Weight(BitRange(defs[n].start, defs[n].length, defs[n].isBigEndian), i);
            Encode(defs, Latest(sigs))[i] <==> EncodeRaw(defs[n], sigs[p].value) / Pow2(w) % 2 == 1
  {
    LatestAt(sigs, p);
    forall m | n < m < |defs| && defs[m].name in Latest(sigs)
      ensures !SitsAt(defs[m], i)
    {
      LatestIsLast(sigs, defs[m].name);
    }
    LastOwner(defs, Latest(sigs), i, n);
    OwnedBit(defs, Latest(sigs), i, defs[n]);
  }

  lemma OwnedBit(defs: seq<SignalDef>, values: Values, i: nat, s: SignalDef)
    requires AllUsable(defs) && i < 64 && Owner(defs, values, i) == Some(s)
    requires s.Usable() && s.name in values
    ensures Encode(defs, values)[i] <==> EncodeRaw(s, values[s.name]) / Pow2(Weight(s.Range(), i)) % 2 == 1
  {
    EncodedBit(defs, values, i);
    WordBits(s, EncodeRaw(s, values[s.name]), Weight(s.Range(), i));
  }

  /** A bit that no named definition covers is zero. */
  lemma BlankBit(defs: seq<SignalDef>, sigs: seq<Signal>, i: nat)
    requires AllUsable(defs) && i < 64
    requires forall m, q :: 0 <= m < |defs| && 0 <= q < |sigs| && sigs[q].name == defs[m].name ==> !SitsAt(defs[m], i)
    ensures !Encode(defs, Latest(sigs))[i]
  {
    EncodedBit(defs, Latest(sigs), i);
    var o := Owner(defs, Latest(sigs), i);
    if o.Some? {
      LatestIsLast(sigs, o.value.name);
    }
  }

  /** Position `n` is that of the first multiplexer switch, or past the end without one. */
  predicate FirstSwitch(defs: seq<SignalDef>, n: nat) {
    && n <= |defs|
    && (forall m :: 0 <= m < n ==> !defs[m].isMultiplexer)
    && (n < |defs| ==> defs[n].isMultiplexer)
  }

  lemma {:induction false} FirstSwitchCounts(defs: seq<SignalDef>, n: nat)
    requires FirstSwitch(defs, n)
    ensures MultiplexerSignal(defs) == if n < |defs| then Some(defs[n]) else None
  {
    if defs != [] && n > 0 {
      FirstSwitchCounts(defs[1..], n - 1);
    }
  }

  /** `at` gives, in order and each once, the positions of the active definitions, and `sigs`
      what they report. */
  ghost predicate ReportsAt(defs: seq<SignalDef>, k: Option<nat>, d: Data, sigs: seq<Signal>, at: seq<nat>)
    requires AllUsable(defs)
  {
    && |at| == |sigs|
    && (forall j :: 0 <= j < |at| ==>
          at[j] < |defs| && defs[at[j]] in defs
          && sigs[j] == Signal(defs[at[j]].name, UnmarshalPhysical(defs[at[j]], d), defs[at[j]].unit))
    && (forall j, l :: 0 <= j < l < |at| ==> at[j] < at[l])
    && (forall i :: 0 <= i < |defs| ==> (i in at <==> Active(defs[i], k)))
  }

  lemma ReportsNoMore(init: seq<SignalDef>, s: SignalDef, k: Option<nat>, d: Data, sigs: seq<Signal>, at: seq<nat>)
    requires AllUsable(init) && s.Usable() && ReportsAt(init, k, d, sigs, at) && !Active(s, k)
    ensures AllUsable(init + [s]) && ReportsAt(init + [s], k, d, sigs, at)
  {
    var defs := init + [s];
    assert forall j :: 0 <= j < |init| ==> init[j] == defs[j];
    assert |init| !in at;
  }

  lemma ReportsOneMore(init: seq<SignalDef>, s: SignalDef, k: Option<nat>, d: Data, sigs: seq<Signal>, at: seq<nat>)
    requires AllUsable(init) && s.Usable() && ReportsAt(init, k, d, sigs, at) && Active(s, k)
    ensures AllUsable(init + [s])
    ensures ReportsAt(init + [s], k, d, sigs + [Signal(s.name, UnmarshalPhysical(s, d), s.unit)], at + [|init|])
  {
    var defs, more := init + [s], at + [|init|];
    assert forall j :: 0 <= j < |init| ==> init[j] == defs[j];
    assert forall i :: i in more <==> i in at || i == |init|;
    assert defs[|init|] == s && s in defs;
  }

  lemma {:induction false} ActivePositions(defs: seq<SignalDef>, k: Option<nat>, d: Data) returns (at: seq<nat>)
    requires AllUsable(defs)
    ensures ReportsAt(defs, k, d, DecodeActive(defs, k, d), at)
  {
    at := [];
    if defs != [] {
      var init, s := defs[..|defs| - 1], defs[|defs| - 1];
      at := ActivePositions(init, k, d);
      assert s in defs && defs == init + [s];
      if Active(s, k) {
        ReportsOneMore(init, s, k, d, DecodeActive(init, k, d), at);
        at := at + [|init|];
      } else {
        ReportsNoMore(init, s, k, d, DecodeActive(init, k, d), at);
        assert DecodeActive(defs, k, d) == DecodeActive(init, k, d);
      }
    }
  }

  /** The parsed list by positions: in order, each once, exactly the definitions that are
      not multiplexed or carry the value of the first switch, with name, value and unit. */
  lemma ParsedExactly(defs: seq<SignalDef>, d: Data, n: nat) returns (at: seq<nat>)
    requires Decodable(defs) && FirstSwitch(defs, n)
    ensures |at| == |Decode(defs, d)|
    ensures forall j :: 0 <= j < |at| ==>
              at[j] < |defs| && defs[at[j]].Usable()
              && Decode(defs, d)[j] == Signal(defs[at[j]].name, UnmarshalPhysical(defs[at[j]], d), defs[at[j]].unit)
    ensures forall j, l :: 0 <= j < l < |at| ==> at[j] < at[l]
    ensures n < |defs| ==> defs[n].Usable()
    ensures forall i :: 0 <= i < |defs| ==>
              (i in at <==> defs[i].isMultiplexed ==>
                 n < |defs| && UnmarshalPhysical(defs[n], d).Floor == defs[i].multiplexerValue)
  {
    FirstSwitchCounts(defs, n);
    assert n < |defs| ==> defs[n] in defs;
    at := ActivePositions(defs, SwitchValue(defs, d), d);
  }

  /** The value of a signal of more than one bit in a frame: the affine map `p` of the raw
      value `raw` whose bits the signal's positions hold, moved into the declared range. */
  lemma ValueInFrame(s: SignalDef, d: Data, raw: int, p: real)
    requires s.Usable() && InFrame(BitRange(s.start, s.length, s.isBigEndian))
    requires if s.isSigned then -Pow2(s.length - 1) <= raw < Pow2(s.length - 1) else 0 <= raw < Pow2(s.length)
    requires forall j :: 0 <= j < s.length ==>
               (d[BitAt(BitRange(s.start, s.length, s.isBigEndian), j)] <==> raw / Pow2(j) % 2 == 1)
    requires p == raw as real * s.scale + s.offset
    ensures s.length == 1 ==> UnmarshalPhysical(s, d) == if d[s.start] then 1.0 else 0.0
    ensures s.length > 1 ==>
              UnmarshalPhysical(s, d) ==
              if s.min == 0.0 && s.max == 0.0 then p
              else if s.max < s.min || p < s.min then s.min
              else if p > s.max then s.max else p
  {
    var word := Read(d, s.Range());
    assert forall j :: 0 <= j < s.length ==> word[j] == d[BitAt(s.Range(), j)];
    DecodeMeaning(s, word, raw, p);
    WalkOrder(s.Range(), 0);
  }
}
