/** Filling the message store from the definitions of a parsed DBC file. */
module DbcFile {
  import opened Results
  import opened Layout
  import opened Physical
  import opened Codec

  datatype SignalEntry = SignalEntry(
    name: string,
    startBit: nat,
    size: nat,
    isBigEndian: bool,
    isSigned: bool,
    isMultiplexerSwitch: bool,
    isMultiplexed: bool,
    multiplexerSwitch: nat,
    factor: real,
    offset: real,
    minimum: real,
    maximum: real,
    unit: string
  )

  datatype Def =
    | VersionDef(version: string)
    | MessageDef(messageID: nat, name: string, size: nat, transmitter: string, signals: seq<SignalEntry>)
    | OtherDef

  const EXTENDED_FLAG := 0x8000_0000
  const INDEPENDENT_SIGNALS := 0xC000_0000

  /** The CAN identifier without the flag bit that marks extended identifiers. */
  function ToCAN(messageID: nat): (id: FrameId) {
    messageID % EXTENDED_FLAG
  }

  predicate IsExtended(messageID: nat) {
    messageID != INDEPENDENT_SIGNALS && messageID / EXTENDED_FLAG % 2 == 1
  }

  function Uint8(n: nat): nat {
    n % 256
  }

  function SignalOf(e: SignalEntry): SignalDef {
    SignalDef(e.name, Uint8(e.startBit), Uint8(e.size), e.isBigEndian, e.isSigned, e.isMultiplexerSwitch,
              e.isMultiplexed, e.multiplexerSwitch, e.factor, e.offset, e.minimum, e.maximum, e.unit)
  }

  function MessageOf(d: Def): Message
    requires d.MessageDef?
  {
    Message(d.name, ToCAN(d.messageID), IsExtended(d.messageID), Uint8(d.size), d.transmitter,
            seq(|d.signals|, i requires 0 <= i < |d.signals| => SignalOf(d.signals[i])))
  }

  /** The last definition for an identifier. */
  function LastDef(defs: seq<Def>, id: FrameId): (r: Option<Def>)
    ensures r.Some? ==> r.value in defs && r.value.MessageDef? && ToCAN(r.value.messageID) == id
    ensures r.None? ==> forall d :: d in defs && d.MessageDef? ==> ToCAN(d.messageID) != id
  {
    if defs == [] then None
    else
      var d := defs[|defs| - 1];
      if d.MessageDef? && ToCAN(d.messageID) == id then Some(d) else LastDef(defs[..|defs| - 1], id)
  }

  function LastVersion(defs: seq<Def>): string {
    if defs == [] then ""
    else if defs[|defs| - 1].VersionDef? then defs[|defs| - 1].version
    else LastVersion(defs[..|defs| - 1])
  }

  /** Each identifier finds the message of its last definition, standard and extended
      identifiers that share their number included, and nothing else is stored. */
  ghost predicate Populated(defs: seq<Def>, store: DbcStore) {
    && store.version == LastVersion(defs)
    && (forall id: FrameId :: id in store.msgs <==> LastDef(defs, id).Some?)
    && (forall id: FrameId :: id in store.msgs ==> store.msgs[id] == MessageOf(LastDef(defs, id).value))
  }

  method ParseDbcFile(defs: seq<Def>) returns (store: DbcStore)
    ensures Populated(defs, store)
  {
    var version := "";
    var msgs: map<FrameId, Message> := map[];
    for i := 0 to |defs|
      invariant version == LastVersion(defs[..i])
      invariant forall id: FrameId :: id in msgs <==> LastDef(defs[..i], id).Some?
      invariant forall id: FrameId :: id in msgs ==> msgs[id] == MessageOf(LastDef(defs[..i], id).value)
    {
      assert defs[..i + 1][..i] == defs[..i];
      match defs[i]
      case VersionDef(v) =>
        version := v;
      case MessageDef(messageID, name, size, transmitter, entries) =>
        var signals: seq<SignalDef> := [];
        for j := 0 to |entries|
          invariant |signals| == j
          invariant forall n :: 0 <= n < j ==> signals[n] == SignalOf(entries[n])
        {
          signals := signals + [SignalOf(entries[j])];
        }
        var msg := Message(name, ToCAN(messageID), IsExtended(messageID), Uint8(size), transmitter, signals);
        assert msg.signals == MessageOf(defs[i]).signals;
        msgs := msgs[msg.id := msg];
      case OtherDef =>
    }
    assert defs[..|defs|] == defs;
    store := DbcStore(version, msgs);
  }

  /** A file whose messages are all decodable fills a store every handler can use. */
  lemma PopulatedStoreIsDecodable(defs: seq<Def>, store: DbcStore)
    requires Populated(defs, store)
    requires forall d :: d in defs && d.MessageDef? ==> Decodable(MessageOf(d).signals)
    ensures DecodableStore(Some(store))
  {
  }

  /** Populating is deterministic: a store is fixed by the file. */
  lemma PopulatedIsUnique(defs: seq<Def>, a: DbcStore, b: DbcStore)
    requires Populated(defs, a) && Populated(defs, b)
    ensures a == b
  {
  }

  // ---------------------------------------------------------------- field by field

  /** Definition `n` is the last message definition of the file that has identifier `id`. */
  predicate LastAt(defs: seq<Def>, id: FrameId, n: nat) {
    && n < |defs| && defs[n].MessageDef? && defs[n].messageID % 0x8000_0000 == id
    && forall m :: n < m < |defs| && defs[m].MessageDef? ==> defs[m].messageID % 0x8000_0000 != id
  }

  lemma {:induction false} LastDefAt(defs: seq<Def>, id: FrameId, n: nat)
    requires LastAt(defs, id, n)
    ensures LastDef(defs, id) == Some(defs[n])
  {
    if n < |defs| - 1 {
      LastDefAt(defs[..|defs| - 1], id, n);
    }
  }

  /** The stored definition has the fields of the entry in the file, bit numbers and sizes
      cut to eight bits. */
  predicate SameFields(s: SignalDef, e: SignalEntry) {
    && s.name == e.name && s.unit == e.unit
    && s.start == e.startBit % 256 && s.length == e.size % 256
    && s.isBigEndian == e.isBigEndian && s.isSigned == e.isSigned
    && s.isMultiplexer == e.isMultiplexerSwitch && s.isMultiplexed == e.isMultiplexed
    && s.multiplexerValue == e.multiplexerSwitch
    && s.scale == e.factor && s.offset == e.offset && s.min == e.minimum && s.max == e.maximum
  }

  /** The stored message of an identifier is that of its last definition, field by field and
      signal by signal. The top bit of the identifier in the file marks extended ones, save
      for the pseudo-message that holds independent signals. */
  lemma StoredFields(defs: seq<Def>, store: DbcStore, id: FrameId, n: nat)
    requires Populated(defs, store) && LastAt(defs, id, n)
    ensures id in store.msgs
    ensures var d, m := defs[n], store.msgs[id];
            && m.id == id && m.name == d.name && m.senderNode == d.transmitter && m.length == d.size % 256
            && (d.messageID < 0x8000_0000 ==> !m.isExtended)
            && (0x8000_0000 <= d.messageID < 0x1_0000_0000 ==> (m.isExtended <==> d.messageID != 0xC000_0000))
            && |m.signals| == |d.signals|
    ensures forall j :: 0 <= j < |defs[n].signals| ==>
              var s, e := store.msgs[id].signals[j], defs[n].signals[j];
              && s.name == e.name && s.unit == e.unit
              && s.start == e.startBit % 256 && s.length == e.size % 256
              && s.isBigEndian == e.isBigEndian && s.isSigned == e.isSigned
              && s.isMultiplexer == e.isMultiplexerSwitch && s.isMultiplexed == e.isMultiplexed
              && s.multiplexerValue == e.multiplexerSwitch
              && s.scale == e.factor && s.offset == e.offset && s.min == e.minimum && s.max == e.maximum
  {
    LastDefAt(defs, id, n);
  }

  /** Nothing else is stored. */
  lemma StoredIsDefined(defs: seq<Def>, store: DbcStore, id: FrameId)
    requires Populated(defs, store)
    ensures id in store.msgs <==> exists n :: LastAt(defs, id, n)
  {
    if n :| LastAt(defs, id, n) {
      LastDefAt(defs, id, n);
    }
    if id in store.msgs {
      var n := LastDefPosition(defs, id);
    }
  }

  lemma {:induction false} LastDefPosition(defs: seq<Def>, id: FrameId) returns (n: nat)
    requires LastDef(defs, id).Some?
    ensures LastAt(defs, id, n)
  {
    n := |defs| - 1;
    if !(defs[n].MessageDef? && ToCAN(defs[n].messageID) == id) {
      n := LastDefPosition(defs[..n], id);
    }
  }

  /** The version is that of the last version definition, or empty without one. */
  lemma {:induction false} VersionIsLast(defs: seq<Def>, n: nat)
    requires n <= |defs| && (n < |defs| ==> defs[n].VersionDef?)
    requires forall m :: 0 <= m < |defs| && (m > n || n == |defs|) ==> !defs[m].VersionDef?
    ensures LastVersion(defs) == if n < |defs| then defs[n].version else ""
  {
    if defs != [] && n != |defs| - 1 {
      VersionIsLast(defs[..|defs| - 1], if n == |defs| then n - 1 else n);
    }
  }

  /** What a list of entries reports of a frame, with `q` the first entry marked as switch
      or past the end without one: exactly those that are not multiplexed or whose switch
      value is the one read from entry `q`, in order, each under its own name and unit, with
      the value its own fields give (`Codec.ValueInFrame`). */
  ghost predicate Reports(entries: seq<SignalEntry>, stored: seq<SignalDef>, q: nat, d: Data,
                          sigs: seq<Signal>, at: seq<nat>)
    requires |stored| == |entries| && AllUsable(stored)
  {
    && |at| == |sigs|
    && (forall j, l :: 0 <= j < l < |at| ==> at[j] < at[l])
    && (forall j :: 0 <= j < |at| ==>
          && at[j] < |entries| && stored[at[j]] in stored
          && sigs[j].name == entries[at[j]].name && sigs[j].unit == entries[at[j]].unit
          && sigs[j].value == UnmarshalPhysical(stored[at[j]], d))
    && (q < |entries| ==> stored[q] in stored)
    && (forall i :: 0 <= i < |entries| ==>
          (i in at <==> entries[i].isMultiplexed ==>
             q < |entries| && UnmarshalPhysical(stored[q], d).Floor == entries[i].multiplexerSwitch))
  }

  lemma EntriesDecode(entries: seq<SignalEntry>, stored: seq<SignalDef>, q: nat, d: Data) returns (at: seq<nat>)
    requires |stored| == |entries| && Decodable(stored)
    requires forall i :: 0 <= i < |stored| ==> SameFields(stored[i], entries[i])
    requires q <= |entries| && forall m :: 0 <= m < q ==> !entries[m].isMultiplexerSwitch
    requires q < |entries| ==> entries[q].isMultiplexerSwitch
    ensures Reports(entries, stored, q, d, Decode(stored, d), at)
  {
    at := ParsedExactly(stored, d, q);
  }

  /** From the file to the parsed frame: what is reported is decided by the last definition
      for the frame's identifier, whose entries are stored field by field. */
  lemma FileDecodes(defs: seq<Def>, store: DbcStore, f: Frame, n: nat, q: nat) returns (at: seq<nat>)
    requires Populated(defs, store) && DecodableStore(Some(store)) && LastAt(defs, f.id, n)
    requires q <= |defs[n].signals| && forall m :: 0 <= m < q ==> !defs[n].signals[m].isMultiplexerSwitch
    requires q < |defs[n].signals| ==> defs[n].signals[q].isMultiplexerSwitch
    ensures f.id in store.msgs && |store.msgs[f.id].signals| == |defs[n].signals|
    ensures forall i :: 0 <= i < |defs[n].signals| ==> SameFields(store.msgs[f.id].signals[i], defs[n].signals[i])
    ensures AllUsable(store.msgs[f.id].signals)
    ensures Reports(defs[n].signals, store.msgs[f.id].signals, q, f.data, DecodeFrame(Some(store), f), at)
  {
    StoredFields(defs, store, f.id, n);
    at := EntriesDecode(defs[n].signals, store.msgs[f.id].signals, q, f.data);
  }
}
