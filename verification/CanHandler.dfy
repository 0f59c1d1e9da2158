/** The CAN handler: frames to signals and commands to frames, against one DBC store. */
module CanHandler {
  import opened Results
  import opened Layout
  import opened Physical
  import opened FrameBuffer
  import opened Codec

  datatype SendError = Unencodable(error: FrameError) | TransmitFailed

  class Handler {
    const ifName: string
    const sigDB: Option<DbcStore>

    /** What decoding asks of the store; encoding asks only for `UsableStore`. */
    ghost predicate Valid() {
      DecodableStore(sigDB)
    }

    constructor (ifName: string, sigDB: Option<DbcStore>)
      ensures this.ifName == ifName && this.sigDB == sigDB
    {
      this.ifName := ifName;
      this.sigDB := sigDB;
    }

    method ParseFrame(f: Frame) returns (sigs: seq<Signal>)
      requires Valid()
      ensures sigs == DecodeFrame(sigDB, f)
      ensures sigDB.None? || f.id !in sigDB.value.msgs ==> sigs == []
      ensures sigDB.Some? && f.id in sigDB.value.msgs ==> sigs == Decode(sigDB.value.msgs[f.id].signals, f.data)
    {
      if sigDB.None? || f.id !in sigDB.value.msgs {
        return [];
      }
      var defs := sigDB.value.msgs[f.id].signals;
      sigs := [];
      for i := 0 to |defs|
        invariant sigs == DecodeActive(defs[..i], SwitchValue(defs, f.data), f.data)
      {
        var sigDef := defs[i];
        assert defs[..i + 1][..i] == defs[..i];
        if sigDef.isMultiplexed {
          var switchSignal := MultiplexerSignal(defs);
          if switchSignal.None? {
            continue;
          }
          var switchValue := UnmarshalPhysical(switchSignal.value, f.data).Floor;
          if switchValue != sigDef.multiplexerValue {
            continue;
          }
        }
        var physVal := UnmarshalPhysical(sigDef, f.data);
        sigs := sigs + [Signal(sigDef.name, physVal, sigDef.unit)];
      }
      assert defs[..|defs|] == defs;
    }

    method MakeFrame(msg: DecodeMsg) returns (r: Result<Frame, FrameError>)
      requires UsableStore(sigDB)
      ensures r == EncodeFrame(sigDB, msg)
      ensures sigDB.None? ==> r == Err(NoDbcLoaded)
      ensures sigDB.Some? && msg.frameID !in sigDB.value.msgs ==> r == Err(NoMessageDefinition)
      ensures sigDB.Some? && msg.frameID in sigDB.value.msgs ==>
                var m := sigDB.value.msgs[msg.frameID];
                && r.Ok? && r.value.id == msg.frameID && r.value.length == 8
                && r.value.isExtended == m.isExtended && !r.value.isRemote
                && r.value.data == Encode(m.signals, Latest(msg.signals))
    {
      if sigDB.None? {
        return Err(NoDbcLoaded);
      }
      var data := new bool[64](i => false);
      if msg.frameID !in sigDB.value.msgs {
        return Err(NoMessageDefinition);
      }
      var msgDef := sigDB.value.msgs[msg.frameID];
      var defs := msgDef.signals;
      assert data[..] == ZeroData();
      for i := 0 to |defs|
        invariant fresh(data)
        invariant data[..] == Encode(defs[..i], Latest(msg.signals))
      {
        var sigDef := defs[i];
        ghost var before: Data := data[..];
        assert sigDef in defs;
        for j := 0 to |msg.signals|
          invariant fresh(data)
          invariant data[..] == Apply(before, sigDef, Latest(msg.signals[..j]))
        {
          var sig := msg.signals[j];
          assert msg.signals[..j + 1][..j] == msg.signals[..j];
          if sigDef.name == sig.name {
            SetSignal(data, sigDef, sig.value);
            WriteTwiceApplied(before, sigDef, Latest(msg.signals[..j]), sig.value);
          }
        }
        assert msg.signals[..|msg.signals|] == msg.signals;
        assert defs[..i + 1][..i] == defs[..i];
      }
      assert defs[..|defs|] == defs;
      return Ok(Frame(msg.frameID, 8, data[..], msgDef.isExtended, false));
    }

    /** One received frame of the listening loop: the message to enqueue, if any. */
    method Receive(f: Frame) returns (msg: Option<DecodeMsg>)
      requires Valid()
      ensures msg == Received(ifName, sigDB, f)
      ensures msg.None? <==> DecodeFrame(sigDB, f) == []
      ensures msg.Some? ==>
                msg.value.busID == ifName && msg.value.frameID == f.id
                && msg.value.signals == DecodeFrame(sigDB, f)
    {
      var sigs := ParseFrame(f);
      if |sigs| > 0 {
        return Some(DecodeMsg(ifName, f.id, sigs));
      }
      return None;
    }

    /** `transmitted` says whether the socket took the frame; `sent` is what went out. */
    method SendFrame(msg: DecodeMsg, transmitted: bool) returns (sent: Option<Frame>, r: Result<(), SendError>)
      requires UsableStore(sigDB)
      ensures sent.Some? <==> r.Ok?
      ensures sent.Some? <==> transmitted && EncodeFrame(sigDB, msg).Ok?
      ensures sent.Some? ==> EncodeFrame(sigDB, msg) == Ok(sent.value)
      ensures EncodeFrame(sigDB, msg).Err? ==> r == Err(Unencodable(EncodeFrame(sigDB, msg).error))
      ensures EncodeFrame(sigDB, msg).Ok? && !transmitted ==> r == Err(TransmitFailed)
    {
      var frame := MakeFrame(msg);
      if frame.Err? {
        return None, Err(Unencodable(frame.error));
      }
      if !transmitted {
        return None, Err(TransmitFailed);
      }
      return Some(frame.value), Ok(());
    }
  }

  function Received(bus: string, db: Option<DbcStore>, f: Frame): Option<DecodeMsg>
    requires DecodableStore(db)
  {
    var sigs := DecodeFrame(db, f);
    if |sigs| > 0 then Some(DecodeMsg(bus, f.id, sigs)) else None
  }

  /** The four-way choice of the setter for one signal. */
  method SetSignal(data: array<bool>, sigDef: SignalDef, value: real)
    requires data.Length == 64 && sigDef.Usable()
    modifies data
    ensures data[..] == Write(old(data[..]), sigDef.Range(), Word(sigDef, value))
  {
    var rawValueFloat := FromPhysical(sigDef, value);
    if sigDef.isBigEndian {
      if sigDef.isSigned {
        SetSignedBitsBigEndian(data, sigDef.start, sigDef.length, Trunc(rawValueFloat));
      } else {
        SetUnsignedBitsBigEndian(data, sigDef.start, sigDef.length, Trunc(rawValueFloat));
      }
    } else {
      if sigDef.isSigned {
        SetSignedBitsLittleEndian(data, sigDef.start, sigDef.length, Trunc(rawValueFloat));
      } else {
        SetUnsignedBitsLittleEndian(data, sigDef.start, sigDef.length, Trunc(rawValueFloat));
      }
    }
  }

  lemma WriteTwiceApplied(before: Data, s: SignalDef, values: Values, p: real)
    requires s.Usable()
    ensures Write(Apply(before, s, values), s.Range(), Word(s, p)) == Apply(before, s, values[s.name := p])
  {
  }
}
