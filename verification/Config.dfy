/** The configured buses, and the whitelist of frame identifiers built from them. */
module Config {
  import opened Results
  import opened Codec
  import opened Latching

  /** One SocketCAN interface: its DBC store, if configured, and the identifiers to latch. */
  datatype Bus = Bus(db: Option<DbcStore>, latchFrameIDs: seq<FrameId>)

  type Buses = map<string, Bus>

  ghost predicate ValidBuses(cfg: Buses) {
    forall bus :: bus in cfg ==> DecodableStore(cfg[bus].db)
  }

  function WhitelistOf(cfg: Buses): Whitelist {
    map bus | bus in cfg :: set id | id in cfg[bus].latchFrameIDs
  }

  /** The start-up loop over the interfaces, in whatever order the map yields them. */
  method BuildWhitelist(cfg: Buses) returns (latchFrameIDSet: Whitelist)
    ensures latchFrameIDSet == WhitelistOf(cfg)
    ensures forall bus :: bus in latchFrameIDSet <==> bus in cfg
    ensures forall bus, id :: bus in cfg ==> (id in latchFrameIDSet[bus] <==> id in cfg[bus].latchFrameIDs)
  {
    latchFrameIDSet := map[];
    var rest := cfg.Keys;
    while rest != {}
      invariant rest <= cfg.Keys
      invariant latchFrameIDSet.Keys == cfg.Keys - rest
      invariant forall bus :: bus in latchFrameIDSet ==> latchFrameIDSet[bus] == WhitelistOf(cfg)[bus]
      decreases rest
    {
      var ifName :| ifName in rest;
      var ids := cfg[ifName].latchFrameIDs;
      var idSet: set<FrameId> := {};
      for i := 0 to |ids|
        invariant idSet == set id | id in ids[..i]
      {
        assert forall id :: id in ids[..i + 1] <==> id in ids[..i] || id == ids[i];
        idSet := idSet + {ids[i]};
      }
      assert ids[..|ids|] == ids;
      latchFrameIDSet := latchFrameIDSet[ifName := idSet];
      rest := rest - {ifName};
    }
  }
}
