/** The two ends put together: from one device, over the wire, to two mirrored registries. */
module EndToEnd {
  import opened Bytes
  import opened Messages
  import opened Transport
  import opened Descriptors
  import opened EndpointList
  import opened Registry
  import opened RegistryInvariant
  import opened Mirror
  import opened InitPacket
  import opened PacketBounds
  import opened InitBuilder
  import opened InitParser
  import opened GadgetRegistry
  import opened DriverRegistry
  import RegistryRuns
  import ControlRegistries

  /** The identity the gadget parsed and the interfaces the driver sees are the same flat list of settings. */
  lemma ParsedIsBound(identity: IdentityState, id: Identity)
    requires identity.Holds(id) && AllStandard(id.settings)
    ensures identity.nbInt <= identity.interfaces.Length && AllReady(identity.interfaces[..identity.nbInt])
    ensures Entries(identity.interfaces[..identity.nbInt]) == Bound(AltsOf(id.settings)).entries
  {
    var slots, alts := identity.interfaces[..identity.nbInt], AltsOf(id.settings);
    forall i | 0 <= i < |slots|
      ensures SlotReady(slots[i]) && EntryOf(slots[i]) == Entry(alts[i], false)
    {
      SlotIsSetting(slots[i], id.settings[i]);
    }
  }

  lemma SlotIsSetting(slot: Slot, s: Setting)
    requires SlotHolds(slot, s) && Standard(s)
    ensures SlotReady(slot) && EntryOf(slot) == Entry(AltOf(s), false)
  {
    forall k | 0 <= k < |s.endpoints|
      ensures ENDPOINT_SIZE <= |slot.endpoints[k]| && IdOf(slot.endpoints[k]) == IdOf(s.endpoints[k])
    {
      assert s.endpoints[k] in s.endpoints && s.endpoints[k] <= slot.endpoints[k];
      assert slot.endpoints[k][2] == s.endpoints[k][2] && slot.endpoints[k][3] == s.endpoints[k][3];
    }
    assert SlotIds(slot) == Ids(s);
  }

  lemma AltsAppend(a: seq<Setting>, b: seq<Setting>)
    requires AllUsable(a + b)
    ensures AllUsable(a) && AllUsable(b) && AltsOf(a + b) == AltsOf(a) + AltsOf(b)
  {
    assert forall k | 0 <= k < |a| :: a[k] == (a + b)[k];
    assert forall k | 0 <= k < |b| :: b[k] == (a + b)[|a| + k];
    hide Usable, AltOf;
    var whole := AltsOf(a + b);
    forall k | 0 <= k < |a + b|
      ensures whole[k] == (AltsOf(a) + AltsOf(b))[k]
    {
      assert (a + b)[k] == if k < |a| then a[k] else b[k - |a|];
    }
  }

  lemma {:induction false} FlatAlts(interfaces: Interfaces)
    requires AllStandard(Concat(interfaces))
    ensures RowsUsable(interfaces)
    ensures Concat(ConfigOf(interfaces)) == AltsOf(Concat(interfaces))
    decreases |interfaces|
  {
    if interfaces != [] {
      var init, row := interfaces[..|interfaces| - 1], interfaces[|interfaces| - 1];
      AltsAppend(Concat(init), row);
      assert forall k | 0 <= k < |Concat(init)| :: Concat(init)[k] == Concat(interfaces)[k];
      FlatAlts(init);
      hide AllStandard, AllUsable, AltsOf;
      assert interfaces == init + [row];
      assert ConfigOf(interfaces)[..|init|] == ConfigOf(init);
    }
  }

  // ------------------------------------------------- from the device to the identity

  /** Within the documented limits a device takes few bytes. */
  lemma {:induction false} LimitedCount(settings: seq<Setting>)
    requires AllStandard(settings) && AllDescribed(settings)
    requires forall i | 0 <= i < |settings| :: |settings[i].endpoints| <= MAX_ENDPOINTS
    ensures CountPass(settings) <= |settings| * (INTERFACE_SIZE + MAX_ENDPOINTS * ENDPOINT_SIZE)
  {
    if settings != [] {
      LimitedCount(settings[..|settings| - 1]);
      assert Standard(settings[|settings| - 1]);
    }
  }

  /** So its packet, and seven bytes more, fit the receive buffer. */
  lemma LimitedSize(d: Device)
    requires StandardDevice(d) && SettingsFit(Concat(d.interfaces))
    ensures |Serialize(d)| == SizePass(d) <= 4191
  {
    FillFitsAllocation(d);
    LimitedCount(Concat(d.interfaces));
  }

  /** The bytes that announce the device: size, type, management type, packet. */
  function Announcement(d: Device): seq<byte>
  {
    Encode32((12 + |Serialize(d)|) % WORD) + Encode32(MANAGEMENT) + Encode32(NEW_DEVICE) + Serialize(d)
  }

  lemma AnnouncementIs(img: seq<byte>, d: Device)
    requires WellFormed(img) && Type(img) == MANAGEMENT && ManagementType(img) == NEW_DEVICE
    requires Data(img) == Serialize(d) && |Serialize(d)| <= MAX_SIZE_MSG
    ensures Wire(img) == Announcement(d)
  {
    DataSizeOf(img);
    assert (12 + |Serialize(d)|) % WORD == Size(img);
    EncodeDecode32(img[SIZE_AT..TYPE_AT]);
    EncodeDecode32(img[TYPE_AT..UNION_AT]);
    EncodeDecode32(img[UNION_AT..16]);
    assert Wire(img) == img[SIZE_AT..TYPE_AT] + img[TYPE_AT..UNION_AT] + img[UNION_AT..16] + img[16..4 + Size(img)];
  }

  /**
   * From a plugged device to the gadget's identity. The driver builds the packet, the socket takes
   * it in pieces, the relay delivers the bytes in any other pieces, the gadget receives them in
   * its buffer, checks and parses them: for every device within the limits the identity in memory
   * is the device's own.
   */
  method Announce(d: Device, raw: Socket, arrivals: seq<Read>, com: Message, identity: IdentityState)
    returns (ret: Parsed, ghost sent: seq<byte>)
    requires StandardDevice(d) && SettingsFit(Concat(d.interfaces))
    requires TakesNoMoreThanOffered(raw) && AlwaysProgresses(raw)
    requires Splits(arrivals, Announcement(d))
    requires ReceiveBuffer(com.mem[..]) && identity.Valid()
    modifies com.mem, identity, identity.interfaces
    ensures ret == Returned(0)
    ensures WellFormed(sent) && CheckMsg(sent) && WellFormed(com.mem[..]) && CheckMsg(com.mem[..])
    ensures identity.Valid() && identity.Holds(Identity(d.speed, d.device, d.conf, Concat(d.interfaces)))
  {
    LimitedSize(d);
    hide Announcement, StandardDevice, SettingsFit, Serialize, WellFormed, Data, Wire, Receive, IdentityState.Holds;
    hide IdentityState.Valid;
    var m, fits := BuildInitPkt(d);
    sent := m.mem[..];
    DataSizeOf(sent);
    AnnouncementIs(sent, d);
    var size, wire, calls := UdpSend(m, raw);
    assert wire == Announcement(d);
    ghost var buffer := com.mem[..];
    Delivery(sent, buffer, arrivals);
    var receipt, stored := UdpRecv(com, arrivals);
    ReceivedPacket(sent, buffer, com.mem[..]);
    ret := ParseBuilt(identity, d, com.mem[..]);
  }

  /** The received image has room behind its data for the parser's last copy. */
  lemma ReceivedPacket(sent: seq<byte>, buffer: seq<byte>, img: seq<byte>)
    requires WellFormed(sent) && ReceiveBuffer(buffer) && Size(sent) <= 4203
    requires img == Patch(buffer, SIZE_AT, Wire(sent))
    ensures WellFormed(img) && Type(img) == Type(sent) && Data(img) == Data(sent)
    ensures 4 + Size(img) + ENDPOINT_SIZE <= |img|
  {
    DeliveredImage(sent, buffer);
    DataSizeOf(sent);
    DataSizeOf(img);
  }

  // -------------------------------------------------------------- to the mirrored ends

  /** The two ends once bound: the driver on the device's interfaces, the gadget on the identity in memory. */
  ghost function BoundDriver(cur: seq<nat>): Driver
  {
    Driver([EP0_OUT, EP0_IN], cur)
  }

  ghost function BoundGadget(identity: IdentityState): Gadget
    reads identity, identity.interfaces
    requires identity.nbInt <= identity.interfaces.Length && AllReady(identity.interfaces[..identity.nbInt])
  {
    Gadget([EP0_OUT, EP0_IN], Entries(identity.interfaces[..identity.nbInt]))
  }

  /** Interfaces as sections 9.6.3 and 9.6.6 of USB 2.0 demand, with alternate 0 selected on each. */
  ghost predicate Plugged(d: Device, cur: seq<nat>)
  {
    && RowsUsable(d.interfaces)
    && ConfigOk(ConfigOf(d.interfaces)) && CurrentOk(ConfigOf(d.interfaces), cur)
    && forall i | 0 <= i < |cur| :: ConfigOf(d.interfaces)[i][cur[i]].alternate == 0
  }

  /** The configuration phase succeeds on both ends, and so does every SET_INTERFACE that follows. */
  ghost predicate AllGoesWell(d: Device, g: Gadget, cur: seq<nat>, driver: AllOutcomes, gadget: AllOutcomes,
                              ops: seq<Both>)
    requires Plugged(d, cur)
  {
    var config, configured := ConfigOf(d.interfaces), ConfigureDriver(BoundDriver(cur), ConfigOf(d.interfaces), driver);
    configured.1 && ConfigReply(g, gadget).1 && AllSucceed(Ends(configured.0, ConfigReply(g, gadget).0), config, ops)
  }

  ghost predicate SameEndpoints(e: Ends)
  {
    Elements(e.driver.list) == Elements(e.gadget.list) && NoDup(e.driver.list) && NoDup(e.gadget.list)
  }

  ghost predicate Mirrors(d: Device, g: Gadget, cur: seq<nat>, driver: AllOutcomes, gadget: AllOutcomes, ops: seq<Both>)
  {
    Plugged(d, cur) && AllGoesWell(d, g, cur, driver, gadget, ops) ==>
      var config := ConfigOf(d.interfaces);
      SameEndpoints(RunBoth(Ends(ConfigureDriver(BoundDriver(cur), config, driver).0, ConfigReply(g, gadget).0),
        config, ops))
  }

  lemma HeldMirrors(d: Device, identity: IdentityState, cur: seq<nat>,
                    driver: AllOutcomes, gadget: AllOutcomes, ops: seq<Both>)
    requires StandardDevice(d)
    requires identity.Holds(Identity(d.speed, d.device, d.conf, Concat(d.interfaces)))
    ensures identity.nbInt <= identity.interfaces.Length && AllReady(identity.interfaces[..identity.nbInt])
    ensures Mirrors(d, BoundGadget(identity), cur, driver, gadget, ops)
  {
    FlatAlts(d.interfaces);
    ParsedIsBound(identity, Identity(d.speed, d.device, d.conf, Concat(d.interfaces)));
    var config := ConfigOf(d.interfaces);
    assert BoundGadget(identity) == Bound(Concat(config));
    if Plugged(d, cur) && AllGoesWell(d, BoundGadget(identity), cur, driver, gadget, ops) {
      EndsMirror(config, BoundDriver(cur), driver, gadget, ops);
    }
  }

  /**
   * The whole way: a device is announced over the wire and parsed, both ends bind, are configured,
   * and follow any SET_INTERFACE requests that succeed on both. They list the same endpoints.
   */
  method DeviceMirrored(d: Device, raw: Socket, arrivals: seq<Read>, com: Message, identity: IdentityState)
    requires StandardDevice(d) && SettingsFit(Concat(d.interfaces))
    requires TakesNoMoreThanOffered(raw) && AlwaysProgresses(raw)
    requires Splits(arrivals, Announcement(d))
    requires ReceiveBuffer(com.mem[..]) && identity.Valid()
    modifies com.mem, identity, identity.interfaces
    ensures identity.nbInt <= identity.interfaces.Length && AllReady(identity.interfaces[..identity.nbInt])
    ensures forall cur, driver, gadget, ops :: Mirrors(d, BoundGadget(identity), cur, driver, gadget, ops)
  {
    var ret, sent := Announce(d, raw, arrivals, com, identity);
    FlatAlts(d.interfaces);
    ParsedIsBound(identity, Identity(d.speed, d.device, d.conf, Concat(d.interfaces)));
    forall cur, driver, gadget, ops
      ensures Mirrors(d, BoundGadget(identity), cur, driver, gadget, ops)
    {
      HeldMirrors(d, identity, cur, driver, gadget, ops);
    }
  }

  /**
   * Both ends bound over one device, from its announcement to their memory: the pair starts in the
   * state from which every run of RegistryRuns and RegistryMirror starts.
   */
  method BindBoth(d: Device, raw: Socket, arrivals: seq<Read>, com: Message, identity: IdentityState, cur: seq<nat>)
    returns (pair: ControlRegistries.Pair)
    requires StandardDevice(d) && SettingsFit(Concat(d.interfaces)) && Plugged(d, cur)
    requires TakesNoMoreThanOffered(raw) && AlwaysProgresses(raw)
    requires Splits(arrivals, Announcement(d))
    requires ReceiveBuffer(com.mem[..]) && identity.Valid()
    modifies com.mem, identity, identity.interfaces
    ensures fresh(pair) && pair.Valid() && pair.g.identity == identity
    ensures pair.config == ConfigOf(d.interfaces) && pair.w == RegistryRuns.Fresh(pair.config, cur)
  {
    var ret, sent := Announce(d, raw, arrivals, com, identity);
    hide ConfigOk, StandardDevice, SettingsFit, Announcement, Splits, ReceiveBuffer;
    FlatAlts(d.interfaces);
    ParsedIsBound(identity, Identity(d.speed, d.device, d.conf, Concat(d.interfaces)));
    var g := new GadgetState(identity);
    var driver := new DriverState(d.interfaces, cur);
    pair := new ControlRegistries.Pair(g, driver);
  }
}
