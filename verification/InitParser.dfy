/** parse_init_pkt (gadget.c): the nested scanning loops, filling identity_t in place. */
module InitParser {
  import opened Bytes
  import opened Messages
  import opened Descriptors
  import opened InitPacket
  import opened PacketBounds
  import opened Errno

  /** interface_desc_t; each endpoint slot holds the nine bytes of struct usb_endpoint_descriptor. */
  datatype Slot = Slot(desc: seq<byte>, endpoints: seq<seq<byte>>, active: bool)

  const RAW_ENDPOINT := 9

  /** The first slots of `raw` start with the kept bytes of `endpoints`. */
  predicate EndpointsHeld(raw: seq<seq<byte>>, endpoints: seq<seq<byte>>)
  {
    && |raw| == MAX_ENDPOINTS && |endpoints| <= MAX_ENDPOINTS
    && forall k | 0 <= k < |endpoints| :: endpoints[k] <= raw[k] && |raw[k]| == RAW_ENDPOINT
  }

  predicate SlotHolds(slot: Slot, s: Setting)
  {
    slot.desc == s.desc && EndpointsHeld(slot.endpoints, s.endpoints) && !slot.active
  }

  /** identity_t */
  class IdentityState {
    var speed: seq<byte>
    var device: seq<byte>
    var conf: seq<byte>
    var nbInt: nat
    const interfaces: array<Slot>

    ghost predicate Valid()
      reads this, interfaces
    {
      interfaces.Length == MAX_INTERFACES && forall i | 0 <= i < MAX_INTERFACES ::
        |interfaces[i].endpoints| == MAX_ENDPOINTS
    }

    ghost predicate Holds(id: Identity)
      reads this, interfaces
    {
      && speed == id.speed && device == id.device && conf == id.conf
      && nbInt == |id.settings| <= interfaces.Length
      && forall i | 0 <= i < nbInt :: SlotHolds(interfaces[i], id.settings[i])
    }

    constructor ()
      ensures Valid() && nbInt == 0 && fresh(interfaces)
    {
      speed, device, conf, nbInt := [], [], [], 0;
      interfaces := new Slot[MAX_INTERFACES](_ => Slot([], [[], [], [], [], [], [], [], []], false));
    }
  }

  // ----------------------------------------------------- progress of the scan

  ghost predicate BodyInBounds(body: seq<byte>)
  {
    AllTokens(Lex(body)) && InBounds(START, Lex(body))
  }

  /** Scanning `rest` from `st` completes the scan of `body`, whose bounds are decided by what is still to come. */
  ghost predicate Progress(st: Scan, rest: seq<byte>, body: seq<byte>)
  {
    && ScanOk(st) && AllTokens(Lex(rest)) && AllTokens(Lex(body))
    && Run(st, Lex(rest)) == Run(START, Lex(body))
    && (BodyInBounds(body) <==> InBounds(st, Lex(rest)))
  }

  lemma Advance(st: Scan, rest: seq<byte>, body: seq<byte>)
    requires Progress(st, rest, body) && HeaderOk(rest)
    ensures ScanOk(st) && Token(rest[..rest[0]])
    ensures if StepInBounds(st, rest[..rest[0]]) then Progress(Step(st, rest[..rest[0]]), rest[rest[0]..], body)
            else !BodyInBounds(body)
  {
    var t, more := rest[..rest[0]], rest[rest[0]..];
    LexTokens(more);
    RunCons(st, t, Lex(more));
    assert Lex(rest)[1..] == Lex(more);
  }

  lemma Stop(st: Scan, rest: seq<byte>, body: seq<byte>)
    requires Progress(st, rest, body) && !HeaderOk(rest)
    ensures ParseBody(body) == st.done && BodyInBounds(body)
  {
  }

  /** check_descriptor_header */
  method CheckDescriptorHeader(mem: seq<byte>, buffer: nat, size: nat) returns (ok: bool)
    requires buffer + size <= |mem|
    ensures ok == HeaderOk(mem[buffer..buffer + size])
  {
    if size < 2 {
      return false;
    }
    if mem[buffer] > size || mem[buffer] < 2 {
      return false;
    }
    return true;
  }

  ghost predicate DoneHeld(slots: seq<Slot>, done: seq<Setting>)
  {
    && |slots| == MAX_INTERFACES && |done| <= MAX_INTERFACES
    && (forall i | 0 <= i < |slots| :: |slots[i].endpoints| == MAX_ENDPOINTS)
    && forall i | 0 <= i < |done| :: SlotHolds(slots[i], done[i])
  }

  /** The slot being filled holds the endpoints read so far. */
  ghost predicate OpenHeld(slots: seq<Slot>, at: nat, endpoints: seq<seq<byte>>)
  {
    endpoints != [] ==> at < |slots| && EndpointsHeld(slots[at].endpoints, endpoints)
  }

  method StoreEndpoint(identity: IdentityState, at: nat, k: nat, raw: seq<byte>, ghost done: seq<Setting>,
                       ghost endpoints: seq<seq<byte>>, ghost kept: seq<byte>)
    requires |done| == at < MAX_INTERFACES && |endpoints| == k < MAX_ENDPOINTS && |raw| == RAW_ENDPOINT && kept <= raw
    requires DoneHeld(identity.interfaces[..], done) && OpenHeld(identity.interfaces[..], at, endpoints)
    modifies identity.interfaces
    ensures DoneHeld(identity.interfaces[..], done) && OpenHeld(identity.interfaces[..], at, endpoints + [kept])
  {
    var slot := identity.interfaces[at];
    identity.interfaces[at] := slot.(endpoints := slot.endpoints[k := raw]);
  }

  method StoreInterface(identity: IdentityState, at: nat, desc: seq<byte>, ghost done: seq<Setting>,
                        ghost endpoints: seq<seq<byte>>)
    requires |done| == at < MAX_INTERFACES
    requires DoneHeld(identity.interfaces[..], done) && OpenHeld(identity.interfaces[..], at, endpoints)
    modifies identity.interfaces
    ensures DoneHeld(identity.interfaces[..], done + [Setting(desc, endpoints)])
  {
    identity.interfaces[at] := identity.interfaces[at].(desc := desc, active := false);
  }

  /** How a loop over descriptors ends: all read, cut short by a header that does not fit, or outside its memory. */
  datatype Reading = Complete | Cut | Outside

  /** Leaving memory means that the packet exceeds the arrays, or that seven bytes are missing behind it. */
  ghost predicate MayLeave(body: seq<byte>, end: nat, mem: seq<byte>)
  {
    !BodyInBounds(body) || |mem| < end + ENDPOINT_SIZE
  }

  /**
   * The nested endpoint loop. `size` and `buffer` move together; the loop ends with all the
   * announced endpoints read, at a header that does not fit, where the scan stops, or at a copy
   * that would leave the arrays or the received buffer.
   */
  method ReadEndpoints(identity: IdentityState, mem: seq<byte>, d: nat, buffer0: nat, size0: nat, ghost end: nat,
                       iInterface: nat, ghost done: seq<Setting>, ghost body: seq<byte>)
      returns (reading: Reading, buffer: nat, size: nat, ghost endpoints: seq<seq<byte>>)
    requires |done| == iInterface && d + INTERFACE_SIZE <= |mem| && buffer0 + size0 == end <= |mem|
    requires DoneHeld(identity.interfaces[..], done)
    requires Progress(Close(done, Setting(mem[d..d + INTERFACE_SIZE], [])), mem[buffer0..end], body)
    modifies identity.interfaces
    ensures buffer + size == end && buffer >= buffer0
    ensures DoneHeld(identity.interfaces[..], done)
    ensures reading == Complete ==>
              && |endpoints| == mem[d..d + INTERFACE_SIZE][4]
              && OpenHeld(identity.interfaces[..], |done|, endpoints)
              && Progress(Close(done, Setting(mem[d..d + INTERFACE_SIZE], endpoints)), mem[buffer..end], body)
    ensures reading == Cut ==> ParseBody(body) == done && BodyInBounds(body)
    ensures reading == Outside ==> MayLeave(body, end, mem)
  {
    hide Progress, DoneHeld, OpenHeld, BodyInBounds, ParseBody, HeaderOk, Kept;
    buffer, size, endpoints := buffer0, size0, [];
    ghost var desc := mem[d..d + INTERFACE_SIZE];
    var nbEp := mem[d + 4];
    assert desc[4] == nbEp;
    var iEp := 0;
    OpenEmpty(identity.interfaces[..], |done|);
    while iEp < nbEp
      invariant |endpoints| == iEp <= nbEp && desc == mem[d..d + INTERFACE_SIZE]
      invariant buffer + size == end && buffer >= buffer0
      invariant DoneHeld(identity.interfaces[..], done) && OpenHeld(identity.interfaces[..], |done|, endpoints)
      invariant Progress(Close(done, Setting(desc, endpoints)), mem[buffer..end], body)
      decreases size
    {
      var ok := CheckDescriptorHeader(mem, buffer, size);
      if !ok {
        Stop(Close(done, Setting(desc, endpoints)), mem[buffer..end], body);
        return Cut, buffer, size, endpoints;
      }
      InnerStep(mem, buffer, size, end, done, desc, endpoints, body);
      var header := buffer;
      var len := mem[header];
      size := size - len;
      buffer := buffer + len;
      if mem[header + 1] == DT_ENDPOINT {
        // The length test here looks at the interface descriptor, already known to be long enough.
        if iInterface >= MAX_INTERFACES || iEp >= MAX_ENDPOINTS || header + RAW_ENDPOINT > |mem| {
          return Outside, buffer, size, endpoints;
        }
        ghost var kept := Kept(mem[header..header + len]);
        StoreEndpoint(identity, iInterface, iEp, mem[header..header + RAW_ENDPOINT], done, endpoints, kept);
        endpoints := endpoints + [kept];
        iEp := iEp + 1;
      }
    }
    reading := Complete;
  }

  lemma OpenEmpty(slots: seq<Slot>, at: nat)
    ensures OpenHeld(slots, at, [])
  {
  }

  /** What one descriptor does between interfaces. */
  lemma OuterStep(mem: seq<byte>, buffer: nat, size: nat, end: nat, done: seq<Setting>, body: seq<byte>)
    requires buffer + size == end <= |mem|
    requires Progress(Scan(done, None), mem[buffer..end], body) && HeaderOk(mem[buffer..end])
    ensures 2 <= mem[buffer] <= size
    ensures var d, len := buffer, mem[buffer] as int;
            var rest := mem[buffer + len..end];
            if mem[d + 1] == DT_INTERFACE && INTERFACE_SIZE <= len then
              if mem[d + 4] == 0 && |done| >= MAX_INTERFACES then !BodyInBounds(body)
              else |done| <= MAX_INTERFACES ==>
                Progress(Close(done, Setting(mem[d..d + INTERFACE_SIZE], [])), rest, body)
            else |done| <= MAX_INTERFACES ==> Progress(Scan(done, None), rest, body)
  {
    hide Progress, BodyInBounds;
    var here, len := mem[buffer..end], mem[buffer] as int;
    Advance(Scan(done, None), here, body);
    assert here[len..] == mem[buffer + len..end];
    var t := here[..len];
    if here[1] == DT_INTERFACE && INTERFACE_SIZE <= len {
      assert t == mem[buffer..buffer + len];
      SliceOfSlice(mem, buffer, buffer + len, 0, INTERFACE_SIZE);
    }
  }

  /** What one descriptor does while the endpoints of an interface are being read. */
  lemma InnerStep(mem: seq<byte>, buffer: nat, size: nat, end: nat, done: seq<Setting>, desc: seq<byte>,
                  endpoints: seq<seq<byte>>, body: seq<byte>)
    requires buffer + size == end <= |mem| && |desc| == INTERFACE_SIZE && |endpoints| < desc[4]
    requires Progress(Close(done, Setting(desc, endpoints)), mem[buffer..end], body)
    requires HeaderOk(mem[buffer..end])
    ensures 2 <= mem[buffer] <= size
    ensures var len := mem[buffer] as int;
            var t, rest := mem[buffer..buffer + len], mem[buffer + len..end];
            if mem[buffer + 1] == DT_ENDPOINT then
              if |done| >= MAX_INTERFACES || |endpoints| >= MAX_ENDPOINTS then !BodyInBounds(body)
              else
                && (buffer + RAW_ENDPOINT <= |mem| ==> Kept(t) <= mem[buffer..buffer + RAW_ENDPOINT])
                && Progress(Close(done, Setting(desc, endpoints + [Kept(t)])), rest, body)
            else Progress(Close(done, Setting(desc, endpoints)), rest, body)
  {
    hide Progress, BodyInBounds;
    var here, len := mem[buffer..end], mem[buffer] as int;
    Advance(Close(done, Setting(desc, endpoints)), here, body);
    assert here[len..] == mem[buffer + len..end];
    assert here[..len] == mem[buffer..buffer + len];
    if mem[buffer + 1] == DT_ENDPOINT && buffer + RAW_ENDPOINT <= |mem| {
      var kept, raw := Kept(here[..len]), mem[buffer..buffer + RAW_ENDPOINT];
      assert kept == raw[..|kept|];
    }
  }

  /** One interface descriptor of the outer loop, at `d`, with its endpoints from `buffer0` on. */
  method ReadInterface(identity: IdentityState, mem: seq<byte>, d: nat, buffer0: nat, size0: nat, ghost end: nat,
                       iInterface: nat, ghost done: seq<Setting>, ghost body: seq<byte>)
      returns (reading: Reading, buffer: nat, size: nat, ghost now: seq<Setting>)
    requires |done| == iInterface <= MAX_INTERFACES && d + INTERFACE_SIZE <= |mem| && buffer0 + size0 == end <= |mem|
    requires DoneHeld(identity.interfaces[..], done)
    requires if mem[d + 4] == 0 && |done| >= MAX_INTERFACES then !BodyInBounds(body)
             else Progress(Close(done, Setting(mem[d..d + INTERFACE_SIZE], [])), mem[buffer0..end], body)
    modifies identity.interfaces
    ensures buffer + size == end && buffer >= buffer0
    ensures DoneHeld(identity.interfaces[..], now)
    ensures |now| == if reading == Complete then |done| + 1 else |done|
    ensures reading == Complete ==> Progress(Scan(now, None), mem[buffer..end], body)
    ensures reading == Cut ==> ParseBody(body) == now && BodyInBounds(body)
    ensures reading == Outside ==> MayLeave(body, end, mem)
  {
    hide Progress, DoneHeld, OpenHeld, BodyInBounds, ParseBody;
    now := done;
    var desc := mem[d..d + INTERFACE_SIZE];
    if desc[4] == 0 && iInterface >= MAX_INTERFACES {
      return Outside, buffer0, size0, done;
    }
    ghost var endpoints;
    reading, buffer, size, endpoints := ReadEndpoints(identity, mem, d, buffer0, size0, end, iInterface, done, body);
    if reading == Complete {
      HeldFacts(identity.interfaces[..], done);
      if iInterface >= MAX_INTERFACES {
        OpenFits(identity.interfaces[..], iInterface, endpoints);
      }
      StoreInterface(identity, iInterface, desc, done, endpoints);
      now := done + [Setting(desc, endpoints)];
    }
  }

  /** One round of the outer loop: a descriptor is skipped, or read as an interface. */
  method ReadDescriptor(identity: IdentityState, mem: seq<byte>, buffer0: nat, size0: nat, ghost end: nat,
                        iInterface: nat, ghost done: seq<Setting>, ghost body: seq<byte>)
      returns (reading: Reading, buffer: nat, size: nat, next: nat, ghost now: seq<Setting>)
    requires |done| == iInterface && buffer0 + size0 == end <= |mem|
    requires DoneHeld(identity.interfaces[..], done) && Progress(Scan(done, None), mem[buffer0..end], body)
    modifies identity.interfaces
    ensures buffer + size == end && buffer >= buffer0
    ensures reading == Complete ==> buffer > buffer0
    ensures DoneHeld(identity.interfaces[..], now) && next == |now|
    ensures reading == Complete ==> Progress(Scan(now, None), mem[buffer..end], body)
    ensures reading == Cut ==> ParseBody(body) == now && BodyInBounds(body)
    ensures reading == Outside ==> MayLeave(body, end, mem)
  {
    HeldFacts(identity.interfaces[..], done);
    hide *;
    buffer, size, next, now := buffer0, size0, iInterface, done;
    var ok, found, len := NextHeader(mem, buffer, size, end, done, body);
    if !ok {
      return Cut, buffer, size, next, now;
    }
    size := size - len;
    buffer := buffer + len;
    reading := Complete;
    if found {
      reading, buffer, size, now := ReadInterface(identity, mem, buffer0, buffer, size, end, iInterface, done, body);
      next := if reading == Complete then iInterface + 1 else iInterface;
    }
  }

  /** Whether a header fits at `buffer`, whether it starts an interface long enough, and its length. */
  method NextHeader(mem: seq<byte>, buffer: nat, size: nat, ghost end: nat, ghost done: seq<Setting>,
                    ghost body: seq<byte>)
      returns (ok: bool, found: bool, len: nat)
    requires buffer + size == end <= |mem| && |done| <= MAX_INTERFACES
    requires Progress(Scan(done, None), mem[buffer..end], body)
    ensures !ok ==> ParseBody(body) == done && BodyInBounds(body)
    ensures ok ==> 2 <= len <= size
    ensures ok && !found ==> Progress(Scan(done, None), mem[buffer + len..end], body)
    ensures ok && found ==>
              && INTERFACE_SIZE <= len
              && if mem[buffer + 4] == 0 && |done| >= MAX_INTERFACES then !BodyInBounds(body)
                 else Progress(Close(done, Setting(mem[buffer..buffer + INTERFACE_SIZE], [])),
                               mem[buffer + len..end], body)
  {
    hide *;
    ok := CheckDescriptorHeader(mem, buffer, size);
    if !ok {
      Stop(Scan(done, None), mem[buffer..end], body);
      return false, false, 0;
    }
    OuterStep(mem, buffer, size, end, done, body);
    len := mem[buffer];
    found := mem[buffer + 1] == DT_INTERFACE && INTERFACE_SIZE <= len;
  }

  lemma OpenFits(slots: seq<Slot>, at: nat, endpoints: seq<seq<byte>>)
    requires OpenHeld(slots, at, endpoints) && endpoints != []
    ensures at < |slots|
  {
  }

  /** The outer loop. */
  method ReadInterfaces(identity: IdentityState, mem: seq<byte>, buffer0: nat, size0: nat)
      returns (outside: bool, iInterface: nat, ghost done: seq<Setting>)
    requires DoneHeld(identity.interfaces[..], []) && buffer0 + size0 <= |mem|
    modifies identity.interfaces
    ensures DoneHeld(identity.interfaces[..], done)
    ensures var body := mem[buffer0..buffer0 + size0];
            if outside then MayLeave(body, buffer0 + size0, mem)
            else iInterface == |done| && done == ParseBody(body) && BodyInBounds(body)
  {
    ghost var end := buffer0 + size0;
    ghost var body := mem[buffer0..end];
    BodyProgress(body);
    hide *;
    var buffer: nat, size: nat := buffer0, size0;
    outside, iInterface, done := false, 0, [];
    while size > 0
      invariant 0 <= size && iInterface == |done| && buffer + size == end
      invariant DoneHeld(identity.interfaces[..], done)
      invariant Progress(Scan(done, None), mem[buffer..end], body)
      decreases size
    {
      var reading;
      reading, buffer, size, iInterface, done :=
        ReadDescriptor(identity, mem, buffer, size, end, iInterface, done, body);
      if reading != Complete {
        outside := reading == Outside;
        return;
      }
    }
    StopAtEnd(mem, buffer, done, body);
  }

  lemma StopAtEnd(mem: seq<byte>, buffer: nat, done: seq<Setting>, body: seq<byte>)
    requires buffer <= |mem| && Progress(Scan(done, None), mem[buffer..buffer], body)
    ensures ParseBody(body) == done && BodyInBounds(body)
  {
    hide Progress, BodyInBounds;
    Stop(Scan(done, None), mem[buffer..buffer], body);
  }

  lemma DoneNothing(slots: seq<Slot>)
    requires |slots| == MAX_INTERFACES && forall i | 0 <= i < |slots| :: |slots[i].endpoints| == MAX_ENDPOINTS
    ensures DoneHeld(slots, [])
  {
  }

  /** The speed, device and configuration part: Some is where the interface descriptors start. */
  method ReadHead(identity: IdentityState, mem: seq<byte>, size0: nat) returns (start: Option<nat>)
    requires size0 <= |mem|
    modifies identity
    ensures start == BodyStart(mem[..size0])
    ensures start.Some? ==>
              var c := ConfigAt(mem[..size0]);
              && c + CONFIG_SIZE <= size0
              && identity.speed == mem[..size0][..4] && identity.device == mem[..size0][4..22]
              && identity.conf == mem[..size0][c..c + CONFIG_SIZE]
  {
    var size := size0;
    if size < 4 {
      return None;
    }
    identity.speed := mem[..4];
    var buffer := 4;
    size := size - 4;

    if size < DEVICE_SIZE {
      return None;
    }
    identity.device := mem[buffer..buffer + DEVICE_SIZE];
    if identity.device[1] != DT_DEVICE || identity.device[0] < DEVICE_SIZE || identity.device[0] > size {
      return None;
    }
    buffer := buffer + identity.device[0] as int;
    size := size - identity.device[0] as int;

    if size < CONFIG_SIZE {
      return None;
    }
    identity.conf := mem[buffer..buffer + CONFIG_SIZE];
    if identity.conf[1] != DT_CONFIG || identity.conf[0] < CONFIG_SIZE || identity.conf[0] > size {
      return None;
    }
    start := Some(buffer + identity.conf[0] as int);
  }

  lemma BodyProgress(body: seq<byte>)
    ensures Progress(START, body, body)
  {
    LexTokens(body);
  }

  /** What a call comes to: its result, or a copy outside its memory, which C leaves undefined. */
  datatype Parsed = Returned(code: int) | LeftMemory

  /**
   * parse_init_pkt on a received message. It stays inside its memory exactly for the packets the
   * arrays can hold (PacketInBounds), given seven bytes behind the data for the last nine-byte
   * endpoint copy, and then returns what the specification parses.
   */
  method ParseInitPkt(identity: IdentityState, img: seq<byte>) returns (ret: Parsed)
    requires identity.Valid() && WellFormed(img) && Type(img) == MANAGEMENT
    modifies identity, identity.interfaces
    ensures identity.Valid()
    ensures ret.Returned? ==> PacketInBounds(Data(img))
    ensures PacketInBounds(Data(img)) && 4 + Size(img) + ENDPOINT_SIZE <= |img| ==> ret.Returned?
    ensures ret.Returned? ==> ret.code == if ParseInit(Data(img)).Some? then 0 else -EINVAL
    ensures ret == Returned(0) ==> identity.Holds(ParseInit(Data(img)).value)
    ensures ret.Returned? && ret.code != 0 ==> identity.nbInt == 0
  {
    DataSizeOf(img);
    var mem, size := img[DataOffset(Type(img))..], DataSize(img);
    ghost var data := Data(img);
    assert data == mem[..size];
    hide ParseBody, Progress, DoneHeld, BodyStart, WellFormed, Lex, InBounds;
    var start := ReadHead(identity, mem, size);
    if start.None? {
      identity.nbInt := 0;
      return Returned(-EINVAL);
    }
    var buffer := start.value;
    assert mem[buffer..buffer + (size - buffer)] == data[buffer..];
    BoundsOfBody(data);
    DoneNothing(identity.interfaces[..]);
    ghost var done;
    var outside, iInterface;
    outside, iInterface, done := ReadInterfaces(identity, mem, buffer, size - buffer);
    HeldFacts(identity.interfaces[..], done);
    if outside {
      return LeftMemory;
    }
    identity.nbInt := iInterface;
    ret := Returned(0);
  }

  lemma BoundsOfBody(data: seq<byte>)
    requires BodyStart(data).Some?
    ensures PacketInBounds(data) <==> BodyInBounds(data[BodyStart(data).value..])
  {
    LexTokens(data[BodyStart(data).value..]);
  }

  lemma HeldFacts(slots: seq<Slot>, done: seq<Setting>)
    requires DoneHeld(slots, done)
    ensures |done| <= |slots| == MAX_INTERFACES
    ensures forall i | 0 <= i < |slots| :: |slots[i].endpoints| == MAX_ENDPOINTS
    ensures forall i | 0 <= i < |done| :: SlotHolds(slots[i], done[i])
  {
  }

  /**
   * A device announced by the builder's packet, received in any buffer large enough, is the
   * identity the gadget ends up with.
   */
  method ParseBuilt(identity: IdentityState, d: Device, img: seq<byte>) returns (ret: Parsed)
    requires identity.Valid() && StandardDevice(d) && SettingsFit(Concat(d.interfaces))
    requires WellFormed(img) && Type(img) == MANAGEMENT && Data(img) == Serialize(d)
    requires 4 + Size(img) + ENDPOINT_SIZE <= |img|
    modifies identity, identity.interfaces
    ensures ret == Returned(0)
    ensures identity.Valid() && identity.Holds(Identity(d.speed, d.device, d.conf, Concat(d.interfaces)))
    ensures identity.nbInt == |Concat(d.interfaces)|
  {
    BuiltInBoundsExactly(d);
    RoundTrip(d);
    ret := ParseInitPkt(identity, img);
  }
}
