/** Descriptor layouts (USB 2.0, sections 9.6.1, 9.6.3, 9.6.5 and 9.6.6) and the identities drawn from them. */
module Descriptors {
  import opened Bytes

  const DT_DEVICE: byte := 1
  const DT_CONFIG: byte := 2
  const DT_INTERFACE: byte := 4
  const DT_ENDPOINT: byte := 5

  const DEVICE_SIZE := 18
  const CONFIG_SIZE := 9
  const INTERFACE_SIZE := 9
  const ENDPOINT_SIZE := 7

  datatype Kind = Ctrl | Isoc | Bulk | Interrupt

  datatype Dir = In | Out

  /** epid_t */
  datatype EpId = EpId(num: nat, kind: Kind, dir: Dir)

  const EP0_IN := EpId(0, Ctrl, In)
  const EP0_OUT := EpId(0, Ctrl, Out)

  function KindOf(attributes: byte): Kind
  {
    match attributes % 4
    case 0 => Ctrl
    case 1 => Isoc
    case 2 => Bulk
    case _ => Interrupt
  }

  /** The identity of an endpoint: address bits 0..3 and 7, attribute bits 0..1. */
  function IdOf(endpoint: seq<byte>): EpId
    requires ENDPOINT_SIZE <= |endpoint|
  {
    EpId(endpoint[2] % 16, KindOf(endpoint[3]), if endpoint[2] / 128 == 1 then In else Out)
  }

  /** One alternate setting of one interface, with its endpoint descriptors in order. */
  datatype Setting = Setting(desc: seq<byte>, endpoints: seq<seq<byte>>)

  /** The standard lengths and types, and as many endpoints as bNumEndpoints says. */
  predicate Standard(s: Setting)
  {
    && |s.desc| == INTERFACE_SIZE && s.desc[0] == 9 && s.desc[1] == DT_INTERFACE
    && s.desc[4] == |s.endpoints|
    && forall e | e in s.endpoints :: |e| == ENDPOINT_SIZE && e[0] == 7 && e[1] == DT_ENDPOINT
  }

  /** What the registries read of a setting is there; its descriptors may be longer than the standard lengths. */
  predicate Usable(s: Setting)
  {
    && INTERFACE_SIZE <= |s.desc| && s.desc[4] == |s.endpoints|
    && forall e | e in s.endpoints :: ENDPOINT_SIZE <= |e|
  }

  function Number(s: Setting): byte
    requires Usable(s)
  {
    s.desc[2]
  }

  function Alternate(s: Setting): byte
    requires Usable(s)
  {
    s.desc[3]
  }

  /** The endpoint identities of a setting, in order. */
  function Ids(s: Setting): (ids: seq<EpId>)
    requires Usable(s)
    ensures |ids| == |s.endpoints|
  {
    seq(|s.endpoints|, k requires 0 <= k < |s.endpoints| => IdOf(s.endpoints[k]))
  }

  predicate AllStandard(settings: seq<Setting>)
  {
    forall i | 0 <= i < |settings| :: Standard(settings[i])
  }

  predicate AllUsable(settings: seq<Setting>)
  {
    forall i | 0 <= i < |settings| :: Usable(settings[i])
  }

  /** What the endpoint registries need to know of a setting. */
  datatype Alt = Alt(number: nat, alternate: nat, ids: seq<EpId>)

  function AltOf(s: Setting): Alt
    requires Usable(s)
  {
    Alt(Number(s), Alternate(s), Ids(s))
  }

  function AltsOf(settings: seq<Setting>): (alts: seq<Alt>)
    requires AllUsable(settings)
    ensures |alts| == |settings|
  {
    seq(|settings|, i requires 0 <= i < |settings| => AltOf(settings[i]))
  }

  // ------------------------------------------------------------------- fields

  /** bmAttributes bits 0..1 of each transfer type (USB 2.0, section 9.6.6). */
  function KindCode(kind: Kind): uint32
  {
    match kind
    case Ctrl => 0
    case Isoc => 1
    case Bulk => 2
    case Interrupt => 3
  }

  /**
   * An endpoint descriptor of any length: its number is in bits 0..3 of bEndpointAddress, its
   * direction in bit 7 and its type in bits 0..1 of bmAttributes; no other bit matters.
   */
  lemma EndpointFields(id: EpId, reserved: nat, usage: nat, length: byte, tail: seq<byte>)
    requires id.num < 16 && reserved < 8 && usage < 64 && |tail| >= ENDPOINT_SIZE - 4
    ensures var e: seq<byte> := [length, DT_ENDPOINT, (if id.dir == In then 128 else 0) + 16 * reserved + id.num,
                                 4 * usage + KindCode(id.kind)] + tail;
            IdOf(e) == id
  {
    var high: int := (if id.dir == In then 8 else 0) + reserved;
    var address, attributes := 16 * high + id.num, 4 * usage + KindCode(id.kind);
    assert address % 16 == id.num && address / 16 == high && address / 128 == high / 8;
    assert attributes % 4 == KindCode(id.kind);
  }

  /**
   * An interface descriptor has its number in byte 2, its alternate setting in byte 3 and its endpoint
   * count in byte 4.
   */
  lemma SettingFields(number: byte, alternate: byte, tail: seq<byte>, endpoints: seq<seq<byte>>, length: byte)
    requires |tail| >= INTERFACE_SIZE - 5 && |endpoints| < 256 && forall e | e in endpoints :: ENDPOINT_SIZE <= |e|
    ensures var s := Setting([length, DT_INTERFACE, number, alternate, |endpoints|] + tail, endpoints);
            && Usable(s) && AltOf(s).number == number && AltOf(s).alternate == alternate
            && |AltOf(s).ids| == |endpoints| && forall k | 0 <= k < |endpoints| :: AltOf(s).ids[k] == IdOf(endpoints[k])
  {
  }
}
