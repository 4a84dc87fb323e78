/** Control transfers: the eight setup bytes (USB 2.0, section 9.3) and what travels with them. */
module ControlTransfer {
  import opened Bytes
  import opened Descriptors

  const SETUP := 8

  /** Message data that starts with a setup packet. */
  type Body = b: seq<byte> | SETUP <= |b| witness seq(SETUP, i => 0)

  /** wLength */
  function Length(b: Body): nat
  {
    Word16(b[6], b[7])
  }

  /** The direction bit of bRequestType. */
  function Direction(b: Body): Dir
  {
    if b[0] / 128 == 1 then In else Out
  }

  predicate StandardRequest(b: Body, request: byte)
  {
    b[0] / 32 % 4 == 0 && b[1] == request
  }

  const GET_DESCRIPTOR: byte := 6
  const SET_INTERFACE: byte := 11

  predicate SetsInterface(b: Body)
  {
    StandardRequest(b, SET_INTERFACE)
  }

  const SET_CONFIGURATION: byte := 9

  predicate SetsConfiguration(b: Body)
  {
    StandardRequest(b, SET_CONFIGURATION)
  }

  /** wIndex and wValue, for SET_INTERFACE the interface number and the alternate setting. */
  function Index(b: Body): nat
  {
    Word16(b[4], b[5])
  }

  function Value(b: Body): nat
  {
    Word16(b[2], b[3])
  }

  predicate GetsConfiguration(b: Body)
  {
    StandardRequest(b, GET_DESCRIPTOR) && b[3] == DT_CONFIG
  }

  /** A transfer whose data stage still has to be asked from the host. */
  predicate AwaitsData(dir: Dir, b: Body)
  {
    dir == Out && Length(b) != 0
  }

  /** The setup packet with the given fields: bmRequestType in three parts, bRequest, wValue, wIndex and wLength. */
  function SetupPacket(dir: Dir, kind: nat, recipient: nat, request: byte, value: nat, index: nat,
                       length: nat): (b: Body)
    requires kind < 4 && recipient < 32 && value < 0x1_0000 && index < 0x1_0000 && length < 0x1_0000
    ensures |b| == SETUP
  {
    [(if dir == In then 128 else 0) + 32 * kind + recipient, request,
     value % 256, value / 256, index % 256, index / 256, length % 256, length / 256]
  }

  /**
   * Every field is read back from where section 9.3 of USB 2.0 puts it, and the requests are told
   * apart by their codes.
   */
  lemma SetupFields(dir: Dir, kind: nat, recipient: nat, request: byte, value: nat, index: nat, length: nat)
    requires kind < 4 && recipient < 32 && value < 0x1_0000 && index < 0x1_0000 && length < 0x1_0000
    ensures var b := SetupPacket(dir, kind, recipient, request, value, index, length);
            && Direction(b) == dir && Value(b) == value && Index(b) == index && Length(b) == length
            && (SetsInterface(b) <==> kind == 0 && request == 11)
            && (SetsConfiguration(b) <==> kind == 0 && request == 9)
            && (GetsConfiguration(b) <==> kind == 0 && request == 6 && 2 * 256 <= value < 3 * 256)
            && (AwaitsData(dir, b) <==> dir == Out && length > 0)
  {
    var b := SetupPacket(dir, kind, recipient, request, value, index, length);
    var d: int := if dir == In then 4 else 0;
    assert b[0] as int == 32 * (d + kind) + recipient;
    assert b[0] / 32 == d + kind;
    assert b[0] / 128 == d / 4;
  }

  /** And every setup packet has such fields. */
  lemma SetupIsFields(b: Body)
    requires |b| == SETUP
    ensures b == SetupPacket(Direction(b), b[0] / 32 % 4, b[0] % 32, b[1], Value(b), Index(b), Length(b))
  {
    var top: int := b[0] / 32;
    assert b[0] as int == 32 * top + b[0] % 32 && top == 4 * (top / 4) + top % 4 && top / 4 == b[0] / 128;
  }

  /** Something that belongs to the `origin`-th control transfer of the host; no branch reads `origin`. */
  datatype Tagged<T> = Tagged(origin: nat, it: T)

  /** A DATA message from the gadget. */
  datatype Packet = Packet(dir: Dir, body: Body)

  /**
   * What the driver sends back: a DATA message on the IN half, or an ACK for one half, with the data
   * it acknowledges.
   */
  datatype Reply = Answer(body: Body) | Ack(half: Dir, status: int, data: seq<byte>)

  /**
   * What a step meets: memory, the outcome of the interface (de)activations it triggers, the
   * transport, the submission, and the former contents of the memory it allocates.
   */
  datatype ControlEnv = ControlEnv(memory: bool, selected: bool, send: bool, submit: bool, room: nat -> byte)

  /** An allocation of `n` bytes more than `data`, whose last bytes nothing has written yet. */
  function Grow(data: Body, n: nat, room: nat -> byte): (r: Body)
    ensures |r| == |data| + n && r[..|data|] == data
  {
    var more := seq<byte>(n, (i: nat) => room(i));
    data + more
  }

  /** The image with `bytes` written right after the setup packet. */
  function Store(image: Body, bytes: seq<byte>): (r: Body)
    requires SETUP + |bytes| <= |image|
    ensures |r| == |image| && r[..SETUP] == image[..SETUP]
    ensures r[SETUP..SETUP + |bytes|] == bytes
  {
    image[..SETUP] + bytes + image[SETUP + |bytes|..]
  }
}
