/** Bulk and interrupt payloads in memory, from one end's request to the other's. */
module PayloadMessages {
  import opened Bytes
  import opened Messages
  import opened Descriptors
  import opened Transport
  import opened DataMessages

  const MAX_BULK_SIZE := 2048

  /** The room of a request that waits for data: MAX_BULK_SIZE for a bulk URB, wMaxPacketSize for any other. */
  function RoomFor(id: EpId, maxPacket: nat): nat
  {
    if id.dir == In && id.kind == Bulk then MAX_BULK_SIZE else maxPacket
  }

  /** The fill functions without a message: an empty request with room for what will come. */
  method Wait(id: EpId, maxPacket: nat) returns (m: Message, length: nat)
    requires id.num < 0x1_0000 && maxPacket < 0x1_0000
    ensures fresh(m) && fresh(m.mem) && CarriesData(m.mem[..], id, [])
    ensures length == RoomFor(id, maxPacket) && m.mem.Length == BODY + length
    ensures length == if id.dir == In && id.kind == Bulk then 2048 else maxPacket
  {
    m := NewMessage(RoomFor(id, maxPacket), id, []);
    length := m.ReadWord(0);
  }

  /** The controller's bytes arrive, and the work item cuts the message to them. */
  method Arrive(m: Message, id: EpId, bytes: seq<byte>)
    requires CarriesData(m.mem[..], id, []) && BODY + |bytes| <= m.mem.Length
    modifies m.mem
    ensures CarriesData(m.mem[..], id, bytes)
  {
    ghost var img := m.mem[..];
    WriteData(m, id, 0, bytes);
    ghost var filled := m.mem[..];
    Resize(m, id, |bytes|);
    assert filled[BODY..][..|bytes|] == filled[BODY..BODY + |bytes|];
  }

  /** The fill functions on a message: `length` bytes from the front of the buffer go to the controller. */
  method Submit(id: EpId, img: seq<byte>, ghost payload: seq<byte>) returns (m: Message, length: nat)
    requires id.num < 0x1_0000 && CarriesData(img, id, payload) && |payload| <= MAX_SIZE_MSG
    ensures fresh(m) && fresh(m.mem) && CarriesData(m.mem[..], id, payload)
    ensures length == |payload| && m.mem[..][BODY..] == payload
  {
    var data := Data(img);
    m := NewMessage(|data|, id, data);
    DataSizeOf(m.mem[..]);
    length := DataSize(m.mem[..]);
    assert m.mem[..][BODY..][..length] == m.mem[..][BODY..];
  }

  // ------------------------------------------------------------------- the whole way

  /** The bytes that carry the payload between the ends. */
  function OnTheWire(id: EpId, payload: seq<byte>): seq<byte>
    requires id.num < 0x1_0000
  {
    Encode32((HeaderSize(DATA) + |payload|) % WORD) + Encode32(DATA) +
    [id.num % 256, id.num / 256] + Encode32(KindCode(id.kind)) + Encode32(DirCode(id.dir)) + payload
  }

  lemma WireOf(img: seq<byte>, id: EpId, payload: seq<byte>)
    requires id.num < 0x1_0000 && CarriesData(img, id, payload)
    ensures Wire(img) == OnTheWire(id, payload)
  {
    CarriedIsAccepted(img, id, payload);
    DataSizeOf(img);
    assert (HeaderSize(DATA) + |payload|) % WORD == Size(img);
    EncodeDecode32(img[SIZE_AT..TYPE_AT]);
    EncodeDecode32(img[TYPE_AT..12]);
    EncodeDecode32(img[14..18]);
    EncodeDecode32(img[18..BODY]);
    assert img[12..14] == [id.num % 256, id.num / 256];
    assert Wire(img) ==
      img[SIZE_AT..TYPE_AT] + img[TYPE_AT..12] + img[12..14] + img[14..18] + img[18..BODY] + img[BODY..4 + Size(img)];
  }

  /**
   * One payload, from the controller of one end to that of the other: a waiting request takes the
   * bytes, its message is sent in any pieces and received in any others, and a new request holds
   * exactly these bytes, all of which go to the controller. It arrives exactly if it fits com.c's
   * buffer, as every payload of a bulk IN endpoint does.
   */
  method Carry(id: EpId, maxPacket: nat, bytes: seq<byte>, raw: Socket, arrivals: seq<Read>, com: Message)
    returns (request: Option<Message>, length: nat)
    requires id.num < 0x1_0000 && maxPacket < 0x1_0000 && |bytes| <= RoomFor(id, maxPacket)
    requires TakesNoMoreThanOffered(raw) && AlwaysProgresses(raw) && Splits(arrivals, OnTheWire(id, bytes))
    requires ReceiveBuffer(com.mem[..])
    modifies com.mem
    ensures request.Some? <==> HeaderSize(DATA) + |bytes| <= MAX_SIZE_MSG
    ensures id.dir == In && id.kind == Bulk ==> request.Some?
    ensures request.Some? ==>
              CarriesData(request.value.mem[..], id, bytes) && length == |bytes| &&
                request.value.mem[..][BODY..] == bytes
  {
    var m, room := Wait(id, maxPacket);
    Arrive(m, id, bytes);
    ghost var sent, buffer := m.mem[..], com.mem[..];
    CarriedIsAccepted(sent, id, bytes);
    DeliverableData(sent, id, bytes);
    WireOf(sent, id, bytes);
    var size, wire, calls := UdpSend(m, raw);
    DeliverableExactly(sent, arrivals);
    hide CarriesData, Wire, OnTheWire, Transport.Receive, Deliverable;
    var receipt, stored := UdpRecv(com, arrivals);
    length := 0;
    if !receipt.Received? {
      return None, length;
    }
    DeliveredData(sent, buffer, id, bytes);
    CarriedIsAccepted(com.mem[..], id, bytes);
    var r;
    r, length := Submit(id, com.mem[..], bytes);
    request := Some(r);
  }
}
