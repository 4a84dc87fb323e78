/** DATA messages of one endpoint: their memory, and their receipt in com.c's buffer. */
module DataMessages {
  import opened Bytes
  import opened Messages
  import opened Descriptors
  import opened Transport

  /** Where the data of a DATA message starts. */
  const BODY := 22

  /** Directions as epid_t holds them; transfer types have the codes of bmAttributes. */
  function DirCode(dir: Dir): uint32
  {
    if dir == In then 0 else 1
  }

  predicate HasId(img: seq<byte>, id: EpId)
    requires BODY <= |img|
  {
    EpNum(img) == id.num && EpType(img) == KindCode(id.kind) && EpDirection(img) == DirCode(id.dir)
  }

  /** A DATA message of the endpoint that holds exactly `data`. */
  predicate CarriesData(img: seq<byte>, id: EpId, data: seq<byte>)
  {
    WellFormed(img) && Type(img) == DATA && HasId(img, id) && Data(img) == data
  }

  lemma SameId(img: seq<byte>, r: seq<byte>, id: EpId)
    requires |img| == |r| && BODY <= |img| && img[TYPE_AT..BODY] == r[TYPE_AT..BODY]
    ensures Type(r) == Type(img) && (HasId(r, id) <==> HasId(img, id))
  {
    assert forall i | TYPE_AT <= i < BODY :: img[i] == img[TYPE_AT..BODY][i - TYPE_AT] == r[i];
    assert img[TYPE_AT..12] == r[TYPE_AT..12] && img[14..18] == r[14..18] && img[18..BODY] == r[18..BODY];
  }

  /** check_msg accepts it. */
  lemma CarriedIsAccepted(img: seq<byte>, id: EpId, data: seq<byte>)
    requires CarriesData(img, id, data)
    ensures CheckMsg(img) && DataSize(img) == |data| && Size(img) == HeaderSize(DATA) + |data|
  {
    CheckMsgMeaning(img);
    DataSizeOf(img);
  }

  /** alloc_msg, msg_set_epid and msgcpy: room for `size` bytes, of which `data` are the first. */
  method NewMessage(size: nat, id: EpId, data: seq<byte>) returns (m: Message)
    requires |data| <= size <= MAX_SIZE_MSG + 0x1_0000 && id.num < 0x1_0000
    ensures fresh(m) && fresh(m.mem) && m.mem.Length == BODY + size && Allocated(m.mem[..]) == size
    ensures CarriesData(m.mem[..], id, data)
    ensures m.mem[..][BODY..][..|data|] == data
  {
    m := new Message(size, DATA);
    m.SetId(id.num, KindCode(id.kind), DirCode(id.dir));
    ghost var img := m.mem[..];
    DataSizeOf(img);
    m.Append(data);
    SameId(img, m.mem[..], id);
    ghost var now := m.mem[..];
    DataSizeOf(now);
    assert [] + data == data;
    assert now[BODY..][..|data|] == now[BODY..BODY + |data|];
  }

  /** msg_set_data_size: the message now carries the first `n` bytes behind its header. */
  method Resize(m: Message, id: EpId, n: nat)
    requires m.Valid() && Type(m.mem[..]) == DATA && HasId(m.mem[..], id) && BODY + n <= m.mem.Length
    modifies m.mem
    ensures CarriesData(m.mem[..], id, old(m.mem[..])[BODY..BODY + n])
    ensures m.mem[..][BODY..] == old(m.mem[..])[BODY..]
  {
    ghost var img := m.mem[..];
    NoWrap(n, HeaderSize(DATA));
    hide Patch, Encode32, HasId;
    m.SetDataSize(n);
    Resized(img, m.mem[..], id, n);
  }

  lemma Resized(img: seq<byte>, r: seq<byte>, id: EpId, n: nat)
    requires WellFormed(img) && Type(img) == DATA && HasId(img, id) && BODY + n <= |img|
    requires r == Patch(img, SIZE_AT, Encode32(n + HeaderSize(DATA))) && Size(r) == n + HeaderSize(DATA)
    ensures CarriesData(r, id, img[BODY..BODY + n]) && r[BODY..] == img[BODY..]
  {
    var word := Encode32(n + HeaderSize(DATA));
    PatchReads(img, SIZE_AT, word, TYPE_AT, BODY);
    PatchReads(img, SIZE_AT, word, BODY, |img|);
    PatchReads(img, SIZE_AT, word, BODY, BODY + n);
    hide Patch, Encode32, HasId;
    SameId(img, r, id);
  }

  /** A controller's transfer into the bytes `at` behind the header. */
  method WriteData(m: Message, id: EpId, at: nat, bytes: seq<byte>)
    requires m.Valid() && Type(m.mem[..]) == DATA && HasId(m.mem[..], id) && BODY + at + |bytes| <= m.mem.Length
    modifies m.mem
    ensures m.Valid() && Type(m.mem[..]) == DATA && HasId(m.mem[..], id) && Size(m.mem[..]) == Size(old(m.mem[..]))
    ensures m.mem[..][BODY..] == Patch(old(m.mem[..])[BODY..], at, bytes)
  {
    ghost var img := m.mem[..];
    hide Patch, HasId;
    m.Write(BODY + at, bytes);
    Written(img, id, at, bytes);
  }

  lemma Written(img: seq<byte>, id: EpId, at: nat, bytes: seq<byte>)
    requires WellFormed(img) && Type(img) == DATA && HasId(img, id) && BODY + at + |bytes| <= |img|
    ensures var r := Patch(img, BODY + at, bytes);
            && WellFormed(r) && |r| == |img| && Type(r) == DATA && HasId(r, id) && Size(r) == Size(img)
            && r[BODY..] == Patch(img[BODY..], at, bytes)
  {
    var r := Patch(img, BODY + at, bytes);
    PatchReads(img, BODY + at, bytes, SIZE_AT, TYPE_AT);
    PatchReads(img, BODY + at, bytes, TYPE_AT, BODY);
    assert r[BODY..] == Patch(img[BODY..], at, bytes);
    hide Patch, HasId;
    SameId(img, r, id);
  }

  // ------------------------------------------------------------------- delivery

  /** udp_recv takes a message whose counted bytes fit the buffer's allocated size, and refuses any other. */
  predicate Deliverable(sent: seq<byte>)
    requires UNION_AT <= |sent|
  {
    Size(sent) <= MAX_SIZE_MSG
  }

  /** Whether a message is delivered is decided by its data alone. */
  lemma DeliverableData(sent: seq<byte>, id: EpId, data: seq<byte>)
    requires CarriesData(sent, id, data)
    ensures UNION_AT <= |sent| && (Deliverable(sent) <==> HeaderSize(DATA) + |data| <= MAX_SIZE_MSG)
  {
    DataSizeOf(sent);
  }

  /** What udp_recv leaves in the buffer. */
  function InBuffer(sent: seq<byte>, buffer: seq<byte>): seq<byte>
    requires WellFormed(sent) && ReceiveBuffer(buffer) && Deliverable(sent)
  {
    Patch(buffer, SIZE_AT, Wire(sent))
  }

  /** Of any message cut into any pieces, udp_recv delivers exactly those that fit, and delivers them whole. */
  lemma DeliverableExactly(sent: seq<byte>, arrivals: seq<Read>)
    requires WellFormed(sent) && Splits(arrivals, Wire(sent))
    ensures Receive(arrivals, MAX_SIZE_MSG) == Received(Wire(sent)) <==> Deliverable(sent)
    ensures !Deliverable(sent) ==> Receive(arrivals, MAX_SIZE_MSG).Failed?
  {
    var w := Wire(sent);
    assert w[..4] == sent[SIZE_AT..SIZE_AT + 4];
    if Deliverable(sent) {
      ReceiveRebuilds(w, arrivals, MAX_SIZE_MSG);
    } else {
      PayloadsTail(arrivals);
      assert arrivals[0].bytes <= w;
      assert Clip(arrivals[0].bytes, MAX_SIZE_MSG)[..4] == w[..4];
    }
  }

  lemma DeliveredField(sent: seq<byte>, buffer: seq<byte>, lo: nat, hi: nat)
    requires WellFormed(sent) && ReceiveBuffer(buffer) && Deliverable(sent) && SIZE_AT <= lo <= hi <= 4 + Size(sent)
    ensures InBuffer(sent, buffer)[lo..hi] == sent[lo..hi]
  {
    DeliveredSlice(sent, buffer, lo, hi);
  }

  lemma DeliveredData(sent: seq<byte>, buffer: seq<byte>, id: EpId, data: seq<byte>)
    requires CarriesData(sent, id, data) && ReceiveBuffer(buffer) && Deliverable(sent)
    ensures CarriesData(InBuffer(sent, buffer), id, data) && |data| <= MAX_SIZE_MSG
  {
    DeliveredImage(sent, buffer);
    DataSizeOf(sent);
    var r := InBuffer(sent, buffer);
    DeliveredField(sent, buffer, 12, BODY);
    assert forall i | 12 <= i < BODY :: r[i] == r[12..BODY][i - 12] == sent[i];
    assert r[14..18] == sent[14..18] && r[18..BODY] == sent[18..BODY];
  }
}
