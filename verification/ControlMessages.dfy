/** The messages of endpoint zero in memory: control bodies and their replies as the bytes of msg_t. */
module ControlMessages {
  import opened Bytes
  import opened Messages
  import opened Descriptors
  import opened ControlTransfer
  import opened Transport
  import opened DataMessages

  function Zero(dir: Dir): EpId
  {
    EpId(0, Ctrl, dir)
  }

  predicate ZeroId(img: seq<byte>, dir: Dir)
    requires BODY <= |img|
  {
    HasId(img, Zero(dir))
  }

  /** A DATA message of endpoint zero that holds exactly `body`. */
  predicate Carries(img: seq<byte>, dir: Dir, body: seq<byte>)
  {
    CarriesData(img, Zero(dir), body)
  }

  predicate CarriesReply(img: seq<byte>, r: Reply)
  {
    match r
    case Answer(body) => Carries(img, In, body)
    case Ack(half, status, data) =>
      && WellFormed(img) && Type(img) == ACK && ZeroId(img, half)
      && Status(img) == status && Data(img) == data
  }

  /** What was sent is the message for the packet, if there is one. */
  predicate Sends(sent: Option<seq<byte>>, p: Option<Tagged<Packet>>)
  {
    sent.Some? == p.Some? && (p.Some? ==> Carries(sent.value, p.value.it.dir, p.value.it.body))
  }

  predicate SendsReply(sent: Option<seq<byte>>, r: Option<Tagged<Reply>>)
  {
    sent.Some? == r.Some? && (r.Some? ==> CarriesReply(sent.value, r.value.it))
  }

  /** The controller's transfer into the bytes behind the setup. */
  method Transfer(m: Message, dir: Dir, bytes: seq<byte>)
    requires m.Valid() && Type(m.mem[..]) == DATA && ZeroId(m.mem[..], dir) && BODY + SETUP + |bytes| <= m.mem.Length
    modifies m.mem
    ensures m.Valid() && Type(m.mem[..]) == DATA && ZeroId(m.mem[..], dir) && Size(m.mem[..]) == Size(old(m.mem[..]))
    ensures m.mem[..][BODY..] == Store(old(m.mem[..])[BODY..], bytes)
  {
    WriteData(m, Zero(dir), SETUP, bytes);
  }

  /** The former contents of an allocation whose first bytes have been written. */
  ghost function Room(image: seq<byte>, from: nat): nat -> byte
  {
    (i: nat) => if from + i < |image| then image[from + i] else 0
  }

  lemma GrowsTo(data: Body, image: seq<byte>)
    requires data <= image
    ensures Grow(data, |image| - |data|, Room(image, |data|)) == image
  {
  }

  lemma DeliveredCarries(sent: seq<byte>, buffer: seq<byte>, dir: Dir, body: seq<byte>)
    requires Carries(sent, dir, body) && ReceiveBuffer(buffer) && Deliverable(sent)
    ensures Carries(InBuffer(sent, buffer), dir, body) && |body| <= MAX_SIZE_MSG
  {
    DeliveredData(sent, buffer, Zero(dir), body);
  }

  lemma DeliveredReply(sent: seq<byte>, buffer: seq<byte>, r: Reply)
    requires CarriesReply(sent, r) && ReceiveBuffer(buffer) && Deliverable(sent)
    ensures CarriesReply(InBuffer(sent, buffer), r) && (r.Answer? ==> |r.body| <= MAX_SIZE_MSG)
  {
    match r {
      case Answer(body) => DeliveredCarries(sent, buffer, In, body);
      case Ack(half, status, data) =>
        DeliveredImage(sent, buffer);
        DataSizeOf(sent);
        DeliveredField(sent, buffer, 12, 26);
        AckFields(sent, InBuffer(sent, buffer));
    }
  }

  lemma AckFields(img: seq<byte>, r: seq<byte>)
    requires 26 <= |img| && 26 <= |r| && img[12..26] == r[12..26]
    ensures EpNum(r) == EpNum(img) && EpType(r) == EpType(img) && EpDirection(r) == EpDirection(img)
    ensures Status(r) == Status(img)
  {
    assert forall i | 12 <= i < 26 :: img[i] == img[12..26][i - 12] == r[i];
    assert img[14..18] == r[14..18] && img[18..22] == r[18..22] && img[22..26] == r[22..26];
  }

  /** The half of endpoint zero a message is for, as find_endpoint reads it off the identity in the message. */
  function HalfOf(img: seq<byte>): (half: Option<Dir>)
    requires BODY <= |img|
    ensures forall dir :: half == Some(dir) <==> ZeroId(img, dir)
  {
    if EpNum(img) != 0 || EpType(img) != KindCode(Ctrl) then None
    else if EpDirection(img) == DirCode(In) then Some(In)
    else if EpDirection(img) == DirCode(Out) then Some(Out)
    else None
  }

  /** Every reply passes check_msg, and names one half of endpoint zero. */
  lemma ReplyIsAccepted(img: seq<byte>, r: Reply)
    requires CarriesReply(img, r)
    ensures var half := if r.Answer? then In else r.half;
            && CheckMsg(img) && EpNum(img) == 0 && EpType(img) == 0
            && EpDirection(img) == (if half == In then 0 else 1)
  {
    CheckMsgMeaning(img);
  }
}
