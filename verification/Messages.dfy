/**
 * The messages exchanged by the two ends (msg.c, msg.h), as the bytes of one allocation:
 *   0..4 allocated_size | 4..8 size | 8..12 type | 12.. union.
 * DATA: epid (10 bytes), data.  ACK: epid, status (4 bytes), data.  MANAGEMENT: kind (4 bytes), data.
 * `size` counts everything from offset 4 on.
 */
module Messages {
  import opened Bytes

  const DATA: uint32 := 0
  const ACK: uint32 := 1
  const MANAGEMENT: uint32 := 2

  const RESET: uint32 := 0
  const NEW_DEVICE: uint32 := 1
  const RELOAD: uint32 := 2

  const SIZE_AT := 4
  const TYPE_AT := 8
  const UNION_AT := 12

  /** _msg_diff_size */
  function HeaderSize(mtype: uint32): (n: nat)
    ensures 8 <= n <= 22
  {
    if mtype == DATA then 18
    else if mtype == ACK then 22
    else if mtype == MANAGEMENT then 12
    else 8
  }

  /** Where msg_get_data points. */
  function DataOffset(mtype: uint32): (n: nat)
  {
    if mtype == MANAGEMENT then 16 else if mtype == ACK then 26 else 22
  }

  // ------------------------------------------------------------------ images

  function Patch(img: seq<byte>, at: nat, bytes: seq<byte>): (r: seq<byte>)
    requires at + |bytes| <= |img|
    ensures |r| == |img|
  {
    img[..at] + bytes + img[at + |bytes|..]
  }

  function Load32(img: seq<byte>, at: nat): uint32
    requires at + 4 <= |img|
  {
    Decode32(img[at..at + 4])
  }

  predicate Readable(img: seq<byte>)
  {
    UNION_AT <= |img| && 4 + HeaderSize(Type(img)) <= |img|
  }

  function Allocated(img: seq<byte>): uint32
    requires UNION_AT <= |img|
  {
    Load32(img, 0)
  }

  function Size(img: seq<byte>): uint32
    requires UNION_AT <= |img|
  {
    Load32(img, SIZE_AT)
  }

  function Type(img: seq<byte>): uint32
    requires UNION_AT <= |img|
  {
    Load32(img, TYPE_AT)
  }

  /** msg_get_data_size, with the wrap-around of size_t. */
  function DataSize(img: seq<byte>): (n: uint32)
    requires UNION_AT <= |img|
  {
    (Size(img) + WORD - HeaderSize(Type(img))) % WORD
  }

  /** A message whose stored size covers its header and lies in its allocation. */
  predicate WellFormed(img: seq<byte>)
  {
    && Readable(img)
    && |img| < WORD
    && Type(img) <= MANAGEMENT
    && HeaderSize(Type(img)) <= Size(img)
    && 4 + Size(img) <= |img|
  }

  function Data(img: seq<byte>): (d: seq<byte>)
    requires WellFormed(img)
  {
    img[DataOffset(Type(img))..4 + Size(img)]
  }

  /** The bytes that travel: everything the stored size counts. */
  function Wire(img: seq<byte>): (w: seq<byte>)
    requires UNION_AT <= |img| && 4 + Size(img) <= |img|
  {
    img[SIZE_AT..4 + Size(img)]
  }

  /** msgcpy */
  function AppendImage(img: seq<byte>, bytes: seq<byte>): (r: seq<byte>)
    requires WellFormed(img) && 4 + Size(img) + |bytes| <= |img|
  {
    var resized := Patch(img, SIZE_AT, Encode32(Size(img) + |bytes|));
    Patch(resized, 4 + Size(img), bytes)
  }

  function AppendAll(img: seq<byte>, bufs: seq<seq<byte>>): (r: seq<byte>)
    requires WellFormed(img) && 4 + Size(img) + |Concat(bufs)| <= |img|
    ensures WellFormed(r) && |r| == |img| && Type(r) == Type(img)
    ensures Size(r) == Size(img) + |Concat(bufs)|
  {
    if bufs == [] then img
    else
      var last := |bufs| - 1;
      var before := AppendAll(img, bufs[..last]);
      AppendFacts(before, bufs[last]);
      AppendImage(before, bufs[last])
  }

  lemma PatchReads(img: seq<byte>, at: nat, bytes: seq<byte>, lo: nat, hi: nat)
    requires at + |bytes| <= |img| && lo <= hi <= |img|
    ensures hi <= at || at + |bytes| <= lo ==> Patch(img, at, bytes)[lo..hi] == img[lo..hi]
    ensures Patch(img, at, bytes)[at..at + |bytes|] == bytes
  {
  }

  lemma DataSizeOf(img: seq<byte>)
    requires WellFormed(img)
    ensures DataSize(img) == Size(img) - HeaderSize(Type(img)) == |Data(img)|
    ensures DataOffset(Type(img)) == 4 + HeaderSize(Type(img))
  {
    var d := Size(img) - HeaderSize(Type(img));
    assert (d + WORD) % WORD == d;
  }

  /** What two successive patches, first of the size word and then of a later stretch, leave in each place. */
  lemma AppendSlices(img: seq<byte>, word: seq<byte>, at: nat, bytes: seq<byte>, off: nat)
    requires |word| == 4 && UNION_AT <= off <= at && at + |bytes| <= |img|
    ensures var r := Patch(Patch(img, SIZE_AT, word), at, bytes);
            && r[..SIZE_AT] == img[..SIZE_AT]
            && r[SIZE_AT..TYPE_AT] == word
            && r[TYPE_AT..UNION_AT] == img[TYPE_AT..UNION_AT]
            && r[TYPE_AT..off] == img[TYPE_AT..off]
            && r[off..at + |bytes|] == img[off..at] + bytes
  {
    var r := Patch(Patch(img, SIZE_AT, word), at, bytes);
    assert forall i | 0 <= i < |img| ::
        r[i] == if SIZE_AT <= i < TYPE_AT then word[i - SIZE_AT]
                else if at <= i < at + |bytes| then bytes[i - at]
                else img[i];
  }

  /** One append grows the data by exactly the buffer and leaves every header field but the size alone. */
  lemma AppendFacts(img: seq<byte>, bytes: seq<byte>)
    requires WellFormed(img) && 4 + Size(img) + |bytes| <= |img|
    ensures var r := AppendImage(img, bytes);
            && WellFormed(r) && |r| == |img|
            && Type(r) == Type(img)
            && Size(r) == Size(img) + |bytes|
            && DataSize(r) == DataSize(img) + |bytes|
            && Data(r) == Data(img) + bytes
            && r[..SIZE_AT] == img[..SIZE_AT]
            && r[TYPE_AT..DataOffset(Type(img))] == img[TYPE_AT..DataOffset(Type(img))]
  {
    var r := AppendImage(img, bytes);
    DataSizeOf(img);
    AppendSlices(img, Encode32(Size(img) + |bytes|), 4 + Size(img), bytes, DataOffset(Type(img)));
    DecodeEncode32(Size(img) + |bytes|);
    assert Size(r) == Size(img) + |bytes|;
    DataSizeOf(r);
  }

  /** Any sequence of appends that fits leaves the concatenation of the buffers, in order. */
  lemma {:induction false} AppendAllFacts(img: seq<byte>, bufs: seq<seq<byte>>)
    requires WellFormed(img) && 4 + Size(img) + |Concat(bufs)| <= |img|
    ensures var r := AppendAll(img, bufs);
            && DataSize(r) == DataSize(img) + |Concat(bufs)|
            && Data(r) == Data(img) + Concat(bufs)
            && r[..SIZE_AT] == img[..SIZE_AT]
            && r[TYPE_AT..DataOffset(Type(img))] == img[TYPE_AT..DataOffset(Type(img))]
  {
    if bufs != [] {
      hide AppendImage, Patch, Encode32, Data, DataSize;
      var last := |bufs| - 1;
      AppendAllFacts(img, bufs[..last]);
      AppendFacts(AppendAll(img, bufs[..last]), bufs[last]);
    }
  }

  /** The data size of com.c's receive buffer. */
  const MAX_SIZE_MSG := 16000

  /** com.c's receive buffer: alloc_msg(MAX_SIZE_MSG, DATA), whatever it was last used for. */
  predicate ReceiveBuffer(img: seq<byte>)
  {
    |img| == 22 + MAX_SIZE_MSG && Allocated(img) == MAX_SIZE_MSG
  }

  // -------------------------------------------------------- identity fields

  function EpNum(img: seq<byte>): nat
    requires 22 <= |img|
  {
    Word16(img[12], img[13])
  }

  function EpType(img: seq<byte>): uint32
    requires 22 <= |img|
  {
    Load32(img, 14)
  }

  function EpDirection(img: seq<byte>): uint32
    requires 22 <= |img|
  {
    Load32(img, 18)
  }

  function ManagementType(img: seq<byte>): uint32
    requires 16 <= |img|
  {
    Load32(img, UNION_AT)
  }

  function Status(img: seq<byte>): (s: int)
    requires 26 <= |img|
  {
    var w := Load32(img, 22);
    if w < 0x8000_0000 then w else w - WORD
  }

  /** check_msg */
  function CheckMsg(img: seq<byte>): (ok: bool)
    requires Readable(img)
  {
    var size := Size(img);
    if size < 8 then false
    else if Type(img) == MANAGEMENT then
      if size < 8 + 4 then false
      else if ManagementType(img) != RESET && ManagementType(img) != RELOAD && ManagementType(img) != NEW_DEVICE then
        false
      else true
    else if Type(img) == DATA || Type(img) == ACK then
      if size < 8 + 10 then false
      else if EpType(img) != 0 && EpType(img) != 3 && EpType(img) != 1 && EpType(img) != 2 then false
      else if EpDirection(img) != 0 && EpDirection(img) != 1 then false
      else if Type(img) == ACK && size < 8 + 10 + 4 then false
      else true
    else false
  }

  predicate ValidFields(img: seq<byte>)
    requires Readable(img) && Type(img) <= MANAGEMENT
  {
    if Type(img) == MANAGEMENT then ManagementType(img) <= RELOAD
    else EpType(img) < 4 && EpDirection(img) < 2
  }

  /**
   * check_msg accepts exactly the known types with valid identity fields whose size covers the
   * header; the data size of an accepted message never underflows.
   */
  lemma CheckMsgMeaning(img: seq<byte>)
    requires Readable(img)
    ensures CheckMsg(img) <==>
            Type(img) <= MANAGEMENT && ValidFields(img) && HeaderSize(Type(img)) <= Size(img)
    ensures CheckMsg(img) ==> DataSize(img) == Size(img) - HeaderSize(Type(img))
    ensures CheckMsg(img) && 4 + Size(img) <= |img| < WORD ==> WellFormed(img) && DataSize(img) == |Data(img)|
  {
    if HeaderSize(Type(img)) <= Size(img) {
      var d := Size(img) - HeaderSize(Type(img));
      assert (d + WORD) % WORD == d;
    }
  }

  /** alloc_msg's size argument to kmalloc, in size_t arithmetic. */
  function AllocationSize(size: uint32, mtype: uint32): uint32
  {
    (size + HeaderSize(mtype) + 4) % WORD
  }

  /** The allocation holds the header and `size` data bytes exactly when the sum does not wrap. */
  lemma AllocationHoldsMessage(size: uint32, mtype: uint32)
    ensures AllocationSize(size, mtype) >= 4 + HeaderSize(mtype) + size <==> size < WORD - 4 - HeaderSize(mtype)
    ensures size < WORD - 4 - HeaderSize(mtype) ==> AllocationSize(size, mtype) == 4 + HeaderSize(mtype) + size
  {
    var n := size + HeaderSize(mtype) + 4;
    if n < WORD {
      assert n % WORD == n;
    } else {
      assert n % WORD == n - WORD;
    }
  }

  lemma NoWrap(size: nat, header: nat)
    requires size + header < WORD
    ensures (size + header) % WORD == size + header && (size + header + WORD - header) % WORD == size
  {
    assert (size + WORD) % WORD == size;
  }

  /** msg_t: the fields live in `mem` and are updated in place. */
  class Message {
    const mem: array<byte>

    ghost predicate Valid()
      reads mem
    {
      WellFormed(mem[..])
    }

    /** alloc_msg, when kmalloc succeeds. */
    constructor (size: uint32, mtype: uint32)
      requires mtype <= MANAGEMENT
      requires size < WORD - 4 - HeaderSize(mtype)
      ensures fresh(mem) && mem.Length == AllocationSize(size, mtype) == 4 + HeaderSize(mtype) + size
      ensures Valid()
      ensures Allocated(mem[..]) == size && Type(mem[..]) == mtype
      ensures Data(mem[..]) == [] && DataSize(mem[..]) == 0
    {
      AllocationHoldsMessage(size, mtype);
      var total := AllocationSize(size, mtype);
      mem := new byte[total];
      new;
      Write(0, Encode32(size));
      ghost var step1 := mem[..];
      Write(TYPE_AT, Encode32(mtype));
      ghost var step2 := mem[..];
      DecodeEncode32(size);
      DecodeEncode32(mtype);
      PatchReads(step1, TYPE_AT, Encode32(mtype), 0, 4);
      SetDataSize(0);
      ghost var step3 := mem[..];
      PatchReads(step2, SIZE_AT, Encode32(HeaderSize(mtype)), 0, 4);
      assert step3[0..4] == step1[0..4] == Encode32(size);
    }

    /** memcpy into the message. */
    method Write(at: nat, bytes: seq<byte>)
      requires at + |bytes| <= mem.Length
      modifies mem
      ensures mem[..] == Patch(old(mem[..]), at, bytes)
    {
      forall i | 0 <= i < |bytes| {
        mem[at + i] := bytes[i];
      }
    }

    method ReadWord(at: nat) returns (w: uint32)
      requires at + 4 <= mem.Length
      ensures w == Load32(mem[..], at)
    {
      assert mem[at..at + 4] == mem[..][at..at + 4];
      w := Decode32(mem[at..at + 4]);
    }

    /** msg_set_data_size */
    method SetDataSize(size: uint32)
      requires UNION_AT <= mem.Length
      modifies mem
      ensures mem[..] == Patch(old(mem[..]), SIZE_AT, Encode32((size + HeaderSize(Type(old(mem[..])))) % WORD))
      ensures Type(mem[..]) == Type(old(mem[..]))
      ensures size + HeaderSize(Type(mem[..])) < WORD ==>
              DataSize(mem[..]) == size && Size(mem[..]) == size + HeaderSize(Type(mem[..]))
    {
      var mtype := ReadWord(TYPE_AT);
      var total := (size + HeaderSize(mtype)) % WORD;
      DecodeEncode32(total);
      PatchReads(mem[..], SIZE_AT, Encode32(total), TYPE_AT, UNION_AT);
      PatchReads(mem[..], SIZE_AT, Encode32(total), SIZE_AT, TYPE_AT);
      hide Patch, Encode32, Decode32;
      Write(SIZE_AT, Encode32(total));
      if size + HeaderSize(mtype) < WORD {
        NoWrap(size, HeaderSize(mtype));
      }
    }

    /** msgcpy */
    method Append(bytes: seq<byte>)
      requires Valid() && 4 + Size(mem[..]) + |bytes| <= mem.Length
      modifies mem
      ensures mem[..] == AppendImage(old(mem[..]), bytes)
      ensures Valid()
      ensures Data(mem[..]) == old(Data(mem[..])) + bytes
      ensures Size(mem[..]) == old(Size(mem[..])) + |bytes|
      ensures Type(mem[..]) == old(Type(mem[..])) && Allocated(mem[..]) == old(Allocated(mem[..]))
      ensures var off := DataOffset(Type(mem[..])); mem[..][TYPE_AT..off] == old(mem[..])[TYPE_AT..off]
    {
      AppendFacts(mem[..], bytes);
      assert mem[..][0..4] == mem[..][..SIZE_AT];
      AppendInPlace(bytes);
      assert mem[..][0..4] == mem[..][..SIZE_AT];
    }

    method AppendInPlace(bytes: seq<byte>)
      requires Valid() && 4 + Size(mem[..]) + |bytes| <= mem.Length
      modifies mem
      ensures mem[..] == AppendImage(old(mem[..]), bytes)
    {
      DataSizeOf(mem[..]);
      var mtype := ReadWord(TYPE_AT);
      var size := ReadWord(SIZE_AT);
      var dataSize := (size + WORD - HeaderSize(mtype)) % WORD;
      ghost var img := mem[..];
      assert dataSize == size - HeaderSize(mtype);
      var newSize: uint32 := |bytes| + dataSize;
      ghost var total: uint32 := newSize + HeaderSize(mtype);
      assert total == Size(img) + |bytes| && total % WORD == total;
      SetDataSize(newSize);
      ghost var resized := Patch(img, SIZE_AT, Encode32(total));
      assert mem[..] == resized;
      assert DataOffset(mtype) + dataSize == 4 + Size(img);
      Write(DataOffset(mtype) + dataSize, bytes);
      assert mem[..] == Patch(resized, 4 + Size(img), bytes);
    }

    /** msg_set_id and msg_set_epid */
    method SetId(num: nat, kind: uint32, dir: uint32)
      requires num < 0x1_0000
      requires Valid() && Type(mem[..]) != MANAGEMENT
      modifies mem
      ensures Valid() && Type(mem[..]) == old(Type(mem[..])) && Size(mem[..]) == old(Size(mem[..]))
      ensures Data(mem[..]) == old(Data(mem[..])) && Allocated(mem[..]) == old(Allocated(mem[..]))
      ensures EpNum(mem[..]) == num && EpType(mem[..]) == kind && EpDirection(mem[..]) == dir
      ensures Type(mem[..]) == ACK ==> Status(mem[..]) == old(Status(mem[..]))
    {
      ghost var img := mem[..];
      var bytes: seq<byte> := [num % 256, num / 256] + Encode32(kind) + Encode32(dir);
      Write(12, bytes);
      DecodeEncode32(kind);
      DecodeEncode32(dir);
      PatchReads(img, 12, bytes, 0, 4);
      PatchReads(img, 12, bytes, SIZE_AT, TYPE_AT);
      PatchReads(img, 12, bytes, TYPE_AT, UNION_AT);
      PatchReads(img, 12, bytes, DataOffset(Type(img)), 4 + Size(img));
      if Type(img) == ACK {
        PatchReads(img, 12, bytes, 22, 26);
      }
      assert mem[..][14..18] == Encode32(kind);
      assert mem[..][18..22] == Encode32(dir);
    }

    method SetManagementType(kind: uint32)
      requires Valid() && Type(mem[..]) == MANAGEMENT
      modifies mem
      ensures Valid() && Type(mem[..]) == MANAGEMENT && Size(mem[..]) == old(Size(mem[..]))
      ensures Data(mem[..]) == old(Data(mem[..])) && Allocated(mem[..]) == old(Allocated(mem[..]))
      ensures ManagementType(mem[..]) == kind
    {
      ghost var img := mem[..];
      var bytes := Encode32(kind);
      Write(UNION_AT, bytes);
      DecodeEncode32(kind);
      PatchReads(img, UNION_AT, bytes, 0, 4);
      PatchReads(img, UNION_AT, bytes, SIZE_AT, TYPE_AT);
      PatchReads(img, UNION_AT, bytes, TYPE_AT, UNION_AT);
      PatchReads(img, UNION_AT, bytes, 16, 4 + Size(img));
    }

    method SetStatus(status: int)
      requires -0x8000_0000 <= status < 0x8000_0000
      requires Valid() && Type(mem[..]) == ACK
      modifies mem
      ensures Valid() && Type(mem[..]) == ACK && Size(mem[..]) == old(Size(mem[..]))
      ensures Data(mem[..]) == old(Data(mem[..])) && Allocated(mem[..]) == old(Allocated(mem[..]))
      ensures Status(mem[..]) == status
    {
      ghost var img := mem[..];
      var word := if status < 0 then status + WORD else status;
      var bytes := Encode32(word);
      Write(22, bytes);
      DecodeEncode32(word);
      PatchReads(img, 22, bytes, 0, 4);
      PatchReads(img, 22, bytes, SIZE_AT, TYPE_AT);
      PatchReads(img, 22, bytes, TYPE_AT, UNION_AT);
      PatchReads(img, 22, bytes, 26, 4 + Size(img));
    }
  }

  /** The fields between the type and the data of an acknowledgement are read off the same bytes. */
  lemma SameFields(img: seq<byte>, r: seq<byte>)
    requires |img| == |r| >= 26
    requires img[TYPE_AT..26] == r[TYPE_AT..26]
    ensures Status(img) == Status(r) && EpNum(img) == EpNum(r)
    ensures EpType(img) == EpType(r) && EpDirection(img) == EpDirection(r)
  {
    assert forall i | TYPE_AT <= i < 26 :: img[i] == img[TYPE_AT..26][i - TYPE_AT] == r[i];
    assert img[14..18] == r[14..18];
    assert img[18..22] == r[18..22];
    assert img[22..26] == r[22..26];
  }

  /** alloc_msg_ack: an acknowledgement that check_msg accepts and whose fields and data are the arguments. */
  method AllocAck(num: nat, kind: uint32, dir: uint32, status: int, bytes: Option<seq<byte>>, size: uint32)
      returns (m: Message)
    requires num < 0x1_0000 && kind < 4 && dir < 2 && -0x8000_0000 <= status < 0x8000_0000
    requires bytes.Some? ==> size == |bytes.value|
    requires size < WORD - 26
    ensures fresh(m) && fresh(m.mem) && m.Valid()
    ensures Type(m.mem[..]) == ACK && Status(m.mem[..]) == status
    ensures EpNum(m.mem[..]) == num && EpType(m.mem[..]) == kind && EpDirection(m.mem[..]) == dir
    ensures Data(m.mem[..]) == if bytes.Some? then bytes.value else []
    ensures CheckMsg(m.mem[..])
  {
    m := new Message(size, ACK);
    m.SetStatus(status);
    m.SetId(num, kind, dir);
    ghost var img := m.mem[..];
    if bytes.Some? {
      m.Append(bytes.value);
      SameFields(img, m.mem[..]);
    }
    CheckMsgMeaning(m.mem[..]);
  }
}
