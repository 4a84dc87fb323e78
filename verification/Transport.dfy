/** The UDP carrier (com_udp.c): partial sends, partial receives, and what is rebuilt from them. */
module Transport {
  import opened Bytes
  import opened Messages
  import opened Errno

  // ---------------------------------------------------------------- sending

  /**
   * The results of successive calls of raw_send: call number and bytes offered to bytes taken,
   * or a negative error.
   */
  type Socket = (nat, nat) -> int

  ghost predicate TakesNoMoreThanOffered(raw: Socket)
  {
    forall call, offered :: raw(call, offered) <= offered
  }

  ghost predicate AlwaysProgresses(raw: Socket)
  {
    forall call, offered :: offered > 0 ==> 0 < raw(call, offered)
  }

  /**
   * udp_send. `wire` collects what the socket took, call after call. Whatever the split, it is
   * always the message from its first byte on, without gap or repeat.
   */
  method UdpSend(m: Message, raw: Socket) returns (ret: int, wire: seq<byte>, calls: nat)
    requires m.Valid() && TakesNoMoreThanOffered(raw)
    ensures wire <= Wire(m.mem[..])
    ensures ret >= 0 ==> ret == |wire|
    ensures 0 <= ret < Size(m.mem[..]) ==> calls > 0 && raw(calls - 1, Size(m.mem[..]) - ret) == 0
    ensures ret < 0 ==> calls > 0 && raw(calls - 1, Size(m.mem[..]) - |wire|) == ret
    ensures AlwaysProgresses(raw) ==> ret == Size(m.mem[..]) && wire == Wire(m.mem[..])
  {
    ghost var whole := Wire(m.mem[..]);
    var size := m.ReadWord(SIZE_AT);
    var sz, len := 0, size;
    wire := [];
    calls := 0;
    while sz != size
      invariant 0 <= sz <= size && len == size - sz
      invariant wire == whole[..sz]
      decreases len
    {
      var s := raw(calls, len);
      calls := calls + 1;
      if s < 0 {
        return s, wire, calls;
      } else if s == 0 {
        break;
      } else {
        SliceOfSlice(m.mem[..], SIZE_AT, SIZE_AT + size, sz, sz + s);
        var chunk := m.mem[SIZE_AT + sz..SIZE_AT + sz + s];
        assert chunk == m.mem[..][SIZE_AT + sz..SIZE_AT + sz + s];
        wire := wire + chunk;
        assert whole[..sz] + whole[sz..sz + s] == whole[..sz + s];
        sz := sz + s;
        len := len - s;
      }
    }
    ret := sz;
  }

  // -------------------------------------------------------------- receiving

  /** What one raw_recv returns; a zero-length read is Got([]). */
  datatype Read = Fail(code: int) | Got(bytes: seq<byte>)

  /** Waiting: every read so far has been consumed and the message is still incomplete. */
  datatype Receipt = Received(bytes: seq<byte>) | Failed(code: int) | Waiting

  /** The socket never stores more than was asked for. */
  function Clip(bytes: seq<byte>, room: nat): (r: seq<byte>)
    ensures |r| <= room && r <= bytes
  {
    if |bytes| <= room then bytes else bytes[..room]
  }

  function Collect(have: seq<byte>, arrivals: seq<Read>, len: nat): Receipt
    requires |have| <= len
    decreases |arrivals|
  {
    if |have| == len then Received(have)
    else if arrivals == [] then Waiting
    else match arrivals[0]
         case Fail(code) => Failed(code)
         case Got(bytes) => Collect(have + Clip(bytes, len - |have|), arrivals[1..], len)
  }

  function Receive(arrivals: seq<Read>, capacity: nat): Receipt
  {
    if arrivals == [] then Waiting
    else match arrivals[0]
         case Fail(_) => Failed(-EINVAL)
         case Got(bytes) =>
           var first := Clip(bytes, capacity);
           if |first| < 4 then Failed(-EINVAL)
           else
             var len := Decode32(first[..4]);
             if len < |first| || len > capacity then Failed(-EINVAL)
             else Collect(first, arrivals[1..], len)
  }

  predicate AllGot(arrivals: seq<Read>)
  {
    forall i | 0 <= i < |arrivals| :: arrivals[i].Got?
  }

  function Payloads(arrivals: seq<Read>): (parts: seq<seq<byte>>)
    requires AllGot(arrivals)
    ensures |parts| == |arrivals|
  {
    seq(|arrivals|, i requires 0 <= i < |arrivals| => arrivals[i].bytes)
  }

  /** The reads cut `w` into pieces, the first of which holds the size word. */
  predicate Splits(arrivals: seq<Read>, w: seq<byte>)
  {
    arrivals != [] && AllGot(arrivals) && 4 <= |arrivals[0].bytes| && Concat(Payloads(arrivals)) == w
  }

  lemma PayloadsTail(arrivals: seq<Read>)
    requires AllGot(arrivals) && arrivals != []
    ensures Concat(Payloads(arrivals)) == arrivals[0].bytes + Concat(Payloads(arrivals[1..]))
  {
    assert Payloads(arrivals)[1..] == Payloads(arrivals[1..]);
    ConcatFront(Payloads(arrivals));
  }

  lemma {:induction false} CollectRebuilds(have: seq<byte>, arrivals: seq<Read>, w: seq<byte>)
    requires AllGot(arrivals) && have + Concat(Payloads(arrivals)) == w
    ensures Collect(have, arrivals, |w|) == Received(w)
    decreases |arrivals|
  {
    if arrivals == [] {
      assert have + [] == have;
    } else if |have| == |w| {
      assert have == w;
    } else {
      PayloadsTail(arrivals);
      var bytes := arrivals[0].bytes;
      assert Clip(bytes, |w| - |have|) == bytes;
      assert (have + bytes) + Concat(Payloads(arrivals[1..])) == w;
      CollectRebuilds(have + bytes, arrivals[1..], w);
    }
  }

  lemma {:induction false} CollectSound(have: seq<byte>, arrivals: seq<Read>, len: nat)
    requires |have| <= len
    ensures var r := Collect(have, arrivals, len);
            r.Received? ==> |r.bytes| == len && have <= r.bytes
    ensures AllGot(arrivals) && Collect(have, arrivals, len).Received? ==>
              Collect(have, arrivals, len).bytes <= have + Concat(Payloads(arrivals))
    decreases |arrivals|
  {
    if |have| < len && arrivals != [] && arrivals[0].Got? {
      var bytes := arrivals[0].bytes;
      var more := Clip(bytes, len - |have|);
      CollectSound(have + more, arrivals[1..], len);
      if AllGot(arrivals) {
        PayloadsTail(arrivals);
        var r := Collect(have, arrivals, len);
        if r.Received? {
          if more == bytes {
            assert have + bytes + Concat(Payloads(arrivals[1..])) == have + (bytes + Concat(Payloads(arrivals[1..])));
          } else {
            assert |have + more| == len && r.bytes == have + more;
          }
        }
      }
    }
  }

  /**
   * Round trip: every split of a message whose first chunk holds the size word, and whose total
   * fits the buffer, is rebuilt to exactly that message, whatever zero-length reads come between.
   */
  lemma ReceiveRebuilds(w: seq<byte>, arrivals: seq<Read>, capacity: nat)
    requires 4 <= |w| <= capacity && Decode32(w[..4]) == |w|
    requires Splits(arrivals, w)
    ensures Receive(arrivals, capacity) == Received(w)
  {
    PayloadsTail(arrivals);
    var first := arrivals[0].bytes;
    assert first <= w && first[..4] == w[..4];
    CollectRebuilds(first, arrivals[1..], w);
  }

  /**
   * Conversely a message is delivered only if its own size word counts its bytes, it fits the
   * buffer, and it is the beginning of what arrived.
   */
  lemma ReceiveSound(arrivals: seq<Read>, capacity: nat)
    requires Receive(arrivals, capacity).Received? && AllGot(arrivals)
    ensures var w := Receive(arrivals, capacity).bytes;
            4 <= |w| <= capacity && Decode32(w[..4]) == |w| && w <= Concat(Payloads(arrivals))
  {
    var first := Clip(arrivals[0].bytes, capacity);
    var len := Decode32(first[..4]);
    CollectSound(first, arrivals[1..], len);
    PayloadsTail(arrivals);
    var w := Receive(arrivals, capacity).bytes;
    assert w[..4] == first[..4];
    if first != arrivals[0].bytes {
      assert |first| == len && w == first;
    }
  }

  lemma PatchExtend(img: seq<byte>, at: nat, a: seq<byte>, b: seq<byte>)
    requires at + |a| + |b| <= |img|
    ensures Patch(Patch(img, at, a), at + |a|, b) == Patch(img, at, a + b)
  {
  }

  lemma PatchNothing(img: seq<byte>)
    requires SIZE_AT <= |img|
    ensures Patch(img, SIZE_AT, []) == img
  {
  }

  lemma PatchWord(img: seq<byte>, a: seq<byte>)
    requires SIZE_AT + |a| <= |img| && 4 <= |a|
    ensures Load32(Patch(img, SIZE_AT, a), SIZE_AT) == Decode32(a[..4])
  {
    assert Patch(img, SIZE_AT, a)[SIZE_AT..SIZE_AT + 4] == a[..4];
  }

  /** The bytes the first `k` reads brought. */
  function Brought(arrivals: seq<Read>, k: nat): nat
    requires k <= |arrivals|
  {
    if k == 0 then 0 else Brought(arrivals, k - 1) + if arrivals[k - 1].Got? then |arrivals[k - 1].bytes| else 0
  }

  /** The first `k` reads succeeded and left the message of `len` bytes, of which `have` were there, incomplete. */
  predicate Incomplete(have: nat, arrivals: seq<Read>, k: nat, len: nat)
    requires k <= |arrivals|
  {
    (forall i | 0 <= i < k :: arrivals[i].Got?) && have + Brought(arrivals, k) < len
  }

  lemma {:induction false} BroughtTail(arrivals: seq<Read>, k: nat)
    requires 0 < k <= |arrivals|
    ensures Brought(arrivals, k) ==
              (if arrivals[0].Got? then |arrivals[0].bytes| else 0) + Brought(arrivals[1..], k - 1)
  {
    if k > 1 {
      BroughtTail(arrivals, k - 1);
    }
  }

  lemma IncompleteTail(have: nat, arrivals: seq<Read>, k: nat, len: nat)
    requires 0 < k <= |arrivals| && arrivals[0].Got?
    ensures Incomplete(have, arrivals, k, len) <==> Incomplete(have + |arrivals[0].bytes|, arrivals[1..], k - 1, len)
  {
    BroughtTail(arrivals, k);
    assert forall i | 1 <= i < k :: arrivals[i] == arrivals[1..][i - 1];
  }

  /** A read failed with this code while the message was incomplete. */
  ghost predicate FailsWith(have: nat, arrivals: seq<Read>, len: nat, c: int)
  {
    exists k :: 0 <= k < |arrivals| && arrivals[k] == Fail(c) && Incomplete(have, arrivals, k, len)
  }

  lemma FailsNext(have: nat, arrivals: seq<Read>, len: nat, c: int, now: nat)
    requires have < len && arrivals != [] && arrivals[0].Got? && have <= now <= len
    requires now == have + |arrivals[0].bytes| || now == len <= have + |arrivals[0].bytes|
    ensures FailsWith(have, arrivals, len, c) <==> FailsWith(now, arrivals[1..], len, c)
    ensures Incomplete(have, arrivals, |arrivals|, len) <==> Incomplete(now, arrivals[1..], |arrivals| - 1, len)
  {
    IncompleteTail(have, arrivals, |arrivals|, len);
    if k :| 0 <= k < |arrivals| && arrivals[k] == Fail(c) && Incomplete(have, arrivals, k, len) {
      IncompleteTail(have, arrivals, k, len);
      assert arrivals[1..][k - 1] == Fail(c) && Incomplete(now, arrivals[1..], k - 1, len);
    }
    if k :| 0 <= k < |arrivals| - 1 && arrivals[1..][k] == Fail(c) && Incomplete(now, arrivals[1..], k, len) {
      IncompleteTail(have, arrivals, k + 1, len);
      assert arrivals[k + 1] == Fail(c) && Incomplete(have, arrivals, k + 1, len);
    }
  }

  /**
   * The completing loop ends with the code of a failed read exactly when the reads before it
   * succeeded without completing the message, and waits exactly when all reads did so.
   */
  lemma {:induction false} CollectExactly(have: seq<byte>, arrivals: seq<Read>, len: nat)
    requires |have| <= len
    ensures forall c :: Collect(have, arrivals, len) == Failed(c) <==> FailsWith(|have|, arrivals, len, c)
    ensures Collect(have, arrivals, len) == Waiting <==> Incomplete(|have|, arrivals, |arrivals|, len)
    decreases |arrivals|
  {
    if |have| < len && arrivals != [] && arrivals[0].Got? {
      var more := Clip(arrivals[0].bytes, len - |have|);
      CollectExactly(have + more, arrivals[1..], len);
      forall c
        ensures Collect(have, arrivals, len) == Failed(c) <==> FailsWith(|have|, arrivals, len, c)
      {
        FailsNext(|have|, arrivals, len, c, |have + more|);
      }
      FailsNext(|have|, arrivals, len, 0, |have + more|);
    } else if |have| < len && arrivals != [] {
      assert Incomplete(|have|, arrivals, 0, len);
      assert !Incomplete(|have|, arrivals, |arrivals|, len);
    }
  }

  /** What the socket stores of a first read. */
  function Taken(bytes: seq<byte>, capacity: nat): nat
  {
    if |bytes| <= capacity then |bytes| else capacity
  }

  /**
   * A first read ends the receipt when it fails, or stores no size, more than the size says, or a
   * size beyond the buffer.
   */
  predicate BadStart(r: Read, capacity: nat)
  {
    match r
    case Fail(_) => true
    case Got(bytes) =>
      Taken(bytes, capacity) < 4 || Decode32(bytes[..4]) < Taken(bytes, capacity) || capacity < Decode32(bytes[..4])
  }

  /**
   * udp_recv fails with -EINVAL on a bad first read, and then only with the code of a later read
   * that failed while the message was incomplete; it waits exactly while all reads succeed without
   * completing it.
   */
  lemma ReceiveExactly(arrivals: seq<Read>, capacity: nat)
    requires arrivals != []
    ensures BadStart(arrivals[0], capacity) ==> Receive(arrivals, capacity) == Failed(-EINVAL)
    ensures !BadStart(arrivals[0], capacity) ==>
              var n, len := Taken(arrivals[0].bytes, capacity), Decode32(arrivals[0].bytes[..4]);
              && (forall c :: Receive(arrivals, capacity) == Failed(c) <==> FailsWith(n, arrivals[1..], len, c))
              && (Receive(arrivals, capacity) == Waiting <==> Incomplete(n, arrivals[1..], |arrivals| - 1, len))
  {
    if arrivals[0].Got? && Taken(arrivals[0].bytes, capacity) >= 4 {
      var bytes := arrivals[0].bytes;
      assert Clip(bytes, capacity)[..4] == bytes[..4];
      if !BadStart(arrivals[0], capacity) {
        CollectExactly(Clip(bytes, capacity), arrivals[1..], Decode32(bytes[..4]));
      }
    }
  }

  /**
   * End to end: a message that was sent, split and reassembled arrives as the same message, in
   * whatever buffer it is received, and passes check_msg there exactly if it would at the sender.
   */
  lemma Delivery(sent: seq<byte>, buffer: seq<byte>, arrivals: seq<Read>)
    requires WellFormed(sent) && UNION_AT <= |buffer| < WORD && 4 + Allocated(buffer) <= |buffer|
    requires Size(sent) <= Allocated(buffer)
    requires Splits(arrivals, Wire(sent))
    ensures Receive(arrivals, Allocated(buffer)) == Received(Wire(sent))
    ensures var r := Patch(buffer, SIZE_AT, Wire(sent));
            && WellFormed(r) && Type(r) == Type(sent) && Data(r) == Data(sent)
            && CheckMsg(r) == CheckMsg(sent)
  {
    assert Wire(sent)[..4] == sent[SIZE_AT..SIZE_AT + 4];
    ReceiveRebuilds(Wire(sent), arrivals, Allocated(buffer));
    DeliveredImage(sent, buffer);
  }

  lemma DeliveredSlice(sent: seq<byte>, buffer: seq<byte>, lo: nat, hi: nat)
    requires UNION_AT <= |sent| && 4 + Size(sent) <= |sent| && 4 + Size(sent) <= |buffer|
    requires SIZE_AT <= lo <= hi <= 4 + Size(sent)
    ensures Patch(buffer, SIZE_AT, Wire(sent))[lo..hi] == sent[lo..hi]
  {
    var w := Wire(sent);
    SliceOfSlice(sent, SIZE_AT, 4 + Size(sent), lo - SIZE_AT, hi - SIZE_AT);
    SliceOfSlice(Patch(buffer, SIZE_AT, w), SIZE_AT, SIZE_AT + |w|, lo - SIZE_AT, hi - SIZE_AT);
    PatchReads(buffer, SIZE_AT, w, SIZE_AT, SIZE_AT + |w|);
  }

  lemma DeliveredImage(sent: seq<byte>, buffer: seq<byte>)
    requires WellFormed(sent) && UNION_AT <= |buffer| < WORD && 4 + Size(sent) <= |buffer|
    ensures var r := Patch(buffer, SIZE_AT, Wire(sent));
            && WellFormed(r) && Type(r) == Type(sent) && Data(r) == Data(sent)
            && CheckMsg(r) == CheckMsg(sent)
  {
    DeliveredSlice(sent, buffer, SIZE_AT, TYPE_AT);
    DeliveredSlice(sent, buffer, TYPE_AT, UNION_AT);
    DeliveredSlice(sent, buffer, DataOffset(Type(sent)), 4 + Size(sent));
    if Type(sent) == MANAGEMENT {
      DeliveredSlice(sent, buffer, UNION_AT, 16);
    } else {
      DeliveredSlice(sent, buffer, 14, 18);
      DeliveredSlice(sent, buffer, 18, 22);
    }
  }

  /** Room for `capacity` bytes from the stored size on, of which the first `|stored|` are written. */
  ghost predicate Stored(now: seq<byte>, img: seq<byte>, capacity: nat, stored: seq<byte>)
  {
    |stored| <= capacity && SIZE_AT + capacity <= |img| && now == Patch(img, SIZE_AT, stored)
  }

  lemma StoredMore(now: seq<byte>, img: seq<byte>, capacity: nat, stored: seq<byte>, more: seq<byte>)
    requires Stored(now, img, capacity, stored) && |stored| + |more| <= capacity
    ensures |now| == |img| && SIZE_AT + |stored| + |more| <= |now|
    ensures Stored(Patch(now, SIZE_AT + |stored|, more), img, capacity, stored + more)
  {
    PatchExtend(img, SIZE_AT, stored, more);
  }

  /** The loop of udp_recv: read until the message is complete. */
  method ReceiveRest(m: Message, arrivals: seq<Read>, first: seq<byte>, len: nat, ghost img: seq<byte>,
                     ghost capacity: nat)
      returns (receipt: Receipt, stored: seq<byte>)
    requires |first| <= len <= capacity && Stored(m.mem[..], img, capacity, first)
    modifies m.mem
    ensures receipt == Collect(first, arrivals, len)
    ensures Stored(m.mem[..], img, capacity, stored)
    ensures receipt.Received? ==> receipt.bytes == stored
  {
    hide Stored;
    var sz := |first|;
    stored := first;
    var next := 0;
    assert arrivals[0..] == arrivals;
    while sz != len
      invariant 0 <= next <= |arrivals| && sz == |stored| <= len
      invariant Stored(m.mem[..], img, capacity, stored)
      invariant Collect(first, arrivals, len) == Collect(stored, arrivals[next..], len)
      decreases |arrivals| - next
    {
      if next == |arrivals| {
        return Waiting, stored;
      }
      var arrival := arrivals[next];
      assert arrivals[next..][1..] == arrivals[next + 1..];
      next := next + 1;
      if arrival.Fail? {
        return Failed(arrival.code), stored;
      }
      var s := Clip(arrival.bytes, len - sz);
      StoredMore(m.mem[..], img, capacity, stored, s);
      m.Write(SIZE_AT + sz, s);
      stored := stored + s;
      sz := sz + |s|;
    }
    receipt := Received(stored);
  }

  /**
   * udp_recv, filling the buffer of `m` in place from the stored size on; `stored` is all it wrote.
   * The wait for further reads is cut where `arrivals` ends.
   */
  method UdpRecv(m: Message, arrivals: seq<Read>) returns (receipt: Receipt, stored: seq<byte>)
    requires UNION_AT <= m.mem.Length && 4 + Allocated(m.mem[..]) <= m.mem.Length && 8 <= Allocated(m.mem[..])
    modifies m.mem
    ensures receipt == Receive(arrivals, old(Allocated(m.mem[..])))
    ensures |stored| <= old(Allocated(m.mem[..])) && m.mem[..] == Patch(old(m.mem[..]), SIZE_AT, stored)
    ensures receipt.Received? ==> receipt.bytes == stored
  {
    ghost var img := m.mem[..];
    var capacity := m.ReadWord(0);
    stored := [];
    PatchNothing(img);
    if arrivals == [] {
      return Waiting, stored;
    }
    if arrivals[0].Fail? {
      return Failed(-EINVAL), stored;
    }
    stored := Clip(arrivals[0].bytes, capacity);
    m.Write(SIZE_AT, stored);
    var sz := |stored|;
    if sz < 4 {
      return Failed(-EINVAL), stored;
    }
    PatchWord(img, stored);
    var len := m.ReadWord(SIZE_AT);
    if len < sz {
      return Failed(-EINVAL), stored;
    }
    // The branch for sz == 0 that follows here in udp_recv is dead: such a read failed above.
    if len > capacity {
      return Failed(-EINVAL), stored;
    }
    receipt, stored := ReceiveRest(m, arrivals[1..], stored, len, img, capacity);
  }
}
