/** build_init_pkt (driver.c): count the bytes, allocate, fill. */
module InitBuilder {
  import opened Bytes
  import opened Messages
  import opened Descriptors
  import opened InitPacket

  // -------------------------------------------------- positions in the loops

  /** The settings before interface `i`, alternate `j`. */
  ghost function Before(interfaces: seq<seq<Setting>>, i: nat, j: nat): seq<Setting>
    requires i < |interfaces| && j <= |interfaces[i]|
  {
    Concat(interfaces[..i]) + interfaces[i][..j]
  }

  lemma RowEnds(interfaces: seq<seq<Setting>>, i: nat)
    requires i < |interfaces|
    ensures Before(interfaces, i, 0) == Concat(interfaces[..i])
    ensures Before(interfaces, i, |interfaces[i]|) == Concat(interfaces[..i + 1])
  {
    var row := interfaces[i];
    assert interfaces[..i + 1] == interfaces[..i] + [row];
    ConcatAppend(interfaces[..i], [row]);
    ConcatOne(row);
    assert row[..|row|] == row;
  }

  lemma NextBefore(interfaces: seq<seq<Setting>>, i: nat, j: nat)
    requires i < |interfaces| && j < |interfaces[i]|
    ensures Before(interfaces, i, j + 1) == Before(interfaces, i, j) + [interfaces[i][j]]
  {
    assert interfaces[i][..j + 1] == interfaces[i][..j] + [interfaces[i][j]];
  }

  lemma BeforeIsPrefix(interfaces: seq<seq<Setting>>, i: nat, j: nat)
    requires i < |interfaces| && j <= |interfaces[i]|
    ensures Before(interfaces, i, j) <= Concat(interfaces)
  {
    var row, rest := interfaces[i], interfaces[i + 1..];
    assert interfaces == interfaces[..i + 1] + rest;
    ConcatAppend(interfaces[..i + 1], rest);
    RowEnds(interfaces, i);
    assert row == row[..j] + row[j..];
  }

  lemma {:induction false} CountAppend(a: seq<Setting>, b: seq<Setting>)
    requires AllDescribed(a) && AllDescribed(b)
    ensures AllDescribed(a + b) && CountPass(a + b) == CountPass(a) + CountPass(b)
  {
    if b == [] {
      assert a + b == a;
    } else {
      assert (a + b)[..|a + b| - 1] == a + b[..|b| - 1];
      CountAppend(a, b[..|b| - 1]);
    }
  }

  // -------------------------------------------------------------- first pass

  ghost predicate Counted(settings: seq<Setting>, sz: nat)
  {
    AllDescribed(settings) && sz == 31 + CountPass(settings)
  }

  method CountBytes(d: Device) returns (sz: nat)
    requires KernelDevice(d)
    ensures sz == SizePass(d)
  {
    NothingCounted(d);
    hide *;
    sz := 4;
    sz := sz + DEVICE_SIZE;
    sz := sz + CONFIG_SIZE;
    for i := 0 to |d.interfaces|
      invariant CountedTo(d, i, 0, sz)
    {
      for j := 0 to |d.interfaces[i]|
        invariant CountedTo(d, i, j, sz)
      {
        NextCount(d, i, j, sz);
        sz := sz + INTERFACE_SIZE;
        sz := sz + d.interfaces[i][j].desc[4] * ENDPOINT_SIZE;
      }
      NextRow(d, i, sz);
    }
    AllCounted(d, sz);
  }

  /** `sz` counts everything before interface `i`, alternate `j`. */
  ghost predicate CountedTo(d: Device, i: nat, j: nat, sz: nat)
  {
    && KernelDevice(d)
    && (if i < |d.interfaces| then j <= |d.interfaces[i]| && Counted(Before(d.interfaces, i, j), sz)
        else Counted(Concat(d.interfaces), sz))
  }

  lemma NextCount(d: Device, i: nat, j: nat, sz: nat)
    requires i < |d.interfaces| && j < |d.interfaces[i]| && CountedTo(d, i, j, sz)
    ensures 5 <= |d.interfaces[i][j].desc|
    ensures CountedTo(d, i, j + 1, sz + INTERFACE_SIZE + d.interfaces[i][j].desc[4] * ENDPOINT_SIZE)
  {
    var s, before, after := d.interfaces[i][j], Before(d.interfaces, i, j), Before(d.interfaces, i, j + 1);
    NextBefore(d.interfaces, i, j);
    BeforeIsPrefix(d.interfaces, i, j + 1);
    assert s == after[|before|] == Concat(d.interfaces)[|before|];
    assert after[..|after| - 1] == before;
  }

  lemma NextRow(d: Device, i: nat, sz: nat)
    requires i < |d.interfaces| && CountedTo(d, i, |d.interfaces[i]|, sz)
    ensures CountedTo(d, i + 1, 0, sz)
  {
    RowEnds(d.interfaces, i);
    if i + 1 < |d.interfaces| {
      RowEnds(d.interfaces, i + 1);
    } else {
      assert d.interfaces[..i + 1] == d.interfaces;
    }
  }

  lemma NothingCounted(d: Device)
    requires KernelDevice(d)
    ensures CountedTo(d, 0, 0, 4 + DEVICE_SIZE + CONFIG_SIZE)
  {
    if d.interfaces != [] {
      RowEnds(d.interfaces, 0);
    }
  }

  lemma AllCounted(d: Device, sz: nat)
    requires CountedTo(d, |d.interfaces|, 0, sz)
    ensures sz == SizePass(d)
  {
  }

  // ------------------------------------------------------------- second pass

  /** All the buffers the second pass appends, in order. */
  ghost function Parts(d: Device): seq<seq<byte>>
  {
    [d.speed, d.device, d.conf] + Tokens(Concat(d.interfaces))
  }

  lemma PartsSerialize(d: Device)
    ensures Concat(Parts(d)) == Serialize(d)
  {
    ConcatAppend([d.speed, d.device, d.conf], Tokens(Concat(d.interfaces)));
    assert [d.speed, d.device, d.conf] == [d.speed, d.device] + [d.conf];
    assert [d.speed, d.device] == [d.speed] + [d.device];
    ConcatAppend([d.speed, d.device], [d.conf]);
    ConcatAppend([d.speed], [d.device]);
    ConcatOne(d.speed);
    ConcatOne(d.device);
    ConcatOne(d.conf);
  }

  lemma ConcatPrefix(parts: seq<seq<byte>>, n: nat)
    requires n <= |parts|
    ensures |Concat(parts[..n])| <= |Concat(parts)|
  {
    assert parts == parts[..n] + parts[n..];
    ConcatAppend(parts[..n], parts[n..]);
  }

  ghost predicate RoomFor(start: seq<byte>, bytes: seq<byte>)
  {
    WellFormed(start) && 4 + Size(start) + |bytes| <= |start|
  }

  /** The message holds the first `n` of `parts`, appended to the image it had before. */
  ghost predicate Holds(img: seq<byte>, start: seq<byte>, parts: seq<seq<byte>>, n: nat)
  {
    n <= |parts| && RoomFor(start, Concat(parts[..n])) && img == AppendAll(start, parts[..n])
  }

  lemma HoldsNext(img: seq<byte>, start: seq<byte>, parts: seq<seq<byte>>, n: nat)
    requires Holds(img, start, parts, n) && n < |parts|
    ensures WellFormed(img) && |img| == |start|
    ensures RoomFor(img, parts[n]) ==> Holds(AppendImage(img, parts[n]), start, parts, n + 1)
    ensures !RoomFor(img, parts[n]) ==> !RoomFor(start, Concat(parts))
  {
    assert parts[..n + 1][..n] == parts[..n];
    ConcatPrefix(parts, n + 1);
  }

  /** msgcpy of the next part; where it would leave the allocation, which C does not notice, the filling ends. */
  method AppendPart(m: Message, bytes: seq<byte>, ghost start: seq<byte>, ghost parts: seq<seq<byte>>, ghost n: nat)
      returns (fits: bool)
    requires Holds(m.mem[..], start, parts, n) && n < |parts| && parts[n] == bytes
    modifies m.mem
    ensures if fits then Holds(m.mem[..], start, parts, n + 1) else !RoomFor(start, Concat(parts))
  {
    HoldsNext(m.mem[..], start, parts, n);
    var size := m.ReadWord(SIZE_AT);
    fits := 4 + size + |bytes| <= m.mem.Length;
    if fits {
      m.Append(bytes);
    }
  }

  lemma NextTokens(interfaces: seq<seq<Setting>>, i: nat, j: nat)
    requires i < |interfaces| && j < |interfaces[i]| && AllDescribed(Concat(interfaces))
    ensures Described(interfaces[i][j])
    ensures Tokens(Before(interfaces, i, j)) + SettingTokens(interfaces[i][j]) <= Tokens(Concat(interfaces))
    ensures Tokens(Before(interfaces, i, j + 1)) == Tokens(Before(interfaces, i, j)) + SettingTokens(interfaces[i][j])
  {
    var s, before, after := interfaces[i][j], Before(interfaces, i, j), Before(interfaces, i, j + 1);
    NextBefore(interfaces, i, j);
    BeforeIsPrefix(interfaces, i, j + 1);
    var all := Concat(interfaces);
    assert s == after[|before|] == all[|before|];
    assert all == after + all[|after|..];
    TokensAppend(after, all[|after|..]);
    assert after[..|after| - 1] == before && after[|after| - 1] == s;
  }

  /** `s` is what `parts` holds from position `n` on. */
  ghost predicate PartsFrom(parts: seq<seq<byte>>, n: nat, s: Setting)
  {
    && n + 1 + |s.endpoints| <= |parts|
    && parts[n] == s.desc
    && forall k | 0 <= k < |s.endpoints| :: parts[n + 1 + k] == s.endpoints[k]
  }

  lemma PartsAt(d: Device, tokens: seq<seq<byte>>, s: Setting)
    requires tokens + SettingTokens(s) <= Tokens(Concat(d.interfaces))
    ensures PartsFrom(Parts(d), 3 + |tokens|, s)
  {
    var all := Tokens(Concat(d.interfaces));
    var both := tokens + SettingTokens(s);
    assert both[|tokens|] == s.desc;
    assert forall k | 0 <= k < |s.endpoints| :: both[|tokens| + 1 + k] == SettingTokens(s)[1 + k] == s.endpoints[k];
    assert forall k | 0 <= k < |both| :: Parts(d)[3 + k] == all[k] == both[k];
  }

  /** The inner filling loop: one interface descriptor and its endpoints. */
  method FillSetting(m: Message, s: Setting, ghost start: seq<byte>, ghost parts: seq<seq<byte>>, ghost n: nat)
      returns (fits: bool)
    requires Described(s) && PartsFrom(parts, n, s)
    requires Holds(m.mem[..], start, parts, n)
    modifies m.mem
    ensures if fits then Holds(m.mem[..], start, parts, n + 1 + |s.endpoints|) else !RoomFor(start, Concat(parts))
  {
    hide Holds, RoomFor;
    fits := AppendPart(m, s.desc, start, parts, n);
    if !fits {
      return;
    }
    for k := 0 to s.desc[4]
      invariant fits && Holds(m.mem[..], start, parts, n + 1 + k)
    {
      fits := AppendPart(m, s.endpoints[k], start, parts, n + 1 + k);
      if !fits {
        return;
      }
    }
  }

  lemma HoldsNothing(start: seq<byte>, d: Device)
    requires WellFormed(start)
    ensures Holds(start, start, Parts(d), 0)
    ensures 3 <= |Parts(d)| && Parts(d)[0] == d.speed && Parts(d)[1] == d.device && Parts(d)[2] == d.conf
  {
    assert Parts(d)[..0] == [];
  }

  method FillBytes(m: Message, d: Device) returns (fits: bool)
    requires m.Valid() && KernelDevice(d)
    modifies m.mem
    ensures fits <==> RoomFor(old(m.mem[..]), Serialize(d))
    ensures fits ==> Holds(m.mem[..], old(m.mem[..]), Parts(d), |Parts(d)|)
  {
    ghost var start, parts := m.mem[..], Parts(d);
    HoldsNothing(start, d);
    PartsSerialize(d);
    hide *;
    fits := AppendPart(m, d.speed, start, parts, 0);
    if fits {
      fits := AppendPart(m, d.device, start, parts, 1);
    }
    if fits {
      fits := AppendPart(m, d.conf, start, parts, 2);
    }
    if fits {
      fits := FillSettings(m, d, start, parts);
    }
    if fits {
      HeldFits(m.mem[..], start, parts);
    }
  }

  lemma HeldFits(img: seq<byte>, start: seq<byte>, parts: seq<seq<byte>>)
    requires Holds(img, start, parts, |parts|)
    ensures RoomFor(start, Concat(parts))
  {
    assert parts[..|parts|] == parts;
  }

  /** How many parts precede interface `i`, alternate `j`. */
  ghost function PartCount(d: Device, i: nat, j: nat): nat
    requires i < |d.interfaces| && j <= |d.interfaces[i]|
  {
    3 + |Tokens(Before(d.interfaces, i, j))|
  }

  ghost function RowCount(d: Device, i: nat): nat
    requires i <= |d.interfaces|
  {
    3 + |Tokens(Concat(d.interfaces[..i]))|
  }

  lemma PartCounts(d: Device, i: nat)
    requires i < |d.interfaces|
    ensures PartCount(d, i, 0) == RowCount(d, i) && PartCount(d, i, |d.interfaces[i]|) == RowCount(d, i + 1)
  {
    RowEnds(d.interfaces, i);
  }

  lemma RowCounts(d: Device)
    ensures RowCount(d, 0) == 3 && RowCount(d, |d.interfaces|) == |Parts(d)|
  {
    assert d.interfaces[..|d.interfaces|] == d.interfaces;
    assert d.interfaces[..0] == [];
  }

  lemma NextPart(d: Device, i: nat, j: nat)
    requires KernelDevice(d) && i < |d.interfaces| && j < |d.interfaces[i]|
    ensures var s := d.interfaces[i][j];
            && Described(s) && PartsFrom(Parts(d), PartCount(d, i, j), s)
            && PartCount(d, i, j + 1) == PartCount(d, i, j) + 1 + |s.endpoints|
  {
    NextTokens(d.interfaces, i, j);
    PartsAt(d, Tokens(Before(d.interfaces, i, j)), d.interfaces[i][j]);
  }

  method FillSettings(m: Message, d: Device, ghost start: seq<byte>, ghost parts: seq<seq<byte>>) returns (fits: bool)
    requires KernelDevice(d) && parts == Parts(d)
    requires Holds(m.mem[..], start, parts, 3)
    modifies m.mem
    ensures if fits then Holds(m.mem[..], start, parts, |parts|) else !RoomFor(start, Concat(parts))
  {
    hide *;
    RowCounts(d);
    for i := 0 to |d.interfaces|
      invariant Holds(m.mem[..], start, parts, RowCount(d, i))
    {
      PartCounts(d, i);
      for j := 0 to |d.interfaces[i]|
        invariant Holds(m.mem[..], start, parts, PartCount(d, i, j))
      {
        NextPart(d, i, j);
        fits := FillSetting(m, d.interfaces[i][j], start, parts, PartCount(d, i, j));
        if !fits {
          return;
        }
      }
    }
    fits := true;
  }

  /** What a message that holds every part is. */
  lemma HoldsAll(img: seq<byte>, start: seq<byte>, d: Device)
    requires Holds(img, start, Parts(d), |Parts(d)|) && Type(start) == MANAGEMENT && Data(start) == []
    ensures WellFormed(img) && Type(img) == MANAGEMENT && Data(img) == Serialize(d)
    ensures Allocated(img) == Allocated(start) && ManagementType(img) == ManagementType(start)
  {
    assert Parts(d)[..|Parts(d)|] == Parts(d);
    PartsSerialize(d);
    AppendAllFacts(start, Parts(d));
    assert img[0..4] == img[..SIZE_AT] == start[..SIZE_AT] == start[0..4];
    assert img[UNION_AT..16] == img[TYPE_AT..16][4..8] == start[TYPE_AT..16][4..8] == start[UNION_AT..16];
    assert [] + Serialize(d) == Serialize(d);
  }

  /**
   * build_init_pkt. The appends stay inside the allocation exactly when the descriptors' excess is
   * not positive; then the packet is the serialized device and passes check_msg.
   */
  method BuildInitPkt(d: Device) returns (m: Message, fits: bool)
    requires KernelDevice(d) && SizePass(d) < WORD - 16
    ensures fresh(m) && fresh(m.mem)
    ensures fits <==> Excess(Concat(d.interfaces)) <= 0
    ensures fits ==>
              && m.Valid()
              && Type(m.mem[..]) == MANAGEMENT && ManagementType(m.mem[..]) == NEW_DEVICE
              && Allocated(m.mem[..]) == SizePass(d) && Data(m.mem[..]) == Serialize(d)
              && CheckMsg(m.mem[..])
    ensures StandardDevice(d) ==> fits && DataSize(m.mem[..]) == Allocated(m.mem[..])
  {
    FillFitsAllocation(d);
    var sz := CountBytes(d);
    m := new Message(sz, MANAGEMENT);
    m.SetManagementType(NEW_DEVICE);
    ghost var start := m.mem[..];
    DataSizeOf(start);
    fits := FillBytes(m, d);
    if fits {
      HoldsAll(m.mem[..], start, d);
      CheckMsgMeaning(m.mem[..]);
      DataSizeOf(m.mem[..]);
    }
  }
}
