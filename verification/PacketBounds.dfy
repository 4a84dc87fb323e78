/** The arrays of identity_t: when the parser's writes stay inside interfaces[64] and endpoints[8]. */
module PacketBounds {
  import opened Bytes
  import opened Descriptors
  import opened InitPacket

  const MAX_INTERFACES := 64
  const MAX_ENDPOINTS := 8

  /** Whether handling `t` writes inside interfaces[64] and endpoints[8]. */
  predicate StepInBounds(s: Scan, t: seq<byte>)
    requires ScanOk(s) && Token(t)
  {
    match s.open
    case None => |Step(s, t).done| <= MAX_INTERFACES
    case Some(w) => t[1] == DT_ENDPOINT ==> |s.done| < MAX_INTERFACES && |w.endpoints| < MAX_ENDPOINTS
  }

  predicate InBounds(s: Scan, tokens: seq<seq<byte>>)
    requires ScanOk(s) && AllTokens(tokens)
    decreases |tokens|
  {
    tokens == [] || (StepInBounds(s, tokens[0]) && InBounds(Step(s, tokens[0]), tokens[1..]))
  }

  predicate PacketInBounds(data: seq<byte>)
  {
    match BodyStart(data)
    case None => true
    case Some(at) =>
      LexTokens(data[at..]);
      InBounds(START, Lex(data[at..]))
  }

  predicate SettingsFit(settings: seq<Setting>)
  {
    |settings| <= MAX_INTERFACES && forall i | 0 <= i < |settings| :: |settings[i].endpoints| <= MAX_ENDPOINTS
  }

  /** The arrays hold everything the scan has stored, the endpoints of the open interface included. */
  predicate Fits(s: Scan)
  {
    && SettingsFit(s.done)
    && (s.open.Some? && s.open.value.endpoints != [] ==>
          |s.done| < MAX_INTERFACES && |s.open.value.endpoints| <= MAX_ENDPOINTS)
  }

  lemma StepFits(s: Scan, t: seq<byte>)
    requires ScanOk(s) && Token(t) && Fits(s)
    ensures StepInBounds(s, t) <==> Fits(Step(s, t))
  {
    var r := Step(s, t);
    if s.open.Some? && t[1] == DT_ENDPOINT {
      var w := s.open.value;
      var more := Setting(w.desc, w.endpoints + [Kept(t)]);
      if r.open.None? {
        assert r.done == s.done + [more] && r.done[|s.done|] == more;
      }
    }
  }

  lemma StepNeverFits(s: Scan, t: seq<byte>)
    requires ScanOk(s) && Token(t) && !Fits(s)
    ensures !Fits(Step(s, t))
  {
    var r := Step(s, t);
    assert forall i | 0 <= i < |s.done| :: r.done[i] == s.done[i];
    if SettingsFit(s.done) && r.open.None? {
      assert r.done[|s.done|].endpoints == s.open.value.endpoints + [Kept(t)];
    }
  }

  /** What does not fit never fits again. */
  lemma {:induction false} NeverFits(s: Scan, tokens: seq<seq<byte>>)
    requires ScanOk(s) && AllTokens(tokens) && !Fits(s)
    ensures !Fits(Run(s, tokens))
    decreases |tokens|
  {
    if tokens != [] {
      StepNeverFits(s, tokens[0]);
      NeverFits(Step(s, tokens[0]), tokens[1..]);
    }
  }

  /** No write leaves the arrays exactly when they can hold all that was stored in the end. */
  lemma {:induction false} InBoundsExactly(s: Scan, tokens: seq<seq<byte>>)
    requires ScanOk(s) && AllTokens(tokens) && Fits(s)
    ensures InBounds(s, tokens) <==> Fits(Run(s, tokens))
    decreases |tokens|
  {
    if tokens != [] {
      StepFits(s, tokens[0]);
      if StepInBounds(s, tokens[0]) {
        InBoundsExactly(Step(s, tokens[0]), tokens[1..]);
      } else {
        NeverFits(Step(s, tokens[0]), tokens[1..]);
      }
    }
  }

  /** A standard device's packet is parsed within the arrays exactly when it respects the documented limits. */
  lemma BuiltInBoundsExactly(d: Device)
    requires StandardDevice(d)
    ensures PacketInBounds(Serialize(d)) <==> SettingsFit(Concat(d.interfaces))
  {
    BuiltShape(d);
    RunTokens(Concat(d.interfaces));
    InBoundsExactly(START, Tokens(Concat(d.interfaces)));
    ParseHead(Head(d), Fill(Concat(d.interfaces)));
    assert Serialize(d)[|Head(d)|..] == Fill(Concat(d.interfaces));
  }

  /** Cutting a packet never makes it exceed the arrays. */
  lemma {:induction false} InBoundsPrefix(s: Scan, a: seq<seq<byte>>, b: seq<seq<byte>>)
    requires ScanOk(s) && AllTokens(a) && AllTokens(b) && AllTokens(a + b) && InBounds(s, a + b)
    ensures InBounds(s, a)
    decreases |a|
  {
    if a != [] {
      assert (a + b)[0] == a[0] && (a + b)[1..] == a[1..] + b;
      InBoundsPrefix(Step(s, a[0]), a[1..], b);
    }
  }

  lemma TruncatedInBounds(data: seq<byte>, k: nat)
    requires BodyStart(data).Some? && BodyStart(data).value <= k <= |data| && PacketInBounds(data)
    ensures PacketInBounds(data[..k])
  {
    var at := BodyStart(data).value;
    TruncatedHead(data, k);
    SliceOfSlice(data, 0, k, at, k);
    SliceOfSlice(data, at, |data|, 0, k - at);
    var b := data[at..];
    assert data[..k][at..] == b[..k - at];
    LexTruncated(b, k - at);
    LexTokens(b);
    LexTokens(b[..k - at]);
    var tokens, cut := Lex(b), Lex(b[..k - at]);
    hide Lex, AllTokens, InBounds, BodyStart, ConfigAt;
    TokensFrom(tokens, |cut|);
    assert tokens == cut + tokens[|cut|..];
    InBoundsPrefix(START, cut, tokens[|cut|..]);
  }

  /**
   * The count the parser computes at gadget.c:644-651 is never applied: a standard device with
   * nine endpoints in a setting is accepted, and its packet leaves the arrays.
   */
  lemma NineEndpointsLeaveTheArrays()
    ensures var d := SimpleDevice(NINE);
            StandardDevice(d) && ParseInit(Serialize(d)).Some? && !PacketInBounds(Serialize(d))
  {
    NineIsStandard();
    SimpleFacts(NINE);
    hide *;
    RoundTrip(SimpleDevice(NINE));
    BuiltInBoundsExactly(SimpleDevice(NINE));
    TooMany(NINE);
  }

  const NINE := Setting([9, 4, 0, 0, 9, 0, 0, 0, 0], seq(9, _ => [7, 5, 129, 2, 64, 0, 0]))

  lemma NineIsStandard()
    ensures Standard(NINE) && Described(NINE) && |NINE.endpoints| == 9
  {
  }

  lemma TooMany(s: Setting)
    requires |s.endpoints| > MAX_ENDPOINTS
    ensures !SettingsFit([s])
  {
    assert [s][0] == s;
  }

  /** A device with one interface of one setting. */
  function SimpleDevice(s: Setting): Device
  {
    Device([3, 0, 0, 0], [18, 1, 0, 2, 0, 0, 0, 64, 0, 0, 0, 0, 0, 0, 0, 0, 0, 1], [9, 2, 0, 0, 1, 1, 0, 128, 50],
      [[s]])
  }

  lemma SimpleFacts(s: Setting)
    requires Described(s)
    ensures KernelDevice(SimpleDevice(s)) && Concat(SimpleDevice(s).interfaces) == [s]
    ensures Standard(s) ==> StandardDevice(SimpleDevice(s))
  {
    hide Standard, Described, Concat;
    ConcatOne([s]);
  }

  /** A nine-byte endpoint descriptor makes the filled packet two bytes longer than its allocation. */
  lemma LongEndpointOverflows() returns (d: Device)
    ensures KernelDevice(d) && |Serialize(d)| == SizePass(d) + 2
  {
    var e: seq<byte> := [9, 5, 129, 2, 64, 0, 0, 0, 0];
    var s := Setting([9, 4, 0, 0, 1, 0, 0, 0, 0], [e]);
    d := SimpleDevice(s);
    SimpleFacts(s);
    TwoPasses([s]);
    hide SimpleDevice;
    assert [s][..0] == [] && [e][..0] == [];
    assert EndpointExcess([e]) == EndpointExcess([]) + 2;
    assert Excess([s]) == Excess([]) + 2;
  }
}
