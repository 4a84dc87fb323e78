/**
 * The packet that announces a device: what build_init_pkt (driver.c) writes and what
 * parse_init_pkt (gadget.c) makes of arbitrary bytes, and the laws that connect the two.
 */
module InitPacket {
  import opened Bytes
  import opened Descriptors

  // ---------------------------------------------------------------- builder

  /** The kernel's view of the device being mirrored. */
  datatype Device = Device(speed: seq<byte>, device: seq<byte>, conf: seq<byte>, interfaces: seq<seq<Setting>>)

  /** Each descriptor is given by the bytes its bLength counts; the counts match the lists. */
  predicate Described(s: Setting)
  {
    && 5 <= |s.desc| == s.desc[0]
    && s.desc[4] == |s.endpoints|
    && forall e | e in s.endpoints :: 0 < |e| == e[0]
  }

  predicate AllDescribed(settings: seq<Setting>)
  {
    forall i | 0 <= i < |settings| :: Described(settings[i])
  }

  predicate KernelDevice(d: Device)
  {
    && |d.speed| == 4 && |d.device| == DEVICE_SIZE && |d.conf| == CONFIG_SIZE
    && d.conf[4] == |d.interfaces|
    && AllDescribed(Concat(d.interfaces))
  }

  predicate StandardDevice(d: Device)
  {
    && KernelDevice(d)
    && d.device[0] == 18 && d.device[1] == DT_DEVICE
    && d.conf[0] == 9 && d.conf[1] == DT_CONFIG
    && AllStandard(Concat(d.interfaces))
  }

  function SettingTokens(s: Setting): seq<seq<byte>>
  {
    [s.desc] + s.endpoints
  }

  function Tokens(settings: seq<Setting>): seq<seq<byte>>
  {
    if settings == [] then []
    else Tokens(settings[..|settings| - 1]) + SettingTokens(settings[|settings| - 1])
  }

  /** The bytes of a list of settings, as the filling loops append them. */
  function Fill(settings: seq<Setting>): seq<byte>
  {
    Concat(Tokens(settings))
  }

  function Head(d: Device): seq<byte>
  {
    d.speed + d.device + d.conf
  }

  function Serialize(d: Device): seq<byte>
  {
    Head(d) + Fill(Concat(d.interfaces))
  }

  /** What the counting loops add for a list of settings. */
  function CountPass(settings: seq<Setting>): nat
    requires AllDescribed(settings)
  {
    if settings == [] then 0
    else
      var last := settings[|settings| - 1];
      CountPass(settings[..|settings| - 1]) + INTERFACE_SIZE + last.desc[4] * ENDPOINT_SIZE
  }

  lemma {:induction false} TokensAppend(a: seq<Setting>, b: seq<Setting>)
    ensures Tokens(a + b) == Tokens(a) + Tokens(b)
    ensures Fill(a + b) == Fill(a) + Fill(b)
  {
    if b == [] {
      assert a + b == a;
    } else {
      assert (a + b)[..|a + b| - 1] == a + b[..|b| - 1];
      TokensAppend(a, b[..|b| - 1]);
    }
    ConcatAppend(Tokens(a), Tokens(b));
  }

  lemma FillOne(s: Setting)
    ensures Fill([s]) == s.desc + Concat(s.endpoints)
  {
    assert [s][..0] == [];
    assert Tokens([s]) == [] + SettingTokens(s) == SettingTokens(s);
    ConcatAppend([s.desc], s.endpoints);
    ConcatOne(s.desc);
  }

  /** How far a setting's descriptors exceed the sizes the counting pass assumes. */
  function Excess(settings: seq<Setting>): int
  {
    if settings == [] then 0
    else
      var last := settings[|settings| - 1];
      Excess(settings[..|settings| - 1]) + |last.desc| - INTERFACE_SIZE + EndpointExcess(last.endpoints)
  }

  function EndpointExcess(endpoints: seq<seq<byte>>): int
  {
    if endpoints == [] then 0
    else EndpointExcess(endpoints[..|endpoints| - 1]) + |endpoints[|endpoints| - 1]| - ENDPOINT_SIZE
  }

  lemma {:induction false} EndpointExcessBytes(endpoints: seq<seq<byte>>)
    ensures |Concat(endpoints)| == |endpoints| * ENDPOINT_SIZE + EndpointExcess(endpoints)
  {
    if endpoints != [] {
      EndpointExcessBytes(endpoints[..|endpoints| - 1]);
    }
  }

  /**
   * The two passes differ by exactly the excess; they agree, and the filled packet just fits its
   * allocation, whenever every descriptor has the standard length.
   */
  lemma {:induction false} TwoPasses(settings: seq<Setting>)
    requires AllDescribed(settings)
    ensures |Fill(settings)| == CountPass(settings) + Excess(settings)
    ensures AllStandard(settings) ==> |Fill(settings)| == CountPass(settings)
  {
    if settings != [] {
      var init, last := settings[..|settings| - 1], settings[|settings| - 1];
      TwoPasses(init);
      assert init + [last] == settings;
      TokensAppend(init, [last]);
      FillOne(last);
      EndpointExcessBytes(last.endpoints);
      if AllStandard(settings) {
        assert AllStandard(init) && Standard(last);
        NoExcess(last.endpoints);
      }
    }
  }

  lemma {:induction false} NoExcess(endpoints: seq<seq<byte>>)
    requires forall e | e in endpoints :: |e| == ENDPOINT_SIZE
    ensures EndpointExcess(endpoints) == 0
  {
    if endpoints != [] {
      NoExcess(endpoints[..|endpoints| - 1]);
    }
  }

  /** The size build_init_pkt allocates. */
  function SizePass(d: Device): nat
    requires KernelDevice(d)
  {
    4 + DEVICE_SIZE + CONFIG_SIZE + CountPass(Concat(d.interfaces))
  }

  /**
   * The fill stays inside its allocation exactly when the descriptors do not exceed, in sum, the
   * sizes the counting pass assumes; with standard lengths it ends exactly at its end.
   */
  lemma FillFitsAllocation(d: Device)
    requires KernelDevice(d)
    ensures |Serialize(d)| <= SizePass(d) <==> Excess(Concat(d.interfaces)) <= 0
    ensures StandardDevice(d) ==> |Serialize(d)| == SizePass(d)
  {
    TwoPasses(Concat(d.interfaces));
  }

  // ----------------------------------------------------------------- parser

  /** check_descriptor_header on the bytes that remain. */
  predicate HeaderOk(b: seq<byte>)
  {
    2 <= |b| && 2 <= b[0] <= |b|
  }

  /** The descriptors at the front of `b`, up to the first header that does not fit. */
  function Lex(b: seq<byte>): (tokens: seq<seq<byte>>)
    decreases |b|
  {
    if HeaderOk(b) then [b[..b[0]]] + Lex(b[b[0]..]) else []
  }

  predicate Token(t: seq<byte>)
  {
    2 <= |t| == t[0]
  }

  predicate AllTokens(tokens: seq<seq<byte>>)
  {
    forall i | 0 <= i < |tokens| :: Token(tokens[i])
  }

  /** An interface still waiting for endpoints, and the interfaces already complete. */
  datatype Scan = Scan(done: seq<Setting>, open: Option<Setting>)

  const START := Scan([], None)

  /** The part of an endpoint descriptor that is kept: its own bytes, up to the standard seven. */
  function Kept(t: seq<byte>): (e: seq<byte>)
    ensures |e| <= ENDPOINT_SIZE && e <= t
  {
    if |t| <= ENDPOINT_SIZE then t else t[..ENDPOINT_SIZE]
  }

  function Close(done: seq<Setting>, s: Setting): Scan
    requires |s.desc| == INTERFACE_SIZE
  {
    if |s.endpoints| < s.desc[4] then Scan(done, Some(s)) else Scan(done + [s], None)
  }

  predicate ScanOk(s: Scan)
  {
    s.open.Some? ==> |s.open.value.desc| == INTERFACE_SIZE && |s.open.value.endpoints| < s.open.value.desc[4]
  }

  function Step(s: Scan, t: seq<byte>): (r: Scan)
    requires ScanOk(s) && Token(t)
    ensures ScanOk(r)
  {
    match s.open
    case None =>
      if t[1] == DT_INTERFACE && INTERFACE_SIZE <= |t| then Close(s.done, Setting(t[..INTERFACE_SIZE], [])) else s
    case Some(w) =>
      if t[1] == DT_ENDPOINT then Close(s.done, Setting(w.desc, w.endpoints + [Kept(t)])) else s
  }

  function Run(s: Scan, tokens: seq<seq<byte>>): (r: Scan)
    requires ScanOk(s) && AllTokens(tokens)
    ensures ScanOk(r)
    decreases |tokens|
  {
    if tokens == [] then s else Run(Step(s, tokens[0]), tokens[1..])
  }

  lemma {:induction false} LexTokens(b: seq<byte>)
    ensures AllTokens(Lex(b))
    decreases |b|
  {
    if HeaderOk(b) {
      LexTokens(b[b[0]..]);
    }
  }

  /** The settings read from the bytes after the configuration descriptor. */
  function ParseBody(b: seq<byte>): seq<Setting>
  {
    LexTokens(b);
    Run(START, Lex(b)).done
  }

  datatype Identity = Identity(speed: seq<byte>, device: seq<byte>, conf: seq<byte>, settings: seq<Setting>)

  /** Where the configuration descriptor starts. */
  function ConfigAt(data: seq<byte>): (at: nat)
    requires 4 < |data|
  {
    4 + data[4] as int
  }

  /** Where the interface descriptors start, or None when parse_init_pkt returns -EINVAL. */
  function BodyStart(data: seq<byte>): (at: Option<nat>)
    ensures at.Some? ==> 31 <= at.value <= |data|
  {
    if |data| < 4 + DEVICE_SIZE then None
    else
      var dlen := data[4];
      if data[5] != DT_DEVICE || dlen < DEVICE_SIZE || dlen > |data| - 4 then None
      else
        var c := ConfigAt(data);
        if |data| - c < CONFIG_SIZE then None
        else if data[c + 1] != DT_CONFIG || data[c] < CONFIG_SIZE || data[c] > |data| - c then None
        else Some(c + data[c] as int)
  }

  /** parse_init_pkt: None is -EINVAL, Some is a return value of 0. */
  function ParseInit(data: seq<byte>): (r: Option<Identity>)
    ensures r.Some? <==> BodyStart(data).Some?
  {
    match BodyStart(data)
    case None => None
    case Some(at) =>
      var c := ConfigAt(data);
      Some(Identity(data[..4], data[4..22], data[c..c + CONFIG_SIZE], ParseBody(data[at..])))
  }

  /**
   * A packet in its parts: speed, a device and a configuration descriptor of at least the standard
   * lengths, and the rest.
   */
  ghost predicate Parts(data: seq<byte>, device: seq<byte>, conf: seq<byte>, rest: seq<byte>)
  {
    && 4 <= |data| && data == data[..4] + device + conf + rest
    && Token(device) && device[1] == DT_DEVICE && DEVICE_SIZE <= |device|
    && Token(conf) && conf[1] == DT_CONFIG && CONFIG_SIZE <= |conf|
  }

  /**
   * Exactly the packets that have such parts are accepted, and parsed into the speed, the standard
   * part of both descriptors and the settings of the rest.
   */
  lemma AcceptsExactly(data: seq<byte>)
    ensures ParseInit(data).Some? <==> exists device, conf, rest :: Parts(data, device, conf, rest)
    ensures forall device, conf, rest | Parts(data, device, conf, rest) ::
              ParseInit(data) == Some(Identity(data[..4], device[..DEVICE_SIZE], conf[..CONFIG_SIZE], ParseBody(rest)))
  {
    if ParseInit(data).Some? {
      var c, at := ConfigAt(data), BodyStart(data).value;
      assert Parts(data, data[4..c], data[c..at], data[at..]);
    }
    forall device, conf, rest | Parts(data, device, conf, rest)
      ensures ParseInit(data) == Some(Identity(data[..4], device[..DEVICE_SIZE], conf[..CONFIG_SIZE], ParseBody(rest)))
    {
      PartsParse(data, device, conf, rest);
    }
  }

  lemma PartsParse(data: seq<byte>, device: seq<byte>, conf: seq<byte>, rest: seq<byte>)
    requires Parts(data, device, conf, rest)
    ensures ParseInit(data) == Some(Identity(data[..4], device[..DEVICE_SIZE], conf[..CONFIG_SIZE], ParseBody(rest)))
  {
    hide ParseBody;
    var c := 4 + |device|;
    assert data[4..c] == device && data[c..c + |conf|] == conf && data[c + |conf|..] == rest;
    assert data[4] == device[0] && data[5] == device[1] && data[c] == conf[0] && data[c + 1] == conf[1];
    assert data[4..22] == device[..DEVICE_SIZE] && data[c..c + CONFIG_SIZE] == conf[..CONFIG_SIZE];
  }

  // ------------------------------------------------------------ scanner laws

  lemma {:induction false} RunConcat(s: Scan, a: seq<seq<byte>>, b: seq<seq<byte>>)
    requires ScanOk(s) && AllTokens(a) && AllTokens(b)
    ensures AllTokens(a + b) && Run(s, a + b) == Run(Run(s, a), b)
    decreases |a|
  {
    if a == [] {
      assert a + b == b;
    } else {
      assert (a + b)[1..] == a[1..] + b;
      RunConcat(Step(s, a[0]), a[1..], b);
    }
  }

  /** Completed interfaces are never touched again. */
  lemma {:induction false} RunExtends(s: Scan, tokens: seq<seq<byte>>)
    requires ScanOk(s) && AllTokens(tokens)
    ensures s.done <= Run(s, tokens).done
    decreases |tokens|
  {
    if tokens != [] {
      RunExtends(Step(s, tokens[0]), tokens[1..]);
    }
  }

  predicate Complete(s: Setting)
  {
    && |s.desc| == INTERFACE_SIZE && 9 <= s.desc[0] && s.desc[1] == DT_INTERFACE
    && |s.endpoints| == s.desc[4]
    && forall e | e in s.endpoints :: 2 <= |e| <= ENDPOINT_SIZE && |e| <= e[0] && e[1] == DT_ENDPOINT
  }

  ghost predicate AllComplete(s: Scan)
  {
    && (forall i | 0 <= i < |s.done| :: Complete(s.done[i]))
    && (s.open.Some? ==>
          var w := s.open.value;
          && |w.desc| == INTERFACE_SIZE && 9 <= w.desc[0] && w.desc[1] == DT_INTERFACE
          && forall e | e in w.endpoints :: 2 <= |e| <= ENDPOINT_SIZE && |e| <= e[0] && e[1] == DT_ENDPOINT)
  }

  lemma {:induction false} RunComplete(s: Scan, tokens: seq<seq<byte>>)
    requires ScanOk(s) && AllTokens(tokens) && AllComplete(s)
    ensures AllComplete(Run(s, tokens))
    decreases |tokens|
  {
    if tokens != [] {
      RunComplete(Step(s, tokens[0]), tokens[1..]);
    }
  }

  /** Every interface kept has a full interface descriptor and all the endpoints it announces. */
  lemma ParsedComplete(b: seq<byte>)
    ensures forall i | 0 <= i < |ParseBody(b)| :: Complete(ParseBody(b)[i])
  {
    LexTokens(b);
    RunComplete(START, Lex(b));
  }

  // --------------------------------------------------------------- lexing laws

  lemma LexCons(t: seq<byte>, rest: seq<byte>)
    requires Token(t)
    ensures Lex(t + rest) == [t] + Lex(rest)
  {
    var b := t + rest;
    assert b[0] == t[0] && b[..t[0]] == t && b[t[0]..] == rest;
  }

  lemma {:induction false} LexConcat(tokens: seq<seq<byte>>, tail: seq<byte>)
    requires AllTokens(tokens)
    ensures Lex(Concat(tokens) + tail) == tokens + Lex(tail)
    decreases |tokens|
  {
    if tokens == [] {
      assert Concat(tokens) + tail == tail;
      assert tokens + Lex(tail) == Lex(tail);
    } else {
      ConcatFront(tokens);
      var rest := Concat(tokens[1..]) + tail;
      assert Concat(tokens) + tail == tokens[0] + rest;
      LexCons(tokens[0], rest);
      LexConcat(tokens[1..], tail);
      assert tokens + Lex(tail) == [tokens[0]] + (tokens[1..] + Lex(tail));
    }
  }

  /** The descriptors of a cut packet are the first descriptors of the whole one. */
  lemma {:induction false} LexTruncated(b: seq<byte>, k: nat)
    requires k <= |b|
    ensures Lex(b[..k]) <= Lex(b)
    decreases |b|
  {
    if HeaderOk(b[..k]) {
      var n := b[0];
      assert b[..k][..n] == b[..n];
      assert b[..k][n..] == b[n..][..k - n];
      LexTruncated(b[n..], k - n);
    }
  }

  /** Accounting: the descriptors found and the bytes left over make up the whole. */
  lemma {:induction false} LexAccounts(b: seq<byte>)
    ensures AllTokens(Lex(b))
    ensures exists rest :: b == Concat(Lex(b)) + rest && !HeaderOk(rest)
    decreases |b|
  {
    if HeaderOk(b) {
      var tail := b[b[0]..];
      LexAccounts(tail);
      var rest :| tail == Concat(Lex(tail)) + rest && !HeaderOk(rest);
      ConcatFront(Lex(b));
      assert Lex(b)[1..] == Lex(tail);
      assert b == b[..b[0]] + tail;
      assert b == Concat(Lex(b)) + rest;
    } else {
      assert b == Concat([]) + b;
    }
  }

  // ---------------------------------------------------- truncation monotonicity

  /**
   * Cutting an accepted packet anywhere after the configuration descriptor is still accepted, and
   * yields a prefix of its interface list, each kept entry complete.
   */
  lemma Truncation(data: seq<byte>, k: nat)
    requires ParseInit(data).Some? && BodyStart(data).value <= k <= |data|
    ensures ParseInit(data[..k]).Some?
    ensures var whole, part := ParseInit(data).value, ParseInit(data[..k]).value;
            && part.speed == whole.speed && part.device == whole.device && part.conf == whole.conf
            && part.settings <= whole.settings
            && forall i | 0 <= i < |part.settings| :: Complete(part.settings[i])
  {
    hide ParseBody, BodyStart, Complete;
    var at := BodyStart(data).value;
    var b := data[at..];
    SliceOfSlice(data, 0, k, at, k);
    SliceOfSlice(data, at, |data|, 0, k - at);
    assert data[..k][at..] == b[..k - at];
    TruncatedBody(b, k - at);
    ParsedComplete(b[..k - at]);
    TruncatedHead(data, k);
  }

  lemma TruncatedBody(b: seq<byte>, k: nat)
    requires k <= |b|
    ensures ParseBody(b[..k]) <= ParseBody(b)
  {
    LexTruncated(b, k);
    LexTokens(b);
    LexTokens(b[..k]);
    var tokens, cut := Lex(b), Lex(b[..k]);
    var rest := tokens[|cut|..];
    assert tokens == cut + rest;
    hide Lex, AllTokens, Run;
    assert AllTokens(rest) by {
      TokensFrom(tokens, |cut|);
    }
    RunConcat(START, cut, rest);
    RunExtends(Run(START, cut), rest);
  }

  lemma TokensFrom(tokens: seq<seq<byte>>, n: nat)
    requires AllTokens(tokens) && n <= |tokens|
    ensures AllTokens(tokens[n..])
  {
  }

  lemma TruncatedHead(data: seq<byte>, k: nat)
    requires BodyStart(data).Some? && BodyStart(data).value <= k <= |data|
    ensures BodyStart(data[..k]) == BodyStart(data) && ConfigAt(data[..k]) == ConfigAt(data)
    ensures var c := ConfigAt(data);
            && c + CONFIG_SIZE <= k
            && data[..k][..4] == data[..4] && data[..k][4..22] == data[4..22]
            && data[..k][c..c + CONFIG_SIZE] == data[c..c + CONFIG_SIZE]
  {
  }

  // ---------------------------------------------------------- skip-insensitivity

  predicate Relevant(t: seq<byte>)
    requires Token(t)
  {
    t[1] == DT_INTERFACE || t[1] == DT_ENDPOINT
  }

  /** The descriptors left when everything but interfaces and endpoints is dropped. */
  function Erase(tokens: seq<seq<byte>>): (r: seq<seq<byte>>)
    requires AllTokens(tokens)
    ensures AllTokens(r)
  {
    if tokens == [] then []
    else if Relevant(tokens[0]) then [tokens[0]] + Erase(tokens[1..])
    else Erase(tokens[1..])
  }

  lemma {:induction false} RunErased(s: Scan, tokens: seq<seq<byte>>)
    requires ScanOk(s) && AllTokens(tokens)
    ensures Run(s, tokens) == Run(s, Erase(tokens))
    decreases |tokens|
  {
    if tokens != [] {
      RunErased(Step(s, tokens[0]), tokens[1..]);
      if Relevant(tokens[0]) {
        assert Erase(tokens)[1..] == Erase(tokens[1..]);
      }
    }
  }

  /**
   * Two packets with the same head and the same interface and endpoint descriptors in the same
   * order parse alike, however many other descriptors stand between, before or after them.
   */
  lemma SkipInsensitive(head: seq<byte>, a: seq<seq<byte>>, b: seq<seq<byte>>, tail: seq<byte>)
    requires AllTokens(a) && AllTokens(b) && Erase(a) == Erase(b)
    requires BodyStart(head) == Some(|head|)
    ensures ParseInit(head + Concat(a) + tail) == ParseInit(head + Concat(b) + tail)
  {
    hide *;
    SkipBody(a, b, tail);
    ParseHead(head, Concat(a) + tail);
    ParseHead(head, Concat(b) + tail);
    assert head + Concat(a) + tail == head + (Concat(a) + tail);
    assert head + Concat(b) + tail == head + (Concat(b) + tail);
  }

  lemma SkipBody(a: seq<seq<byte>>, b: seq<seq<byte>>, tail: seq<byte>)
    requires AllTokens(a) && AllTokens(b) && Erase(a) == Erase(b)
    ensures ParseBody(Concat(a) + tail) == ParseBody(Concat(b) + tail)
  {
    LexConcat(a, tail);
    LexConcat(b, tail);
    LexTokens(tail);
    RunConcat(START, a, Lex(tail));
    RunConcat(START, b, Lex(tail));
    RunErased(START, a);
    RunErased(START, b);
  }

  /** A head that ends with its configuration descriptor hands every following byte to the body. */
  lemma ParseHead(head: seq<byte>, body: seq<byte>)
    requires BodyStart(head) == Some(|head|)
    ensures BodyStart(head + body) == Some(|head|)
    ensures var c := ConfigAt(head);
            c + CONFIG_SIZE <= |head| &&
            ParseInit(head + body) == Some(Identity(head[..4], head[4..22], head[c..c + CONFIG_SIZE], ParseBody(body)))
  {
    var data := head + body;
    assert data[|head|..] == body;
    var c := ConfigAt(head);
    assert data[..4] == head[..4] && data[4..22] == head[4..22] && data[c..c + CONFIG_SIZE] == head[c..c + CONFIG_SIZE];
  }

  // ---------------------------------------------------------------- round trip

  lemma {:induction false} RunEndpoints(done: seq<Setting>, desc: seq<byte>, have: seq<seq<byte>>, more: seq<seq<byte>>)
    requires |desc| == INTERFACE_SIZE && |have| + |more| == desc[4]
    requires forall i | 0 <= i < |more| :: |more[i]| == ENDPOINT_SIZE && more[i][0] == 7 && more[i][1] == DT_ENDPOINT
    ensures AllTokens(more)
    ensures Run(Close(done, Setting(desc, have)), more) == Scan(done + [Setting(desc, have + more)], None)
    decreases |more|
  {
    if more == [] {
      assert have + more == have;
    } else {
      RunEndpoints(done, desc, have + [more[0]], more[1..]);
      assert have + [more[0]] + more[1..] == have + more;
    }
  }

  lemma RunCons(s: Scan, t: seq<byte>, rest: seq<seq<byte>>)
    requires ScanOk(s) && Token(t) && AllTokens(rest)
    ensures AllTokens([t] + rest) && Run(s, [t] + rest) == Run(Step(s, t), rest)
  {
    assert ([t] + rest)[1..] == rest;
  }

  lemma StandardEndpoints(s: Setting)
    requires Standard(s)
    ensures forall i | 0 <= i < |s.endpoints| ::
              |s.endpoints[i]| == ENDPOINT_SIZE && s.endpoints[i][0] == 7 && s.endpoints[i][1] == DT_ENDPOINT
  {
    assert forall i | 0 <= i < |s.endpoints| :: s.endpoints[i] in s.endpoints;
  }

  lemma RunSetting(done: seq<Setting>, s: Setting)
    requires Standard(s)
    ensures AllTokens(SettingTokens(s)) && Run(Scan(done, None), SettingTokens(s)) == Scan(done + [s], None)
  {
    StandardEndpoints(s);
    RunEndpoints(done, s.desc, [], s.endpoints);
    assert [] + s.endpoints == s.endpoints;
    assert s.desc[..INTERFACE_SIZE] == s.desc;
    RunCons(Scan(done, None), s.desc, s.endpoints);
  }

  lemma {:induction false} RunTokens(settings: seq<Setting>)
    requires AllStandard(settings)
    ensures AllTokens(Tokens(settings)) && Run(START, Tokens(settings)) == Scan(settings, None)
  {
    if settings != [] {
      var init, last := settings[..|settings| - 1], settings[|settings| - 1];
      RunTokens(init);
      assert init + [last] == settings;
      RunOneMore(init, last);
    }
  }

  lemma RunOneMore(init: seq<Setting>, last: Setting)
    requires AllTokens(Tokens(init)) && Run(START, Tokens(init)) == Scan(init, None) && Standard(last)
    ensures AllTokens(Tokens(init) + SettingTokens(last))
    ensures Run(START, Tokens(init) + SettingTokens(last)) == Scan(init + [last], None)
  {
    hide Tokens, SettingTokens, Run, Standard;
    RunSetting(init, last);
    RunConcat(START, Tokens(init), SettingTokens(last));
  }

  lemma HeadShape(d: Device)
    requires KernelDevice(d) && d.device[0] == 18 && d.device[1] == DT_DEVICE
    requires d.conf[0] == 9 && d.conf[1] == DT_CONFIG
    ensures BodyStart(Head(d)) == Some(|Head(d)|) && ConfigAt(Head(d)) == 22
    ensures Head(d)[..4] == d.speed && Head(d)[4..22] == d.device && Head(d)[22..31] == d.conf
  {
    var head := Head(d);
    assert head[..4] == d.speed && head[4..22] == d.device && head[22..31] == d.conf;
    assert head[4] == d.device[0] && head[5] == d.device[1] && head[22] == d.conf[0] && head[23] == d.conf[1];
  }

  lemma LexFill(settings: seq<Setting>)
    requires AllStandard(settings)
    ensures AllTokens(Tokens(settings)) && Lex(Fill(settings)) == Tokens(settings)
  {
    RunTokens(settings);
    var tokens := Tokens(settings);
    hide Tokens, Run, Concat;
    LexConcat(tokens, []);
    assert Concat(tokens) + [] == Concat(tokens);
    assert tokens + Lex([]) == tokens;
  }

  /** The built packet is a head that ends with the configuration, then one token per descriptor. */
  lemma BuiltShape(d: Device)
    requires StandardDevice(d)
    ensures BodyStart(Head(d)) == Some(|Head(d)|) && ConfigAt(Head(d)) == 22
    ensures Head(d)[..4] == d.speed && Head(d)[4..22] == d.device && Head(d)[22..31] == d.conf
    ensures AllTokens(Tokens(Concat(d.interfaces)))
    ensures Lex(Fill(Concat(d.interfaces))) == Tokens(Concat(d.interfaces))
  {
    HeadShape(d);
    LexFill(Concat(d.interfaces));
  }

  /**
   * Round trip: the gadget recovers from the built packet the speed, the device and configuration
   * descriptors, and every setting with its endpoints, in the order of the driver's loops.
   */
  lemma RoundTrip(d: Device)
    requires StandardDevice(d)
    ensures ParseInit(Serialize(d)) == Some(Identity(d.speed, d.device, d.conf, Concat(d.interfaces)))
  {
    BuiltShape(d);
    RunTokens(Concat(d.interfaces));
    ParseHead(Head(d), Fill(Concat(d.interfaces)));
  }

  /** The round trip survives any other descriptors woven into the packet. */
  lemma RoundTripWoven(d: Device, woven: seq<seq<byte>>)
    requires StandardDevice(d) && AllTokens(woven)
    requires AllTokens(Tokens(Concat(d.interfaces))) && Erase(woven) == Erase(Tokens(Concat(d.interfaces)))
    ensures ParseInit(Head(d) + Concat(woven)) == Some(Identity(d.speed, d.device, d.conf, Concat(d.interfaces)))
  {
    BuiltShape(d);
    RoundTrip(d);
    SkipInsensitive(Head(d), woven, Tokens(Concat(d.interfaces)), []);
    assert Head(d) + Concat(woven) + [] == Head(d) + Concat(woven);
    assert Serialize(d) + [] == Serialize(d);
  }
}
