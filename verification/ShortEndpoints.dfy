/**
 * Endpoint descriptors shorter than an endpoint. gadget.c:698 announces that they are skipped, but
 * its guard tests the enclosing interface descriptor. This module states the scan that was meant
 * and when the two agree.
 */
module ShortEndpoints {
  import opened Bytes
  import opened Descriptors
  import opened InitPacket

  /** The scan step with the guard on the endpoint descriptor itself. */
  function StepMeant(s: Scan, t: seq<byte>): (r: Scan)
    requires ScanOk(s) && Token(t)
    ensures ScanOk(r)
  {
    if ShortAt(s, t) then s else Step(s, t)
  }

  function RunMeant(s: Scan, tokens: seq<seq<byte>>): (r: Scan)
    requires ScanOk(s) && AllTokens(tokens)
    ensures ScanOk(r)
    decreases |tokens|
  {
    if tokens == [] then s else RunMeant(StepMeant(s, tokens[0]), tokens[1..])
  }

  function ParseMeant(b: seq<byte>): seq<Setting>
  {
    LexTokens(b);
    RunMeant(START, Lex(b)).done
  }

  /** A short endpoint descriptor is met while an interface waits for endpoints. */
  predicate ShortAt(s: Scan, t: seq<byte>)
    requires ScanOk(s) && Token(t)
  {
    s.open.Some? && t[1] == DT_ENDPOINT && |t| < ENDPOINT_SIZE
  }

  predicate NoShort(s: Scan, tokens: seq<seq<byte>>)
    requires ScanOk(s) && AllTokens(tokens)
    decreases |tokens|
  {
    tokens == [] || (!ShortAt(s, tokens[0]) && NoShort(Step(s, tokens[0]), tokens[1..]))
  }

  /** No short endpoint descriptor is met inside an interface that the packet goes on to complete. */
  predicate NoShortCompleted(s: Scan, tokens: seq<seq<byte>>)
    requires ScanOk(s) && AllTokens(tokens)
    decreases |tokens|
  {
    tokens == [] ||
    ((ShortAt(s, tokens[0]) ==> Run(s, tokens).done == s.done) &&
     NoShortCompleted(Step(s, tokens[0]), tokens[1..]))
  }

  // -------------------------------------------------------- what is kept in full

  predicate Full(s: Setting)
  {
    forall e | e in s.endpoints :: |e| == ENDPOINT_SIZE
  }

  predicate DoneFull(done: seq<Setting>)
  {
    forall i | 0 <= i < |done| :: Full(done[i])
  }

  predicate AllFull(s: Scan)
  {
    DoneFull(s.done) && (s.open.Some? ==> Full(s.open.value))
  }

  /** The meant scan only ever keeps full endpoints. */
  lemma {:induction false} MeantKeepsFull(s: Scan, tokens: seq<seq<byte>>)
    requires ScanOk(s) && AllTokens(tokens) && AllFull(s)
    ensures AllFull(RunMeant(s, tokens))
    decreases |tokens|
  {
    if tokens != [] {
      MeantKeepsFull(StepMeant(s, tokens[0]), tokens[1..]);
    }
  }

  /** A short endpoint once kept in the open interface stays: there, or in the interface it completes. */
  lemma {:induction false} ShortStays(s: Scan, tokens: seq<seq<byte>>)
    requires ScanOk(s) && AllTokens(tokens) && s.open.Some? && !Full(s.open.value)
    ensures var r := Run(s, tokens);
            if r.done == s.done then r.open.Some? && !Full(r.open.value)
            else |s.done| < |r.done| && !Full(r.done[|s.done|])
    decreases |tokens|
  {
    if tokens != [] {
      var next := Step(s, tokens[0]);
      KeepsShort(s, tokens[0]);
      if next.open.Some? {
        ShortStays(next, tokens[1..]);
      } else {
        RunExtends(next, tokens[1..]);
      }
    }
  }

  lemma KeepsShort(s: Scan, t: seq<byte>)
    requires ScanOk(s) && Token(t) && s.open.Some?
    requires !Full(s.open.value) || ShortAt(s, t)
    ensures var r := Step(s, t);
            if r.open.Some? then r.done == s.done && !Full(r.open.value)
            else r.done[..|r.done| - 1] == s.done && |r.done| == |s.done| + 1 && !Full(r.done[|s.done|])
  {
    var w := s.open.value;
    if t[1] == DT_ENDPOINT {
      var more := w.endpoints + [Kept(t)];
      if ShortAt(s, t) {
        assert Kept(t) in more;
      } else {
        var e :| e in w.endpoints && |e| != ENDPOINT_SIZE;
        assert e in more;
      }
    }
  }

  /** After a short endpoint the scan differs from every scan that only keeps full ones. */
  lemma AfterShort(s: Scan, tokens: seq<seq<byte>>)
    requires ScanOk(s) && AllTokens(tokens) && tokens != [] && ShortAt(s, tokens[0])
    ensures !AllFull(Run(s, tokens))
    ensures Run(s, tokens).done != s.done ==> !DoneFull(Run(s, tokens).done)
  {
    var next := Step(s, tokens[0]);
    KeepsShort(s, tokens[0]);
    if next.open.Some? {
      ShortStays(next, tokens[1..]);
    } else {
      RunExtends(next, tokens[1..]);
      assert Run(s, tokens).done[|s.done|] == next.done[|s.done|];
    }
  }

  // ------------------------------------------------------------- the two scans

  /** The scan is the meant one exactly when no short endpoint is met while an interface is open. */
  lemma {:induction false} ScanAsMeantExactly(s: Scan, tokens: seq<seq<byte>>)
    requires ScanOk(s) && AllTokens(tokens) && AllFull(s)
    ensures Run(s, tokens) == RunMeant(s, tokens) <==> NoShort(s, tokens)
    decreases |tokens|
  {
    if tokens != [] {
      if ShortAt(s, tokens[0]) {
        AfterShort(s, tokens);
        MeantKeepsFull(s, tokens);
      } else {
        ScanAsMeantExactly(Step(s, tokens[0]), tokens[1..]);
      }
    }
  }

  /** If a scan that kept at least as many endpoints does not complete its interface, the meant one does not either. */
  lemma {:induction false} MeantIsBehind(m: Scan, r: Scan, tokens: seq<seq<byte>>)
    requires ScanOk(m) && ScanOk(r) && AllTokens(tokens) && m.open.Some? && r.open.Some?
    requires m.done == r.done && m.open.value.desc == r.open.value.desc
    requires |m.open.value.endpoints| <= |r.open.value.endpoints| && Run(r, tokens).done == r.done
    ensures RunMeant(m, tokens).done == m.done
    decreases |tokens|
  {
    if tokens != [] {
      var next := Step(r, tokens[0]);
      RunExtends(next, tokens[1..]);
      assert next.done == r.done;
      MeantIsBehind(StepMeant(m, tokens[0]), next, tokens[1..]);
    }
  }

  lemma {:induction false} DoneAsMeantExactly(s: Scan, tokens: seq<seq<byte>>)
    requires ScanOk(s) && AllTokens(tokens) && AllFull(s)
    ensures Run(s, tokens).done == RunMeant(s, tokens).done <==> NoShortCompleted(s, tokens)
    decreases |tokens|
  {
    if tokens != [] {
      if ShortAt(s, tokens[0]) {
        if Run(s, tokens).done == s.done {
          RunExtends(Step(s, tokens[0]), tokens[1..]);
          MeantIsBehind(s, Step(s, tokens[0]), tokens[1..]);
          NeverCompleted(s, tokens);
        } else {
          AfterShort(s, tokens);
          MeantKeepsFull(s, tokens);
        }
      } else {
        DoneAsMeantExactly(Step(s, tokens[0]), tokens[1..]);
      }
    }
  }

  /** Inside an interface that is never completed, short endpoints do not matter. */
  lemma {:induction false} NeverCompleted(s: Scan, tokens: seq<seq<byte>>)
    requires ScanOk(s) && AllTokens(tokens) && s.open.Some? && Run(s, tokens).done == s.done
    ensures NoShortCompleted(s, tokens)
    decreases |tokens|
  {
    if tokens != [] {
      var next := Step(s, tokens[0]);
      RunExtends(next, tokens[1..]);
      assert next.done == s.done;
      NeverCompleted(next, tokens[1..]);
    }
  }

  /**
   * parse_init_pkt skips short endpoint descriptors, as it announces, exactly for the packets in
   * which none stands inside an interface that is completed.
   */
  lemma ParseAsMeantExactly(b: seq<byte>)
    ensures AllTokens(Lex(b))
    ensures ParseBody(b) == ParseMeant(b) <==> NoShortCompleted(START, Lex(b))
  {
    LexTokens(b);
    DoneAsMeantExactly(START, Lex(b));
  }

  /** A packet for which it does not: the two bytes of a short descriptor count as the endpoint. */
  lemma ShortEndpointIsCounted()
    ensures var iface: seq<byte> := [9, 4, 0, 0, 1, 0, 0, 0, 0];
            ParseBody(iface + [2, 5]) == [Setting(iface, [[2, 5]])] && ParseMeant(iface + [2, 5]) == []
  {
    var iface: seq<byte> := [9, 4, 0, 0, 1, 0, 0, 0, 0];
    var short: seq<byte> := [2, 5];
    LexCons(iface, short);
    LexCons(short, []);
    assert short + [] == short;
    RunShort(iface, short);
  }

  lemma RunShort(iface: seq<byte>, short: seq<byte>)
    requires |iface| == 9 && iface[0] == 9 && iface[1] == DT_INTERFACE && iface[4] == 1
    requires Token(short) && |short| < ENDPOINT_SIZE && short[1] == DT_ENDPOINT
    ensures var tokens := [iface] + ([short] + []);
            && AllTokens(tokens)
            && Run(START, tokens) == Scan([Setting(iface, [short])], None)
            && RunMeant(START, tokens).done == []
  {
    RunCons(START, iface, [short] + []);
    assert iface[..INTERFACE_SIZE] == iface;
    var open := Step(START, iface);
    assert open == Scan([], Some(Setting(iface, [])));
    RunCons(open, short, []);
    assert [] + [short] == [short];
    assert [] + [Setting(iface, [short])] == [Setting(iface, [short])];
    var tokens := [iface] + ([short] + []);
    assert tokens[1..] == [short] && [short][1..] == [];
    assert RunMeant(open, [short]) == open;
  }
}
