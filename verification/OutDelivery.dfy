/** OUT endpoints: a self-resubmitting receive request, and a FIFO channel to the device. */
module OutDelivery {
  import opened Bytes
  import opened Descriptors
  import opened Requests
  import opened Pipeline
  import opened Traffic

  // -------------------------------------------------------------- subsequences

  ghost predicate Subsequence(a: seq<seq<byte>>, b: seq<seq<byte>>)
  {
    a == [] ||
    (b != [] &&
     ((a[|a| - 1] == b[|b| - 1] && Subsequence(a[..|a| - 1], b[..|b| - 1])) || Subsequence(a, b[..|b| - 1])))
  }

  lemma SubsequenceBoth(a: seq<seq<byte>>, b: seq<seq<byte>>, x: seq<byte>)
    requires Subsequence(a, b)
    ensures Subsequence(a + [x], b + [x])
  {
    assert (a + [x])[..|a|] == a && (b + [x])[..|b|] == b;
  }

  lemma SubsequenceMore(a: seq<seq<byte>>, b: seq<seq<byte>>, x: seq<byte>)
    requires Subsequence(a, b)
    ensures Subsequence(a, b + [x])
  {
    assert (b + [x])[..|b|] == b;
  }

  lemma SubsequenceCases(a: seq<seq<byte>>, b: seq<seq<byte>>)
    requires Subsequence(a, b) && a != []
    ensures b != []
    ensures (a[|a| - 1] == b[|b| - 1] && Subsequence(a[..|a| - 1], b[..|b| - 1])) || Subsequence(a, b[..|b| - 1])
  {
  }

  /** Leaving one element out of a subsequence leaves a subsequence. */
  lemma {:induction false} SubsequenceDrop(p: seq<seq<byte>>, x: seq<byte>, q: seq<seq<byte>>, b: seq<seq<byte>>)
    requires Subsequence(p + [x] + q, b)
    ensures Subsequence(p + q, b)
    decreases |b|
  {
    var a := p + [x] + q;
    SubsequenceCases(a, b);
    hide Subsequence;
    var init := b[..|b| - 1];
    assert b == init + [b[|b| - 1]];
    if a[|a| - 1] == b[|b| - 1] && Subsequence(a[..|a| - 1], init) {
      if q == [] {
        assert a[..|a| - 1] == p == p + q;
        SubsequenceMore(p, init, b[|b| - 1]);
      } else {
        var last := q[|q| - 1];
        assert a[..|a| - 1] == p + [x] + q[..|q| - 1];
        SubsequenceDrop(p, x, q[..|q| - 1], init);
        SubsequenceBoth(p + q[..|q| - 1], init, last);
        assert p + q[..|q| - 1] + [last] == p + q;
      }
    } else {
      SubsequenceDrop(p, x, q, init);
      SubsequenceMore(p + q, init, b[|b| - 1]);
    }
  }

  // ------------------------------------------------------------------ the lane

  function Payloads(packets: seq<G.Packet>): (r: seq<seq<byte>>)
    ensures |r| == |packets|
  {
    seq(|packets|, i requires 0 <= i < |packets| => PayloadOf(packets[i]))
  }

  /** A payload received from the host whose work item has not run yet. */
  function Received(reqs: seq<Request>): seq<seq<byte>>
  {
    if reqs != [] && reqs[0].status.Some? then [reqs[0].data] else []
  }

  /** Where the received payloads are: submitted to the device, in transit, or waiting on the gadget. */
  function Line(l: Lane): seq<seq<byte>>
  {
    l.drv.log + Payloads(l.down) + Received(l.gad.pool.reqs)
  }

  /** At most one receive request is outstanding, and only payloads travel, to the device. */
  predicate OutLane(l: Lane)
  {
    && l.drv.dir == Out && l.gad.dir == Out
    && l.up == [] && |l.gad.pool.reqs| <= 1
    && forall i | 0 <= i < |l.down| :: l.down[i].Data?
  }

  /** The steps that lose a received payload. */
  predicate LosesPayload(l: Lane, a: LaneStep)
  {
    match a
    case LGadgetWork(_, env) => !env.send
    case LDeliverDown(_, s) => s != Accepted
    case LLoseDown(_) => true
    case _ => false
  }

  /** FIFO: only the oldest message of the endpoint is delivered. */
  predicate Fifo(a: LaneStep)
  {
    a.LDeliverDown? ==> a.i == 0
  }

  lemma StepOutLane(l: Lane, a: LaneStep)
    requires OutLane(l) && LaneEnabled(l, a)
    ensures OutLane(LaneApply(l, a))
  {
    match a {
      case LUrbDone(i, status, data) =>
      case LDriverWork(i, env) =>
      case LHostDone(i, status, data) =>
      case LGadgetWork(i, env) => G.SendFacts(l.gad, [], env.submit);
      case LDeliverUp(i, s) =>
      case LDeliverDown(i, s) => D.SendFacts(l.drv, PayloadOf(l.down[i]), s);
      case LLoseUp(i) =>
      case LLoseDown(i) =>
    }
  }

  /** What each step does to the line and to the host's history. */
  lemma StepLine(l: Lane, a: LaneStep)
    requires OutLane(l) && LaneEnabled(l, a) && Fifo(a)
    ensures var r := LaneApply(l, a);
            && (a.LHostDone? && a.status >= 0 ==> r.gad.log == l.gad.log + [a.data] && Line(r) == Line(l) + [a.data])
            && (!(a.LHostDone? && a.status >= 0) ==> r.gad.log == l.gad.log)
            && (!(a.LHostDone? && a.status >= 0) && !LosesPayload(l, a) ==> Line(r) == Line(l))
            && (LosesPayload(l, a) ==> exists p, x, q :: Line(l) == p + [x] + q && Line(r) == p + q)
  {
    match a {
      case LUrbDone(i, status, data) =>
      case LDriverWork(i, env) =>
      case LHostDone(i, status, data) => HostDoneLine(l, i, status, data);
      case LGadgetWork(i, env) => GadgetWorkLine(l, i, env);
      case LDeliverUp(i, s) =>
      case LDeliverDown(i, s) => DeliverLine(l, s);
      case LLoseUp(i) =>
      case LLoseDown(i) => CutLine(l.drv.log, l.down, i, Received(l.gad.pool.reqs));
    }
  }

  lemma HostDoneLine(l: Lane, i: nat, status: int, data: seq<byte>)
    requires OutLane(l) && LaneEnabled(l, LHostDone(i, status, data))
    ensures var r := LaneApply(l, LHostDone(i, status, data));
            if status >= 0 then r.gad.log == l.gad.log + [data] && Line(r) == Line(l) + [data]
            else r.gad.log == l.gad.log && Line(r) == Line(l)
  {
    var r := LaneApply(l, LHostDone(i, status, data));
    assert Received(l.gad.pool.reqs) == [];
    if status >= 0 {
      assert Received(r.gad.pool.reqs) == [data];
      assert l.drv.log + Payloads(l.down) + [data] == (l.drv.log + Payloads(l.down) + []) + [data];
    }
  }

  lemma GadgetWorkLine(l: Lane, i: nat, env: WorkEnv)
    requires OutLane(l) && LaneEnabled(l, LGadgetWork(i, env))
    ensures var r := LaneApply(l, LGadgetWork(i, env));
            && r.gad.log == l.gad.log
            && (env.send ==> Line(r) == Line(l))
            && (!env.send ==> exists p, x, q :: Line(l) == p + [x] + q && Line(r) == p + q)
  {
    GadgetWorkFacts(l, i, env);
    var r := LaneApply(l, LGadgetWork(i, env));
    hide LaneApply, LaneEnabled, OutLane;
    var data := l.gad.pool.reqs[0].data;
    var front := l.drv.log + Payloads(l.down);
    if env.send {
      assert Payloads(l.down + [G.Data(data)]) == Payloads(l.down) + [data];
      assert l.drv.log + (Payloads(l.down) + [data]) + [] == front + [data];
    } else {
      assert Line(l) == front + [data] + [] && Line(r) == front + [];
    }
  }

  /** The work item hands its payload over to the channel, or drops it. */
  lemma GadgetWorkFacts(l: Lane, i: nat, env: WorkEnv)
    requires OutLane(l) && LaneEnabled(l, LGadgetWork(i, env))
    ensures i == 0 && |l.gad.pool.reqs| == 1
    ensures var r := LaneApply(l, LGadgetWork(i, env));
            && r.gad.log == l.gad.log && r.drv == l.drv
            && Received(l.gad.pool.reqs) == [l.gad.pool.reqs[0].data] && Received(r.gad.pool.reqs) == []
            && r.down == l.down + if env.send then [G.Data(l.gad.pool.reqs[0].data)] else []
  {
    G.SendFacts(l.gad, [], env.submit);
  }

  lemma DeliverLine(l: Lane, s: Submit)
    requires OutLane(l) && LaneEnabled(l, LDeliverDown(0, s))
    ensures var r := LaneApply(l, LDeliverDown(0, s));
            && r.gad.log == l.gad.log
            && (s == Accepted ==> Line(r) == Line(l))
            && (s != Accepted ==> exists p, x, q :: Line(l) == p + [x] + q && Line(r) == p + q)
  {
    DeliverFacts(l, s);
    var r := LaneApply(l, LDeliverDown(0, s));
    hide LaneApply, LaneEnabled, OutLane;
    var x, rest := PayloadOf(l.down[0]), Received(l.gad.pool.reqs);
    if s == Accepted {
      PayloadsFirst(l.down);
      hide Payloads, Received, PayloadOf;
      Regroup(l.drv.log, x, Payloads(r.down), rest);
    } else {
      CutLine(l.drv.log, l.down, 0, rest);
    }
  }

  lemma PayloadsFirst(packets: seq<G.Packet>)
    requires packets != []
    ensures Payloads(packets) == [PayloadOf(packets[0])] + Payloads(Drop(packets, 0))
  {
    hide PayloadOf;
  }

  lemma Regroup(a: seq<seq<byte>>, x: seq<byte>, b: seq<seq<byte>>, c: seq<seq<byte>>)
    ensures a + ([x] + b) + c == (a + [x]) + b + c
  {
  }

  lemma DeliverFacts(l: Lane, s: Submit)
    requires OutLane(l) && LaneEnabled(l, LDeliverDown(0, s))
    ensures var r := LaneApply(l, LDeliverDown(0, s));
            && r.gad == l.gad && r.down == Drop(l.down, 0)
            && r.drv.log == if s == Accepted then l.drv.log + [PayloadOf(l.down[0])] else l.drv.log
  {
    D.SendFacts(l.drv, PayloadOf(l.down[0]), s);
  }

  lemma CutLine(front: seq<seq<byte>>, down: seq<G.Packet>, i: nat, rest: seq<seq<byte>>)
    requires i < |down|
    ensures exists p, x, q ::
              front + Payloads(down) + rest == p + [x] + q && front + Payloads(Drop(down, i)) + rest == p + q
  {
    var p, x, q := front + Payloads(down[..i]), PayloadOf(down[i]), Payloads(down[i + 1..]) + rest;
    assert Payloads(down) == Payloads(down[..i]) + [x] + Payloads(down[i + 1..]);
    assert Payloads(Drop(down, i)) == Payloads(down[..i]) + Payloads(down[i + 1..]);
    assert front + Payloads(down) + rest == p + [x] + q;
    assert front + Payloads(Drop(down, i)) + rest == p + q;
  }

  predicate AllFifo(steps: seq<LaneStep>)
  {
    forall k | 0 <= k < |steps| :: Fifo(steps[k])
  }

  predicate Lossless(l: Lane, steps: seq<LaneStep>)
    requires LaneRuns(l, steps)
    decreases |steps|
  {
    steps == [] || (!LosesPayload(l, steps[0]) && Lossless(LaneApply(l, steps[0]), steps[1..]))
  }

  lemma {:induction false} RunLine(l: Lane, steps: seq<LaneStep>)
    requires OutLane(l) && LaneRuns(l, steps) && AllFifo(steps) && Subsequence(Line(l), l.gad.log)
    ensures var r := LaneExec(l, steps);
            && OutLane(r) && Subsequence(Line(r), r.gad.log)
            && (Line(l) == l.gad.log && Lossless(l, steps) ==> Line(r) == r.gad.log)
    decreases |steps|
  {
    if steps != [] {
      var a := steps[0];
      var next := LaneApply(l, a);
      StepOutLane(l, a);
      StepLine(l, a);
      hide LaneApply, LaneEnabled, OutLane, Line;
      if LosesPayload(l, a) {
        var p, x, q :| Line(l) == p + [x] + q && Line(next) == p + q;
        SubsequenceDrop(p, x, q, l.gad.log);
      } else if a.LHostDone? && a.status >= 0 {
        SubsequenceBoth(Line(l), l.gad.log, a.data);
      }
      RunLine(next, steps[1..]);
    }
  }

  /** An OUT endpoint just enabled: one receive request queued, nothing in transit. */
  predicate JustEnabled(l: Lane)
  {
    l.drv == D.New(Out) && l.gad == G.Send(G.New(Out), [], Accepted).0 && l.up == [] && l.down == []
  }

  lemma {:induction false} RunOutLane(l: Lane, steps: seq<LaneStep>)
    requires OutLane(l) && LaneRuns(l, steps)
    ensures OutLane(LaneExec(l, steps))
    decreases |steps|
  {
    if steps != [] {
      StepOutLane(l, steps[0]);
      hide LaneApply, LaneEnabled, OutLane;
      RunOutLane(LaneApply(l, steps[0]), steps[1..]);
    }
  }

  /** Whatever the channels and the failures, at most one receive request is ever outstanding. */
  lemma OneReceiveRequest(s: System, acts: seq<Action>, e: EpId)
    requires Runs(s, acts) && Present(s, e) && JustEnabled(LaneOf(s, e))
    ensures Present(Exec(s, acts), e) && |Exec(s, acts).gad[e].pool.reqs| <= 1
  {
    RunOnLane(s, acts, e);
    StartLine(LaneOf(s, e));
    RunOutLane(LaneOf(s, e), Project(s, acts, e));
    assert LaneOf(Exec(s, acts), e).gad == Exec(s, acts).gad[e];
  }

  /** The steps after which the gadget no longer listens: the transfer fails, or listening again does not succeed. */
  predicate StopsListening(l: Lane, a: LaneStep)
  {
    match a
    case LHostDone(_, status, _) => status < 0
    case LGadgetWork(_, env) => !env.send || env.submit != Accepted || !l.gad.enabled
    case _ => false
  }

  /**
   * A receive request is lost exactly by such a step, and every payload submitted has one URB until
   * its work item runs.
   */
  lemma StepRequests(l: Lane, a: LaneStep)
    requires OutLane(l) && LaneEnabled(l, a)
    ensures var r := LaneApply(l, a);
            && |r.gad.pool.reqs| + (if StopsListening(l, a) then 1 else 0) == |l.gad.pool.reqs|
            && |r.drv.pool.reqs| + (if a.LDriverWork? then 1 else 0) + |l.drv.log| == |l.drv.pool.reqs| + |r.drv.log|
  {
    match a {
      case LUrbDone(i, status, data) =>
      case LDriverWork(i, env) =>
      case LHostDone(i, status, data) =>
      case LGadgetWork(i, env) => G.SendFacts(l.gad, [], env.submit);
      case LDeliverUp(i, s) =>
      case LDeliverDown(i, s) => D.SendFacts(l.drv, PayloadOf(l.down[i]), s);
      case LLoseUp(i) =>
      case LLoseDown(i) =>
    }
    hide D.Send, G.Send, PayloadOf;
  }

  function Stops(l: Lane, steps: seq<LaneStep>): nat
    requires LaneRuns(l, steps)
    decreases |steps|
  {
    if steps == [] then 0
    else (if StopsListening(l, steps[0]) then 1 else 0) + Stops(LaneApply(l, steps[0]), steps[1..])
  }

  function WorkItems(steps: seq<LaneStep>): nat
  {
    if steps == [] then 0 else (if steps[0].LDriverWork? then 1 else 0) + WorkItems(steps[1..])
  }

  lemma {:induction false} RunRequests(l: Lane, steps: seq<LaneStep>)
    requires OutLane(l) && LaneRuns(l, steps)
    ensures var r := LaneExec(l, steps);
            && |r.gad.pool.reqs| + Stops(l, steps) == |l.gad.pool.reqs|
            && |r.drv.pool.reqs| + WorkItems(steps) + |l.drv.log| == |l.drv.pool.reqs| + |r.drv.log|
    decreases |steps|
  {
    if steps != [] {
      StepOutLane(l, steps[0]);
      StepRequests(l, steps[0]);
      hide LaneApply, LaneEnabled, OutLane, StopsListening;
      RunRequests(LaneApply(l, steps[0]), steps[1..]);
    }
  }

  /**
   * In every reachable state an enabled OUT endpoint listens with one request, or has stopped once,
   * in exactly the steps that say so; and every payload submitted to the device has its URB
   * outstanding or its work item behind it.
   */
  lemma ListensUnlessStopped(s: System, acts: seq<Action>, e: EpId)
    requires Runs(s, acts) && Present(s, e) && JustEnabled(LaneOf(s, e))
    ensures Present(Exec(s, acts), e) && LaneRuns(LaneOf(s, e), Project(s, acts, e))
    ensures var r, steps := Exec(s, acts), Project(s, acts, e);
            && |r.gad[e].pool.reqs| + Stops(LaneOf(s, e), steps) == 1
            && |r.drv[e].pool.reqs| + WorkItems(steps) == |r.drv[e].log|
  {
    var l, steps := LaneOf(s, e), Project(s, acts, e);
    RunOnLane(s, acts, e);
    StartLine(l);
    G.SendFacts(G.New(Out), [], Accepted);
    RunRequests(l, steps);
    var r := Exec(s, acts);
    assert LaneOf(r, e).gad == r.gad[e] && LaneOf(r, e).drv == r.drv[e];
  }

  /**
   * The OUT pipeline over a FIFO channel: without losses the payloads received from the host are
   * exactly those submitted to the device followed by those in transit; with losses the device's
   * sequence is a subsequence of the host's.
   */
  lemma OutPipeline(s: System, acts: seq<Action>, e: EpId)
    requires Runs(s, acts) && Present(s, e) && JustEnabled(LaneOf(s, e))
    requires AllFifo(Project(s, acts, e))
    ensures Present(Exec(s, acts), e) && LaneRuns(LaneOf(s, e), Project(s, acts, e))
    ensures var r := LaneOf(Exec(s, acts), e);
            && (Lossless(LaneOf(s, e), Project(s, acts, e)) ==>
                  r.gad.log == r.drv.log + Payloads(r.down) + Received(r.gad.pool.reqs))
            && Subsequence(r.drv.log, r.gad.log)
            && r.gad.log == HostTraffic(LaneOf(s, e), Project(s, acts, e))
            && r.drv.log == DeviceTraffic(LaneOf(s, e), Project(s, acts, e))
  {
    var l := LaneOf(s, e);
    RunOnLane(s, acts, e);
    var steps := Project(s, acts, e);
    hide *;
    OutLaneRun(l, steps);
  }

  lemma OutLaneRun(l: Lane, steps: seq<LaneStep>)
    requires JustEnabled(l) && LaneRuns(l, steps) && AllFifo(steps)
    ensures var r := LaneExec(l, steps);
            && (Lossless(l, steps) ==> r.gad.log == r.drv.log + Payloads(r.down) + Received(r.gad.pool.reqs))
            && Subsequence(r.drv.log, r.gad.log)
            && r.gad.log == HostTraffic(l, steps) && r.drv.log == DeviceTraffic(l, steps)
  {
    StartLine(l);
    StartTraffic(l, steps);
    hide *;
    RunLine(l, steps);
    LineFacts(LaneExec(l, steps));
  }

  /** The line starts with what the device was given. */
  lemma LineFacts(l: Lane)
    ensures Line(l) == l.drv.log + Payloads(l.down) + Received(l.gad.pool.reqs)
    ensures Subsequence(Line(l), l.gad.log) ==> Subsequence(l.drv.log, l.gad.log)
  {
    hide Payloads, Received, Subsequence;
    var rest := Payloads(l.down) + Received(l.gad.pool.reqs);
    assert l.drv.log + rest == Line(l);
    if Subsequence(Line(l), l.gad.log) {
      SubsequencePrefix(l.drv.log, rest, l.gad.log);
    }
  }

  lemma StartTraffic(l: Lane, steps: seq<LaneStep>)
    requires JustEnabled(l) && LaneRuns(l, steps)
    ensures var r := LaneExec(l, steps);
            r.gad.log == HostTraffic(l, steps) && r.drv.log == DeviceTraffic(l, steps)
  {
    G.SendFacts(G.New(Out), [], Accepted);
    LogsAreTraffic(l, steps);
  }

  lemma StartLine(l: Lane)
    requires JustEnabled(l)
    ensures OutLane(l) && Line(l) == [] && l.gad.log == [] && Subsequence(Line(l), l.gad.log)
  {
    G.SendFacts(G.New(Out), [], Accepted);
  }

  lemma {:induction false} SubsequencePrefix(a: seq<seq<byte>>, more: seq<seq<byte>>, b: seq<seq<byte>>)
    requires Subsequence(a + more, b)
    ensures Subsequence(a, b)
    decreases |more|
  {
    if more == [] {
      assert a + more == a;
    } else {
      var init := more[..|more| - 1];
      assert a + more == (a + init) + [more[|more| - 1]] + [];
      SubsequenceDrop(a + init, more[|more| - 1], [], b);
      assert a + init + [] == a + init;
      SubsequencePrefix(a, init, b);
    }
  }
}
