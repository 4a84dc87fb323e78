/** IN endpoints: one credit circulates, and therefore payloads arrive in order over any channel. */
module InDelivery {
  import opened Bytes
  import opened Descriptors
  import opened Requests
  import opened Errno
  import opened Pipeline
  import opened Traffic

  predicate InLane(l: Lane)
  {
    l.drv.dir == In && l.gad.dir == In
  }

  /** URBs outstanding, DATA in transit, gadget requests outstanding, ACKs in transit. */
  function Credits(l: Lane): nat
  {
    |l.drv.pool.reqs| + |l.up| + |l.gad.pool.reqs| + |l.down|
  }

  /**
   * The steps that lose the credit: a dropped message, a failed send, allocation or submission, an
   * URB status other than success and stall, a negative completion on the gadget.
   */
  predicate Loses(l: Lane, a: LaneStep)
    requires LaneEnabled(l, a)
  {
    match a
    case LUrbDone(_, _, _) => false
    case LDriverWork(i, env) =>
      var status := l.drv.pool.reqs[i].status.value;
      if status == 0 then !env.send else if status == -EPIPE then env.submit != Accepted else true
    case LHostDone(_, status, _) => status < 0
    case LGadgetWork(_, env) => !env.memory || !env.send
    case LDeliverUp(_, s) => s != Accepted || !l.gad.enabled
    case LDeliverDown(_, s) => s != Accepted
    case LLoseUp(_) => true
    case LLoseDown(_) => true
  }

  /** Conservation, step by step: a step loses exactly one credit or none, and never makes one. */
  lemma StepConserves(l: Lane, a: LaneStep)
    requires InLane(l) && LaneEnabled(l, a)
    ensures InLane(LaneApply(l, a))
    ensures Credits(LaneApply(l, a)) + (if Loses(l, a) then 1 else 0) == Credits(l)
  {
    hide *;
    match a {
      case LUrbDone(_, _, _) => CompletionConserves(l, a);
      case LDriverWork(i, env) => DriverWorkConserves(l, i, env);
      case LHostDone(_, _, _) => CompletionConserves(l, a);
      case LGadgetWork(i, env) => GadgetWorkConserves(l, i, env);
      case _ => ChannelConserves(l, a);
    }
  }

  lemma CompletionConserves(l: Lane, a: LaneStep)
    requires InLane(l) && LaneEnabled(l, a) && (a.LUrbDone? || a.LHostDone?)
    ensures InLane(LaneApply(l, a))
    ensures Credits(LaneApply(l, a)) + (if Loses(l, a) then 1 else 0) == Credits(l)
  {
  }

  lemma DriverWorkConserves(l: Lane, i: nat, env: WorkEnv)
    requires InLane(l) && LaneEnabled(l, LDriverWork(i, env))
    ensures var a := LDriverWork(i, env);
            InLane(LaneApply(l, a)) && Credits(LaneApply(l, a)) + (if Loses(l, a) then 1 else 0) == Credits(l)
  {
    D.SendFacts(l.drv, [], env.submit);
    hide D.Send;
  }

  lemma GadgetWorkConserves(l: Lane, i: nat, env: WorkEnv)
    requires InLane(l) && LaneEnabled(l, LGadgetWork(i, env))
    ensures var a := LGadgetWork(i, env);
            InLane(LaneApply(l, a)) && Credits(LaneApply(l, a)) + (if Loses(l, a) then 1 else 0) == Credits(l)
  {
    hide G.Send;
  }

  /** A message delivered or lost. */
  lemma ChannelConserves(l: Lane, a: LaneStep)
    requires InLane(l) && LaneEnabled(l, a) && (a.LDeliverUp? || a.LDeliverDown? || a.LLoseUp? || a.LLoseDown?)
    ensures InLane(LaneApply(l, a))
    ensures Credits(LaneApply(l, a)) + (if Loses(l, a) then 1 else 0) == Credits(l)
  {
    if a.LDeliverUp? {
      G.SendFacts(l.gad, PayloadOf(l.up[a.i]), a.s);
    } else if a.LDeliverDown? {
      D.SendFacts(l.drv, [], a.s);
      D.SendFacts(l.drv, PayloadOf(l.down[a.i]), a.s);
    }
  }

  function Losses(l: Lane, steps: seq<LaneStep>): nat
    requires LaneRuns(l, steps)
    decreases |steps|
  {
    if steps == [] then 0
    else (if Loses(l, steps[0]) then 1 else 0) + Losses(LaneApply(l, steps[0]), steps[1..])
  }

  lemma {:induction false} RunConserves(l: Lane, steps: seq<LaneStep>)
    requires InLane(l) && LaneRuns(l, steps)
    ensures InLane(LaneExec(l, steps))
    ensures Credits(LaneExec(l, steps)) + Losses(l, steps) == Credits(l)
    decreases |steps|
  {
    if steps != [] {
      StepConserves(l, steps[0]);
      hide LaneApply, LaneEnabled, Loses, Credits;
      RunConserves(LaneApply(l, steps[0]), steps[1..]);
    }
  }

  /** An IN endpoint just enabled on both ends, with what older traffic may still be in transit. */
  predicate JustEnabled(l: Lane)
  {
    l.drv == D.Send(D.New(In), [], Accepted).0 && l.gad == G.New(In)
  }

  predicate NothingOlder(l: Lane)
  {
    l.up == [] && l.down == []
  }

  /**
   * Credit conservation: in every reachable state of the whole system, the credits of an IN
   * endpoint enabled with nothing older in transit and the losses it suffered add up to one.
   */
  lemma CreditConservation(s: System, acts: seq<Action>, e: EpId)
    requires Runs(s, acts) && Present(s, e)
    requires JustEnabled(LaneOf(s, e)) && NothingOlder(LaneOf(s, e))
    ensures Present(Exec(s, acts), e)
    ensures LaneRuns(LaneOf(s, e), Project(s, acts, e))
    ensures Credits(LaneOf(Exec(s, acts), e)) + Losses(LaneOf(s, e), Project(s, acts, e)) == 1
  {
    RunOnLane(s, acts, e);
    D.SendFacts(D.New(In), [], Accepted);
    RunConserves(LaneOf(s, e), Project(s, acts, e));
  }

  /** A lane without credits can take no step at all: after a loss the endpoint stays silent. */
  lemma NoCreditNoStep(l: Lane, steps: seq<LaneStep>)
    requires Credits(l) == 0 && LaneRuns(l, steps)
    ensures steps == []
  {
  }

  // ------------------------------------------------------------- in-order delivery

  /** The payload the single credit carries, if it carries one. */
  function Carried(l: Lane): seq<seq<byte>>
  {
    if l.drv.pool.reqs != [] then
      (if l.drv.pool.reqs[0].status == Some(0) then [l.drv.pool.reqs[0].data] else [])
    else if l.up != [] then [PayloadOf(l.up[0])]
    else if l.gad.pool.reqs != [] then
      (if l.gad.pool.reqs[0].status.None? then [l.gad.pool.reqs[0].data] else [])
    else []
  }

  /**
   * With the credit in place, what the device gave is what the host consumed and what the credit
   * carries; without it, at most one payload was lost, the last one.
   */
  predicate Ordered(l: Lane)
  {
    && InLane(l) && Credits(l) <= 1
    && (Credits(l) == 1 ==> l.gad.log + Carried(l) == l.drv.log)
    && (Credits(l) == 0 ==> l.gad.log <= l.drv.log && |l.drv.log| <= |l.gad.log| + 1)
  }

  lemma StepOrdered(l: Lane, a: LaneStep)
    requires Ordered(l) && LaneEnabled(l, a)
    ensures Ordered(LaneApply(l, a))
  {
    hide *;
    match a {
      case LUrbDone(i, status, data) => UrbDoneOrdered(l, i, status, data);
      case LDriverWork(i, env) => DriverWorkOrdered(l, i, env);
      case LHostDone(i, status, data) => HostDoneOrdered(l, i, status, data);
      case LGadgetWork(i, env) => GadgetWorkOrdered(l, i, env);
      case LDeliverUp(i, s) => DeliverUpOrdered(l, i, s);
      case LDeliverDown(i, s) => DeliverDownOrdered(l, i, s);
      case LLoseUp(i) => LoseOrdered(l, a);
      case LLoseDown(i) => LoseOrdered(l, a);
    }
  }

  lemma UrbDoneOrdered(l: Lane, i: nat, status: int, data: seq<byte>)
    requires Ordered(l) && LaneEnabled(l, LUrbDone(i, status, data))
    ensures Ordered(LaneApply(l, LUrbDone(i, status, data)))
  {
    assert l.gad.log + [] == l.gad.log;
  }

  lemma DriverWorkOrdered(l: Lane, i: nat, env: WorkEnv)
    requires Ordered(l) && LaneEnabled(l, LDriverWork(i, env))
    ensures Ordered(LaneApply(l, LDriverWork(i, env)))
  {
    D.SendFacts(l.drv, [], env.submit);
    hide D.Send;
  }

  lemma HostDoneOrdered(l: Lane, i: nat, status: int, data: seq<byte>)
    requires Ordered(l) && LaneEnabled(l, LHostDone(i, status, data))
    ensures Ordered(LaneApply(l, LHostDone(i, status, data)))
  {
    var r := LaneApply(l, LHostDone(i, status, data));
    assert r.gad.log + [] == r.gad.log;
  }

  lemma GadgetWorkOrdered(l: Lane, i: nat, env: WorkEnv)
    requires Ordered(l) && LaneEnabled(l, LGadgetWork(i, env))
    ensures Ordered(LaneApply(l, LGadgetWork(i, env)))
  {
  }

  lemma DeliverUpOrdered(l: Lane, i: nat, s: Submit)
    requires Ordered(l) && LaneEnabled(l, LDeliverUp(i, s))
    ensures Ordered(LaneApply(l, LDeliverUp(i, s)))
  {
    G.SendFacts(l.gad, PayloadOf(l.up[i]), s);
  }

  lemma DeliverDownOrdered(l: Lane, i: nat, s: Submit)
    requires Ordered(l) && LaneEnabled(l, LDeliverDown(i, s))
    ensures Ordered(LaneApply(l, LDeliverDown(i, s)))
  {
    D.SendFacts(l.drv, [], s);
    D.SendFacts(l.drv, PayloadOf(l.down[i]), s);
  }

  lemma LoseOrdered(l: Lane, a: LaneStep)
    requires Ordered(l) && LaneEnabled(l, a) && (a.LLoseUp? || a.LLoseDown?)
    ensures Ordered(LaneApply(l, a))
  {
  }

  lemma {:induction false} RunOrdered(l: Lane, steps: seq<LaneStep>)
    requires Ordered(l) && LaneRuns(l, steps)
    ensures Ordered(LaneExec(l, steps))
    decreases |steps|
  {
    if steps != [] {
      StepOrdered(l, steps[0]);
      hide LaneApply, LaneEnabled, Ordered;
      RunOrdered(LaneApply(l, steps[0]), steps[1..]);
    }
  }

  lemma EnabledOrdered(l: Lane)
    requires JustEnabled(l) && NothingOlder(l)
    ensures Ordered(l) && Credits(l) == 1 && l.drv.log == []
  {
    D.SendFacts(D.New(In), [], Accepted);
    assert l.gad.log + Carried(l) == l.drv.log;
  }

  /**
   * In-order delivery over channels that drop and reorder: in every reachable state the payloads
   * the host consumed are a prefix of those the driver read from the device, at most one short;
   * and both histories are the run's own traffic with the host and with the device.
   */
  lemma InOrderDelivery(s: System, acts: seq<Action>, e: EpId)
    requires Runs(s, acts) && Present(s, e)
    requires JustEnabled(LaneOf(s, e)) && NothingOlder(LaneOf(s, e))
    ensures Present(Exec(s, acts), e)
    ensures var r := Exec(s, acts);
            r.gad[e].log <= r.drv[e].log && |r.drv[e].log| <= |r.gad[e].log| + 1
    ensures LaneRuns(LaneOf(s, e), Project(s, acts, e))
    ensures HostTraffic(LaneOf(s, e), Project(s, acts, e)) <= DeviceTraffic(LaneOf(s, e), Project(s, acts, e))
  {
    RunOnLane(s, acts, e);
    RunInOrder(LaneOf(s, e), Project(s, acts, e));
  }

  lemma RunInOrder(l: Lane, steps: seq<LaneStep>)
    requires JustEnabled(l) && NothingOlder(l) && LaneRuns(l, steps)
    ensures var r := LaneExec(l, steps);
            && r.gad.log == HostTraffic(l, steps) && r.drv.log == DeviceTraffic(l, steps)
            && r.gad.log <= r.drv.log && |r.drv.log| <= |r.gad.log| + 1
  {
    EnabledOrdered(l);
    RunOrdered(l, steps);
    LogsAreTraffic(l, steps);
    var r := LaneExec(l, steps);
    hide *;
    OrderedIsPrefix(r);
  }

  lemma OrderedIsPrefix(l: Lane)
    requires Ordered(l)
    ensures l.gad.log <= l.drv.log && |l.drv.log| <= |l.gad.log| + 1
  {
    assert |Carried(l)| <= 1;
  }

  // ------------------------------------------------ older messages break the order

  const WELL := WorkEnv(true, true, Accepted)

  /** An older DATA message is consumed though the device never gave its payload. */
  lemma OlderData(l: Lane) returns (steps: seq<LaneStep>)
    requires JustEnabled(l) && l.up != []
    ensures LaneRuns(l, steps) && !(LaneExec(l, steps).gad.log <= LaneExec(l, steps).drv.log)
  {
    D.SendFacts(D.New(In), [], Accepted);
    G.SendFacts(l.gad, PayloadOf(l.up[0]), Accepted);
    var a, b := LDeliverUp(0, Accepted), LHostDone(0, 0, []);
    var l1 := LaneApply(l, a);
    var l2 := LaneApply(l1, b);
    steps := [a, b];
    assert steps[1..] == [b] && steps[1..][1..] == [];
    assert LaneExec(l1, [b]) == l2;
    assert l2.gad.log == [PayloadOf(l.up[0])] && l2.drv.log == [];
  }

  /** An older ACK makes a second credit, and with two credits the channel can swap two payloads. */
  lemma OlderAck(l: Lane) returns (steps: seq<LaneStep>)
    requires JustEnabled(l) && l.up == [] && l.down != []
    ensures LaneRuns(l, steps) && !(LaneExec(l, steps).gad.log <= LaneExec(l, steps).drv.log)
  {
    hide LaneEnabled, LaneApply, LaneRuns, LaneExec, JustEnabled;
    var l4 := TwoRead(l);
    var l5, l6 := TwoSent(l4);
    var l7, l8 := SecondFirst(l6);
    RunsNone(l8);
    RunsFirst(l7, TAIL[3], []);
    RunsFirst(l6, TAIL[2], [TAIL[3]] + []);
    RunsFirst(l5, TAIL[1], [TAIL[2]] + ([TAIL[3]] + []));
    RunsFirst(l4, TAIL[0], [TAIL[1]] + ([TAIL[2]] + ([TAIL[3]] + [])));
    assert TAIL == [TAIL[0]] + ([TAIL[1]] + ([TAIL[2]] + ([TAIL[3]] + [])));
    steps := HEAD + TAIL;
    RunsAppend(l, HEAD, TAIL);
    assert l8.gad.log[0] == [2] && l8.drv.log[0] == [1];
  }

  const HEAD: seq<LaneStep> := [LDeliverDown(0, Accepted), LUrbDone(1, 0, [1]), LUrbDone(0, 0, [2])]
  const TAIL: seq<LaneStep> := [LDriverWork(1, WELL), LDriverWork(0, WELL), LDeliverUp(1, Accepted),
    LHostDone(0, 0, [])]

  lemma SecondUrb(l: Lane) returns (r: Lane)
    requires JustEnabled(l) && l.up == [] && l.down != []
    ensures LaneEnabled(l, HEAD[0]) && r == LaneApply(l, HEAD[0])
    ensures exists x :: r.drv == D.Endpoint(In, Pool([Request(1, x, None), Request(0, [], None)], 2, []), [])
    ensures r.up == [] && r.gad == G.New(In)
  {
    D.SendFacts(D.New(In), [], Accepted);
    D.SendFacts(l.drv, PayloadOf(l.down[0]), Accepted);
    D.SendFacts(l.drv, [], Accepted);
    r := LaneApply(l, HEAD[0]);
    var x := r.drv.pool.reqs[0].data;
    assert r.drv == D.Endpoint(In, Pool([Request(1, x, None), Request(0, [], None)], 2, []), []);
  }

  lemma TwoRead(l: Lane) returns (r: Lane)
    requires JustEnabled(l) && l.up == [] && l.down != []
    ensures LaneRuns(l, HEAD) && r == LaneExec(l, HEAD)
    ensures r.drv == D.Endpoint(In, Pool([Request(1, [2], Some(0)), Request(0, [1], Some(0))], 2, []), [[1], [2]])
    ensures r.up == [] && r.gad == G.New(In)
  {
    var l1 := SecondUrb(l);
    hide JustEnabled;
    var l2 := LaneApply(l1, HEAD[1]);
    r := LaneApply(l2, HEAD[2]);
    hide LaneEnabled, LaneApply, LaneRuns, LaneExec;
    RunsNone(r);
    RunsFirst(l2, HEAD[2], []);
    RunsFirst(l1, HEAD[1], [HEAD[2]] + []);
    RunsFirst(l, HEAD[0], [HEAD[1]] + ([HEAD[2]] + []));
    assert HEAD == [HEAD[0]] + ([HEAD[1]] + ([HEAD[2]] + []));
  }

  lemma TwoSent(l: Lane) returns (a: Lane, b: Lane)
    requires l.drv == D.Endpoint(In, Pool([Request(1, [2], Some(0)), Request(0, [1], Some(0))], 2, []), [[1], [2]])
    requires l.up == [] && l.gad == G.New(In)
    ensures LaneEnabled(l, TAIL[0]) && a == LaneApply(l, TAIL[0])
    ensures LaneEnabled(a, TAIL[1]) && b == LaneApply(a, TAIL[1])
    ensures b.up == [G.Data([1]), G.Data([2])] && b.drv.log == [[1], [2]] && b.gad == G.New(In)
  {
    a := LaneApply(l, TAIL[0]);
    b := LaneApply(a, TAIL[1]);
  }

  lemma SecondFirst(l: Lane) returns (a: Lane, b: Lane)
    requires l.up == [G.Data([1]), G.Data([2])] && l.drv.log == [[1], [2]] && l.gad == G.New(In)
    ensures LaneEnabled(l, TAIL[2]) && a == LaneApply(l, TAIL[2])
    ensures LaneEnabled(a, TAIL[3]) && b == LaneApply(a, TAIL[3])
    ensures b.gad.log == [[2]] && b.drv.log == [[1], [2]]
  {
    G.SendFacts(l.gad, [2], Accepted);
    a := LaneApply(l, TAIL[2]);
    b := LaneApply(a, TAIL[3]);
  }

  lemma RunsFirst(l: Lane, a: LaneStep, rest: seq<LaneStep>)
    requires LaneEnabled(l, a) && LaneRuns(LaneApply(l, a), rest)
    ensures LaneRuns(l, [a] + rest) && LaneExec(l, [a] + rest) == LaneExec(LaneApply(l, a), rest)
  {
    assert ([a] + rest)[1..] == rest;
    hide LaneEnabled, LaneApply;
  }

  lemma RunsNone(l: Lane)
    ensures LaneRuns(l, []) && LaneExec(l, []) == l
  {
  }

  lemma {:induction false} RunsAppend(l: Lane, a: seq<LaneStep>, b: seq<LaneStep>)
    requires LaneRuns(l, a) && LaneRuns(LaneExec(l, a), b)
    ensures LaneRuns(l, a + b) && LaneExec(l, a + b) == LaneExec(LaneExec(l, a), b)
    decreases |a|
  {
    hide LaneEnabled, LaneApply;
    if a == [] {
      assert a + b == b;
    } else {
      assert (a + b)[1..] == a[1..] + b;
      RunsAppend(LaneApply(l, a[0]), a[1..], b);
    }
  }

  /** Order is guaranteed over all runs exactly when nothing older is in transit at the enable. */
  lemma InOrderExactly(l: Lane)
    requires JustEnabled(l)
    ensures (forall steps | LaneRuns(l, steps) :: LaneExec(l, steps).gad.log <= LaneExec(l, steps).drv.log) <==>
              NothingOlder(l)
  {
    if NothingOlder(l) {
      EnabledOrdered(l);
      forall steps | LaneRuns(l, steps)
        ensures LaneExec(l, steps).gad.log <= LaneExec(l, steps).drv.log
      {
        RunOrdered(l, steps);
      }
    } else if l.up != [] {
      var steps := OlderData(l);
    } else {
      var steps := OlderAck(l);
    }
  }
}
