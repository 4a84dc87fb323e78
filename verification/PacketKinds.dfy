/**
 * What travels for a bulk or interrupt endpoint: the device's payloads up, and down either the
 * acknowledgements of what the host consumed or the payloads the host sent.
 */
module PacketKinds {
  import opened Bytes
  import opened Descriptors
  import opened Requests
  import opened Pipeline
  import opened Traffic

  /** The status with which the host's controller completed a transfer, if the step is such a completion. */
  function HostStatus(a: LaneStep): seq<int>
  {
    if a.LHostDone? && a.status >= 0 then [a.status] else []
  }

  function HostStatuses(steps: seq<LaneStep>): seq<int>
  {
    if steps == [] then [] else HostStatus(steps[0]) + HostStatuses(steps[1..])
  }

  /**
   * On an IN endpoint the driver sends payloads read from the device and the gadget acknowledges
   * with the status of a completion; on an OUT endpoint the gadget sends payloads received from the
   * host and the driver nothing. `statuses` are those of the host's completions so far.
   */
  ghost predicate Kinds(l: Lane, statuses: seq<int>)
  {
    && l.drv.dir == l.gad.dir
    && if l.drv.dir == In then
         && (forall p | p in l.up :: p.Data? && p.payload in l.drv.log)
         && (forall p | p in l.down :: p.Ack? && p.status in statuses)
       else
         && l.up == []
         && (forall p | p in l.down :: p.Data? && p.payload in l.gad.log)
  }

  /** The requests whose work item still has to run hold what it will send. */
  ghost predicate Held(l: Lane, statuses: seq<int>)
  {
    && (l.drv.dir == In ==> forall r | r in l.drv.pool.reqs && r.status == Some(0) :: r.data in l.drv.log)
    && (l.gad.dir == In ==> forall r | r in l.gad.pool.reqs && r.status.Some? :: r.status.value in statuses)
    && (l.gad.dir == Out ==> forall r | r in l.gad.pool.reqs && r.status.Some? :: r.data in l.gad.log)
  }

  lemma DriverWorkKinds(l: Lane, i: nat, env: WorkEnv, statuses: seq<int>)
    requires Kinds(l, statuses) && Held(l, statuses) && LaneEnabled(l, LDriverWork(i, env))
    ensures var r := LaneApply(l, LDriverWork(i, env)); Kinds(r, statuses) && Held(r, statuses)
  {
    hide D.Send, G.Send;
    D.SendFacts(l.drv, [], env.submit);
  }

  lemma GadgetWorkKinds(l: Lane, i: nat, env: WorkEnv, statuses: seq<int>)
    requires Kinds(l, statuses) && Held(l, statuses) && LaneEnabled(l, LGadgetWork(i, env))
    ensures var r := LaneApply(l, LGadgetWork(i, env)); Kinds(r, statuses) && Held(r, statuses)
  {
    hide D.Send, G.Send;
    G.SendFacts(l.gad, [], env.submit);
  }

  lemma DeliverUpKinds(l: Lane, i: nat, s: Submit, statuses: seq<int>)
    requires Kinds(l, statuses) && Held(l, statuses) && LaneEnabled(l, LDeliverUp(i, s))
    ensures var r := LaneApply(l, LDeliverUp(i, s)); Kinds(r, statuses) && Held(r, statuses)
  {
    hide D.Send, G.Send;
    G.SendFacts(l.gad, PayloadOf(l.up[i]), s);
  }

  lemma DeliverDownKinds(l: Lane, i: nat, s: Submit, statuses: seq<int>)
    requires Kinds(l, statuses) && Held(l, statuses) && LaneEnabled(l, LDeliverDown(i, s))
    ensures var r := LaneApply(l, LDeliverDown(i, s)); Kinds(r, statuses) && Held(r, statuses)
  {
    hide D.Send, G.Send;
    D.SendFacts(l.drv, [], s);
    D.SendFacts(l.drv, PayloadOf(l.down[i]), s);
  }

  lemma HostDoneKinds(l: Lane, i: nat, status: int, data: seq<byte>, statuses: seq<int>)
    requires Kinds(l, statuses) && Held(l, statuses) && LaneEnabled(l, LHostDone(i, status, data))
    ensures var r, more := LaneApply(l, LHostDone(i, status, data)), statuses + HostStatus(LHostDone(i, status, data));
            Kinds(r, more) && Held(r, more)
  {
  }

  lemma UrbDoneKinds(l: Lane, i: nat, status: int, data: seq<byte>, statuses: seq<int>)
    requires Kinds(l, statuses) && Held(l, statuses) && LaneEnabled(l, LUrbDone(i, status, data))
    ensures var r := LaneApply(l, LUrbDone(i, status, data)); Kinds(r, statuses) && Held(r, statuses)
  {
  }

  lemma StepKinds(l: Lane, a: LaneStep, statuses: seq<int>)
    requires Kinds(l, statuses) && Held(l, statuses) && LaneEnabled(l, a)
    ensures var r, more := LaneApply(l, a), statuses + HostStatus(a); Kinds(r, more) && Held(r, more)
  {
    assert statuses + [] == statuses;
    match a {
      case LUrbDone(i, status, data) => UrbDoneKinds(l, i, status, data, statuses);
      case LDriverWork(i, env) => DriverWorkKinds(l, i, env, statuses);
      case LHostDone(i, status, data) => HostDoneKinds(l, i, status, data, statuses);
      case LGadgetWork(i, env) => GadgetWorkKinds(l, i, env, statuses);
      case LDeliverUp(i, s) => DeliverUpKinds(l, i, s, statuses);
      case LDeliverDown(i, s) => DeliverDownKinds(l, i, s, statuses);
      case LLoseUp(i) =>
      case LLoseDown(i) =>
    }
    hide D.Work, G.Work, D.Complete, G.Complete, D.RecvUserland, G.Send;
  }

  lemma StatusesNext(steps: seq<LaneStep>, before: seq<int>)
    requires steps != []
    ensures before + HostStatus(steps[0]) + HostStatuses(steps[1..]) == before + HostStatuses(steps)
  {
  }

  lemma {:induction false} RunKinds(l: Lane, steps: seq<LaneStep>, statuses: seq<int>)
    requires Kinds(l, statuses) && Held(l, statuses) && LaneRuns(l, steps)
    ensures Kinds(LaneExec(l, steps), statuses + HostStatuses(steps))
    decreases |steps|
  {
    if steps == [] {
      assert statuses + [] == statuses;
    } else {
      StepKinds(l, steps[0], statuses);
      hide Kinds, Held, LaneApply, LaneEnabled;
      RunKinds(LaneApply(l, steps[0]), steps[1..], statuses + HostStatus(steps[0]));
      StatusesNext(steps, statuses);
    }
  }

  /** An endpoint that has just been created on both ends. */
  predicate Created(l: Lane)
  {
    && l.drv.dir == l.gad.dir && l.up == [] && l.down == [] && l.drv.log == [] && l.gad.log == []
    && (forall r | r in l.drv.pool.reqs :: r.status.None?)
    && (forall r | r in l.gad.pool.reqs :: r.status.None?)
  }

  /**
   * Over every run of the whole system, whatever is lost, reordered or refused: the messages in
   * transit for an endpoint are of the kind its direction calls for, with the payloads exchanged
   * along the run and the statuses of its own completions.
   */
  lemma TravelsAsMeant(s: System, acts: seq<Action>, e: EpId)
    requires Runs(s, acts) && Present(s, e) && Created(LaneOf(s, e))
    ensures Present(Exec(s, acts), e) && LaneRuns(LaneOf(s, e), Project(s, acts, e))
    ensures var r, steps := LaneOf(Exec(s, acts), e), Project(s, acts, e);
            if s.drv[e].dir == In then
              && (forall p | p in r.up :: p.Data? && p.payload in DeviceTraffic(LaneOf(s, e), steps))
              && (forall p | p in r.down :: p.Ack? && p.status >= 0 && p.status in HostStatuses(steps))
            else
              && r.up == []
              && (forall p | p in r.down :: p.Data? && p.payload in HostTraffic(LaneOf(s, e), steps))
  {
    RunOnLane(s, acts, e);
    var l, steps := LaneOf(s, e), Project(s, acts, e);
    RunKinds(l, steps, []);
    LogsAreTraffic(l, steps);
    NonNegative(steps);
    DirKept(l, steps);
    hide LaneExec, LaneRuns, Project, Runs, Exec, HostStatuses, DeviceTraffic, HostTraffic;
    assert [] + HostStatuses(steps) == HostStatuses(steps);
  }

  lemma {:induction false} NonNegative(steps: seq<LaneStep>)
    ensures forall x | x in HostStatuses(steps) :: x >= 0
  {
    if steps != [] {
      NonNegative(steps[1..]);
    }
  }

  lemma {:induction false} DirKept(l: Lane, steps: seq<LaneStep>)
    requires SameDir(l) && LaneRuns(l, steps)
    ensures LaneExec(l, steps).drv.dir == l.drv.dir
    decreases |steps|
  {
    if steps != [] {
      StepTraffic(l, steps[0]);
      hide LaneApply, LaneEnabled, WithDevice, WithHost;
      DirKept(LaneApply(l, steps[0]), steps[1..]);
    }
  }
}
