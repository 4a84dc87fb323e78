/** What the device and the host exchange along a run, read off the steps themselves. */
module Traffic {
  import opened Bytes
  import opened Descriptors
  import opened Pipeline

  predicate SameDir(l: Lane)
  {
    l.drv.dir == l.gad.dir
  }

  /**
   * The payload a step exchanges with the device: the bytes a successful IN URB returned, or those of
   * an URB submitted OUT.
   */
  function WithDevice(l: Lane, a: LaneStep): seq<seq<byte>>
    requires LaneEnabled(l, a)
  {
    if l.drv.dir == In then (if a.LUrbDone? && a.status == 0 then [a.data] else [])
    else
      var urbs := LaneApply(l, a).drv.pool.reqs;
      if |urbs| > |l.drv.pool.reqs| then [urbs[0].data] else []
  }

  /** The payload a step exchanges with the host: the buffer it consumed IN, or the bytes it sent OUT. */
  function WithHost(l: Lane, a: LaneStep): seq<seq<byte>>
    requires LaneEnabled(l, a)
  {
    if !a.LHostDone? || a.status < 0 then []
    else if l.gad.dir == In then [l.gad.pool.reqs[a.i].data]
    else [a.data]
  }

  function DeviceTraffic(l: Lane, steps: seq<LaneStep>): seq<seq<byte>>
    requires LaneRuns(l, steps)
    decreases |steps|
  {
    if steps == [] then [] else WithDevice(l, steps[0]) + DeviceTraffic(LaneApply(l, steps[0]), steps[1..])
  }

  function HostTraffic(l: Lane, steps: seq<LaneStep>): seq<seq<byte>>
    requires LaneRuns(l, steps)
    decreases |steps|
  {
    if steps == [] then [] else WithHost(l, steps[0]) + HostTraffic(LaneApply(l, steps[0]), steps[1..])
  }

  lemma StepTraffic(l: Lane, a: LaneStep)
    requires SameDir(l) && LaneEnabled(l, a)
    ensures var r := LaneApply(l, a);
            && SameDir(r) && r.drv.dir == l.drv.dir
            && r.drv.log == l.drv.log + WithDevice(l, a)
            && r.gad.log == l.gad.log + WithHost(l, a)
  {
    hide D.Send, G.Send, Drop;
    match a {
      case LUrbDone(i, status, data) =>
      case LDriverWork(i, env) => D.SendFacts(l.drv, [], env.submit);
      case LHostDone(i, status, data) =>
      case LGadgetWork(i, env) => G.SendFacts(l.gad, [], env.submit);
      case LDeliverUp(i, s) => G.SendFacts(l.gad, PayloadOf(l.up[i]), s);
      case LDeliverDown(i, s) =>
        D.SendFacts(l.drv, [], s);
        D.SendFacts(l.drv, PayloadOf(l.down[i]), s);
      case LLoseUp(i) =>
      case LLoseDown(i) =>
    }
  }

  /** The histories kept by the endpoints are exactly the traffic of the run. */
  lemma {:induction false} LogsAreTraffic(l: Lane, steps: seq<LaneStep>)
    requires SameDir(l) && LaneRuns(l, steps)
    ensures var r := LaneExec(l, steps);
            && r.drv.log == l.drv.log + DeviceTraffic(l, steps)
            && r.gad.log == l.gad.log + HostTraffic(l, steps)
    decreases |steps|
  {
    if steps != [] {
      StepTraffic(l, steps[0]);
      hide LaneApply, LaneEnabled, WithDevice, WithHost, Drop;
      LogsAreTraffic(LaneApply(l, steps[0]), steps[1..]);
      TrafficNext(l, steps);
      hide LaneExec, LaneRuns, DeviceTraffic, HostTraffic;
    }
  }

  lemma TrafficNext(l: Lane, steps: seq<LaneStep>)
    requires LaneRuns(l, steps) && steps != []
    ensures var r, rest := LaneApply(l, steps[0]), steps[1..];
            && LaneExec(l, steps) == LaneExec(r, rest)
            && DeviceTraffic(l, steps) == WithDevice(l, steps[0]) + DeviceTraffic(r, rest)
            && HostTraffic(l, steps) == WithHost(l, steps[0]) + HostTraffic(r, rest)
  {
    hide LaneApply, LaneEnabled, WithDevice, WithHost;
  }
}
