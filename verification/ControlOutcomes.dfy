/**
 * What becomes of control transfers: a failure is recorded exactly when something failed, and in a
 * run in which nothing did the host sees what the device answered.
 */
module ControlOutcomes {
  import opened Bytes
  import opened Descriptors
  import opened Errno
  import opened ControlTransfer
  import opened Sums
  import opened Control

  // ------------------------------------------------------------------ causes of failures

  /**
   * A step in which something fails: memory, transport, a submission, a (de)activation that the
   * request asks for, a transfer, or the relay. A stall of an IN transfer is no failure as long as
   * it can be reported.
   */
  predicate Hurts(s: System, a: Action)
    requires Enabled(s, a)
  {
    match a
    case RunSetup(i, env) =>
      var b := s.gad.setups[i].it;
      || !env.memory
      || (if Direction(b) == Out &&
        Length(b) != 0 then !env.submit else !env.send || (SetsInterface(b) && !env.selected))
    case GadgetDone(i, status, _) => status < 0 && s.gad.reqs[i].it.dir == Out && Length(s.gad.reqs[i].it.image) != 0
    case GadgetWork(i, send) => !send && s.gad.reqs[i].it.dir == Out && Length(s.gad.reqs[i].it.image) != 0
    case ToDriver(i, env) =>
      if SetsInterface(s.up[i].it.body) then !env.memory || !env.selected || !env.send else !env.memory || !env.submit
    case DriverWork(i, env) =>
      var u := s.drv[i].it;
      if u.dir == Out then u.status != Some(0)
      else if u.status == Some(0) then !env.send
      else u.status != Some(-EPIPE) || !env.memory || !env.send
    case ToGadget(i, env) =>
      s.back[i].it.Answer? &&
      (!env.memory || !env.submit || (GetsConfiguration(s.back[i].it.body) && Length(s.back[i].it.body) > 9 &&
        !env.selected))
    case LoseUp(_) => true
    case LoseBack(_) => true
    case HostSetup(_) => false
    case UrbDone(_, _) => false
  }

  const KEPT: Tagged<D.Urb> -> nat := (t: Tagged<D.Urb>) => if t.it.kept then 1 else 0

  /** The failures on record, and the requests an early return left behind. */
  function Failures(s: System): nat
  {
    |s.unsent| + |s.untaken| + |s.unanswered| + Sum(s.drv, KEPT)
  }

  lemma ReceiveKept(d: D.Driver, t: Tagged<Packet>, env: ControlEnv)
    ensures Sum(D.Receive(d, t, env).0, KEPT) == Sum(d, KEPT)
    ensures var taken, reply := D.Receive(d, t, env).1, D.Receive(d, t, env).2;
            && (taken.Failed? || (taken.Interface? && reply.None?) <==>
                  if SetsInterface(t.it.body) then !env.memory || !env.selected || !env.send else
                    !env.memory || !env.submit)
  {
    var r := D.Receive(d, t, env).0;
    if r != d {
      SumFront(r[0], d, KEPT);
    }
  }

  lemma WorkKept(d: D.Driver, i: nat, env: ControlEnv)
    requires D.Done(d, i)
    ensures var (r, reply), u := D.Work(d, i, env), d[i].it;
            && Sum(r, KEPT) == Sum(d, KEPT) + (if D.KeepsRequest(u, env) then 1 else 0)
            && (D.KeepsRequest(u, env) || (!(u.dir == Out && u.status == Some(0)) && reply.None?) <==>
                  if u.dir == Out then u.status != Some(0)
                  else if u.status == Some(0) then !env.send
                  else u.status != Some(-EPIPE) || !env.memory || !env.send)
  {
    if D.KeepsRequest(d[i].it, env) {
      SumReplace(d, i, Tagged(d[i].origin, d[i].it.(kept := true)), KEPT);
    } else {
      SumDrop(d, i, KEPT);
    }
    hide Sum;
  }

  lemma ReplyFails(g: G.Gadget, t: Tagged<Reply>, env: ControlEnv)
    ensures G.Receive(g, t, env).1.Failed? <==>
              t.it.Answer? &&
                (!env.memory || !env.submit || (GetsConfiguration(t.it.body) && Length(t.it.body) > 9 && !env.selected))
  {
    hide G.Send, G.Buffer;
  }

  /** A failure is recorded, or a request left behind, exactly when something failed: one for each such step. */
  lemma FailsExactly(s: System, a: Action)
    requires Enabled(s, a)
    ensures Failures(Apply(s, a)) == Failures(s) + if Hurts(s, a) then 1 else 0
  {
    match a {
      case RunSetup(i, env) =>
      case GadgetDone(i, status, actual) =>
      case GadgetWork(i, send) =>
      case ToDriver(i, env) => ReceiveKept(s.drv, s.up[i], env);
      case UrbDone(i, status) => SumReplace(s.drv, i, D.Complete(s.drv, i, status, DeviceBytes(s, i))[i], KEPT);
      case DriverWork(i, env) => WorkKept(s.drv, i, env);
      case ToGadget(i, env) => ReplyFails(s.gad, s.back[i], env);
      case HostSetup(t) =>
      case LoseUp(i) =>
      case LoseBack(i) =>
    }
    hide Sum, HostBytes, DeviceBytes, G.Receive, G.Work, G.HandleSetup, G.Complete, D.Receive, D.Work, D.Complete;
    hide D.KeepsRequest;
  }

  predicate Harmless(s: System, acts: seq<Action>)
    requires Runs(s, acts)
    decreases |acts|
  {
    acts == [] || (!Hurts(s, acts[0]) && Harmless(Apply(s, acts[0]), acts[1..]))
  }

  lemma {:induction false} HarmlessKeeps(s: System, acts: seq<Action>)
    requires Runs(s, acts) && Harmless(s, acts)
    ensures Failures(Exec(s, acts)) == Failures(s)
    decreases |acts|
  {
    if acts != [] {
      FailsExactly(s, acts[0]);
      hide Apply, Enabled, Hurts, Failures;
      HarmlessKeeps(Apply(s, acts[0]), acts[1..]);
    }
  }

  lemma NoneFailed(s: System)
    requires Failures(s) == 0
    ensures NoFailures(s)
  {
    forall t | t in s.drv
      ensures !t.it.kept
    {
      var i :| 0 <= i < |s.drv| && s.drv[i] == t;
      SumDrop(s.drv, i, KEPT);
    }
  }

  // ------------------------------------------------------------------ what the host sees

  /** The completion of an URB, as the device ended it. */
  function Completion(s: System, a: Action): seq<Tagged<int>>
    requires Enabled(s, a)
  {
    if a.UrbDone? then [Tagged(s.drv[a.i].origin, a.status)] else []
  }

  function Completions(s: System, acts: seq<Action>): seq<Tagged<int>>
    requires Runs(s, acts)
    decreases |acts|
  {
    if acts == [] then [] else Completion(s, acts[0]) + Completions(Apply(s, acts[0]), acts[1..])
  }

  predicate EndsAs(t: Tagged<End>, ends: seq<Tagged<int>>)
  {
    match t.it
    case Answered(_) => Tagged(t.origin, 0) in ends
    case Delivered => Tagged(t.origin, 0) in ends
    case Stalled(_) => Tagged(t.origin, -EPIPE) in ends
    case Acknowledged => true
  }

  predicate ReturnsAs(t: Tagged<Reply>, ends: seq<Tagged<int>>)
  {
    match t.it
    case Answer(_) => Tagged(t.origin, 0) in ends
    case Ack(_, status, _) => status == -EPIPE ==> Tagged(t.origin, -EPIPE) in ends
  }

  /** Every status, reply and end is due to a completion by the device. */
  predicate Due(s: System, ends: seq<Tagged<int>>)
  {
    && (forall t | t in s.drv && t.it.status.Some? :: Tagged(t.origin, t.it.status.value) in ends)
    && (forall t | t in s.back :: ReturnsAs(t, ends))
    && (forall t | t in s.ended :: EndsAs(t, ends))
  }

  function PendingHere(k: nat): Tagged<D.Urb> -> nat
  {
    (t: Tagged<D.Urb>) => One(t.origin == k && t.it.status.None?)
  }

  /** A transfer the driver took is completed by the device at most once. */
  predicate CompletedOnce(s: System, ends: seq<Tagged<int>>, k: nat)
  {
    Times(ends, k) + Sum(s.drv, PendingHere(k)) <= Times(s.taken, k)
  }

  lemma UrbDoneDue(s: System, i: nat, status: int, ends: seq<Tagged<int>>)
    requires Due(s, ends) && DeviceMayComplete(s, i)
    ensures Due(AfterUrbDone(s, i, status), ends + [Tagged(s.drv[i].origin, status)])
  {
    hide DeviceBytes;
  }

  lemma DriverWorkDue(s: System, i: nat, env: ControlEnv, ends: seq<Tagged<int>>)
    requires Due(s, ends) && D.Done(s.drv, i)
    ensures Due(AfterDriverWork(s, i, env), ends)
  {
    assert s.drv[i] in s.drv;
  }

  lemma ToGadgetDue(s: System, i: nat, env: ControlEnv, ends: seq<Tagged<int>>)
    requires Due(s, ends) && i < |s.back|
    ensures Due(AfterToGadget(s, i, env), ends)
  {
    assert ReturnsAs(s.back[i], ends);
    hide G.Send, G.Buffer;
  }

  lemma ToDriverDue(s: System, i: nat, env: ControlEnv, ends: seq<Tagged<int>>)
    requires Due(s, ends) && i < |s.up|
    ensures Due(AfterToDriver(s, i, env), ends)
  {
    hide StandardRequest;
  }

  lemma StepDue(s: System, a: Action, ends: seq<Tagged<int>>)
    requires Due(s, ends) && Enabled(s, a)
    ensures Due(Apply(s, a), ends + Completion(s, a))
  {
    assert ends + [] == ends;
    match a {
      case UrbDone(i, status) => UrbDoneDue(s, i, status, ends);
      case DriverWork(i, env) => DriverWorkDue(s, i, env, ends);
      case ToGadget(i, env) => ToGadgetDue(s, i, env, ends);
      case ToDriver(i, env) => ToDriverDue(s, i, env, ends);
      case _ => OtherDue(s, a, ends);
    }
    hide Due, AfterUrbDone, AfterDriverWork, AfterToGadget, AfterToDriver, AfterRunSetup, AfterGadgetDone;
    hide AfterGadgetWork, AfterHostSetup;
  }

  lemma OtherDue(s: System, a: Action, ends: seq<Tagged<int>>)
    requires Due(s, ends) && Enabled(s, a)
    requires !a.UrbDone? && !a.DriverWork? && !a.ToGadget? && !a.ToDriver?
    ensures Due(Apply(s, a), ends)
  {
    hide G.Work, G.Complete, G.HandleSetup, HostBytes, ReturnsAs, EndsAs, Mark;
  }

  lemma ToDriverOnce(s: System, i: nat, env: ControlEnv, ends: seq<Tagged<int>>, k: nat)
    requires CompletedOnce(s, ends, k) && i < |s.up|
    ensures CompletedOnce(AfterToDriver(s, i, env), ends, k)
  {
    ToDriverTaken(s, i, env, k);
    var r := D.Receive(s.drv, s.up[i], env);
    if r.0 != s.drv {
      SumFront(r.0[0], s.drv, PendingHere(k));
    }
    hide Sum, StandardRequest;
  }

  lemma UrbDoneOnce(s: System, i: nat, status: int, ends: seq<Tagged<int>>, k: nat)
    requires CompletedOnce(s, ends, k) && DeviceMayComplete(s, i)
    ensures CompletedOnce(AfterUrbDone(s, i, status), ends + [Tagged(s.drv[i].origin, status)], k)
  {
    SumReplace(s.drv, i, D.Complete(s.drv, i, status, DeviceBytes(s, i))[i], PendingHere(k));
    SumAdd(ends, Some(Tagged(s.drv[i].origin, status)), Here(k));
    hide Sum, DeviceBytes;
  }

  lemma DriverWorkOnce(s: System, i: nat, env: ControlEnv, ends: seq<Tagged<int>>, k: nat)
    requires CompletedOnce(s, ends, k) && D.Done(s.drv, i)
    ensures CompletedOnce(AfterDriverWork(s, i, env), ends, k)
  {
    SumReplace(s.drv, i, Tagged(s.drv[i].origin, s.drv[i].it.(kept := true)), PendingHere(k));
    SumDrop(s.drv, i, PendingHere(k));
    hide Sum;
  }

  lemma StepOnce(s: System, a: Action, ends: seq<Tagged<int>>, k: nat)
    requires CompletedOnce(s, ends, k) && Enabled(s, a)
    ensures CompletedOnce(Apply(s, a), ends + Completion(s, a), k)
  {
    assert ends + [] == ends;
    match a {
      case UrbDone(i, status) => UrbDoneOnce(s, i, status, ends, k);
      case DriverWork(i, env) => DriverWorkOnce(s, i, env, ends, k);
      case ToDriver(i, env) => ToDriverOnce(s, i, env, ends, k);
      case _ =>
    }
    hide Sum, Times, D.Complete, D.Work, D.Receive, G.Receive, G.Work, G.Complete, G.HandleSetup, HostBytes;
    hide DeviceBytes;
  }

  lemma {:induction false} RunDue(s: System, acts: seq<Action>, ends: seq<Tagged<int>>, k: nat)
    requires Due(s, ends) && CompletedOnce(s, ends, k) && Runs(s, acts)
    ensures Due(Exec(s, acts), ends + Completions(s, acts))
    ensures CompletedOnce(Exec(s, acts), ends + Completions(s, acts), k)
    decreases |acts|
  {
    if acts == [] {
      assert ends + [] == ends;
    } else {
      StepDue(s, acts[0], ends);
      StepOnce(s, acts[0], ends, k);
      CompletionsNext(s, acts, ends);
      hide Due, CompletedOnce, Apply, Enabled, Completion, Completions;
      RunDue(Apply(s, acts[0]), acts[1..], ends + Completion(s, acts[0]), k);
    }
  }

  lemma CompletionsNext(s: System, acts: seq<Action>, ends: seq<Tagged<int>>)
    requires Runs(s, acts) && acts != []
    ensures ends + Completions(s, acts) ==
              ends + Completion(s, acts[0]) + Completions(Apply(s, acts[0]), acts[1..])
  {
  }

  lemma OneCompletion(ends: seq<Tagged<int>>, k: nat, x: int, y: int)
    requires Times(ends, k) <= 1 && Tagged(k, x) in ends && Tagged(k, y) in ends
    ensures x == y
  {
    var i :| 0 <= i < |ends| && ends[i] == Tagged(k, x);
    var j :| 0 <= j < |ends| && ends[j] == Tagged(k, y);
    SumHas(ends, i, j, Here(k));
  }

  /** How a transfer ended, for what the device made of it. */
  predicate SeenAs(e: End, k: nat, ends: seq<Tagged<int>>)
  {
    && (e.Answered? || e.Delivered? ==> Tagged(k, 0) in ends && Tagged(k, -EPIPE) !in ends)
    && (e.Stalled? ==> Tagged(k, -EPIPE) in ends && Tagged(k, 0) !in ends)
  }

  /**
   * In every run, whatever fails, a transfer that ends as answered or delivered was completed with
   * success by the device, and one that ends as stalled with a stall, each by its only completion.
   */
  lemma HostSeesDevice(acts: seq<Action>, t: Tagged<End>)
    requires Runs(START, acts) && t in Exec(START, acts).ended
    ensures SeenAs(t.it, t.origin, Completions(START, acts))
  {
    var ends := Completions(START, acts);
    RunDue(START, acts, [], t.origin);
    assert [] + ends == ends;
    AtMostOnceAndExact(acts, t.origin);
    hide Runs, Exec, Completions, Exact, ExactPacket, ExactTaken, ExactEnd, Times;
    assert EndsAs(t, ends) && Times(ends, t.origin) <= 1;
    if Tagged(t.origin, 0) in ends && Tagged(t.origin, -EPIPE) in ends {
      OneCompletion(ends, t.origin, 0, -EPIPE);
    }
  }

  /**
   * A run in which nothing fails can only stop when every transfer of the host was forwarded once,
   * taken once and brought to exactly one end, which is what the device made of it.
   */
  lemma HarmlessRunsSettle(acts: seq<Action>, k: nat) returns (i: nat)
    requires Runs(START, acts) && Harmless(START, acts) && Idle(Exec(START, acts)) && k < |Exec(START, acts).host|
    ensures var r := Exec(START, acts);
            && Times(r.forwarded, k) == 1 && Times(r.taken, k) == 1 && Times(r.ended, k) == 1
            && i < |r.ended| && r.ended[i].origin == k && ExactEnd(r.host, r.ended[i])
            && SeenAs(r.ended[i].it, k, Completions(START, acts))
  {
    HarmlessKeeps(START, acts);
    var r := Exec(START, acts);
    NoneFailed(r);
    ExactlyOnce(acts, k);
    i := SumDue(r.ended, Here(k));
    AtMostOnceAndExact(acts, k);
    HostSeesDevice(acts, r.ended[i]);
  }
}
