/** Control transfers end to end: host, gadget, userland relay, driver, device. */
module Control {
  import opened Bytes
  import opened Descriptors
  import opened Errno
  import opened ControlTransfer
  import opened Sums
  import G = ControlGadget
  import D = ControlDriver

  /** One control transfer: the setup, the data stage the host sends, and what the device answers. */
  datatype Transfer = Transfer(setup: Body, stage: seq<byte>, answer: seq<byte>)

  /**
   * Only an OUT transfer with a length has a data stage, and only an IN transfer an answer, of at most
   * wLength bytes.
   */
  predicate Legal(t: Transfer)
  {
    && |t.setup| == SETUP
    && |t.stage| <= (if Direction(t.setup) == Out then Length(t.setup) else 0)
    && |t.answer| <= (if Direction(t.setup) == In then Length(t.setup) else 0)
  }

  /**
   * Both ends and both channels. The rest is history: the host's transfers in order, what the
   * gadget forwarded, what the driver took, how transfers ended at the driver or the host, and
   * where transfers failed on the gadget, before the driver, and after the driver.
   */
  datatype System = System(
    host: seq<Transfer>,
    gad: G.Gadget,
    forwarded: seq<Tagged<Packet>>,
    unsent: seq<nat>,
    up: seq<Tagged<Packet>>,
    taken: seq<Tagged<D.Taken>>,
    untaken: seq<nat>,
    drv: D.Driver,
    back: seq<Tagged<Reply>>,
    ended: seq<Tagged<End>>,
    unanswered: seq<nat>)

  datatype End = Answered(bytes: seq<byte>) | Stalled(half: Dir) | Acknowledged | Delivered

  const START := System([], G.IDLE, [], [], [], [], [], [], [], [], [])

  datatype Action =
    | HostSetup(t: Transfer)
    | RunSetup(i: nat, env: ControlEnv)
    | GadgetDone(i: nat, status: int, actual: nat)
    | GadgetWork(i: nat, send: bool)
    | ToDriver(i: nat, env: ControlEnv)
    | LoseUp(i: nat)
    | UrbDone(i: nat, status: int)
    | DriverWork(i: nat, env: ControlEnv)
    | ToGadget(i: nat, env: ControlEnv)
    | LoseBack(i: nat)

  /** What the host's side of a completion brings: the data stage, or the consumed bytes of an answer. */
  function HostBytes(s: System, i: nat, actual: nat): seq<byte>
    requires i < |s.gad.reqs|
  {
    var r := s.gad.reqs[i];
    if r.it.dir == Out && r.origin < |s.host| then s.host[r.origin].stage
    else if actual <= r.it.length then r.it.image[SETUP..SETUP + actual] else []
  }

  function DeviceBytes(s: System, i: nat): seq<byte>
    requires i < |s.drv|
  {
    if s.drv[i].origin < |s.host| then s.host[s.drv[i].origin].answer else []
  }

  /** A controller completes a request it owns, within the length it was given. */
  predicate HostMayComplete(s: System, i: nat, actual: nat)
  {
    G.Queued(s.gad, i) && |HostBytes(s, i, actual)| <= s.gad.reqs[i].it.length
  }

  predicate DeviceMayComplete(s: System, i: nat)
  {
    D.Pending(s.drv, i) && |DeviceBytes(s, i)| <= s.drv[i].it.length
  }

  predicate Enabled(s: System, a: Action)
  {
    match a
    case HostSetup(t) => Legal(t)
    case RunSetup(i, _) => i < |s.gad.setups|
    case GadgetDone(i, _, actual) => HostMayComplete(s, i, actual)
    case GadgetWork(i, _) => G.Done(s.gad, i)
    case ToDriver(i, _) => i < |s.up|
    case LoseUp(i) => i < |s.up|
    case UrbDone(i, _) => DeviceMayComplete(s, i)
    case DriverWork(i, _) => D.Done(s.drv, i)
    case ToGadget(i, _) => i < |s.back|
    case LoseBack(i) => i < |s.back|
  }

  function Unless<T>(no: bool, x: T): Option<T>
  {
    if no then None else Some(x)
  }

  function Mark(s: seq<nat>, failed: bool, origin: nat): seq<nat>
  {
    if failed then s + [origin] else s
  }

  // The steps, one function each; Apply takes the one of its action.

  function AfterHostSetup(s: System, t: Transfer): System
  {
    s.(host := s.host + [t], gad := s.gad.(setups := Add(s.gad.setups, Some(Tagged(|s.host|, t.setup)))))
  }

  function AfterRunSetup(s: System, i: nat, env: ControlEnv): System
    requires i < |s.gad.setups|
  {
    var t := s.gad.setups[i];
    var (gad, sent) := G.HandleSetup(s.gad, i, env);
    s.(gad := gad, forwarded := Add(s.forwarded, sent), up := Add(s.up, sent),
       unsent := Mark(s.unsent, G.SetupFails(t.it, env), t.origin))
  }

  function AfterGadgetDone(s: System, i: nat, status: int, actual: nat): System
    requires HostMayComplete(s, i, actual)
  {
    var t := s.gad.reqs[i];
    s.(gad := G.Complete(s.gad, i, status, HostBytes(s, i, actual)),
       unsent := Mark(s.unsent, status < 0 && Open(t.it), t.origin))
  }

  function AfterGadgetWork(s: System, i: nat, send: bool): System
    requires G.Done(s.gad, i)
  {
    var t := s.gad.reqs[i];
    var (gad, sent) := G.Work(s.gad, i, send);
    s.(gad := gad, forwarded := Add(s.forwarded, sent), up := Add(s.up, sent),
       unsent := Mark(s.unsent, Open(t.it) && !send, t.origin))
  }

  function AfterToDriver(s: System, i: nat, env: ControlEnv): System
    requires i < |s.up|
  {
    var t := s.up[i];
    var (drv, taken, reply) := D.Receive(s.drv, s.up[i], env);
    s.(drv := drv, up := Drop(s.up, i), back := Add(s.back, reply),
       taken := Add(s.taken, Unless(taken.Failed?, Tagged(t.origin, taken))),
       untaken := Mark(s.untaken, taken.Failed?, t.origin),
       unanswered := Mark(s.unanswered, taken.Interface? && reply.None?, t.origin))
  }

  function AfterUrbDone(s: System, i: nat, status: int): System
    requires DeviceMayComplete(s, i)
  {
    s.(drv := D.Complete(s.drv, i, status, DeviceBytes(s, i)))
  }

  function AfterDriverWork(s: System, i: nat, env: ControlEnv): System
    requires D.Done(s.drv, i)
  {
    var t := s.drv[i];
    var (drv, reply) := D.Work(s.drv, i, env);
    var delivered := t.it.dir == Out && t.it.status == Some(0);
    s.(drv := drv, back := Add(s.back, reply),
       ended := Add(s.ended, Unless(!delivered, Tagged(t.origin, Delivered))),
       unanswered := Mark(s.unanswered, !delivered && reply.None? && !D.KeepsRequest(t.it, env), t.origin))
  }

  function AfterToGadget(s: System, i: nat, env: ControlEnv): System
    requires i < |s.back|
  {
    var t := s.back[i];
    var (gad, outcome) := G.Receive(s.gad, s.back[i], env);
    s.(gad := gad, back := Drop(s.back, i),
       ended := Add(s.ended, EndOf(t.origin, outcome)),
       unanswered := Mark(s.unanswered, outcome.Failed?, t.origin))
  }

  function Apply(s: System, a: Action): System
    requires Enabled(s, a)
  {
    match a
    case HostSetup(t) => AfterHostSetup(s, t)
    case RunSetup(i, env) => AfterRunSetup(s, i, env)
    case GadgetDone(i, status, actual) => AfterGadgetDone(s, i, status, actual)
    case GadgetWork(i, send) => AfterGadgetWork(s, i, send)
    case ToDriver(i, env) => AfterToDriver(s, i, env)
    case LoseUp(i) => s.(up := Drop(s.up, i), untaken := Mark(s.untaken, true, s.up[i].origin))
    case UrbDone(i, status) => AfterUrbDone(s, i, status)
    case DriverWork(i, env) => AfterDriverWork(s, i, env)
    case ToGadget(i, env) => AfterToGadget(s, i, env)
    case LoseBack(i) => s.(back := Drop(s.back, i), unanswered := Mark(s.unanswered, true, s.back[i].origin))
  }

  function EndOf(origin: nat, outcome: G.Outcome): Option<Tagged<End>>
  {
    match outcome
    case GivenToHost(bytes) => Some(Tagged(origin, Answered(bytes)))
    case Halted(half) => Some(Tagged(origin, Stalled(half)))
    case Ignored => Some(Tagged(origin, Acknowledged))
    case Failed => None
  }

  predicate Runs(s: System, acts: seq<Action>)
    decreases |acts|
  {
    acts == [] || (Enabled(s, acts[0]) && Runs(Apply(s, acts[0]), acts[1..]))
  }

  function Exec(s: System, acts: seq<Action>): System
    requires Runs(s, acts)
    decreases |acts|
  {
    if acts == [] then s else Exec(Apply(s, acts[0]), acts[1..])
  }

  // ------------------------------------------------------------------- counting

  /** A request whose data stage is still to be forwarded. */
  predicate Open(r: G.Request)
  {
    AwaitsData(r.dir, r.image[..SETUP])
  }

  function One(yes: bool): nat
  {
    if yes then 1 else 0
  }

  function Here<T>(k: nat): Tagged<T> -> nat
  {
    (t: Tagged<T>) => One(t.origin == k)
  }

  function OpenHere(k: nat): Tagged<G.Request> -> nat
  {
    (t: Tagged<G.Request>) => One(t.origin == k && Open(t.it))
  }

  function MarkedHere(k: nat): nat -> nat
  {
    (origin: nat) => One(origin == k)
  }

  /** How often the `k`-th transfer occurs in a list. */
  function Times<T>(s: seq<Tagged<T>>, k: nat): nat
  {
    Sum(s, Here(k))
  }

  function Marks(s: seq<nat>, k: nat): nat
  {
    Sum(s, MarkedHere(k))
  }

  function OpenTimes(reqs: seq<Tagged<G.Request>>, k: nat): nat
  {
    Sum(reqs, OpenHere(k))
  }

  lemma MarksMore(s: seq<nat>, failed: bool, origin: nat, k: nat)
    ensures Marks(Mark(s, failed, origin), k) == Marks(s, k) + One(failed && origin == k)
  {
    SumAdd(s, Some(origin), MarkedHere(k));
  }

  // ------------------------------------------------------------------ the ledger

  /**
   * Every transfer of the host is at one place on the gadget or was forwarded once; every one
   * forwarded is on its way or was taken once; every one taken is at one place on its return.
   */
  predicate Ledger(s: System, k: nat)
  {
    && Times(s.gad.setups, k) + OpenTimes(s.gad.reqs, k) + Marks(s.unsent, k) + Times(s.forwarded, k) ==
         One(k < |s.host|)
    && Times(s.up, k) + Marks(s.untaken, k) + Times(s.taken, k) == Times(s.forwarded, k)
    && Times(s.drv, k) + Times(s.back, k) + Times(s.ended, k) + Marks(s.unanswered, k) == Times(s.taken, k)
  }

  lemma SendOpen(g: G.Gadget, t: Tagged<Body>, dir: Dir, env: ControlEnv, k: nat)
    ensures var r := G.Send(g, t, dir, env);
            && r.setups == g.setups
            && OpenTimes(r.reqs, k) ==
                 OpenTimes(g.reqs, k) + One(t.origin == k && env.memory && env.submit && AwaitsData(dir, t.it))
  {
    if env.memory && env.submit {
      var f := G.Fill(dir, t.it, env.room);
      SameLength(f.image, t.it);
      SumFront(Tagged(t.origin, f), g.reqs, OpenHere(k));
    }
  }

  /** wLength lies in the setup, whatever follows it. */
  lemma SameLength(a: Body, b: Body)
    requires |b| <= |a| && a[..|b|] == b
    ensures Length(a[..SETUP]) == Length(b)
  {
    assert a[6] == b[6] && a[7] == b[7];
  }

  lemma HostSetupDelta(s: System, t: Transfer, k: nat)
    requires Legal(t)
    ensures var r := AfterHostSetup(s, t);
            && Times(r.gad.setups, k) == Times(s.gad.setups, k) + One(|s.host| == k)
            && OpenTimes(r.gad.reqs, k) == OpenTimes(s.gad.reqs, k)
            && r == s.(host := s.host + [t], gad := r.gad)
  {
    hide Sum, Marks, Add;
    SumAdd(s.gad.setups, Some(Tagged(|s.host|, t.setup)), Here(k));
  }

  lemma HostSetupLedger(s: System, t: Transfer, k: nat)
    requires Ledger(s, k) && Legal(t)
    ensures Ledger(AfterHostSetup(s, t), k)
  {
    hide AfterHostSetup, Times, OpenTimes, Marks, Open, AwaitsData, G.SetupFails, D.Receive, D.Work, D.KeepsRequest;
    hide G.Receive, StandardRequest;
    HostSetupDelta(s, t, k);
  }

  lemma HandleSetupFacts(g: G.Gadget, i: nat, env: ControlEnv, k: nat)
    requires i < |g.setups|
    ensures var (r, sent) := G.HandleSetup(g, i, env);
            var t := g.setups[i];
            var waits, fails := AwaitsData(Direction(t.it), t.it), G.SetupFails(t.it, env);
            && r.setups == Drop(g.setups, i)
            && OpenTimes(r.reqs, k) == OpenTimes(g.reqs, k) + One(t.origin == k && waits && !fails)
            && sent.Some? == (!waits && !fails)
            && (sent.Some? ==> sent.value.origin == t.origin)
  {
    hide Sum, G.Send, Drop, StandardRequest;
    var t := g.setups[i];
    SendOpen(g.(setups := Drop(g.setups, i)), t, Direction(t.it), env, k);
  }

  lemma RunSetupDelta(s: System, i: nat, env: ControlEnv, k: nat)
    requires i < |s.gad.setups|
    ensures var r := AfterRunSetup(s, i, env);
            var t := s.gad.setups[i];
            var waits, fails, here := AwaitsData(Direction(t.it), t.it), G.SetupFails(t.it, env), t.origin == k;
            && Times(r.gad.setups, k) == Times(s.gad.setups, k) - One(here)
            && OpenTimes(r.gad.reqs, k) == OpenTimes(s.gad.reqs, k) + One(here && waits && !fails)
            && Marks(r.unsent, k) == Marks(s.unsent, k) + One(here && fails)
            && Times(r.forwarded, k) == Times(s.forwarded, k) + One(here && !waits && !fails)
            && Times(r.up, k) == Times(s.up, k) + One(here && !waits && !fails)
            && r == s.(gad := r.gad, unsent := r.unsent, forwarded := r.forwarded, up := r.up)
  {
    var t := s.gad.setups[i];
    var (gad, sent) := G.HandleSetup(s.gad, i, env);
    HandleSetupFacts(s.gad, i, env, k);
    hide Sum, Marks, G.HandleSetup, G.SetupFails, AwaitsData, Add, Mark, Drop;
    SumDrop(s.gad.setups, i, Here(k));
    SumAdd(s.forwarded, sent, Here(k));
    SumAdd(s.up, sent, Here(k));
    MarksMore(s.unsent, G.SetupFails(t.it, env), t.origin, k);
  }

  lemma RunSetupLedger(s: System, i: nat, env: ControlEnv, k: nat)
    requires Ledger(s, k) && i < |s.gad.setups|
    ensures Ledger(AfterRunSetup(s, i, env), k)
  {
    hide AfterRunSetup, Times, OpenTimes, Marks, Open, AwaitsData, G.SetupFails, D.Receive, D.Work, D.KeepsRequest;
    hide G.Receive, StandardRequest;
    RunSetupDelta(s, i, env, k);
  }

  lemma GadgetDoneDelta(s: System, i: nat, status: int, actual: nat, k: nat)
    requires HostMayComplete(s, i, actual)
    ensures var r := AfterGadgetDone(s, i, status, actual);
            var t := s.gad.reqs[i];
            var here := t.origin == k && status < 0 && Open(t.it);
            && Times(r.gad.setups, k) == Times(s.gad.setups, k)
            && OpenTimes(r.gad.reqs, k) == OpenTimes(s.gad.reqs, k) - One(here)
            && Marks(r.unsent, k) == Marks(s.unsent, k) + One(here)
            && r == s.(gad := r.gad, unsent := r.unsent)
  {
    var t, bytes := s.gad.reqs[i], HostBytes(s, i, actual);
    MarksMore(s.unsent, status < 0 && Open(t.it), t.origin, k);
    if status < 0 {
      SumDrop(s.gad.reqs, i, OpenHere(k));
    } else {
      SumReplace(s.gad.reqs, i, G.Complete(s.gad, i, status, bytes).reqs[i], OpenHere(k));
    }
    hide Sum, Marks, Mark, Drop, HostBytes;
  }

  lemma GadgetDoneLedger(s: System, i: nat, status: int, actual: nat, k: nat)
    requires Ledger(s, k) && HostMayComplete(s, i, actual)
    ensures Ledger(AfterGadgetDone(s, i, status, actual), k)
  {
    hide AfterGadgetDone, Times, OpenTimes, Marks, Open, AwaitsData, G.SetupFails, D.Receive, D.Work, D.KeepsRequest;
    hide G.Receive, StandardRequest;
    GadgetDoneDelta(s, i, status, actual, k);
  }

  lemma GadgetWorkDelta(s: System, i: nat, send: bool, k: nat)
    requires G.Done(s.gad, i)
    ensures var r := AfterGadgetWork(s, i, send);
            var here := s.gad.reqs[i].origin == k && Open(s.gad.reqs[i].it);
            && Times(r.gad.setups, k) == Times(s.gad.setups, k)
            && OpenTimes(r.gad.reqs, k) == OpenTimes(s.gad.reqs, k) - One(here)
            && Marks(r.unsent, k) == Marks(s.unsent, k) + One(here && !send)
            && Times(r.forwarded, k) == Times(s.forwarded, k) + One(here && send)
            && Times(r.up, k) == Times(s.up, k) + One(here && send)
            && r == s.(gad := r.gad, unsent := r.unsent, forwarded := r.forwarded, up := r.up)
  {
    var t := s.gad.reqs[i];
    var (gad, sent) := G.Work(s.gad, i, send);
    assert gad.setups == s.gad.setups && gad.reqs == Drop(s.gad.reqs, i);
    assert sent.Some? == (Open(t.it) && send) && (sent.Some? ==> sent.value.origin == t.origin);
    hide Sum, Marks, Mark, Drop, Add, G.Work, Open, AwaitsData;
    SumDrop(s.gad.reqs, i, OpenHere(k));
    SumAdd(s.forwarded, sent, Here(k));
    SumAdd(s.up, sent, Here(k));
    MarksMore(s.unsent, Open(t.it) && !send, t.origin, k);
  }

  lemma GadgetWorkLedger(s: System, i: nat, send: bool, k: nat)
    requires Ledger(s, k) && G.Done(s.gad, i)
    ensures Ledger(AfterGadgetWork(s, i, send), k)
  {
    hide AfterGadgetWork, Times, OpenTimes, Marks, Open, AwaitsData, G.SetupFails, D.Receive, D.Work, D.KeepsRequest;
    hide G.Receive, StandardRequest;
    GadgetWorkDelta(s, i, send, k);
  }

  lemma ReceiveFacts(d: D.Driver, t: Tagged<Packet>, env: ControlEnv, k: nat)
    ensures var (drv, taken, reply) := D.Receive(d, t, env);
            && Times(drv, k) == Times(d, k) + One(taken.Submitted? && t.origin == k)
            && (reply.Some? ==> taken.Interface? && reply.value.origin == t.origin)
  {
    hide D.Fill;
    var (drv, taken, reply) := D.Receive(d, t, env);
    if taken.Submitted? {
      SumFront(drv[0], d, Here(k));
    }
  }

  lemma ToDriverTaken(s: System, i: nat, env: ControlEnv, k: nat)
    requires i < |s.up|
    ensures var r := AfterToDriver(s, i, env);
            var t, here := D.Receive(s.drv, s.up[i], env), s.up[i].origin == k;
            && Times(r.up, k) == Times(s.up, k) - One(here)
            && Marks(r.untaken, k) == Marks(s.untaken, k) + One(here && t.1.Failed?)
            && Times(r.taken, k) == Times(s.taken, k) + One(here && !t.1.Failed?)
  {
    var t := s.up[i];
    var taken := D.Receive(s.drv, t, env).1;
    var x := Unless(taken.Failed?, Tagged(t.origin, taken));
    assert x.None? == taken.Failed? && (x.Some? ==> x.value.origin == t.origin);
    hide Unless, Times, OpenTimes, Marks, Mark, Drop, Add, D.Receive;
    SumDrop(s.up, i, Here(k));
    SumAdd(s.taken, x, Here(k));
    MarksMore(s.untaken, taken.Failed?, t.origin, k);
  }

  lemma ToDriverDelta(s: System, i: nat, env: ControlEnv, k: nat)
    requires i < |s.up|
    ensures var r := AfterToDriver(s, i, env);
            var t, here := D.Receive(s.drv, s.up[i], env), s.up[i].origin == k;
            && Times(r.drv, k) == Times(s.drv, k) + One(here && t.1.Submitted?)
            && Times(r.back, k) == Times(s.back, k) + One(here && t.1.Interface? && t.2.Some?)
            && Marks(r.unanswered, k) == Marks(s.unanswered, k) + One(here && t.1.Interface? && t.2.None?)
            && r == s.(up := r.up, untaken := r.untaken, taken := r.taken, drv := r.drv, back := r.back,
                 unanswered := r.unanswered)
  {
    var t := s.up[i];
    var (drv, taken, reply) := D.Receive(s.drv, t, env);
    ReceiveFacts(s.drv, t, env, k);
    hide Sum, Marks, Mark, Drop, Add, D.Receive;
    SumAdd(s.back, reply, Here(k));
    MarksMore(s.unanswered, taken.Interface? && reply.None?, t.origin, k);
  }

  lemma ToDriverLedger(s: System, i: nat, env: ControlEnv, k: nat)
    requires Ledger(s, k) && i < |s.up|
    ensures Ledger(AfterToDriver(s, i, env), k)
  {
    hide AfterToDriver, Times, OpenTimes, Marks, Open, AwaitsData, G.SetupFails, D.Receive, D.Work, D.KeepsRequest;
    hide G.Receive, StandardRequest;
    ToDriverTaken(s, i, env, k);
    ToDriverDelta(s, i, env, k);
  }

  lemma DriverWorkDelta(s: System, i: nat, env: ControlEnv, k: nat)
    requires D.Done(s.drv, i)
    ensures var r := AfterDriverWork(s, i, env);
            var here, replied := s.drv[i].origin == k, D.Work(s.drv, i, env).1.Some?;
            var delivered := s.drv[i].it.dir == Out && s.drv[i].it.status == Some(0);
            var kept := D.KeepsRequest(s.drv[i].it, env);
            && !(delivered && replied) && (kept ==> !delivered && !replied)
            && Times(r.drv, k) == Times(s.drv, k) - One(here && !kept)
            && Times(r.back, k) == Times(s.back, k) + One(here && replied)
            && Times(r.ended, k) == Times(s.ended, k) + One(here && delivered)
            && Marks(r.unanswered, k) == Marks(s.unanswered, k) + One(here && !delivered && !replied && !kept)
            && r == s.(drv := r.drv, back := r.back, ended := r.ended, unanswered := r.unanswered)
  {
    var t := s.drv[i];
    var (drv, reply) := D.Work(s.drv, i, env);
    var delivered := t.it.dir == Out && t.it.status == Some(0);
    var kept := D.KeepsRequest(t.it, env);
    assert drv == if kept then s.drv[i := Tagged(t.origin, t.it.(kept := true))] else Drop(s.drv, i);
    assert (reply.Some? ==> !delivered && reply.value.origin == t.origin) && (kept ==> !delivered && reply.None?);
    hide Sum, Marks, Mark, Drop, Add, D.Work, D.KeepsRequest;
    if kept {
      SumReplace(s.drv, i, Tagged(t.origin, t.it.(kept := true)), Here(k));
    } else {
      SumDrop(s.drv, i, Here(k));
    }
    SumAdd(s.back, reply, Here(k));
    SumAdd(s.ended, Unless(!delivered, Tagged(t.origin, Delivered)), Here(k));
    MarksMore(s.unanswered, !delivered && reply.None? && !kept, t.origin, k);
  }

  lemma DriverWorkLedger(s: System, i: nat, env: ControlEnv, k: nat)
    requires Ledger(s, k) && D.Done(s.drv, i)
    ensures Ledger(AfterDriverWork(s, i, env), k)
  {
    hide AfterDriverWork, Times, OpenTimes, Marks, Open, AwaitsData, G.SetupFails, D.Receive, D.Work, D.KeepsRequest;
    hide G.Receive, StandardRequest;
    DriverWorkDelta(s, i, env, k);
  }

  /** An answer queued to the host never opens a data stage. */
  lemma GadgetReceiveFacts(g: G.Gadget, t: Tagged<Reply>, env: ControlEnv, k: nat)
    ensures var r := G.Receive(g, t, env).0;
            r.setups == g.setups && OpenTimes(r.reqs, k) == OpenTimes(g.reqs, k)
  {
    if t.it.Answer? {
      SendOpen(g, Tagged(t.origin, t.it.body), In, env, k);
    }
  }

  lemma ToGadgetDelta(s: System, i: nat, env: ControlEnv, k: nat)
    requires i < |s.back|
    ensures var r := AfterToGadget(s, i, env);
            var failed, here := G.Receive(s.gad, s.back[i], env).1.Failed?, s.back[i].origin == k;
            && Times(r.gad.setups, k) == Times(s.gad.setups, k)
            && OpenTimes(r.gad.reqs, k) == OpenTimes(s.gad.reqs, k)
            && Times(r.back, k) == Times(s.back, k) - One(here)
            && Times(r.ended, k) == Times(s.ended, k) + One(here && !failed)
            && Marks(r.unanswered, k) == Marks(s.unanswered, k) + One(here && failed)
            && r == s.(gad := r.gad, back := r.back, ended := r.ended, unanswered := r.unanswered)
  {
    var t := s.back[i];
    var (gad, outcome) := G.Receive(s.gad, t, env);
    GadgetReceiveFacts(s.gad, t, env, k);
    var x := EndOf(t.origin, outcome);
    assert x.None? == outcome.Failed? && (x.Some? ==> x.value.origin == t.origin);
    hide Sum, Marks, Mark, Drop, Add, G.Receive, EndOf;
    SumDrop(s.back, i, Here(k));
    SumAdd(s.ended, x, Here(k));
    MarksMore(s.unanswered, outcome.Failed?, t.origin, k);
  }

  lemma ToGadgetLedger(s: System, i: nat, env: ControlEnv, k: nat)
    requires Ledger(s, k) && i < |s.back|
    ensures Ledger(AfterToGadget(s, i, env), k)
  {
    hide AfterToGadget, Times, OpenTimes, Marks, Open, AwaitsData, G.SetupFails, D.Receive, D.Work, D.KeepsRequest;
    hide G.Receive, StandardRequest;
    ToGadgetDelta(s, i, env, k);
  }

  lemma LossLedger(s: System, a: Action, k: nat)
    requires Ledger(s, k) && Enabled(s, a) && (a.LoseUp? || a.LoseBack?)
    ensures Ledger(Apply(s, a), k)
  {
    hide Sum, Marks, Mark, Drop;
    if a.LoseUp? {
      SumDrop(s.up, a.i, Here(k));
      MarksMore(s.untaken, true, s.up[a.i].origin, k);
    } else {
      SumDrop(s.back, a.i, Here(k));
      MarksMore(s.unanswered, true, s.back[a.i].origin, k);
    }
  }

  lemma UrbDoneLedger(s: System, i: nat, status: int, k: nat)
    requires Ledger(s, k) && DeviceMayComplete(s, i)
    ensures Ledger(AfterUrbDone(s, i, status), k)
  {
    SumReplace(s.drv, i, D.Complete(s.drv, i, status, DeviceBytes(s, i))[i], Here(k));
    hide Sum, Marks, DeviceBytes;
  }

  /** Every step keeps every transfer at exactly one place. */
  lemma StepLedger(s: System, a: Action, k: nat)
    requires Ledger(s, k) && Enabled(s, a)
    ensures Ledger(Apply(s, a), k)
  {
    hide Ledger, AfterHostSetup, AfterRunSetup, AfterGadgetDone, AfterGadgetWork, AfterToDriver, AfterUrbDone;
    hide AfterDriverWork, AfterToGadget;
    match a {
      case HostSetup(t) => HostSetupLedger(s, t, k);
      case RunSetup(i, env) => RunSetupLedger(s, i, env, k);
      case GadgetDone(i, status, actual) => GadgetDoneLedger(s, i, status, actual, k);
      case GadgetWork(i, send) => GadgetWorkLedger(s, i, send, k);
      case ToDriver(i, env) => ToDriverLedger(s, i, env, k);
      case LoseUp(i) => LossLedger(s, a, k);
      case UrbDone(i, status) => UrbDoneLedger(s, i, status, k);
      case DriverWork(i, env) => DriverWorkLedger(s, i, env, k);
      case ToGadget(i, env) => ToGadgetLedger(s, i, env, k);
      case LoseBack(i) => LossLedger(s, a, k);
    }
  }

  // ------------------------------------------------------------------- exactness

  predicate Of(host: seq<Transfer>, origin: nat, setup: seq<byte>)
  {
    origin < |host| && setup == host[origin].setup
  }

  predicate ExactSetup(host: seq<Transfer>, t: Tagged<Body>)
  {
    Of(host, t.origin, t.it)
  }

  /** A forwarded message is the setup followed by the data stage, on the setup's endpoint. */
  predicate ExactPacket(host: seq<Transfer>, t: Tagged<Packet>)
  {
    && t.origin < |host| && t.it.dir == Direction(host[t.origin].setup)
    && t.it.body == host[t.origin].setup + host[t.origin].stage
  }

  /**
   * An OUT request keeps the setup in front and has room for wLength bytes; once completed, the data
   * stage follows the setup.
   */
  predicate ExactRequest(host: seq<Transfer>, t: Tagged<G.Request>)
  {
    t.it.dir == Out ==>
      && Of(host, t.origin, t.it.image[..SETUP]) && Direction(host[t.origin].setup) == Out
      && t.it.length == Length(host[t.origin].setup)
      && (t.it.done ==> t.it.image[..SETUP + t.it.actual] == host[t.origin].setup + host[t.origin].stage)
  }

  /** The driver's URB carries exactly the setup, wLength, and the data stage; SET_INTERFACE makes none. */
  predicate ExactTaken(host: seq<Transfer>, t: Tagged<D.Taken>)
  {
    && t.origin < |host|
    && (SetsInterface(host[t.origin].setup) <==> t.it.Interface?)
    && (t.it.Submitted? ==>
          && t.it.setup == host[t.origin].setup && t.it.dir == Direction(t.it.setup)
          && t.it.data == host[t.origin].stage && t.it.length == Length(t.it.setup))
  }

  /** An URB keeps the setup in front; the data stage follows it, or, once it succeeded, the IN answer. */
  predicate ExactUrb(host: seq<Transfer>, t: Tagged<D.Urb>)
  {
    && Of(host, t.origin, t.it.image[..SETUP])
    && t.it.dir == Direction(host[t.origin].setup) && !SetsInterface(host[t.origin].setup)
    && t.it.length == Length(host[t.origin].setup)
    && (if t.it.dir == In then t.it.size == SETUP else t.it.image == host[t.origin].setup + host[t.origin].stage)
    && (t.it.dir == In && t.it.status == Some(0) ==>
          t.it.image[..t.it.size + t.it.actual] == host[t.origin].setup + host[t.origin].answer)
  }

  /** An answer is the setup followed by the device's bytes; an ACK is a SET_INTERFACE carried out, or a stall. */
  predicate ExactReply(host: seq<Transfer>, t: Tagged<Reply>)
  {
    && t.origin < |host|
    && match t.it
       case Answer(body) =>
         Direction(host[t.origin].setup) == In && !SetsInterface(host[t.origin].setup)
         && body == host[t.origin].setup + host[t.origin].answer
       case Ack(half, status, data) =>
         && half == Direction(host[t.origin].setup)
         && if SetsInterface(host[t.origin].setup) then status == 0 &&
              data == host[t.origin].setup + host[t.origin].stage
            else status == -EPIPE && half == In && data == []
  }

  /** How a transfer may end; the buffer queued to the host is the device's answer, without the setup. */
  predicate ExactEnd(host: seq<Transfer>, t: Tagged<End>)
  {
    && t.origin < |host|
    && match t.it
       case Acknowledged => SetsInterface(host[t.origin].setup)
       case Delivered => !SetsInterface(host[t.origin].setup) && Direction(host[t.origin].setup) == Out
       case Stalled(half) => half == In && !SetsInterface(host[t.origin].setup) && Direction(host[t.origin].setup) == In
       case Answered(bytes) =>
         !SetsInterface(host[t.origin].setup) && Direction(host[t.origin].setup) == In && bytes == host[t.origin].answer
  }

  predicate Exact(s: System)
  {
    && (forall t | t in s.host :: Legal(t))
    && (forall t | t in s.gad.setups :: ExactSetup(s.host, t))
    && (forall t | t in s.gad.reqs :: ExactRequest(s.host, t))
    && (forall t | t in s.forwarded :: ExactPacket(s.host, t))
    && (forall t | t in s.up :: ExactPacket(s.host, t))
    && (forall t | t in s.taken :: ExactTaken(s.host, t))
    && (forall t | t in s.drv :: ExactUrb(s.host, t))
    && (forall t | t in s.back :: ExactReply(s.host, t))
    && (forall t | t in s.ended :: ExactEnd(s.host, t))
  }

  lemma HostSetupExact(s: System, t: Transfer)
    requires Exact(s) && Legal(t)
    ensures Exact(AfterHostSetup(s, t))
  {
  }

  lemma HandleSetupExact(host: seq<Transfer>, g: G.Gadget, i: nat, env: ControlEnv)
    requires i < |g.setups| && ExactSetup(host, g.setups[i]) && Legal(host[g.setups[i].origin])
    requires forall t | t in g.reqs :: ExactRequest(host, t)
    ensures var (r, sent) := G.HandleSetup(g, i, env);
            && (forall t | t in r.setups :: t in g.setups)
            && (forall t | t in r.reqs :: ExactRequest(host, t))
            && (sent.Some? ==> ExactPacket(host, sent.value))
  {
    var t := g.setups[i];
    assert t.it[..SETUP] == t.it;
  }

  lemma RunSetupExact(s: System, i: nat, env: ControlEnv)
    requires Exact(s) && i < |s.gad.setups|
    ensures Exact(AfterRunSetup(s, i, env))
  {
    assert ExactSetup(s.host, s.gad.setups[i]) && Legal(s.host[s.gad.setups[i].origin]);
    HandleSetupExact(s.host, s.gad, i, env);
    hide G.HandleSetup, ExactSetup, ExactRequest, ExactPacket, G.SetupFails;
  }

  lemma StoredAfterSetup(image: Body, bytes: seq<byte>)
    requires SETUP + |bytes| <= |image|
    ensures Store(image, bytes)[..SETUP + |bytes|] == image[..SETUP] + bytes
  {
    var r := Store(image, bytes);
    assert r[..SETUP + |bytes|] == r[..SETUP] + r[SETUP..SETUP + |bytes|];
  }

  /** A completed data stage lies right behind its setup. */
  lemma CompleteExact(host: seq<Transfer>, g: G.Gadget, i: nat, status: int, bytes: seq<byte>)
    requires G.Queued(g, i) && |bytes| <= g.reqs[i].it.length
    requires g.reqs[i].it.dir == Out && g.reqs[i].origin < |host| ==> bytes == host[g.reqs[i].origin].stage
    requires forall t | t in g.reqs :: ExactRequest(host, t)
    ensures forall t | t in G.Complete(g, i, status, bytes).reqs :: ExactRequest(host, t)
  {
    var before := g.reqs[i];
    assert ExactRequest(host, before);
    if status >= 0 {
      StoredAfterSetup(before.it.image, bytes);
      assert ExactRequest(host, G.Complete(g, i, status, bytes).reqs[i]);
      hide ExactRequest;
    }
  }

  lemma GadgetDoneExact(s: System, i: nat, status: int, actual: nat)
    requires Exact(s) && HostMayComplete(s, i, actual)
    ensures Exact(AfterGadgetDone(s, i, status, actual))
  {
    CompleteExact(s.host, s.gad, i, status, HostBytes(s, i, actual));
    assert G.Complete(s.gad, i, status, HostBytes(s, i, actual)).setups == s.gad.setups;
    hide G.Complete, HostBytes, ExactRequest, ExactPacket;
  }

  lemma WorkExact(host: seq<Transfer>, g: G.Gadget, i: nat, send: bool)
    requires G.Done(g, i) && forall t | t in g.reqs :: ExactRequest(host, t)
    ensures var (r, sent) := G.Work(g, i, send);
            && r.setups == g.setups && (forall t | t in r.reqs :: ExactRequest(host, t))
            && (sent.Some? ==> ExactPacket(host, sent.value))
  {
    assert ExactRequest(host, g.reqs[i]);
  }

  lemma GadgetWorkExact(s: System, i: nat, send: bool)
    requires Exact(s) && G.Done(s.gad, i)
    ensures Exact(AfterGadgetWork(s, i, send))
  {
    WorkExact(s.host, s.gad, i, send);
    hide G.Work, ExactRequest, ExactPacket, Open;
  }

  /** The URB filled from an exact message carries the setup, the data stage and wLength. */
  lemma FillExact(host: seq<Transfer>, t: Tagged<Packet>, room: nat -> byte)
    requires ExactPacket(host, t) && Legal(host[t.origin]) && !SetsInterface(t.it.body)
    ensures var u := D.Fill(t.it.dir, t.it.body, room);
            && ExactTaken(host,
                 Tagged(t.origin, D.Submitted(t.it.dir, u.image[..SETUP], u.image[SETUP..u.size], u.length)))
            && ExactUrb(host, Tagged(t.origin, u))
  {
    var x := host[t.origin];
    var u := D.Fill(t.it.dir, t.it.body, room);
    SliceOfSlice(u.image, 0, u.size, 0, SETUP);
    SliceOfSlice(u.image, 0, u.size, SETUP, u.size);
    assert t.it.body[..SETUP] == x.setup && t.it.body[SETUP..] == x.stage;
    assert u.image[..u.size] == t.it.body;
    SameLength(t.it.body, x.setup);
    assert x.setup[..SETUP] == x.setup;
  }

  lemma DriverReceiveExact(host: seq<Transfer>, d: D.Driver, t: Tagged<Packet>, env: ControlEnv)
    requires ExactPacket(host, t) && Legal(host[t.origin])
    requires forall u | u in d :: ExactUrb(host, u)
    ensures var (r, taken, reply) := D.Receive(d, t, env);
            && (forall u | u in r :: ExactUrb(host, u))
            && (!taken.Failed? ==> ExactTaken(host, Tagged(t.origin, taken)))
            && (reply.Some? ==> ExactReply(host, reply.value))
  {
    if !SetsInterface(t.it.body) {
      FillExact(host, t, env.room);
    }
    assert SetsInterface(t.it.body) == SetsInterface(host[t.origin].setup);
    hide D.Fill, StandardRequest, ExactPacket, Legal, ExactUrb;
  }

  lemma ToDriverExact(s: System, i: nat, env: ControlEnv)
    requires Exact(s) && i < |s.up|
    ensures Exact(AfterToDriver(s, i, env))
  {
    assert ExactPacket(s.host, s.up[i]);
    DriverReceiveExact(s.host, s.drv, s.up[i], env);
    hide D.Receive, ExactPacket, ExactUrb, ExactTaken, ExactReply, Legal;
  }

  lemma UrbCompleteExact(host: seq<Transfer>, d: D.Driver, i: nat, status: int, bytes: seq<byte>)
    requires D.Pending(d, i) && |bytes| <= d[i].it.length
    requires d[i].origin < |host| ==> bytes == host[d[i].origin].answer
    requires forall u | u in d :: ExactUrb(host, u)
    ensures forall u | u in D.Complete(d, i, status, bytes) :: ExactUrb(host, u)
  {
    var before := d[i];
    assert ExactUrb(host, before);
    if before.it.dir == In && status == 0 {
      StoredAfterSetup(before.it.image, bytes);
    }
    assert ExactUrb(host, D.Complete(d, i, status, bytes)[i]);
    hide ExactUrb;
  }

  lemma UrbDoneExact(s: System, i: nat, status: int)
    requires Exact(s) && DeviceMayComplete(s, i)
    ensures Exact(AfterUrbDone(s, i, status))
  {
    UrbCompleteExact(s.host, s.drv, i, status, DeviceBytes(s, i));
    hide D.Complete, DeviceBytes, ExactUrb;
  }

  lemma DriverWorkExact(s: System, i: nat, env: ControlEnv)
    requires Exact(s) && D.Done(s.drv, i)
    ensures Exact(AfterDriverWork(s, i, env))
  {
    assert ExactUrb(s.host, s.drv[i]);
    var (drv, reply) := D.Work(s.drv, i, env);
    assert forall t | t in drv :: ExactUrb(s.host, t);
    assert reply.Some? ==> ExactReply(s.host, reply.value);
    hide D.Work, ExactUrb, ExactReply;
  }

  /** The buffer queued to the host is the answer's bytes with the setup stripped. */
  lemma GadgetReceiveExact(host: seq<Transfer>, g: G.Gadget, t: Tagged<Reply>, env: ControlEnv)
    requires ExactReply(host, t) && (t.origin < |host| ==> Legal(host[t.origin]))
    requires forall q | q in g.reqs :: ExactRequest(host, q)
    ensures var (r, outcome) := G.Receive(g, t, env);
            && r.setups == g.setups && (forall q | q in r.reqs :: ExactRequest(host, q))
            && (EndOf(t.origin, outcome).Some? ==> ExactEnd(host, EndOf(t.origin, outcome).value))
  {
    if t.it.Answer? {
      var f := G.Fill(In, t.it.body, env.room);
      assert f.image[..|t.it.body|] == f.image == t.it.body;
      assert ExactRequest(host, Tagged(t.origin, f));
      hide ExactRequest;
    }
  }

  lemma ToGadgetExact(s: System, i: nat, env: ControlEnv)
    requires Exact(s) && i < |s.back|
    ensures Exact(AfterToGadget(s, i, env))
  {
    assert ExactReply(s.host, s.back[i]);
    GadgetReceiveExact(s.host, s.gad, s.back[i], env);
    hide G.Receive, ExactRequest, ExactEnd, ExactReply, EndOf, Legal;
  }

  /** Every step keeps every message, buffer and URB exact. */
  lemma StepExact(s: System, a: Action)
    requires Exact(s) && Enabled(s, a)
    ensures Exact(Apply(s, a))
  {
    match a {
      case HostSetup(t) => HostSetupExact(s, t);
      case RunSetup(i, env) => RunSetupExact(s, i, env);
      case GadgetDone(i, status, actual) => GadgetDoneExact(s, i, status, actual);
      case GadgetWork(i, send) => GadgetWorkExact(s, i, send);
      case ToDriver(i, env) => ToDriverExact(s, i, env);
      case LoseUp(i) =>
      case UrbDone(i, status) => UrbDoneExact(s, i, status);
      case DriverWork(i, env) => DriverWorkExact(s, i, env);
      case ToGadget(i, env) => ToGadgetExact(s, i, env);
      case LoseBack(i) =>
    }
    hide ExactSetup, ExactRequest, ExactPacket, ExactTaken, ExactUrb, ExactReply, ExactEnd;
  }

  lemma {:induction false} RunKeeps(s: System, acts: seq<Action>, k: nat)
    requires Exact(s) && Ledger(s, k) && Runs(s, acts)
    ensures Exact(Exec(s, acts)) && Ledger(Exec(s, acts), k)
    decreases |acts|
  {
    if acts != [] {
      StepExact(s, acts[0]);
      StepLedger(s, acts[0], k);
      hide Exact, Ledger, Apply, Enabled;
      RunKeeps(Apply(s, acts[0]), acts[1..], k);
    }
  }

  /** What every step keeps. */
  ghost predicate SystemInvariant(s: System)
  {
    Exact(s) && forall k :: Ledger(s, k)
  }

  lemma StepKeepsInvariant(s: System, a: Action)
    requires SystemInvariant(s) && Enabled(s, a)
    ensures SystemInvariant(Apply(s, a))
  {
    StepExact(s, a);
    hide Exact, Ledger, Apply, Enabled;
    forall k
      ensures Ledger(Apply(s, a), k)
    {
      StepLedger(s, a, k);
    }
  }

  lemma StartInvariant()
    ensures SystemInvariant(START)
  {
    forall k
      ensures Ledger(START, k)
    {
      StartSound(k);
    }
    StartSound(0);
  }

  // --------------------------------------------------------------- every transfer settles

  /** Nothing is waiting, outstanding or in transit. */
  predicate Idle(s: System)
  {
    s.gad.setups == [] && s.gad.reqs == [] && s.up == [] && s.back == [] && forall t | t in s.drv :: t.it.kept
  }

  /** As long as something is, a step other than a new setup can be taken: no transfer gets stuck. */
  lemma NeverStuck(s: System) returns (a: Action)
    requires Exact(s) && !Idle(s)
    ensures Enabled(s, a) && !a.HostSetup?
  {
    var env := ControlEnv(true, true, true, true, (i: nat) => 0);
    if s.gad.setups != [] {
      a := RunSetup(0, env);
    } else if s.gad.reqs != [] {
      var t := s.gad.reqs[0];
      assert ExactRequest(s.host, t) && (t.it.dir == Out ==> Legal(s.host[t.origin]));
      a := if s.gad.reqs[0].it.done then GadgetWork(0, true) else GadgetDone(0, 0, 0);
    } else if s.up != [] {
      a := ToDriver(0, env);
    } else if s.back != [] {
      a := ToGadget(0, env);
    } else {
      var i :| 0 <= i < |s.drv| && !s.drv[i].it.kept;
      assert ExactUrb(s.host, s.drv[i]) && Legal(s.host[s.drv[i].origin]);
      a := if s.drv[i].it.status.Some? then DriverWork(i, env) else UrbDone(i, 0);
    }
  }

  /** The steps a request can still cause. */
  const REQUEST: Tagged<G.Request> -> nat :=
    (t: Tagged<G.Request>) => (if Open(t.it) then 8 else 1) + if t.it.done then 0 else 1

  const URB: Tagged<D.Urb> -> nat := (t: Tagged<D.Urb>) => if t.it.kept then 0 else if t.it.status.Some? then 5 else 6

  /** A bound on the steps left before the system is idle. */
  function Left(s: System): nat
  {
    10 * |s.gad.setups| + Sum(s.gad.reqs, REQUEST) + 7 * |s.up| + Sum(s.drv, URB) + 4 * |s.back|
  }

  lemma SendSum(g: G.Gadget, t: Tagged<Body>, dir: Dir, env: ControlEnv)
    ensures var r := G.Send(g, t, dir, env);
            && r.setups == g.setups
            && Sum(r.reqs, REQUEST) <= Sum(g.reqs, REQUEST) + if AwaitsData(dir, t.it) then 9 else 2
  {
    if env.memory && env.submit {
      var f := G.Fill(dir, t.it, env.room);
      SameLength(f.image, t.it);
      SumFront(Tagged(t.origin, f), g.reqs, REQUEST);
    }
  }

  lemma RunSetupLeft(s: System, i: nat, env: ControlEnv)
    requires i < |s.gad.setups|
    ensures Left(AfterRunSetup(s, i, env)) < Left(s)
  {
    var t := s.gad.setups[i];
    SendSum(s.gad.(setups := Drop(s.gad.setups, i)), t, Direction(t.it), env);
    hide Sum, G.Send, StandardRequest, Mark;
  }

  lemma GadgetDoneLeft(s: System, i: nat, status: int, actual: nat)
    requires HostMayComplete(s, i, actual)
    ensures Left(AfterGadgetDone(s, i, status, actual)) < Left(s)
  {
    if status < 0 {
      SumDrop(s.gad.reqs, i, REQUEST);
    } else {
      SumReplace(s.gad.reqs, i, G.Complete(s.gad, i, status, HostBytes(s, i, actual)).reqs[i], REQUEST);
    }
    hide Sum, HostBytes, Mark;
  }

  lemma GadgetWorkLeft(s: System, i: nat, send: bool)
    requires G.Done(s.gad, i)
    ensures Left(AfterGadgetWork(s, i, send)) < Left(s)
  {
    SumDrop(s.gad.reqs, i, REQUEST);
    hide Sum, Mark;
  }

  lemma ToDriverLeft(s: System, i: nat, env: ControlEnv)
    requires i < |s.up|
    ensures Left(AfterToDriver(s, i, env)) < Left(s)
  {
    var (drv, taken, reply) := D.Receive(s.drv, s.up[i], env);
    if taken.Submitted? {
      SumFront(drv[0], s.drv, URB);
    }
    hide Sum, Mark, D.Fill, StandardRequest;
  }

  lemma UrbDoneLeft(s: System, i: nat, status: int)
    requires DeviceMayComplete(s, i)
    ensures Left(AfterUrbDone(s, i, status)) < Left(s)
  {
    SumReplace(s.drv, i, D.Complete(s.drv, i, status, DeviceBytes(s, i))[i], URB);
    hide Sum, DeviceBytes, Mark;
  }

  lemma DriverWorkLeft(s: System, i: nat, env: ControlEnv)
    requires D.Done(s.drv, i)
    ensures Left(AfterDriverWork(s, i, env)) < Left(s)
  {
    var t := s.drv[i];
    if D.KeepsRequest(t.it, env) {
      var x := Tagged(t.origin, t.it.(kept := true));
      SumReplace(s.drv, i, x, URB);
      assert URB(x) == 0 && URB(t) == 5;
    } else {
      SumDrop(s.drv, i, URB);
    }
    hide Sum, Mark;
  }

  lemma ToGadgetLeft(s: System, i: nat, env: ControlEnv)
    requires i < |s.back|
    ensures Left(AfterToGadget(s, i, env)) < Left(s)
  {
    var t := s.back[i];
    if t.it.Answer? {
      SendSum(s.gad, Tagged(t.origin, t.it.body), In, env);
    }
    hide Sum, G.Send, G.Buffer, Mark, EndOf;
  }

  /** Every step but a new setup brings the system closer to idle. */
  lemma StepLeft(s: System, a: Action)
    requires Enabled(s, a) && !a.HostSetup?
    ensures Left(Apply(s, a)) < Left(s)
  {
    match a {
      case RunSetup(i, env) => RunSetupLeft(s, i, env);
      case GadgetDone(i, status, actual) => GadgetDoneLeft(s, i, status, actual);
      case GadgetWork(i, send) => GadgetWorkLeft(s, i, send);
      case ToDriver(i, env) => ToDriverLeft(s, i, env);
      case UrbDone(i, status) => UrbDoneLeft(s, i, status);
      case DriverWork(i, env) => DriverWorkLeft(s, i, env);
      case ToGadget(i, env) => ToGadgetLeft(s, i, env);
      case _ =>
    }
  }

  /** So without new setups no run is longer than `Left`. */
  lemma {:induction false} RunsAreShort(s: System, acts: seq<Action>)
    requires Runs(s, acts) && forall i | 0 <= i < |acts| :: !acts[i].HostSetup?
    ensures |acts| + Left(Exec(s, acts)) <= Left(s)
    decreases |acts|
  {
    if acts != [] {
      StepLeft(s, acts[0]);
      hide Apply, Enabled, Left;
      RunsAreShort(Apply(s, acts[0]), acts[1..]);
    }
  }

  // ---------------------------------------------------------------- the theorems

  /**
   * In every run no setup is forwarded twice, taken twice or ended twice, and every message and
   * buffer is exact, whatever failed.
   */
  lemma AtMostOnceAndExact(acts: seq<Action>, k: nat)
    requires Runs(START, acts)
    ensures var r := Exec(START, acts);
            && Times(r.ended, k) <= Times(r.taken, k) <= Times(r.forwarded, k) <= One(k < |r.host|)
            && (forall t | t in r.forwarded :: ExactPacket(r.host, t))
            && (forall t | t in r.taken :: ExactTaken(r.host, t))
            && (forall t | t in r.ended :: ExactEnd(r.host, t))
  {
    RunKeeps(START, acts, k);
  }

  /** Nothing failed on the way, and no request was left behind on the driver. */
  predicate NoFailures(s: System)
  {
    s.unsent == [] && s.untaken == [] && s.unanswered == [] && forall t | t in s.drv :: !t.it.kept
  }

  /**
   * Exactly once: a run without failures can only stop when every host setup has been forwarded
   * once, taken by the driver once, and brought to one end.
   */
  lemma ExactlyOnce(acts: seq<Action>, k: nat)
    requires Runs(START, acts)
    ensures var r := Exec(START, acts);
            && (Idle(r) || exists a :: Enabled(r, a) && !a.HostSetup?)
            && (Idle(r) && NoFailures(r) && k < |r.host| ==>
                  Times(r.forwarded, k) == 1 && Times(r.taken, k) == 1 && Times(r.ended, k) == 1)
  {
    RunKeeps(START, acts, k);
    var r := Exec(START, acts);
    hide Exec, Runs, Exact, Enabled;
    if !Idle(r) {
      var a := NeverStuck(r);
    }
  }

  /**
   * The driver asks the controller to transfer wLength bytes of an OUT message; in every run, its
   * buffer has them exactly when the host's data stage was full.
   */
  lemma BufferHoldsLength(acts: seq<Action>, i: nat)
    requires Runs(START, acts) && i < |Exec(START, acts).drv|
    ensures HoldsExactlyFull(Exec(START, acts).host, Exec(START, acts).drv[i])
  {
    StartSound(0);
    hide *;
    RunKeeps(START, acts, 0);
    UrbRoom(Exec(START, acts), i);
  }

  predicate HoldsExactlyFull(host: seq<Transfer>, t: Tagged<D.Urb>)
  {
    && t.origin < |host| && |host[t.origin].setup| == SETUP
    && t.it.length == host[t.origin].setup[6] as int + 256 * host[t.origin].setup[7] as int
    && (SETUP + t.it.length <= |t.it.image| <==> t.it.dir == In || |host[t.origin].stage| == t.it.length)
  }

  lemma StartSound(k: nat)
    ensures Exact(START) && Ledger(START, k)
  {
  }

  lemma UrbRoom(s: System, i: nat)
    requires Exact(s) && i < |s.drv|
    ensures HoldsExactlyFull(s.host, s.drv[i])
  {
    assert ExactUrb(s.host, s.drv[i]) && Legal(s.host[s.drv[i].origin]);
  }

  /** An OUT transfer of eight bytes for which the host sends two. */
  const SHORT := Transfer([33, 9, 0, 2, 0, 0, 8, 0], [1, 2], [])

  const SMOOTH := ControlEnv(true, true, true, true, (i: nat) => 0)

  /** A run in which the buffer lacks bytes the URB asks for. */
  lemma ShortStageIsReached() returns (acts: seq<Action>)
    ensures Runs(START, acts)
    ensures var d := Exec(START, acts).drv; |d| == 1 && SETUP + d[0].it.length > |d[0].it.image|
  {
    var s1, s2 := ShortAsked();
    var s3, s4 := ShortForwarded(s2);
    ShortTaken(s4);
    hide *;
    var s5 := Apply(s4, ToDriver(0, SMOOTH));
    RunsNothing(s5);
    RunsStep(s4, ToDriver(0, SMOOTH), []);
    RunsStep(s3, GadgetWork(0, true), [ToDriver(0, SMOOTH)] + []);
    RunsStep(s2, GadgetDone(0, 0, 0), [GadgetWork(0, true)] + ([ToDriver(0, SMOOTH)] + []));
    RunsStep(s1, RunSetup(0, SMOOTH), [GadgetDone(0, 0, 0)] + ([GadgetWork(0, true)] + ([ToDriver(0, SMOOTH)] + [])));
    acts := [RunSetup(0, SMOOTH)] + ([GadgetDone(0, 0, 0)] + ([GadgetWork(0, true)] + ([ToDriver(0, SMOOTH)] + [])));
    RunsStep(START, HostSetup(SHORT), acts);
    acts := [HostSetup(SHORT)] + acts;
  }

  lemma RunsNothing(s: System)
    ensures Runs(s, []) && Exec(s, []) == s
  {
  }

  lemma RunsStep(s: System, a: Action, rest: seq<Action>)
    requires Enabled(s, a) && Runs(Apply(s, a), rest)
    ensures Runs(s, [a] + rest) && Exec(s, [a] + rest) == Exec(Apply(s, a), rest)
  {
    assert ([a] + rest)[1..] == rest;
    hide Enabled, Apply;
  }

  lemma ShortAsked() returns (s1: System, s: System)
    ensures Enabled(START, HostSetup(SHORT)) && s1 == Apply(START, HostSetup(SHORT))
    ensures Enabled(s1, RunSetup(0, SMOOTH)) && s == Apply(s1, RunSetup(0, SMOOTH))
    ensures s.host == [SHORT] && s.gad.reqs == [Tagged(0, G.Fill(Out, SHORT.setup, SMOOTH.room))] && s.up == []
    ensures s.drv == []
  {
    s1 := Apply(START, HostSetup(SHORT));
    s := Apply(s1, RunSetup(0, SMOOTH));
  }

  lemma ShortForwarded(s: System) returns (s1: System, r: System)
    requires s.host == [SHORT] && s.gad.reqs == [Tagged(0, G.Fill(Out, SHORT.setup, SMOOTH.room))] && s.up == []
    requires s.drv == []
    ensures Enabled(s, GadgetDone(0, 0, 0)) && s1 == Apply(s, GadgetDone(0, 0, 0))
    ensures Enabled(s1, GadgetWork(0, true)) && r == Apply(s1, GadgetWork(0, true))
    ensures r.up == [Tagged(0, Packet(Out, SHORT.setup + [1, 2]))] && r.drv == []
  {
    s1 := Apply(s, GadgetDone(0, 0, 0));
    r := Apply(s1, GadgetWork(0, true));
  }

  lemma ShortTaken(s: System)
    requires s.up == [Tagged(0, Packet(Out, SHORT.setup + [1, 2]))] && s.drv == []
    ensures Enabled(s, ToDriver(0, SMOOTH))
    ensures var d := Apply(s, ToDriver(0, SMOOTH)).drv; |d| == 1 && SETUP + d[0].it.length > |d[0].it.image|
  {
  }
}
