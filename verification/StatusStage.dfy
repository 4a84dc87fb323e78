/**
 * The status stage of OUT transfers without data: the gadget hands the host's controller one empty
 * request for each setup it forwards, and for nothing else.
 */
module StatusStage {
  import opened Bytes
  import opened Descriptors
  import opened ControlTransfer
  import opened Sums
  import opened Control

  /** An OUT setup without a data stage. */
  predicate NoStage(setup: seq<byte>)
  {
    |setup| == SETUP && setup[0] < 128 && setup[6] == 0 && setup[7] == 0
  }

  /** The gadget forwards the setup. */
  predicate Forwards(b: Body, env: ControlEnv)
  {
    env.memory && env.send && (SetsInterface(b) ==> env.selected)
  }

  /**
   * handle_setup, by the bytes of the setup: what is forwarded, and the one request that is queued,
   * for the data stage or for the status stage of a setup without one. An IN setup queues none.
   */
  lemma SetupQueues(g: G.Gadget, i: nat, env: ControlEnv)
    requires i < |g.setups| && |g.setups[i].it| == SETUP
    ensures var t, (r, sent) := g.setups[i], G.HandleSetup(g, i, env);
            var b, stage := t.it, t.it[6] as int + 256 * t.it[7] as int;
            && r.setups == g.setups[..i] + g.setups[i + 1..]
            && (sent.Some? <==> Forwards(b, env) && (b[0] < 128 ==> stage == 0))
            && (sent.Some? ==> sent.value == Tagged(t.origin, Packet(if b[0] < 128 then Out else In, b)))
            && if b[0] < 128 && env.memory && env.submit && (stage == 0 ==> Forwards(b, env)) then
                 && |r.reqs| == |g.reqs| + 1 && r.reqs[1..] == g.reqs && r.reqs[0].origin == t.origin
                 && var x := r.reqs[0].it; x.dir == Out && !x.done && x.length == stage && x.image[..SETUP] == b
               else r.reqs == g.reqs
  {
    hide StandardRequest;
    var t := g.setups[i];
    assert t.it[..SETUP] == t.it;
  }

  // ----------------------------------------------------------------- the ledger of requests

  /** A request that only closes a transfer: OUT and empty. */
  function ClosesHere(k: nat): Tagged<G.Request> -> nat
  {
    (t: Tagged<G.Request>) => One(t.origin == k && t.it.dir == Out && t.it.length == 0)
  }

  function Closings(reqs: seq<Tagged<G.Request>>, k: nat): nat
  {
    Sum(reqs, ClosesHere(k))
  }

  /** Closing requests of one transfer: handed to the controller, refused by it, and worked off or aborted. */
  datatype Tally = Tally(handed: nat, refused: nat, freed: nat)

  function Plus(a: Tally, b: Tally): Tally
  {
    Tally(a.handed + b.handed, a.refused + b.refused, a.freed + b.freed)
  }

  function StepTally(s: System, a: Action, k: nat): Tally
    requires Enabled(s, a)
  {
    match a
    case RunSetup(i, env) =>
      var t := s.gad.setups[i];
      var here := t.origin == k && NoStage(t.it) && Forwards(t.it, env);
      Tally(One(here && env.submit), One(here && !env.submit), 0)
    case GadgetDone(i, status, _) => Tally(0, 0, if status < 0 then ClosesHere(k)(s.gad.reqs[i]) else 0)
    case GadgetWork(i, _) => Tally(0, 0, ClosesHere(k)(s.gad.reqs[i]))
    case _ => Tally(0, 0, 0)
  }

  function RunTally(s: System, acts: seq<Action>, k: nat): Tally
    requires Runs(s, acts)
    decreases |acts|
  {
    if acts == [] then Tally(0, 0, 0) else Plus(StepTally(s, acts[0], k), RunTally(Apply(s, acts[0]), acts[1..], k))
  }

  /** How often the transfer was forwarded, if it is one that the gadget closes. */
  function ToClose(s: System, k: nat): nat
  {
    if k < |s.host| && NoStage(s.host[k].setup) then Times(s.forwarded, k) else 0
  }

  /** Every forwarded transfer without a data stage has its closing request at one place, and no other has any. */
  predicate Closed(s: System, t: Tally, k: nat)
  {
    && Closings(s.gad.reqs, k) + t.freed == t.handed
    && t.handed + t.refused == ToClose(s, k)
  }

  lemma SetupCloses(s: System, i: nat, env: ControlEnv, t: Tally, k: nat)
    requires Exact(s) && Closed(s, t, k) && i < |s.gad.setups|
    ensures Closed(AfterRunSetup(s, i, env), Plus(t, StepTally(s, RunSetup(i, env), k)), k)
  {
    var x := s.gad.setups[i];
    assert ExactSetup(s.host, x) && Legal(s.host[x.origin]);
    hide Exact, Sum, G.HandleSetup, G.SetupFails, Mark, StandardRequest;
    SetupQueues(s.gad, i, env);
    var r, sent := G.HandleSetup(s.gad, i, env).0, G.HandleSetup(s.gad, i, env).1;
    SumAdd(s.forwarded, sent, Here(k));
    if r.reqs != s.gad.reqs {
      assert r.reqs == [r.reqs[0]] + s.gad.reqs;
      SumFront(r.reqs[0], s.gad.reqs, ClosesHere(k));
    }
  }

  lemma DoneCloses(s: System, i: nat, status: int, actual: nat, t: Tally, k: nat)
    requires Closed(s, t, k) && HostMayComplete(s, i, actual)
    ensures Closed(AfterGadgetDone(s, i, status, actual), Plus(t, StepTally(s, GadgetDone(i, status, actual), k)), k)
  {
    if status < 0 {
      SumDrop(s.gad.reqs, i, ClosesHere(k));
    } else {
      SumReplace(s.gad.reqs, i, G.Complete(s.gad, i, status, HostBytes(s, i, actual)).reqs[i], ClosesHere(k));
    }
    hide Sum, HostBytes, Mark;
  }

  lemma WorkCloses(s: System, i: nat, send: bool, t: Tally, k: nat)
    requires Exact(s) && Closed(s, t, k) && G.Done(s.gad, i)
    ensures Closed(AfterGadgetWork(s, i, send), Plus(t, StepTally(s, GadgetWork(i, send), k)), k)
  {
    var q := s.gad.reqs[i];
    assert ExactRequest(s.host, q);
    var sent := G.Work(s.gad, i, send).1;
    SumDrop(s.gad.reqs, i, ClosesHere(k));
    SumAdd(s.forwarded, sent, Here(k));
    hide Exact, Sum, Mark;
  }

  lemma ReplyCloses(s: System, i: nat, env: ControlEnv, t: Tally, k: nat)
    requires Closed(s, t, k) && i < |s.back|
    ensures Closed(AfterToGadget(s, i, env), t, k)
  {
    var r := G.Receive(s.gad, s.back[i], env).0;
    if r.reqs != s.gad.reqs {
      SumFront(r.reqs[0], s.gad.reqs, ClosesHere(k));
    }
    hide Sum, Mark, StandardRequest;
  }

  lemma StepCloses(s: System, a: Action, t: Tally, k: nat)
    requires Exact(s) && Ledger(s, k) && Closed(s, t, k) && Enabled(s, a)
    ensures Closed(Apply(s, a), Plus(t, StepTally(s, a, k)), k)
  {
    match a {
      case RunSetup(i, env) => SetupCloses(s, i, env, t, k);
      case GadgetDone(i, status, actual) => DoneCloses(s, i, status, actual, t, k);
      case GadgetWork(i, send) => WorkCloses(s, i, send, t, k);
      case ToGadget(i, env) => ReplyCloses(s, i, env, t, k);
      case HostSetup(x) =>
      case ToDriver(i, env) =>
      case LoseUp(i) =>
      case UrbDone(i, status) =>
      case DriverWork(i, env) =>
      case LoseBack(i) =>
    }
    hide Exact, Sum, AfterRunSetup, AfterGadgetDone, AfterGadgetWork, AfterToGadget;
  }

  lemma {:induction false} RunCloses(s: System, acts: seq<Action>, t: Tally, k: nat)
    requires Exact(s) && Ledger(s, k) && Closed(s, t, k) && Runs(s, acts)
    ensures Closed(Exec(s, acts), Plus(t, RunTally(s, acts, k)), k)
    decreases |acts|
  {
    if acts != [] {
      StepCloses(s, acts[0], t, k);
      StepExact(s, acts[0]);
      StepLedger(s, acts[0], k);
      hide Exact, Ledger, Closed, Apply, Enabled, StepTally;
      RunCloses(Apply(s, acts[0]), acts[1..], Plus(t, StepTally(s, acts[0], k)), k);
    }
  }

  /**
   * In every run: a forwarded OUT transfer without data had its closing request handed to the
   * controller or refused by it, once in all; what was handed over is still listed or was freed
   * once; and no other transfer has such a request. In a run without failures or refusals that has
   * stopped, each such transfer was closed exactly once.
   */
  lemma ClosedExactlyOnce(acts: seq<Action>, k: nat)
    requires Runs(START, acts)
    ensures var r, t := Exec(START, acts), RunTally(START, acts, k);
            && Closed(r, t, k) && t.handed + t.refused <= 1
            && (Idle(r) ==> t.freed == t.handed)
            && (Idle(r) && NoFailures(r) && t.refused == 0 && k < |r.host| && NoStage(r.host[k].setup) ==>
                  t.handed == 1 && t.freed == 1)
  {
    StartSound(k);
    RunCloses(START, acts, Tally(0, 0, 0), k);
    AtMostOnceAndExact(acts, k);
    ExactlyOnce(acts, k);
  }
}
