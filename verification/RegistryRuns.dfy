/**
 * Endpoint zero together with the two registries its transfers change: which SET_INTERFACE
 * requests both ends carry out, and when the registries mirror each other while some are under way.
 */
module RegistryRuns {
  import opened Bytes
  import opened Descriptors
  import opened ControlTransfer
  import opened Control
  import opened Registry
  import opened Mirror
  import Invariance = RegistryInvariant

  /** Both ends; `onGadget` names, as history, the transfers whose SET_INTERFACE succeeded on the gadget. */
  datatype Whole = Whole(s: System, g: Gadget, d: Driver, onGadget: seq<nat>)

  /** A SET_INTERFACE without a data stage. */
  predicate Selects(dir: Dir, b: Body)
  {
    SetsInterface(b) && !AwaitsData(dir, b)
  }

  predicate Pending(t: Tagged<Packet>)
  {
    Selects(t.it.dir, t.it.body)
  }

  predicate Configures(r: Reply)
  {
    r.Answer? && GetsConfiguration(r.body) && Length(r.body) > 9
  }

  predicate Completes(u: D.Urb)
  {
    u.dir == Out && u.status == Some(0) && SetsConfiguration(u.image[..SETUP])
  }

  /** The kernel knows the interface; set_driver_interface takes that for granted. */
  predicate Known(config: Config, n: nat)
  {
    (forall k | 0 <= k < |config| :: config[k] != []) && FindInterface(config, n).Some?
  }

  // What each handler does to its end's registry, and the outcome it leaves for the step.

  /** handle_setup runs set_interface, but only on the branch without a data stage. */
  function OnSetup(g: Gadget, b: Body, env: ControlEnv, o: Outcomes): (Gadget, bool)
  {
    if env.memory && Selects(Direction(b), b) then SetInterface(g, Index(b), Value(b), o) else (g, env.selected)
  }

  /** ep_gadget_recv_userland_ctrl */
  function OnReply(g: Gadget, r: Reply, env: ControlEnv, o: AllOutcomes): (Gadget, bool)
  {
    if Configures(r) then ConfigReply(g, o) else (g, env.selected)
  }

  /** ep_driver_recv_userland_ctrl runs set_driver_interface, whether or not there is a data stage. */
  function OnPacket(d: Driver, config: Config, b: Body, env: ControlEnv, transfer: bool, o: Outcomes)
    : (r: (Driver, bool))
    requires CurrentOk(config, d.cur) && (env.memory && SetsInterface(b) ==> Known(config, Index(b)))
    ensures CurrentOk(config, r.0.cur)
  {
    if env.memory && SetsInterface(b) then
      SetDriverInterface(d, config, FindInterface(config, Index(b)).value, Value(b), transfer, o)
    else (d, env.selected)
  }

  /** ep_driver_recv_usb_ctrl */
  function OnCompletion(d: Driver, config: Config, u: D.Urb, o: AllOutcomes): (r: (Driver, bool))
    requires CurrentOk(config, d.cur)
    ensures r.0.cur == d.cur
  {
    if Completes(u) then ConfigureDriver(d, config, o) else (d, true)
  }

  /**
   * When a registry changes: the gadget's on a SET_INTERFACE that is IN or without wLength, and on
   * the answer to a configuration read of more than nine bytes; the driver's on every SET_INTERFACE
   * and on a completed OUT SET_CONFIGURATION. wIndex is the interface, wValue the alternate.
   */
  lemma ChangesExactly(w: Whole, config: Config, b: Body, r: Reply, u: D.Urb, env: ControlEnv, transfer: bool,
                       o: Outcomes, all: AllOutcomes)
    requires CurrentOk(config, w.d.cur) && (env.memory && SetsInterface(b) ==> Known(config, Index(b)))
    ensures OnSetup(w.g, b, env, o) ==
              if env.memory && SetsInterface(b) && (Direction(b) == In || Length(b) == 0)
              then SetInterface(w.g, Index(b), Value(b), o) else (w.g, env.selected)
    ensures OnReply(w.g, r, env, all) ==
              if r.Answer? && GetsConfiguration(r.body) && Length(r.body) > 9
              then ConfigReply(w.g, all) else (w.g, env.selected)
    ensures OnPacket(w.d, config, b, env, transfer, o) ==
              if env.memory && SetsInterface(b)
              then SetDriverInterface(w.d, config, FindInterface(config, Index(b)).value, Value(b), transfer, o)
              else (w.d, env.selected)
    ensures OnCompletion(w.d, config, u, all) ==
              if u.dir == Out && u.status == Some(0) && SetsConfiguration(u.image[..SETUP])
              then ConfigureDriver(w.d, config, all) else (w.d, true)
  {
    hide SetInterface, ConfigReply, SetDriverInterface, ConfigureDriver, FindInterface, StandardRequest;
  }

  // --------------------------------------------------------------------- steps

  datatype Step =
    | Plain(a: Action)
    | HandleSetup(i: nat, env: ControlEnv, o: Outcomes)
    | HandlePacket(i: nat, env: ControlEnv, transfer: bool, o: Outcomes)
    | HandleReply(i: nat, env: ControlEnv, all: AllOutcomes)
    | HandleCompletion(i: nat, env: ControlEnv, all: AllOutcomes)

  /** The steps that leave both registries alone. */
  predicate Plainly(a: Action)
  {
    a.HostSetup? || a.GadgetDone? || a.GadgetWork? || a.LoseUp? || a.UrbDone? || a.LoseBack?
  }

  /** A step can be taken; a SET_INTERFACE for an unknown interface has no step on the driver. */
  predicate Possible(w: Whole, config: Config, step: Step)
    requires CurrentOk(config, w.d.cur)
  {
    match step
    case Plain(a) => Plainly(a) && Enabled(w.s, a)
    case HandleSetup(i, _, _) => i < |w.s.gad.setups|
    case HandlePacket(i, env, _, _) =>
      i < |w.s.up| && (env.memory && SetsInterface(w.s.up[i].it.body) ==> Known(config, Index(w.s.up[i].it.body)))
    case HandleReply(i, _, _) => i < |w.s.back|
    case HandleCompletion(i, _, _) => D.Done(w.s.drv, i)
  }

  function AfterSetup(w: Whole, i: nat, env: ControlEnv, o: Outcomes): Whole
    requires i < |w.s.gad.setups|
  {
    var t := w.s.gad.setups[i];
    var (g, ok) := OnSetup(w.g, t.it, env, o);
    Whole(AfterRunSetup(w.s, i, env.(selected := ok)), g, w.d,
          Mark(w.onGadget, env.memory && Selects(Direction(t.it), t.it) && ok, t.origin))
  }

  function AfterPacket(w: Whole, config: Config, i: nat, env: ControlEnv, transfer: bool, o: Outcomes): Whole
    requires CurrentOk(config, w.d.cur) && Possible(w, config, HandlePacket(i, env, transfer, o))
  {
    var (d, ok) := OnPacket(w.d, config, w.s.up[i].it.body, env, transfer, o);
    w.(s := AfterToDriver(w.s, i, env.(selected := ok)), d := d)
  }

  function AfterReply(w: Whole, i: nat, env: ControlEnv, o: AllOutcomes): Whole
    requires i < |w.s.back|
  {
    var (g, ok) := OnReply(w.g, w.s.back[i].it, env, o);
    w.(s := AfterToGadget(w.s, i, env.(selected := ok)), g := g)
  }

  function AfterCompletion(w: Whole, config: Config, i: nat, env: ControlEnv, o: AllOutcomes): Whole
    requires CurrentOk(config, w.d.cur) && D.Done(w.s.drv, i)
  {
    w.(s := AfterDriverWork(w.s, i, env), d := OnCompletion(w.d, config, w.s.drv[i].it, o).0)
  }

  function Next(w: Whole, config: Config, step: Step): (r: Whole)
    requires CurrentOk(config, w.d.cur) && Possible(w, config, step)
    ensures CurrentOk(config, r.d.cur)
  {
    match step
    case Plain(a) => w.(s := Apply(w.s, a))
    case HandleSetup(i, env, o) => AfterSetup(w, i, env, o)
    case HandlePacket(i, env, transfer, o) => AfterPacket(w, config, i, env, transfer, o)
    case HandleReply(i, env, o) => AfterReply(w, i, env, o)
    case HandleCompletion(i, env, o) => AfterCompletion(w, config, i, env, o)
  }

  predicate Walks(w: Whole, config: Config, steps: seq<Step>)
    requires CurrentOk(config, w.d.cur)
    decreases |steps|
  {
    steps == [] || (Possible(w, config, steps[0]) && Walks(Next(w, config, steps[0]), config, steps[1..]))
  }

  function Walk(w: Whole, config: Config, steps: seq<Step>): (r: Whole)
    requires CurrentOk(config, w.d.cur) && Walks(w, config, steps)
    ensures CurrentOk(config, r.d.cur)
    decreases |steps|
  {
    if steps == [] then w else Walk(Next(w, config, steps[0]), config, steps[1..])
  }

  /** Freshly bound ends over the same settings. */
  function Fresh(config: Config, cur: seq<nat>): Whole
  {
    Whole(START, Invariance.Bound(Concat(config)), Driver([EP0_OUT, EP0_IN], cur), [])
  }

  // ------------------------------------------------- what is selected on both ends

  /** A SET_INTERFACE on its way that has no data stage was carried out on the gadget and names a known interface. */
  ghost predicate Followed(w: Whole, config: Config)
  {
    forall t | t in w.s.up && Pending(t) :: t.origin in w.onGadget && Known(config, Index(t.it.body))
  }

  /** The gadget carries out no other SET_INTERFACE. */
  ghost predicate Unstaged(w: Whole)
  {
    forall k | k in w.onGadget ::
      k < |w.s.host| && |w.s.host[k].setup| == SETUP && Selects(Direction(w.s.host[k].setup), w.s.host[k].setup)
  }

  /** A SET_INTERFACE the driver carried out was carried out on the gadget exactly when it has no data stage. */
  ghost predicate BothExactly(s: System, onGadget: seq<nat>)
  {
    forall t | t in s.taken && t.it.Interface? ::
      && t.origin < |s.host| && |s.host[t.origin].setup| == SETUP
      && (t.origin in onGadget <==> !AwaitsData(Direction(s.host[t.origin].setup), s.host[t.origin].setup))
  }

  ghost predicate Sound(w: Whole, config: Config)
  {
    && ConfigOk(config) && CurrentOk(config, w.d.cur) && Alts(w.g.entries) == Concat(config)
    && SystemInvariant(w.s) && Followed(w, config) && Unstaged(w) && BothExactly(w.s, w.onGadget)
  }

  /** A selection that succeeds on the gadget names an interface of the configuration. */
  lemma SelectedIsKnown(g: Gadget, config: Config, n: nat, a: nat, o: Outcomes)
    requires ConfigOk(config) && Alts(g.entries) == Concat(config) && SetInterface(g, n, a, o).1
    ensures Known(config, n)
  {
    var t := Target(g.entries, n, a, |g.entries|).value;
    assert Alts(g.entries)[t] == g.entries[t].alt;
    var i, j := Unflat(config, t);
    assert config[i][0].number == n;
  }

  lemma SetInterfaceAlts(g: Gadget, n: nat, a: nat, o: Outcomes)
    ensures Alts(SetInterface(g, n, a, o).0.entries) == Alts(g.entries)
  {
    hide Enable;
    Invariance.SameAlts(g.entries, SetInterface(g, n, a, o).0.entries);
  }

  lemma {:induction false} EnableDefaultShape(g: Gadget, k: nat, o: AllOutcomes)
    requires k <= |g.entries|
    ensures SameShape(g.entries, EnableDefault(g, k, o).0.entries)
    decreases |g.entries| - k
  {
    hide Enable;
    if k < |g.entries| {
      EnableDefaultShape(g, k + 1, o);
      EnableDefaultShape(EnableEntry(g, k, OutcomesAt(o, k)).0, k + 1, o);
    }
  }

  lemma ConfigReplyAlts(g: Gadget, o: AllOutcomes)
    ensures Alts(ConfigReply(g, o).0.entries) == Alts(g.entries)
  {
    EnableDefaultShape(DisableActive(g, |g.entries|), 0, o);
    Invariance.SameAlts(g.entries, ConfigReply(g, o).0.entries);
  }

  /** wLength, and the rest of the setup, are those of the message. */
  lemma SetupDecides(setup: Body, stage: seq<byte>)
    requires |setup| == SETUP
    ensures var b: Body := setup + stage;
            && Direction(b) == Direction(setup) && Length(b) == Length(setup) &&
                 SetsInterface(b) == SetsInterface(setup)
            && Index(b) == Index(setup) && Value(b) == Value(setup)
  {
  }

  lemma SetupSound(w: Whole, config: Config, i: nat, env: ControlEnv, o: Outcomes)
    requires Sound(w, config) && i < |w.s.gad.setups|
    ensures Sound(AfterSetup(w, i, env, o), config)
  {
    hide SystemInvariant, ConfigOk, OnSetup, Selects, StandardRequest, Known, AfterRunSetup, Followed, Unstaged;
    hide BothExactly, Mark;
    var (g, ok) := OnSetup(w.g, w.s.gad.setups[i].it, env, o);
    var used := env.(selected := ok);
    StepKeepsInvariant(w.s, RunSetup(i, used));
    SetupSelects(w, config, i, env, o);
    SetupFollows(w, config, i, used, g);
  }

  lemma SetupFollows(w: Whole, config: Config, i: nat, env: ControlEnv, g: Gadget)
    requires Sound(w, config) && i < |w.s.gad.setups|
    requires var b := w.s.gad.setups[i].it;
             env.memory && Selects(Direction(b), b) && env.selected ==> Known(config, Index(b))
    ensures var t := w.s.gad.setups[i];
            var onGadget := Mark(w.onGadget, env.memory && Selects(Direction(t.it), t.it) && env.selected, t.origin);
            var r := Whole(AfterRunSetup(w.s, i, env), g, w.d, onGadget);
            Followed(r, config) && Unstaged(r) && BothExactly(r.s, r.onGadget)
  {
    ExactWaiting(w.s, i);
    hide SystemInvariant, ConfigOk, Selects, AwaitsData, StandardRequest, Known, G.HandleSetup, G.SetupFails;
    SentFollows(w.s.gad, i, env);
  }

  lemma SetupSelects(w: Whole, config: Config, i: nat, env: ControlEnv, o: Outcomes)
    requires ConfigOk(config) && Alts(w.g.entries) == Concat(config) && i < |w.s.gad.setups|
    ensures var b := w.s.gad.setups[i].it;
            var (g, ok) := OnSetup(w.g, b, env, o);
            && Alts(g.entries) == Concat(config)
            && (env.memory && Selects(Direction(b), b) && ok ==> Known(config, Index(b)))
  {
    var b := w.s.gad.setups[i].it;
    if env.memory && Selects(Direction(b), b) {
      SetInterfaceAlts(w.g, Index(b), Value(b), o);
      if SetInterface(w.g, Index(b), Value(b), o).1 {
        SelectedIsKnown(w.g, config, Index(b), Value(b), o);
      }
    }
  }

  /** A forwarded setup has no data stage, and if it is a SET_INTERFACE the gadget carried it out. */
  lemma SentFollows(g: G.Gadget, i: nat, env: ControlEnv)
    requires i < |g.setups|
    ensures var t := g.setups[i];
            var sent := G.HandleSetup(g, i, env).1;
            sent.Some? ==>
              && sent.value == Tagged(t.origin, Packet(Direction(t.it), t.it))
              && (Pending(sent.value) ==> env.memory && env.selected && Selects(Direction(t.it), t.it))
  {
    hide G.Send;
  }

  lemma PacketSound(w: Whole, config: Config, i: nat, env: ControlEnv, transfer: bool, o: Outcomes)
    requires Sound(w, config) && Possible(w, config, HandlePacket(i, env, transfer, o))
    ensures Sound(AfterPacket(w, config, i, env, transfer, o), config)
  {
    hide SystemInvariant, ConfigOk, OnPacket, Known, AfterToDriver, Followed, Unstaged, BothExactly;
    var (d, ok) := OnPacket(w.d, config, w.s.up[i].it.body, env, transfer, o);
    var used := env.(selected := ok);
    StepKeepsInvariant(w.s, ToDriver(i, used));
    PacketFollows(w, config, i, used, d);
  }

  lemma PacketFollows(w: Whole, config: Config, i: nat, env: ControlEnv, d: Driver)
    requires Sound(w, config) && i < |w.s.up|
    ensures var r := w.(s := AfterToDriver(w.s, i, env), d := d);
            Followed(r, config) && Unstaged(r) && BothExactly(r.s, r.onGadget)
  {
    hide SystemInvariant, ConfigOk, Known, AfterToDriver, Pending, AwaitsData, StandardRequest;
    TakenFollows(w, config, i, env);
    PacketMoves(w.s, i, env);
  }

  lemma ExactInTransit(s: System, i: nat)
    requires SystemInvariant(s) && i < |s.up|
    ensures ExactPacket(s.host, s.up[i]) && s.up[i].origin < |s.host| && Legal(s.host[s.up[i].origin])
    ensures |s.host[s.up[i].origin].setup| == SETUP
  {
    assert ExactPacket(s.host, s.up[i]) && Legal(s.host[s.up[i].origin]);
  }

  lemma ExactWaiting(s: System, i: nat)
    requires SystemInvariant(s) && i < |s.gad.setups|
    ensures s.gad.setups[i].origin < |s.host| && s.gad.setups[i].it == s.host[s.gad.setups[i].origin].setup
    ensures |s.gad.setups[i].it| == SETUP
  {
    assert ExactSetup(s.host, s.gad.setups[i]) && Legal(s.host[s.gad.setups[i].origin]);
  }

  /** The message leaves the channel, and nothing else but the message counts as taken. */
  lemma PacketMoves(s: System, i: nat, env: ControlEnv)
    requires i < |s.up|
    ensures var r := AfterToDriver(s, i, env);
            && r.host == s.host && r.up == Drop(s.up, i)
            && (forall t | t in r.up :: t in s.up)
            && (forall t | t in r.taken ::
                 t in s.taken || t == Tagged(s.up[i].origin, D.Receive(s.drv, s.up[i], env).1))
  {
    hide D.Receive;
  }

  lemma TakenFollows(w: Whole, config: Config, i: nat, env: ControlEnv)
    requires Sound(w, config) && i < |w.s.up|
    ensures var t := w.s.up[i];
            && t.origin < |w.s.host| && |w.s.host[t.origin].setup| == SETUP
            && (D.Receive(w.s.drv, t, env).1.Interface? ==>
                  var setup := w.s.host[t.origin].setup;
                  t.origin in w.onGadget <==> !AwaitsData(Direction(setup), setup))
  {
    var t := w.s.up[i];
    ExactInTransit(w.s, i);
    hide SystemInvariant, ConfigOk, D.Fill, StandardRequest, Known;
    var x := w.s.host[t.origin];
    SetupDecides(x.setup, x.stage);
    assert Pending(t) ==> t.origin in w.onGadget;
  }

  lemma ReplySound(w: Whole, config: Config, i: nat, env: ControlEnv, o: AllOutcomes)
    requires Sound(w, config) && i < |w.s.back|
    ensures Sound(AfterReply(w, i, env, o), config)
  {
    var (g, ok) := OnReply(w.g, w.s.back[i].it, env, o);
    StepKeepsInvariant(w.s, ToGadget(i, env.(selected := ok)));
    ConfigReplyAlts(w.g, o);
    hide SystemInvariant, ConfigOk, ConfigReply, Known, Pending, G.Receive;
  }

  lemma CompletionSound(w: Whole, config: Config, i: nat, env: ControlEnv, o: AllOutcomes)
    requires Sound(w, config) && D.Done(w.s.drv, i)
    ensures Sound(AfterCompletion(w, config, i, env, o), config)
  {
    StepKeepsInvariant(w.s, DriverWork(i, env));
    hide SystemInvariant, ConfigOk, ConfigureDriver, Known, Pending, D.Work, Completes;
  }

  lemma PlainSound(w: Whole, config: Config, a: Action)
    requires Sound(w, config) && Plainly(a) && Enabled(w.s, a)
    ensures Sound(w.(s := Apply(w.s, a)), config)
  {
    hide SystemInvariant, ConfigOk, Known, Pending, Selects, G.Work, G.Complete, D.Complete, HostBytes, DeviceBytes;
    hide Legal;
    StepKeepsInvariant(w.s, a);
    if a.GadgetWork? {
      StageIsNotPending(w.s, a.i, a.send);
    }
  }

  /** What a work item of the gadget sends has a data stage. */
  lemma StageIsNotPending(s: System, i: nat, send: bool)
    requires G.Done(s.gad, i)
    ensures var sent := G.Work(s.gad, i, send).1; sent.Some? ==> !Pending(sent.value)
  {
    var r := s.gad.reqs[i].it;
    SameLength(r.image[..SETUP + r.actual], r.image[..SETUP]);
  }

  lemma StepSound(w: Whole, config: Config, step: Step)
    requires Sound(w, config) && Possible(w, config, step)
    ensures Sound(Next(w, config, step), config)
  {
    hide Sound, AfterSetup, AfterPacket, AfterReply, AfterCompletion, Apply;
    match step {
      case Plain(a) => PlainSound(w, config, a);
      case HandleSetup(i, env, o) => SetupSound(w, config, i, env, o);
      case HandlePacket(i, env, transfer, o) => PacketSound(w, config, i, env, transfer, o);
      case HandleReply(i, env, o) => ReplySound(w, config, i, env, o);
      case HandleCompletion(i, env, o) => CompletionSound(w, config, i, env, o);
    }
  }

  lemma {:induction false} WalkSound(w: Whole, config: Config, steps: seq<Step>)
    requires Sound(w, config) && Walks(w, config, steps)
    ensures Sound(Walk(w, config, steps), config)
    decreases |steps|
  {
    if steps != [] {
      StepSound(w, config, steps[0]);
      hide Sound, Next, Possible;
      WalkSound(Next(w, config, steps[0]), config, steps[1..]);
    }
  }

  lemma FreshSound(config: Config, cur: seq<nat>)
    requires ConfigOk(config) && CurrentOk(config, cur)
    ensures Sound(Fresh(config, cur), config)
  {
    StartInvariant();
    BoundElements(Concat(config));
  }

  /**
   * In every run from bound ends, whatever fails, is lost or reordered: a SET_INTERFACE delivered
   * to the driver and carried out there was carried out on the gadget exactly when it has no data
   * stage, and a SET_INTERFACE in transit that has none names an interface the kernel knows.
   */
  lemma SelectedOnBothExactly(config: Config, cur: seq<nat>, steps: seq<Step>)
    requires ConfigOk(config) && CurrentOk(config, cur) && Walks(Fresh(config, cur), config, steps)
    ensures var w := Walk(Fresh(config, cur), config, steps);
            && BothExactly(w.s, w.onGadget)
            && (forall t | t in w.s.up && Pending(t) :: Known(config, Index(t.it.body)))
  {
    FreshSound(config, cur);
    WalkSound(Fresh(config, cur), config, steps);
  }

  // ------------------------------------------------------ the gadget's registry in every run

  /** Whatever the gadget selects along the run passes the caller's check. */
  ghost predicate Careful(w: Whole, config: Config, steps: seq<Step>)
    requires CurrentOk(config, w.d.cur) && Walks(w, config, steps)
    decreases |steps|
  {
    steps == [] ||
    ((steps[0].HandleSetup? ==> Selectably(w.g, w.s.gad.setups[steps[0].i].it, steps[0].env)) &&
     Careful(Next(w, config, steps[0]), config, steps[1..]))
  }

  ghost predicate Selectably(g: Gadget, b: Body, env: ControlEnv)
  {
    env.memory && Selects(Direction(b), b) ==> Selectable(g, Index(b), Value(b))
  }

  /** The gadget's registry invariant survives every run, whatever fails on either end. */
  lemma {:induction false} WalkKeepsRegistry(w: Whole, config: Config, steps: seq<Step>)
    requires CurrentOk(config, w.d.cur) && Walks(w, config, steps) && Careful(w, config, steps)
    requires Registry.Invariant(w.g)
    ensures Registry.Invariant(Walk(w, config, steps).g)
    decreases |steps|
  {
    if steps != [] {
      StepKeepsRegistry(w, config, steps[0]);
      hide Registry.Invariant, Next, Possible, Selectably;
      WalkKeepsRegistry(Next(w, config, steps[0]), config, steps[1..]);
    }
  }

  lemma StepKeepsRegistry(w: Whole, config: Config, step: Step)
    requires CurrentOk(config, w.d.cur) && Possible(w, config, step) && Registry.Invariant(w.g)
    requires step.HandleSetup? ==> Selectably(w.g, w.s.gad.setups[step.i].it, step.env)
    ensures Registry.Invariant(Next(w, config, step).g)
  {
    hide Registry.Invariant, ConfigReply, SetInterface, Selectable, CurrentOk, Apply, Selects;
    match step {
      case HandleSetup(i, env, o) =>
        var b := w.s.gad.setups[i].it;
        if env.memory && Selects(Direction(b), b) {
          Invariance.SetInterfaceKeepsInvariant(w.g, Index(b), Value(b), o);
        }
      case HandleReply(i, env, o) =>
        Invariance.ConfigReplyFacts(w.g, o);
      case _ =>
    }
  }
}
