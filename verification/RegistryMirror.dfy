/**
 * The registries while SET_INTERFACE requests are under way: the gadget is ahead of the driver by
 * exactly the requests in transit, so the two mirror each other whenever there are none.
 */
module RegistryMirror {
  import opened Bytes
  import opened Descriptors
  import opened ControlTransfer
  import opened Control
  import opened EndpointList
  import opened Registry
  import opened Mirror
  import opened RegistryRuns
  import Invariance = RegistryInvariant

  // -------------------------------------------------- the gadget's map, from the driver's

  function Selecting(m: Selection, t: Tagged<Packet>): Selection
  {
    if Pending(t) then m[Index(t.it.body) := Value(t.it.body)] else m
  }

  /** The map once everything under way has been carried out, in order. */
  function Replay(m: Selection, up: seq<Tagged<Packet>>): Selection
    decreases |up|
  {
    if up == [] then m else Replay(Selecting(m, up[0]), up[1..])
  }

  lemma {:induction false} ReplayMore(m: Selection, up: seq<Tagged<Packet>>, t: Tagged<Packet>)
    ensures Replay(m, up + [t]) == Selecting(Replay(m, up), t)
    decreases |up|
  {
    if up != [] {
      assert (up + [t])[1..] == up[1..] + [t];
      ReplayMore(Selecting(m, up[0]), up[1..], t);
    }
  }

  predicate NonePending(up: seq<Tagged<Packet>>)
  {
    forall t | t in up :: !Pending(t)
  }

  lemma {:induction false} ReplayNone(m: Selection, up: seq<Tagged<Packet>>)
    requires NonePending(up)
    ensures Replay(m, up) == m
    decreases |up|
  {
    if up != [] {
      assert up[0] in up;
      ReplayNone(m, up[1..]);
    }
  }

  /** Nothing older in transit selects on the same interface. */
  predicate NoOlder(up: seq<Tagged<Packet>>, i: nat)
    requires i < |up|
  {
    forall j | 0 <= j < i :: Pending(up[j]) && Pending(up[i]) ==> Index(up[j].it.body) != Index(up[i].it.body)
  }

  lemma SelectingCommutes(m: Selection, a: Tagged<Packet>, b: Tagged<Packet>)
    requires Pending(a) && Pending(b) ==> Index(a.it.body) != Index(b.it.body)
    ensures Selecting(Selecting(m, a), b) == Selecting(Selecting(m, b), a)
  {
  }

  /** A request may overtake those for other interfaces. */
  lemma {:induction false} ReplayEarly(m: Selection, up: seq<Tagged<Packet>>, i: nat)
    requires i < |up| && NoOlder(up, i)
    ensures Replay(Selecting(m, up[i]), Drop(up, i)) == Replay(m, up)
    decreases i
  {
    hide Selecting, Pending;
    if i == 0 {
      assert Drop(up, 0) == up[1..];
    } else {
      var rest := up[1..];
      assert forall j | 0 <= j < |rest| :: rest[j] == up[j + 1];
      ReplayEarly(Selecting(m, up[0]), rest, i - 1);
      assert Drop(up, i)[0] == up[0] && Drop(up, i)[1..] == Drop(rest, i - 1);
      SelectingCommutes(m, up[i], up[0]);
    }
  }

  // ------------------------------------------------------------------- orderly runs

  /** Which ends have been configured. */
  datatype Phase = Phase(gadget: bool, driver: bool)

  const BOUND := Phase(false, false)

  /** The map is that of the current alternates. */
  ghost predicate MapsCurrent(m: Selection, config: Config, cur: seq<nat>)
  {
    && CurrentOk(config, cur)
    && forall i | 0 <= i < |config| ::
         config[i][cur[i]].number in m && m[config[i][cur[i]].number] == config[i][cur[i]].alternate
  }

  predicate AllDefault(config: Config, cur: seq<nat>)
    requires |cur| == |config| && forall i | 0 <= i < |config| :: cur[i] < |config[i]|
  {
    forall i | 0 <= i < |config| :: config[i][cur[i]].alternate == 0
  }

  ghost predicate DriverLists(d: Driver, config: Config, m: Selection, on: bool)
  {
    MapsCurrent(m, config, d.cur) && NoDup(d.list) &&
      Elements(d.list) == EP0 + if on then SelectedIds(Concat(config), m) else {}
  }

  /** The gadget is ahead of the driver by the requests in transit. */
  ghost predicate Lagging(w: Whole, config: Config, on: Phase, m: Selection)
  {
    && Sound(w, config)
    && DriverLists(w.d, config, m, on.driver)
    && GadgetRefines(w.g, if on.gadget then Replay(m, w.s.up) else map[])
    && (!on.gadget || !on.driver ==> NonePending(w.s.up))
  }

  /**
   * Conditions a run may break: a SET_INTERFACE has no data stage, is selectable, comes after the
   * configuration of both ends, succeeds on each end it reaches, is not lost and overtakes none
   * for the same interface; and a configuration succeeds, on the gadget while every alternate is 0.
   */
  ghost predicate Orderly(w: Whole, config: Config, on: Phase, step: Step)
    requires CurrentOk(config, w.d.cur) && Possible(w, config, step)
  {
    match step
    case Plain(a) => a.LoseUp? ==> !Pending(w.s.up[a.i])
    case HandleSetup(i, env, o) => OrderlySetup(w.g, w.s.gad.setups[i].it, env, o, on)
    case HandlePacket(i, env, transfer, o) =>
      SetsInterface(w.s.up[i].it.body) ==>
        && Pending(w.s.up[i]) && NoOlder(w.s.up, i) && env.memory
        && OnPacket(w.d, config, w.s.up[i].it.body, env, transfer, o).1
    case HandleReply(i, env, o) =>
      Configures(w.s.back[i].it) ==> AllDefault(config, w.d.cur) && NonePending(w.s.up) && ConfigReply(w.g, o).1
    case HandleCompletion(i, _, o) =>
      Completes(w.s.drv[i].it) ==> ConfigureDriver(w.d, config, o).1
  }

  ghost predicate OrderlySetup(g: Gadget, b: Body, env: ControlEnv, o: Outcomes, on: Phase)
  {
    env.memory && Selects(Direction(b), b) ==>
      && on == Phase(true, true)
      && Selectable(g, Index(b), Value(b)) && SetInterface(g, Index(b), Value(b), o).1 && env.send
  }

  function PhaseAfter(w: Whole, on: Phase, step: Step): Phase
    requires step.HandleReply? ==> step.i < |w.s.back|
    requires step.HandleCompletion? ==> step.i < |w.s.drv|
  {
    match step
    case HandleReply(i, _, _) => on.(gadget := on.gadget || Configures(w.s.back[i].it))
    case HandleCompletion(i, _, _) => on.(driver := on.driver || Completes(w.s.drv[i].it))
    case _ => on
  }

  ghost predicate AllOrderly(w: Whole, config: Config, on: Phase, steps: seq<Step>)
    requires CurrentOk(config, w.d.cur)
    decreases |steps|
  {
    steps == [] ||
    (Possible(w, config, steps[0]) && Orderly(w, config, on, steps[0]) &&
     AllOrderly(Next(w, config, steps[0]), config, PhaseAfter(w, on, steps[0]), steps[1..]))
  }

  /** Where an orderly run gets to. */
  ghost function OrderlyWalk(w: Whole, config: Config, on: Phase, steps: seq<Step>): (r: (Whole, Phase))
    requires CurrentOk(config, w.d.cur) && AllOrderly(w, config, on, steps)
    ensures Walks(w, config, steps) && r.0 == Walk(w, config, steps)
    decreases |steps|
  {
    if steps == [] then (w, on)
    else OrderlyWalk(Next(w, config, steps[0]), config, PhaseAfter(w, on, steps[0]), steps[1..])
  }

  // --------------------------------------------------------------------- the steps

  /** The requests in transit grow by exactly the selections the gadget carried out. */
  lemma SetupReplays(s: System, i: nat, env: ControlEnv, m: Selection)
    requires i < |s.gad.setups|
    requires var b := s.gad.setups[i].it; env.memory && Selects(Direction(b), b) ==> env.selected && env.send
    ensures var b, r := s.gad.setups[i].it, AfterRunSetup(s, i, env);
            if env.memory && Selects(Direction(b), b) then Replay(m, r.up) == Replay(m, s.up)[Index(b) := Value(b)]
            else Replay(m, r.up) == Replay(m, s.up) && (NonePending(s.up) ==> NonePending(r.up))
  {
    var sent := G.HandleSetup(s.gad, i, env).1;
    ForwardedExactly(s.gad, i, env);
    hide G.HandleSetup, AwaitsData, StandardRequest;
    if sent.Some? {
      ReplayMore(m, s.up, sent.value);
    }
  }

  lemma SetupLags(w: Whole, config: Config, on: Phase, m: Selection, i: nat, env: ControlEnv, o: Outcomes)
    requires Lagging(w, config, on, m) && i < |w.s.gad.setups|
    requires OrderlySetup(w.g, w.s.gad.setups[i].it, env, o, on)
    ensures Lagging(AfterSetup(w, i, env, o), config, on, m)
  {
    SetupSound(w, config, i, env, o);
    hide Sound, DriverLists, GadgetRefines, SetInterface, Selectable, Selects, NonePending, Replay, AfterRunSetup;
    var b := w.s.gad.setups[i].it;
    SetupReplays(w.s, i, env.(selected := OnSetup(w.g, b, env, o).1), m);
    if env.memory && Selects(Direction(b), b) {
      SetInterfaceRefines(w.g, Replay(m, w.s.up), Index(b), Value(b), o);
    }
  }

  /** A SET_INTERFACE that succeeds is forwarded if the transport takes it; nothing else in transit selects. */
  lemma ForwardedExactly(g: G.Gadget, i: nat, env: ControlEnv)
    requires i < |g.setups|
    ensures var t := g.setups[i];
            var sent := G.HandleSetup(g, i, env).1;
            && (sent.Some? ==> sent.value == Tagged(t.origin, Packet(Direction(t.it), t.it)))
            && (sent.Some? && Pending(sent.value) ==> env.memory)
            && (env.memory && Selects(Direction(t.it), t.it) && env.selected && env.send ==>
                 sent.Some? && Pending(sent.value))
  {
    hide G.Send;
  }

  lemma PacketLags(w: Whole, config: Config, on: Phase, m: Selection, i: nat, env: ControlEnv, transfer: bool,
                   o: Outcomes)
    returns (m': Selection)
    requires Lagging(w, config, on, m) && Possible(w, config, HandlePacket(i, env, transfer, o))
    requires Orderly(w, config, on, HandlePacket(i, env, transfer, o))
    ensures Lagging(AfterPacket(w, config, i, env, transfer, o), config, on, m')
  {
    PacketSound(w, config, i, env, transfer, o);
    var t := w.s.up[i];
    m' := Selecting(m, t);
    hide Sound, GadgetRefines, StandardRequest;
    if SetsInterface(t.it.body) {
      assert t in w.s.up;
      var k := FindInterface(config, Index(t.it.body)).value;
      PacketRefines(w.d, config, m, k, Value(t.it.body), transfer, o);
    }
    ReplayEarly(m, w.s.up, i);
  }

  lemma PacketRefines(d: Driver, config: Config, m: Selection, k: nat, a: nat, transfer: bool, o: Outcomes)
    requires ConfigOk(config) && DriverLists(d, config, m, true) && k < |config|
    requires SetDriverInterface(d, config, k, a, transfer, o).1
    ensures DriverLists(SetDriverInterface(d, config, k, a, transfer, o).0, config, m[config[k][0].number := a], true)
  {
    SetDriverInterfaceRefines(d, config, m, k, a, transfer, o);
  }

  lemma ReplyLags(w: Whole, config: Config, on: Phase, m: Selection, i: nat, env: ControlEnv, o: AllOutcomes)
    requires Lagging(w, config, on, m) && i < |w.s.back|
    requires Orderly(w, config, on, HandleReply(i, env, o))
    ensures Lagging(AfterReply(w, i, env, o), config, PhaseAfter(w, on, HandleReply(i, env, o)), m)
  {
    ReplySound(w, config, i, env, o);
    if Configures(w.s.back[i].it) {
      ReplayNone(m, w.s.up);
      DefaultMap(config, w.d.cur, m, w.g);
      ConfigReplyRefines(w.g, m, o);
    }
  }

  lemma DefaultMap(config: Config, cur: seq<nat>, m: Selection, g: Gadget)
    requires ConfigOk(config) && MapsCurrent(m, config, cur) && AllDefault(config, cur)
    requires Alts(g.entries) == Concat(config)
    ensures forall k | 0 <= k < |g.entries| :: g.entries[k].alt.number in m && m[g.entries[k].alt.number] == 0
  {
    forall k | 0 <= k < |g.entries|
      ensures g.entries[k].alt.number in m && m[g.entries[k].alt.number] == 0
    {
      assert Alts(g.entries)[k] == g.entries[k].alt;
      var i, j := Unflat(config, k);
      assert config[i][j].number == config[i][0].number == config[i][cur[i]].number;
    }
  }

  lemma CompletionLags(w: Whole, config: Config, on: Phase, m: Selection, i: nat, env: ControlEnv, o: AllOutcomes)
    requires Lagging(w, config, on, m) && D.Done(w.s.drv, i)
    requires Orderly(w, config, on, HandleCompletion(i, env, o))
    ensures Lagging(AfterCompletion(w, config, i, env, o), config, PhaseAfter(w, on, HandleCompletion(i, env, o)), m)
  {
    CompletionSound(w, config, i, env, o);
    if Completes(w.s.drv[i].it) {
      ConfiguredAgain(w.d, config, on.driver, m, o);
    }
  }

  /** SET_CONFIGURATION on the driver lists the current alternates, whether or not they were listed before. */
  lemma ConfiguredAgain(d: Driver, config: Config, on: bool, m: Selection, o: AllOutcomes)
    requires ConfigOk(config) && DriverLists(d, config, m, on) && ConfigureDriver(d, config, o).1
    ensures DriverLists(ConfigureDriver(d, config, o).0, config, m, true)
  {
    var alts := Concat(config);
    forall id | id in SelectedIds(alts, m)
      ensures id in AllIds(alts)
    {
      var k :| 0 <= k < |alts| && Selected(m, alts[k]) && id in alts[k].ids;
    }
    ConfigureDriverRefines(d, config, o);
    SelectionFacts(config, d.cur);
    SelectedAreCurrent(config, d.cur, SelectionOf(config, d.cur));
    SelectedAreCurrent(config, d.cur, m);
  }

  /** A step that leaves the registries alone loses no pending selection and adds none. */
  lemma PlainReplays(s: System, a: Action, m: Selection)
    requires Plainly(a) && Enabled(s, a) && (a.LoseUp? ==> !Pending(s.up[a.i]))
    ensures var r := Apply(s, a); Replay(m, r.up) == Replay(m, s.up) && (NonePending(s.up) ==> NonePending(r.up))
  {
    hide G.Work, HostBytes, DeviceBytes, G.Complete, D.Complete, Pending, Mark;
    if a.GadgetWork? {
      StageIsNotPending(s, a.i, a.send);
      var sent := G.Work(s.gad, a.i, a.send).1;
      if sent.Some? {
        ReplayMore(m, s.up, sent.value);
      }
    } else if a.LoseUp? {
      ReplayEarly(m, s.up, a.i);
    }
  }

  lemma PlainLags(w: Whole, config: Config, on: Phase, m: Selection, a: Action)
    requires Lagging(w, config, on, m) && Possible(w, config, Plain(a)) && Orderly(w, config, on, Plain(a))
    ensures Lagging(w.(s := Apply(w.s, a)), config, on, m)
  {
    PlainSound(w, config, a);
    hide Sound, DriverLists, GadgetRefines, Apply, Enabled, Pending, NonePending, Replay;
    PlainReplays(w.s, a, m);
  }

  lemma StepLags(w: Whole, config: Config, on: Phase, m: Selection, step: Step) returns (m': Selection)
    requires Lagging(w, config, on, m) && Possible(w, config, step) && Orderly(w, config, on, step)
    ensures Lagging(Next(w, config, step), config, PhaseAfter(w, on, step), m')
  {
    hide Lagging, AfterSetup, AfterPacket, AfterReply, AfterCompletion, Apply;
    m' := m;
    match step {
      case Plain(a) => PlainLags(w, config, on, m, a);
      case HandleSetup(i, env, o) => SetupLags(w, config, on, m, i, env, o);
      case HandlePacket(i, env, transfer, o) => m' := PacketLags(w, config, on, m, i, env, transfer, o);
      case HandleReply(i, env, o) => ReplyLags(w, config, on, m, i, env, o);
      case HandleCompletion(i, env, o) => CompletionLags(w, config, on, m, i, env, o);
    }
  }

  lemma {:induction false} WalkLags(w: Whole, config: Config, on: Phase, m: Selection, steps: seq<Step>)
    returns (m': Selection)
    requires Lagging(w, config, on, m) && AllOrderly(w, config, on, steps)
    ensures var (r, now) := OrderlyWalk(w, config, on, steps); Lagging(r, config, now, m')
    decreases |steps|
  {
    m' := m;
    if steps != [] {
      m' := StepLags(w, config, on, m, steps[0]);
      hide Lagging, Orderly, Possible, PhaseAfter;
      m' := WalkLags(Next(w, config, steps[0]), config, PhaseAfter(w, on, steps[0]), m', steps[1..]);
    }
  }

  lemma FreshLags(config: Config, cur: seq<nat>)
    requires ConfigOk(config) && CurrentOk(config, cur)
    ensures Lagging(Fresh(config, cur), config, BOUND, SelectionOf(config, cur))
  {
    FreshSound(config, cur);
    BoundElements(Concat(config));
    Invariance.BoundIsInvariant(Concat(config));
    SelectionFacts(config, cur);
    hide Sound, Registry.Invariant, ConfigOk, NoDup, SelectionOf;
  }

  /**
   * From bound ends on, in every orderly run, the gadget's registry is the driver's map with the
   * SET_INTERFACE requests in transit carried out; so once both ends are configured they list the
   * same endpoints, each once, whenever no such request is in transit.
   */
  lemma MirroredWhenSettled(config: Config, cur: seq<nat>, steps: seq<Step>) returns (m: Selection)
    requires ConfigOk(config) && CurrentOk(config, cur) && AllOrderly(Fresh(config, cur), config, BOUND, steps)
    ensures var (w, on) := OrderlyWalk(Fresh(config, cur), config, BOUND, steps);
            on == Phase(true, true) ==>
              && DriverRefines(w.d, config, m) && GadgetRefines(w.g, Replay(m, w.s.up))
              && (NonePending(w.s.up) ==>
                    Elements(w.d.list) == Elements(w.g.list) && NoDup(w.d.list) && NoDup(w.g.list))
  {
    FreshLags(config, cur);
    m := WalkLags(Fresh(config, cur), config, BOUND, SelectionOf(config, cur), steps);
    var (w, on) := OrderlyWalk(Fresh(config, cur), config, BOUND, steps);
    if on == Phase(true, true) && NonePending(w.s.up) {
      ReplayNone(m, w.s.up);
      Mirrored(w.d, w.g, config, m);
    }
  }
}
