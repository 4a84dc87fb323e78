/**
 * Runs of both ends with their registries that exist: every configuration reaches the phase in which
 * both ends are configured, so the theorems of RegistryMirror are about runs there are.
 */
module RegistryReached {
  import opened Bytes
  import opened Descriptors
  import opened ControlTransfer
  import opened Control
  import opened EndpointList
  import opened Registry
  import opened Mirror
  import opened RegistryRuns
  import opened RegistryMirror
  import Invariance = RegistryInvariant

  // --------------------------------------------------------------------------- longer runs

  lemma {:induction false} WalkOn(w: Whole, config: Config, steps: seq<Step>, more: seq<Step>)
    requires CurrentOk(config, w.d.cur) && Walks(w, config, steps) && Walks(Walk(w, config, steps), config, more)
    ensures Walks(w, config, steps + more)
    ensures Walk(w, config, steps + more) == Walk(Walk(w, config, steps), config, more)
    decreases |steps|
  {
    hide Next, Possible, CurrentOk;
    if steps == [] {
      assert [] + more == more;
    } else {
      assert (steps + more)[0] == steps[0] && (steps + more)[1..] == steps[1..] + more;
      WalkOn(Next(w, config, steps[0]), config, steps[1..], more);
    }
  }

  lemma WalkOne(w: Whole, config: Config, step: Step)
    requires CurrentOk(config, w.d.cur) && Possible(w, config, step)
    ensures Walks(w, config, [step]) && Walk(w, config, [step]) == Next(w, config, step)
  {
    var r := Next(w, config, step);
    hide Next, Possible;
    assert [step][1..] == [];
    assert Walks(r, config, []) && Walk(r, config, []) == r;
  }

  lemma {:induction false} OrderlyOn(w: Whole, config: Config, on: Phase, steps: seq<Step>, step: Step)
    requires CurrentOk(config, w.d.cur) && AllOrderly(w, config, on, steps)
    requires var (r, now) := OrderlyWalk(w, config, on, steps);
             Possible(r, config, step) && Orderly(r, config, now, step)
    ensures AllOrderly(w, config, on, steps + [step])
    ensures var (r, now) := OrderlyWalk(w, config, on, steps);
            OrderlyWalk(w, config, on, steps + [step]) == (Next(r, config, step), PhaseAfter(r, now, step))
    decreases |steps|
  {
    if steps == [] {
      assert [] + [step] == [step] && [step][1..] == [];
      var r, now := Next(w, config, step), PhaseAfter(w, on, step);
      hide Next, Possible, Orderly, PhaseAfter;
      assert AllOrderly(r, config, now, []) && OrderlyWalk(r, config, now, []) == (r, now);
    } else {
      assert (steps + [step])[1..] == steps[1..] + [step];
      hide Next, Possible, Orderly, PhaseAfter;
      OrderlyOn(Next(w, config, steps[0]), config, PhaseAfter(w, on, steps[0]), steps[1..], step);
    }
  }

  // ------------------------------------------------------- the configured phase is reached

  const ALL: AllOutcomes := (i, e) => Added

  /** GET_DESCRIPTOR of the configuration, more than nine bytes, and SET_CONFIGURATION. */
  const READ := Transfer([128, 6, 0, 2, 0, 0, 10, 0], [], [])
  const SET := Transfer([0, 9, 1, 0, 0, 0, 0, 0], [], [])

  /** Nothing but completed answers is left. */
  predicate Quiet(s: System)
  {
    s.gad.setups == [] && s.up == [] && s.drv == [] && s.back == []
  }

  lemma SetupForwarded(s: System, t: Transfer) returns (s1: System, r: System)
    requires Quiet(s) && (t == READ || t == SET)
    ensures Enabled(s, HostSetup(t)) && s1 == Apply(s, HostSetup(t))
    ensures |s1.gad.setups| == 1 && s1.gad.setups[0].it == t.setup && r == AfterRunSetup(s1, 0, SMOOTH)
    ensures r.up == [Tagged(|s.host|, Packet(Direction(t.setup), t.setup))] && r.gad.setups == [] && r.drv == []
    ensures r.back == []
    ensures |s.host| < |r.host| && r.host[|s.host|] == t
  {
    s1 := Apply(s, HostSetup(t));
    r := AfterRunSetup(s1, 0, SMOOTH);
  }

  /** The driver's only request is the completed URB of the transfer, and nothing else is waiting. */
  predicate AtCompletion(s: System, t: Transfer)
    requires |t.setup| == SETUP
  {
    && s.up == [] && s.gad.setups == [] && s.back == [] && |s.drv| == 1 && D.Done(s.drv, 0)
    && var u := s.drv[0].it;
       && u.dir == Direction(t.setup) && u.status == Some(0) && u.image[..SETUP] == t.setup
       && u.size == SETUP && u.actual == 0
  }

  lemma UrbCompleted(s: System, t: Transfer, k: nat) returns (s1: System, r: System)
    requires t == READ || t == SET
    requires s.up == [Tagged(k, Packet(Direction(t.setup), t.setup))] && s.gad.setups == [] && s.drv == []
    requires s.back == []
    requires k < |s.host| && s.host[k] == t
    ensures s1 == AfterToDriver(s, 0, SMOOTH)
    ensures Enabled(s1, UrbDone(0, 0)) && r == Apply(s1, UrbDone(0, 0))
    ensures AtCompletion(r, t)
  {
    s1 := AfterToDriver(s, 0, SMOOTH);
    var u := D.Fill(Direction(t.setup), t.setup, SMOOTH.room);
    assert s1.drv == [Tagged(k, u)] && s1.host == s.host && u.image[..SETUP] == t.setup;
    assert DeviceBytes(s1, 0) == [];
    r := Apply(s1, UrbDone(0, 0));
  }

  lemma DescriptorAnswered(s: System) returns (s1: System, r: System)
    requires AtCompletion(s, READ)
    ensures s1 == AfterDriverWork(s, 0, SMOOTH) && |s1.back| == 1 && Configures(s1.back[0].it) && s1.up == []
    ensures r == AfterToGadget(s1, 0, SMOOTH) && Quiet(r)
  {
    s1 := AfterDriverWork(s, 0, SMOOTH);
    assert s1.back[0].it == Answer(READ.setup);
    r := AfterToGadget(s1, 0, SMOOTH);
  }

  lemma ConfigurationAccepted(s: System) returns (r: System)
    requires AtCompletion(s, SET)
    ensures r == AfterDriverWork(s, 0, SMOOTH) && Quiet(r) && r.up == []
    ensures |s.drv| == 1 && D.Done(s.drv, 0) && Completes(s.drv[0].it)
  {
    r := AfterDriverWork(s, 0, SMOOTH);
  }

  lemma {:induction false} AllCurrentEnabled(d: Driver, config: Config, k: nat)
    requires CurrentOk(config, d.cur) && k <= |config|
    ensures EnableCurrent(d, config, k, ALL).1
    decreases |config| - k
  {
    if k < |config| {
      var n := EnableFacts(DriverSide, d.list, config[k][d.cur[k]].ids, 0, OutcomesAt(ALL, k));
      AllCurrentEnabled(Driver(Enable(DriverSide, d.list, config[k][d.cur[k]].ids, 0, OutcomesAt(ALL, k)).0, d.cur),
        config, k + 1);
    }
  }

  /** The steps that take a transfer of a quiet system to the driver. */
  lemma ToUrb(w0: Whole, config: Config, steps: seq<Step>, t: Transfer) returns (more: seq<Step>)
    requires CurrentOk(config, w0.d.cur) && AllOrderly(w0, config, BOUND, steps)
    requires Quiet(OrderlyWalk(w0, config, BOUND, steps).0.s) && (t == READ || t == SET)
    ensures AllOrderly(w0, config, BOUND, more)
    ensures var (w, on) := OrderlyWalk(w0, config, BOUND, steps);
            var (r, now) := OrderlyWalk(w0, config, BOUND, more);
            && now == on && (r.g, r.d) == (w.g, w.d) && |w.s.host| < |r.s.host| && r.s.host[|w.s.host|] == t
            && r.s.up == [Tagged(|w.s.host|, Packet(Direction(t.setup), t.setup))]
            && r.s.gad.setups == [] && r.s.drv == [] && r.s.back == []
  {
    var (w, on) := OrderlyWalk(w0, config, BOUND, steps);
    var s1, s2 := SetupForwarded(w.s, t);
    assert !SetsInterface(t.setup);
    hide Apply, Enabled, AfterRunSetup, AllOrderly, OrderlyWalk, CurrentOk, StandardRequest, Quiet;
    OrderlyOn(w0, config, BOUND, steps, Plain(HostSetup(t)));
    more := steps + [Plain(HostSetup(t))];
    assert AfterSetup(w.(s := s1), 0, SMOOTH, ALL_ADDED) == w.(s := s2);
    OrderlyOn(w0, config, BOUND, more, HandleSetup(0, SMOOTH, ALL_ADDED));
    more := more + [HandleSetup(0, SMOOTH, ALL_ADDED)];
  }

  /** And on to its completion. */
  lemma ToCompletion(w0: Whole, config: Config, steps: seq<Step>, t: Transfer) returns (more: seq<Step>)
    requires CurrentOk(config, w0.d.cur) && AllOrderly(w0, config, BOUND, steps)
    requires Quiet(OrderlyWalk(w0, config, BOUND, steps).0.s) && (t == READ || t == SET)
    ensures AllOrderly(w0, config, BOUND, more)
    ensures var (w, on) := OrderlyWalk(w0, config, BOUND, steps);
            var (r, now) := OrderlyWalk(w0, config, BOUND, more);
            now == on && (r.g, r.d) == (w.g, w.d) && AtCompletion(r.s, t)
  {
    var (before, _) := OrderlyWalk(w0, config, BOUND, steps);
    more := ToUrb(w0, config, steps, t);
    var (w, _) := OrderlyWalk(w0, config, BOUND, more);
    var s1, s2 := UrbCompleted(w.s, t, |before.s.host|);
    assert !SetsInterface(t.setup);
    hide Apply, Enabled, AfterToDriver, AllOrderly, OrderlyWalk, CurrentOk, StandardRequest, Quiet, AtCompletion;
    assert Possible(w, config, HandlePacket(0, SMOOTH, true, ALL_ADDED));
    assert AfterPacket(w, config, 0, SMOOTH, true, ALL_ADDED) == w.(s := s1);
    OrderlyOn(w0, config, BOUND, more, HandlePacket(0, SMOOTH, true, ALL_ADDED));
    more := more + [HandlePacket(0, SMOOTH, true, ALL_ADDED)];
    OrderlyOn(w0, config, BOUND, more, Plain(UrbDone(0, 0)));
    more := more + [Plain(UrbDone(0, 0))];
  }

  /** From bound ends an orderly run configures both. */
  lemma ConfiguredIsReached(config: Config, cur: seq<nat>) returns (steps: seq<Step>)
    requires ConfigOk(config) && CurrentOk(config, cur) && AllDefault(config, cur)
    ensures AllOrderly(Fresh(config, cur), config, BOUND, steps)
    ensures var (w, on) := OrderlyWalk(Fresh(config, cur), config, BOUND, steps);
            on == Phase(true, true) && Quiet(w.s) && NonePending(w.s.up) && w.d.cur == cur
  {
    var w0 := Fresh(config, cur);
    hide ConfigOk, CurrentOk, AllOrderly, OrderlyWalk, Quiet, AtCompletion;
    steps := GadgetConfigured(config, cur);
    steps := ToCompletion(w0, config, steps, SET);
    var (w1, on) := OrderlyWalk(w0, config, BOUND, steps);
    var s2 := ConfigurationAccepted(w1.s);
    ConfigurationCompletes(w1, config, on);
    hide AfterDriverWork, Possible, Orderly, PhaseAfter, AfterCompletion;
    OrderlyOn(w0, config, BOUND, steps, HandleCompletion(0, SMOOTH, ALL));
    steps := steps + [HandleCompletion(0, SMOOTH, ALL)];
  }

  lemma BoundConfigures(config: Config, cur: seq<nat>)
    requires ConfigOk(config)
    ensures ConfigReply(Fresh(config, cur).g, ALL).1
    ensures Quiet(Fresh(config, cur).s)
  {
    BoundElements(Concat(config));
    Invariance.BoundIsInvariant(Concat(config));
    Invariance.ConfigReplyFacts(Fresh(config, cur).g, ALL);
  }

  /** The completion of an IN transfer leaves the driver's registry alone. */
  lemma AnswerCompletes(w: Whole, config: Config, on: Phase)
    requires CurrentOk(config, w.d.cur) && AtCompletion(w.s, READ)
    ensures var step := HandleCompletion(0, SMOOTH, ALL);
            && Possible(w, config, step) && Orderly(w, config, on, step) && PhaseAfter(w, on, step) == on
            && AfterCompletion(w, config, 0, SMOOTH, ALL) == w.(s := AfterDriverWork(w.s, 0, SMOOTH))
  {
    hide AfterDriverWork;
  }

  /** That of SET_CONFIGURATION lists the current alternates. */
  lemma ConfigurationCompletes(w: Whole, config: Config, on: Phase)
    requires CurrentOk(config, w.d.cur) && |w.s.drv| == 1 && D.Done(w.s.drv, 0) && Completes(w.s.drv[0].it)
    ensures var step := HandleCompletion(0, SMOOTH, ALL);
            && Possible(w, config, step) && Orderly(w, config, on, step)
            && PhaseAfter(w, on, step) == on.(driver := true)
            && var r := AfterCompletion(w, config, 0, SMOOTH, ALL);
               r.s == AfterDriverWork(w.s, 0, SMOOTH) && r.d.cur == w.d.cur
  {
    AllCurrentEnabled(Driver(DisableEvery(w.d.list, Concat(config)), w.d.cur), config, 0);
    hide AfterDriverWork;
  }

  lemma DescriptorConfigures(w: Whole, config: Config, on: Phase)
    requires CurrentOk(config, w.d.cur) && AllDefault(config, w.d.cur) && w.s.up == []
    requires |w.s.back| == 1 && Configures(w.s.back[0].it) && ConfigReply(w.g, ALL).1
    ensures var step := HandleReply(0, SMOOTH, ALL);
            Possible(w, config, step) && Orderly(w, config, on, step) && PhaseAfter(w, on, step).gadget
    ensures var r := AfterReply(w, 0, SMOOTH, ALL); r.s == AfterToGadget(w.s, 0, SMOOTH) && r.d == w.d
  {
    hide AfterToGadget, ConfigReply, Configures;
  }

  lemma GadgetConfigured(config: Config, cur: seq<nat>) returns (steps: seq<Step>)
    requires ConfigOk(config) && CurrentOk(config, cur) && AllDefault(config, cur)
    ensures AllOrderly(Fresh(config, cur), config, BOUND, steps)
    ensures var (w, on) := OrderlyWalk(Fresh(config, cur), config, BOUND, steps);
            Quiet(w.s) && on.gadget && w.d == Fresh(config, cur).d
  {
    var w0 := Fresh(config, cur);
    BoundConfigures(config, cur);
    hide ConfigOk, CurrentOk, ConfigReply, StandardRequest;
    assert AllOrderly(w0, config, BOUND, []) && OrderlyWalk(w0, config, BOUND, []) == (w0, BOUND);
    hide AllOrderly, OrderlyWalk, AtCompletion, Quiet;
    steps := ToCompletion(w0, config, [], READ);
    var (w1, on) := OrderlyWalk(w0, config, BOUND, steps);
    var s2, s3 := DescriptorAnswered(w1.s);
    AnswerCompletes(w1, config, on);
    DescriptorConfigures(w1.(s := s2), config, on);
    hide AfterDriverWork, AfterToGadget, Possible, Orderly, PhaseAfter, AfterCompletion, AfterReply, Configures;
    OrderlyOn(w0, config, BOUND, steps, HandleCompletion(0, SMOOTH, ALL));
    steps := steps + [HandleCompletion(0, SMOOTH, ALL)];
    OrderlyOn(w0, config, BOUND, steps, HandleReply(0, SMOOTH, ALL));
    steps := steps + [HandleReply(0, SMOOTH, ALL)];
  }

  /** What an orderly run comes to when both ends are configured and no selection is in transit. */
  lemma Settled(config: Config, cur: seq<nat>, steps: seq<Step>) returns (m: Selection)
    requires ConfigOk(config) && CurrentOk(config, cur) && AllOrderly(Fresh(config, cur), config, BOUND, steps)
    requires var (w, on) := OrderlyWalk(Fresh(config, cur), config, BOUND, steps);
             on == Phase(true, true) && NonePending(w.s.up)
    ensures var (w, _) := OrderlyWalk(Fresh(config, cur), config, BOUND, steps);
            DriverRefines(w.d, config, m) && GadgetRefines(w.g, m) && Alts(w.g.entries) == Concat(config)
  {
    var (w, _) := OrderlyWalk(Fresh(config, cur), config, BOUND, steps);
    m := MirroredWhenSettled(config, cur, steps);
    ReplayNone(m, w.s.up);
    FreshSound(config, cur);
    hide ConfigOk, DriverRefines, GadgetRefines, NonePending;
    WalkSound(Fresh(config, cur), config, steps);
  }

  // ------------------------------------------------------ an interface with two alternates

  const X := EpId(1, Bulk, In)
  const Y := EpId(2, Bulk, In)
  const TWO: Config := [[Alt(0, 0, [X]), Alt(0, 1, [Y])]]

  lemma TwoOk()
    ensures ConfigOk(TWO) && CurrentOk(TWO, [0]) && AllDefault(TWO, [0])
    ensures FindInterface(TWO, 0) == Some(0) && FindAlternate(TWO[0], 1) == Some(1)
  {
    assert Concat(TWO[..0]) == [];
    assert Concat(TWO) == TWO[0];
    TwoWellFormed();
    hide WellFormedAlts, Concat;
    assert FindAlternate(TWO[0][1..], 1) == Some(0);
  }

  lemma TwoWellFormed()
    ensures WellFormedAlts(TWO[0])
  {
    var alts := TWO[0];
    assert |alts| == 2 && alts[0] == Alt(0, 0, [X]) && alts[1] == Alt(0, 1, [Y]);
  }

  lemma AddedSelects(d: Driver, config: Config, k: nat, a: nat, j: nat)
    requires CurrentOk(config, d.cur) && k < |config| && FindAlternate(config[k], a) == Some(j)
    ensures var (r, ok) := SetDriverInterface(d, config, k, a, true, ALL_ADDED); ok && r.cur == d.cur[k := j]
  {
    var n := EnableFacts(DriverSide, RemoveAll(d.list, config[k][d.cur[k]].ids), config[k][j].ids, 0, ALL_ADDED);
  }
}
