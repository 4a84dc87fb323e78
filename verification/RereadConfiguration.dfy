/**
 * Reading the configuration descriptor again takes the gadget back to alternate 0, while the driver
 * stays where it is: what that leaves of the mirror.
 */
module RereadConfiguration {
  import opened Bytes
  import opened Descriptors
  import opened ControlTransfer
  import opened Control
  import opened EndpointList
  import opened Registry
  import opened Mirror
  import opened RegistryRuns
  import opened RegistryMirror
  import opened RegistryAgreement
  import opened RegistryReached
  import Invariance = RegistryInvariant

  /** The endpoints of an interface's alternate 0. */
  ghost function DefaultsOf(row: seq<Alt>): set<EpId>
  {
    set j, id | 0 <= j < |row| && row[j].alternate == 0 && id in row[j].ids :: id
  }

  ghost predicate ListsDefaults(config: Config, cur: seq<nat>)
    requires CurrentOk(config, cur)
  {
    forall k | 0 <= k < |config| :: Elements(config[k][cur[k]].ids) == DefaultsOf(config[k])
  }

  lemma IdsOfZeros(config: Config, cur: seq<nat>, m: Selection, k: nat)
    requires ConfigOk(config) && MapsCurrent(m, config, cur) && k < |config|
    ensures IdsOf(config[k], Zeros(m)) == DefaultsOf(config[k])
  {
    assert forall j | 0 <= j < |config[k]| :: config[k][j].number == config[k][0].number == config[k][cur[k]].number;
  }

  /**
   * Reading the configuration again takes the gadget back to alternate 0, the driver stays where
   * it is: the mirror survives exactly when every current alternate has the endpoints of alternate 0.
   */
  lemma RereadMirrorsExactly(d: Driver, g: Gadget, config: Config, m: Selection, o: AllOutcomes)
    requires ConfigOk(config) && Alts(g.entries) == Concat(config)
    requires DriverRefines(d, config, m) && GadgetRefines(g, m) && ConfigReply(g, o).1
    ensures Elements(ConfigReply(g, o).0.list) == Elements(d.list) <==> ListsDefaults(config, d.cur)
  {
    NumbersKnown(config, d.cur, m, g);
    ConfigReplyRefines(g, Zeros(m), o);
    Invariance.SameAlts(g.entries, ConfigReply(g, o).0.entries);
    SameIdsExactly(config, Zeros(m), m);
    hide ConfigReply, ConfigOk, NoDup, SelectedIds, IdsOf, DefaultsOf;
    forall k | 0 <= k < |config|
      ensures IdsOf(config[k], Zeros(m)) == DefaultsOf(config[k])
      ensures IdsOf(config[k], m) == Elements(config[k][d.cur[k]].ids)
    {
      IdsOfZeros(config, d.cur, m, k);
      IdsOfCurrent(config, d.cur, m, k);
    }
  }

  // -------------------------------------------------------------- a run that parts the two

  /** SET_INTERFACE of alternate 1 on interface 0. */
  const SELECT := Transfer([1, 11, 1, 0, 0, 0, 0, 0], [], [])

  lemma SelectionForwarded(s: System) returns (s1: System, r: System)
    requires Quiet(s)
    ensures Enabled(s, HostSetup(SELECT)) && s1 == Apply(s, HostSetup(SELECT))
    ensures |s1.gad.setups| == 1 && s1.gad.setups[0].it == SELECT.setup && r == AfterRunSetup(s1, 0, SMOOTH)
    ensures |r.up| == 1 && r.up[0].it == Packet(Out, SELECT.setup)
    ensures r.gad.setups == [] && r.drv == [] && r.back == []
  {
    s1 := Apply(s, HostSetup(SELECT));
    r := AfterRunSetup(s1, 0, SMOOTH);
    assert r.up[0].it == Packet(Out, SELECT.setup);
  }

  lemma SelectionAnswered(s: System) returns (s1: System, r: System)
    requires |s.up| == 1 && s.up[0].it == Packet(Out, SELECT.setup) && s.gad.setups == [] && s.drv == [] && s.back == []
    ensures s1 == AfterToDriver(s, 0, SMOOTH) && |s1.back| == 1 && s1.back[0].it.Ack? && s1.back[0].it.status == 0
    ensures r == AfterToGadget(s1, 0, SMOOTH) && Quiet(r)
  {
    s1 := AfterToDriver(s, 0, SMOOTH);
    assert s1.back[0].it == Ack(Out, 0, SELECT.setup);
    r := AfterToGadget(s1, 0, SMOOTH);
  }

  /** The gadget can select alternate 1 of the two. */
  lemma SecondIsSelectable(g: Gadget, m: Selection, d: Driver)
    requires DriverRefines(d, TWO, m) && d.cur == [0] && GadgetRefines(g, m) && Alts(g.entries) == Concat(TWO)
    ensures Selectable(g, 0, 1) && SetInterface(g, 0, 1, ALL_ADDED).1
  {
    TwoOk();
    assert Concat(TWO[..0]) == [];
    assert Concat(TWO) == TWO[0] && TWO[0][0].alternate == 0;
    assert Alts(g.entries)[1] == g.entries[1].alt && !Registry.Selected(m, g.entries[1].alt);
    Invariance.InactiveIsSelectable(g, 0, 1);
    var others := DisableOthers(g, 0, 1, |g.entries|);
    var n := EnableFacts(GadgetSide, others.list, others.entries[1].alt.ids, 0, ALL_ADDED);
  }

  lemma SelectionIsReached() returns (steps: seq<Step>)
    ensures CurrentOk(TWO, [0]) && AllOrderly(Fresh(TWO, [0]), TWO, BOUND, steps)
    ensures var (w, on) := OrderlyWalk(Fresh(TWO, [0]), TWO, BOUND, steps);
            on == Phase(true, true) && Quiet(w.s) && w.d.cur == [1]
  {
    var w0 := Fresh(TWO, [0]);
    hide AllOrderly, OrderlyWalk;
    steps := SelectedOnGadget();
    var (w, _) := OrderlyWalk(w0, TWO, BOUND, steps);
    var s1, s2 := SelectionAnswered(w.s);
    SelectionTaken(w, Phase(true, true));
    hide Possible, Orderly, AfterPacket, CurrentOk, Quiet, AfterToDriver, AfterToGadget;
    OrderlyOn(w0, TWO, BOUND, steps, HandlePacket(0, SMOOTH, true, ALL_ADDED));
    steps := steps + [HandlePacket(0, SMOOTH, true, ALL_ADDED)];
    AcknowledgementIgnored(OrderlyWalk(w0, TWO, BOUND, steps).0, Phase(true, true));
    OrderlyOn(w0, TWO, BOUND, steps, HandleReply(0, SMOOTH, ALL));
    steps := steps + [HandleReply(0, SMOOTH, ALL)];
  }

  lemma SelectionTaken(w: Whole, on: Phase)
    requires CurrentOk(TWO, w.d.cur) && w.d.cur == [0] && |w.s.up| == 1 && w.s.up[0].it == Packet(Out, SELECT.setup)
    ensures var step := HandlePacket(0, SMOOTH, true, ALL_ADDED);
            && Possible(w, TWO, step) && Orderly(w, TWO, on, step)
            && var r := AfterPacket(w, TWO, 0, SMOOTH, true, ALL_ADDED);
               r.s == AfterToDriver(w.s, 0, SMOOTH) && r.d.cur == [1]
  {
    TwoOk();
    SelectMeans();
    hide AfterToDriver, SetDriverInterface, FindInterface, ConfigOk, StandardRequest, Index, Value, AwaitsData;
    AddedSelects(w.d, TWO, 0, 1, 1);
  }

  lemma SelectMeans()
    ensures SetsInterface(SELECT.setup) && Direction(SELECT.setup) == Out && !AwaitsData(Out, SELECT.setup)
    ensures Index(SELECT.setup) == 0 && Value(SELECT.setup) == 1
  {
  }

  lemma AcknowledgementIgnored(w: Whole, on: Phase)
    requires CurrentOk(TWO, w.d.cur) && |w.s.back| == 1 && w.s.back[0].it.Ack? && w.s.back[0].it.status == 0
    ensures var step := HandleReply(0, SMOOTH, ALL);
            Possible(w, TWO, step) && Orderly(w, TWO, on, step) && PhaseAfter(w, on, step) == on
    ensures AfterReply(w, 0, SMOOTH, ALL) == w.(s := AfterToGadget(w.s, 0, SMOOTH))
  {
  }

  lemma SelectionCarriedOut(w: Whole)
    requires |w.s.gad.setups| == 1 && w.s.gad.setups[0].it == SELECT.setup
    requires Selectable(w.g, 0, 1) && SetInterface(w.g, 0, 1, ALL_ADDED).1
    ensures OrderlySetup(w.g, SELECT.setup, SMOOTH, ALL_ADDED, Phase(true, true))
    ensures var r := AfterSetup(w, 0, SMOOTH, ALL_ADDED); r.s == AfterRunSetup(w.s, 0, SMOOTH) && r.d == w.d
  {
    hide AfterRunSetup, SetInterface, Selectable;
  }

  lemma SelectedOnGadget() returns (steps: seq<Step>)
    ensures CurrentOk(TWO, [0]) && AllOrderly(Fresh(TWO, [0]), TWO, BOUND, steps)
    ensures var (w, on) := OrderlyWalk(Fresh(TWO, [0]), TWO, BOUND, steps);
            && on == Phase(true, true) && |w.s.up| == 1 && w.s.up[0].it == Packet(Out, SELECT.setup)
            && w.s.gad.setups == [] && w.s.drv == [] && w.s.back == [] && w.d.cur == [0]
  {
    TwoOk();
    var w0 := Fresh(TWO, [0]);
    hide ConfigOk, CurrentOk, AllOrderly, OrderlyWalk, DriverRefines, GadgetRefines;
    steps := ConfiguredIsReached(TWO, [0]);
    var (w, _) := OrderlyWalk(w0, TWO, BOUND, steps);
    var m := Settled(TWO, [0], steps);
    SecondIsSelectable(w.g, m, w.d);
    var s1, s2 := SelectionForwarded(w.s);
    SelectionCarriedOut(w.(s := s1));
    hide Quiet, Apply, Enabled, AfterRunSetup, AfterSetup, OrderlySetup, SetInterface, Selectable;
    OrderlyOn(w0, TWO, BOUND, steps, Plain(HostSetup(SELECT)));
    steps := steps + [Plain(HostSetup(SELECT))];
    OrderlyOn(w0, TWO, BOUND, steps, HandleSetup(0, SMOOTH, ALL_ADDED));
    steps := steps + [HandleSetup(0, SMOOTH, ALL_ADDED)];
  }

  /** Over an orderly run and one more read of the configuration, the gadget lists X again, the driver Y. */
  lemma RereadDiverges() returns (steps: seq<Step>)
    ensures CurrentOk(TWO, [0]) && Walks(Fresh(TWO, [0]), TWO, steps)
    ensures var w := Walk(Fresh(TWO, [0]), TWO, steps);
            Quiet(w.s) && w.d.cur == [1] && Elements(w.d.list) != Elements(w.g.list)
  {
    var w0 := Fresh(TWO, [0]);
    TwoOk();
    hide ConfigOk, AllOrderly, OrderlyWalk, CurrentOk, DriverRefines, GadgetRefines;
    steps := ReadAnswered();
    var (w, _) := OrderlyWalk(w0, TWO, BOUND, steps);
    var m := Settled(TWO, [0], steps);
    DefaultsGone(w.d, w.g, m);
    var r := AfterToGadget(w.s, 0, SMOOTH);
    hide AfterToGadget, ConfigReply, Walk, Walks, Quiet;
    WalkOne(w, TWO, HandleReply(0, SMOOTH, ALL));
    WalkOn(w0, TWO, steps, [HandleReply(0, SMOOTH, ALL)]);
    steps := steps + [HandleReply(0, SMOOTH, ALL)];
  }

  lemma DefaultsGone(d: Driver, g: Gadget, m: Selection)
    requires DriverRefines(d, TWO, m) && d.cur == [1] && GadgetRefines(g, m) && Alts(g.entries) == Concat(TWO)
    ensures ConfigReply(g, ALL).1 && Elements(ConfigReply(g, ALL).0.list) != Elements(d.list)
  {
    TwoOk();
    Invariance.ConfigReplyFacts(g, ALL);
    RereadMirrorsExactly(d, g, TWO, m, ALL);
    assert Y in Elements(TWO[0][1].ids) && Y !in DefaultsOf(TWO[0]);
  }

  /** The configuration is read again, up to the answer in transit. */
  lemma ReadAnswered() returns (steps: seq<Step>)
    ensures CurrentOk(TWO, [0]) && AllOrderly(Fresh(TWO, [0]), TWO, BOUND, steps)
    ensures var (w, on) := OrderlyWalk(Fresh(TWO, [0]), TWO, BOUND, steps);
            && on == Phase(true, true) && NonePending(w.s.up) && w.d.cur == [1]
            && |w.s.back| == 1 && Configures(w.s.back[0].it) && Quiet(AfterToGadget(w.s, 0, SMOOTH))
  {
    var w0 := Fresh(TWO, [0]);
    hide AllOrderly, OrderlyWalk, AtCompletion, Quiet;
    steps := SelectionIsReached();
    steps := ToCompletion(w0, TWO, steps, READ);
    var (w, _) := OrderlyWalk(w0, TWO, BOUND, steps);
    var s1, s2 := DescriptorAnswered(w.s);
    hide CurrentOk, Quiet, AfterDriverWork, AfterToGadget, Possible, Orderly, PhaseAfter, AfterCompletion, Configures;
    AnswerCompletes(w, TWO, Phase(true, true));
    OrderlyOn(w0, TWO, BOUND, steps, HandleCompletion(0, SMOOTH, ALL));
    steps := steps + [HandleCompletion(0, SMOOTH, ALL)];
  }
}
