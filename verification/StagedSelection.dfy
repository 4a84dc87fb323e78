/**
 * A SET_INTERFACE with a data stage passes the gadget's registry by, but the driver carries it out:
 * what that leaves of the mirror.
 */
module StagedSelection {
  import opened Bytes
  import opened Descriptors
  import opened ControlTransfer
  import opened Control
  import opened EndpointList
  import opened Registry
  import opened Mirror
  import opened RegistryRuns
  import opened RegistryMirror
  import opened RegistryAgreement
  import opened RegistryReached

  // ------------------------------------------------- forwarded, and selected on the driver

  /** A SET_INTERFACE whose data stage the host sends. */
  predicate Staged(t: Transfer)
  {
    Legal(t) && SetsInterface(t.setup) && AwaitsData(Direction(t.setup), t.setup)
  }

  /** The steps that take it to the driver. */
  function Forwarding(s: System, t: Transfer): seq<Step>
  {
    [Plain(HostSetup(t))] + [HandleSetup(|s.gad.setups|, SMOOTH, ALL_ADDED)] + [Plain(GadgetDone(0, 0, 0))] +
      [Plain(GadgetWork(0, true))]
  }

  lemma SystemForwards(s: System, t: Transfer) returns (s1: System, s2: System, s3: System, r: System)
    requires Staged(t)
    ensures Enabled(s, HostSetup(t)) && s1 == Apply(s, HostSetup(t))
    ensures |s1.gad.setups| == |s.gad.setups| + 1 && s1.gad.setups[|s.gad.setups|].it == t.setup
    ensures s2 == AfterRunSetup(s1, |s.gad.setups|, SMOOTH)
    ensures Enabled(s2, GadgetDone(0, 0, 0)) && s3 == Apply(s2, GadgetDone(0, 0, 0))
    ensures Enabled(s3, GadgetWork(0, true)) && r == Apply(s3, GadgetWork(0, true))
    ensures r.up == s.up + [Tagged(|s.host|, Packet(Out, t.setup + t.stage))]
  {
    s1 := Apply(s, HostSetup(t));
    s2 := AfterRunSetup(s1, |s.gad.setups|, SMOOTH);
    var f := G.Fill(Out, t.setup, SMOOTH.room);
    assert s2.gad.reqs[0] == Tagged(|s.host|, f) && s2.host == s.host + [t] && s2.up == s.up;
    s3, r := StageArrives(s2, t, s.up, |s.host|);
  }

  lemma StageArrives(s: System, t: Transfer, up: seq<Tagged<Packet>>, origin: nat) returns (s1: System, r: System)
    requires Staged(t) && s.gad.reqs != [] && s.gad.reqs[0] == Tagged(origin, G.Fill(Out, t.setup, SMOOTH.room))
    requires origin < |s.host| && s.host[origin] == t && s.up == up
    ensures Enabled(s, GadgetDone(0, 0, 0)) && s1 == Apply(s, GadgetDone(0, 0, 0))
    ensures Enabled(s1, GadgetWork(0, true)) && r == Apply(s1, GadgetWork(0, true))
    ensures r.up == up + [Tagged(origin, Packet(Out, t.setup + t.stage))]
  {
    assert HostBytes(s, 0, 0) == t.stage;
    s1 := Apply(s, GadgetDone(0, 0, 0));
    var q := s1.gad.reqs[0].it;
    assert q.image[..SETUP] == t.setup && q.image[SETUP..SETUP + |t.stage|] == t.stage;
    assert q.image[..SETUP + q.actual] == q.image[..SETUP] + q.image[SETUP..SETUP + q.actual];
    r := Apply(s1, GadgetWork(0, true));
  }

  /** From any state, such a request is forwarded whatever interface it names, and no registry has changed. */
  lemma StagedIsForwarded(w: Whole, config: Config, t: Transfer)
    requires CurrentOk(config, w.d.cur) && Staged(t)
    ensures Walks(w, config, Forwarding(w.s, t))
    ensures var r := Walk(w, config, Forwarding(w.s, t));
            && (r.g, r.d, r.onGadget) == (w.g, w.d, w.onGadget)
            && r.s.up == w.s.up + [Tagged(|w.s.host|, Packet(Out, t.setup + t.stage))]
  {
    var s1, s2, s3, s4 := SystemForwards(w.s, t);
    var n := |w.s.gad.setups|;
    hide Apply, Enabled, AfterRunSetup, Walks, Walk;
    var w1 := w.(s := s1);
    var begin, setup := [Plain(HostSetup(t))], [HandleSetup(n, SMOOTH, ALL_ADDED)];
    var done, work := [Plain(GadgetDone(0, 0, 0))], [Plain(GadgetWork(0, true))];
    WalkOne(w, config, begin[0]);
    assert AfterSetup(w1, n, SMOOTH, ALL_ADDED) == w.(s := s2);
    WalkOne(w1, config, setup[0]);
    WalkOne(w.(s := s2), config, done[0]);
    WalkOne(w.(s := s3), config, work[0]);
    hide Next, Possible;
    WalkOn(w, config, begin, setup);
    WalkOn(w, config, begin + setup, done);
    WalkOn(w, config, begin + setup + done, work);
  }

  /** What the driver makes of the request. */
  function DriverAfter(d: Driver, config: Config, t: Transfer, o: Outcomes): Driver
    requires CurrentOk(config, d.cur) && |t.setup| == SETUP && Known(config, Index(t.setup))
  {
    SetDriverInterface(d, config, FindInterface(config, Index(t.setup)).value, Value(t.setup), true, o).0
  }

  /** And the driver carries it out, provided it knows the interface. */
  lemma StagedIsSelected(w: Whole, config: Config, t: Transfer, o: Outcomes) returns (steps: seq<Step>)
    requires CurrentOk(config, w.d.cur) && Staged(t) && Known(config, Index(t.setup))
    ensures Walks(w, config, steps)
    ensures var r := Walk(w, config, steps);
            && r.g == w.g && r.s.up == w.s.up
            && r.d == DriverAfter(w.d, config, t, o)
  {
    var first := Forwarding(w.s, t);
    StagedIsForwarded(w, config, t);
    var before, last := Walk(w, config, first), HandlePacket(|w.s.up|, SMOOTH, true, o);
    hide Walk, Walks, Forwarding, FindInterface, SetDriverInterface, CurrentOk;
    LastPacket(before, config, w.s.up, Tagged(|w.s.host|, Packet(Out, t.setup + t.stage)), t, o);
    WalkOne(before, config, last);
    WalkOn(w, config, first, [last]);
    steps := first + [last];
  }

  lemma LastPacket(w: Whole, config: Config, up: seq<Tagged<Packet>>, p: Tagged<Packet>, t: Transfer, o: Outcomes)
    requires CurrentOk(config, w.d.cur) && w.s.up == up + [p] && p.it == Packet(Out, t.setup + t.stage)
    requires Staged(t) && Known(config, Index(t.setup))
    ensures var last := HandlePacket(|up|, SMOOTH, true, o);
            && Possible(w, config, last)
            && var r := Next(w, config, last);
               && r.g == w.g && r.s.up == up
               && r.d == DriverAfter(w.d, config, t, o)
  {
    SetupDecides(t.setup, t.stage);
    hide FindInterface, SetDriverInterface, CurrentOk, StandardRequest, AwaitsData, Direction, Index, Value, Length;
    var last := HandlePacket(|up|, SMOOTH, true, o);
    assert w.s.up[|up|] == p;
    assert Drop(w.s.up, |up|) == up;
  }

  // ------------------------------------------------------------------------------- the gap

  /**
   * The driver alone carrying out a selection leaves the mirror exactly when the new alternate has
   * the endpoints of the old one.
   */
  lemma DriverAloneExactly(d: Driver, g: Gadget, config: Config, m: Selection, k: nat, a: nat, transfer: bool,
                           o: Outcomes)
    requires ConfigOk(config) && Alts(g.entries) == Concat(config)
    requires DriverRefines(d, config, m) && GadgetRefines(g, m)
    requires k < |config| && SetDriverInterface(d, config, k, a, transfer, o).1
    ensures var r := SetDriverInterface(d, config, k, a, transfer, o).0;
            Elements(r.list) == Elements(g.list) <==>
              Elements(config[k][r.cur[k]].ids) == Elements(config[k][d.cur[k]].ids)
  {
    SetDriverInterfaceRefines(d, config, m, k, a, transfer, o);
    var r, m' := SetDriverInterface(d, config, k, a, transfer, o).0, m[config[k][0].number := a];
    hide SetDriverInterface, ConfigOk, NoDup, SelectedIds, IdsOf;
    SameIdsExactly(config, m', m);
    forall i | 0 <= i < |config|
      ensures IdsOf(config[i], m') == Elements(config[i][r.cur[i]].ids)
      ensures IdsOf(config[i], m) == Elements(config[i][d.cur[i]].ids)
    {
      IdsOfCurrent(config, r.cur, m', i);
      IdsOfCurrent(config, d.cur, m, i);
    }
  }

  /**
   * For every configuration, interface, alternate and data stage: from bound ends a run configures
   * both, delivers the SET_INTERFACE and ends with nothing in transit, where the two ends list the
   * same endpoints exactly when the alternate has those of the one it replaces.
   */
  lemma StagedMirrorsExactly(config: Config, cur: seq<nat>, t: Transfer, k: nat, j: nat) returns (steps: seq<Step>)
    requires ConfigOk(config) && CurrentOk(config, cur) && AllDefault(config, cur) && Staged(t)
    requires FindInterface(config, Index(t.setup)) == Some(k) && FindAlternate(config[k], Value(t.setup)) == Some(j)
    ensures Walks(Fresh(config, cur), config, steps)
    ensures var w := Walk(Fresh(config, cur), config, steps);
            && NonePending(w.s.up) && w.d.cur == cur[k := j]
            && (Elements(w.d.list) == Elements(w.g.list) <==>
                 Elements(config[k][j].ids) == Elements(config[k][cur[k]].ids))
  {
    var w0 := Fresh(config, cur);
    var first := ConfiguredIsReached(config, cur);
    var (w, _) := OrderlyWalk(w0, config, BOUND, first);
    var m := Settled(config, cur, first);
    hide AllOrderly, OrderlyWalk, DriverRefines, GadgetRefines, AllDefault;
    var last := StagedIsSelected(w, config, t, ALL_ADDED);
    AddedSelects(w.d, config, k, Value(t.setup), j);
    hide Staged, FindInterface, FindAlternate, SetDriverInterface, Walks, Walk;
    DriverAloneExactly(w.d, w.g, config, m, k, Value(t.setup), true, ALL_ADDED);
    WalkOn(w0, config, first, last);
    steps := first + last;
  }

  /** SET_INTERFACE of alternate 1 on interface 0, with one byte of data. */
  const ONE_BYTE := Transfer([1, 11, 1, 0, 0, 0, 1, 0], [7], [])

  /** After such a request the gadget still lists X, while the driver lists Y. */
  lemma DataStageDiverges() returns (steps: seq<Step>)
    ensures Walks(Fresh(TWO, [0]), TWO, steps)
    ensures var w := Walk(Fresh(TWO, [0]), TWO, steps);
            NonePending(w.s.up) && w.d.cur == [1] && Elements(w.d.list) != Elements(w.g.list)
  {
    TwoOk();
    assert Staged(ONE_BYTE) && Index(ONE_BYTE.setup) == 0 && Value(ONE_BYTE.setup) == 1;
    hide ConfigOk, CurrentOk, AllDefault, FindInterface, FindAlternate, Staged;
    steps := StagedMirrorsExactly(TWO, [0], ONE_BYTE, 0, 1);
    assert Y in Elements(TWO[0][1].ids) && Y !in Elements(TWO[0][0].ids);
  }
}
