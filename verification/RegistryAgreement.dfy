/**
 * When the two registries agree, over runs in which requests may be lost, overtaken, refused or
 * carried out on one end only: exactly when what was last carried out on each end calls for the
 * same endpoints of every interface.
 */
module RegistryAgreement {
  import opened Bytes
  import opened Descriptors
  import opened ControlTransfer
  import opened Control
  import opened EndpointList
  import opened Registry
  import opened Mirror
  import opened RegistryRuns
  import opened RegistryMirror

  // ----------------------------------------------------------------- two maps, one device

  /** The endpoints a selection calls for on one interface. */
  ghost function IdsOf(row: seq<Alt>, m: Selection): set<EpId>
  {
    set j, id | 0 <= j < |row| && Selected(m, row[j]) && id in row[j].ids :: id
  }

  ghost predicate SameIds(config: Config, a: Selection, b: Selection)
  {
    forall k | 0 <= k < |config| :: IdsOf(config[k], a) == IdsOf(config[k], b)
  }

  lemma SelectedSomewhere(config: Config, m: Selection, id: EpId)
    ensures id in SelectedIds(Concat(config), m) <==> exists k :: 0 <= k < |config| && id in IdsOf(config[k], m)
  {
    var alts := Concat(config);
    if id in SelectedIds(alts, m) {
      var at :| 0 <= at < |alts| && Selected(m, alts[at]) && id in alts[at].ids;
      var i, j := Unflat(config, at);
      assert Selected(m, config[i][j]) && id in config[i][j].ids;
    }
    if k :| 0 <= k < |config| && id in IdsOf(config[k], m) {
      var j :| 0 <= j < |config[k]| && Selected(m, config[k][j]) && id in config[k][j].ids;
      var at := Flat(config, k, j);
      assert Selected(m, alts[at]) && id in alts[at].ids;
    }
  }

  /** Interfaces share no endpoint, and none is endpoint zero. */
  lemma OneInterface(config: Config, a: Selection, b: Selection, k: nat, id: EpId)
    requires ConfigOk(config) && k < |config| && id in IdsOf(config[k], a)
    ensures id !in EP0
    ensures id in SelectedIds(Concat(config), b) ==> id in IdsOf(config[k], b)
  {
    var j :| 0 <= j < |config[k]| && Selected(a, config[k][j]) && id in config[k][j].ids;
    ConfigFacts(config, k, j);
    SelectedSomewhere(config, b, id);
    if i :| 0 <= i < |config| && id in IdsOf(config[i], b) {
      var l :| 0 <= l < |config[i]| && Selected(b, config[i][l]) && id in config[i][l].ids;
      ConfigShared(config, k, j, i, l, id);
    }
  }

  /** Two selections call for the same endpoints exactly when they do so interface by interface. */
  lemma SameIdsExactly(config: Config, a: Selection, b: Selection)
    requires ConfigOk(config)
    ensures EP0 + SelectedIds(Concat(config), a) == EP0 + SelectedIds(Concat(config), b) <==> SameIds(config, a, b)
  {
    hide ConfigOk, SelectedIds, IdsOf;
    var x, y := SelectedIds(Concat(config), a), SelectedIds(Concat(config), b);
    if EP0 + x == EP0 + y {
      forall k, id | 0 <= k < |config|
        ensures id in IdsOf(config[k], a) <==> id in IdsOf(config[k], b)
      {
        SelectedSomewhere(config, a, id);
        SelectedSomewhere(config, b, id);
        if id in IdsOf(config[k], a) {
          OneInterface(config, a, b, k, id);
          assert id in EP0 + y;
        }
        if id in IdsOf(config[k], b) {
          OneInterface(config, b, a, k, id);
          assert id in EP0 + x;
        }
      }
    }
    if SameIds(config, a, b) {
      forall id
        ensures id in x <==> id in y
      {
        SelectedSomewhere(config, a, id);
        SelectedSomewhere(config, b, id);
      }
    }
  }

  lemma IdsOfCurrent(config: Config, cur: seq<nat>, m: Selection, k: nat)
    requires ConfigOk(config) && MapsCurrent(m, config, cur) && k < |config|
    ensures IdsOf(config[k], m) == Elements(config[k][cur[k]].ids)
  {
    var row := config[k];
    forall j | 0 <= j < |row| && Selected(m, row[j])
      ensures row[j] == row[cur[k]]
    {
      assert row[j].number == row[0].number == row[cur[k]].number;
      AlternatesDiffer(config, k, j, cur[k]);
    }
    assert Selected(m, row[cur[k]]);
  }

  // ------------------------------------------------------------------- what was carried out

  /** The maps of the driver and the gadget. */
  datatype Maps = Maps(driver: Selection, gadget: Selection)

  /** A selection of alternate 0 everywhere. */
  function Zeros(m: Selection): Selection
  {
    map n | n in m :: 0
  }

  /** The driver carried out the SET_INTERFACE. */
  predicate SelectsOnDriver(w: Whole, config: Config, i: nat, env: ControlEnv, transfer: bool, o: Outcomes)
    requires CurrentOk(config, w.d.cur) && Possible(w, config, HandlePacket(i, env, transfer, o))
  {
    env.memory && SetsInterface(w.s.up[i].it.body) && OnPacket(w.d, config, w.s.up[i].it.body, env, transfer, o).1
  }

  predicate SelectsOnGadget(b: Body, env: ControlEnv)
  {
    env.memory && Selects(Direction(b), b)
  }

  /** What each end's last completed operations amount to. */
  function MapsAfter(w: Whole, config: Config, maps: Maps, step: Step): Maps
    requires CurrentOk(config, w.d.cur) && Possible(w, config, step)
  {
    match step
    case Plain(_) => maps
    case HandleSetup(i, env, _) =>
      var b := w.s.gad.setups[i].it;
      if SelectsOnGadget(b, env) then maps.(gadget := maps.gadget[Index(b) := Value(b)]) else maps
    case HandlePacket(i, env, transfer, o) =>
      var b := w.s.up[i].it.body;
      if SelectsOnDriver(w, config, i, env, transfer, o) then maps.(driver := maps.driver[Index(b) := Value(b)]) else
        maps
    case HandleReply(i, _, _) =>
      if Configures(w.s.back[i].it) then maps.(gadget := Zeros(maps.driver)) else maps
    case HandleCompletion(_, _, _) => maps
  }

  /**
   * An end completes what it begins on its registry: a selection passes the gadget's test and
   * succeeds there; on the driver it comes after the configuration and succeeds, or is refused by
   * the device; a configuration succeeds. Nothing is asked of the channels.
   */
  ghost predicate Finishes(w: Whole, config: Config, on: Phase, step: Step)
    requires CurrentOk(config, w.d.cur) && Possible(w, config, step)
  {
    match step
    case Plain(_) => true
    case HandleSetup(i, env, o) =>
      var b := w.s.gad.setups[i].it;
      SelectsOnGadget(b, env) ==> Selectable(w.g, Index(b), Value(b)) && SetInterface(w.g, Index(b), Value(b), o).1
    case HandlePacket(i, env, transfer, o) =>
      if SelectsOnDriver(w, config, i, env, transfer, o) then on.driver
      else env.memory && SetsInterface(w.s.up[i].it.body) ==>
             var b := w.s.up[i].it.body;
             Refuses(config[FindInterface(config, Index(b)).value], Value(b), transfer)
    case HandleReply(i, _, o) => Configures(w.s.back[i].it) ==> ConfigReply(w.g, o).1
    case HandleCompletion(i, _, o) => Completes(w.s.drv[i].it) ==> ConfigureDriver(w.d, config, o).1
  }

  ghost predicate AllFinish(w: Whole, config: Config, on: Phase, steps: seq<Step>)
    requires CurrentOk(config, w.d.cur)
    decreases |steps|
  {
    steps == [] ||
    (Possible(w, config, steps[0]) && Finishes(w, config, on, steps[0]) &&
     AllFinish(Next(w, config, steps[0]), config, PhaseAfter(w, on, steps[0]), steps[1..]))
  }

  /** Where such a run gets to, with the phase and the maps. */
  ghost function Follow(w: Whole, config: Config, on: Phase, maps: Maps, steps: seq<Step>): (r: (Whole, Phase, Maps))
    requires CurrentOk(config, w.d.cur) && AllFinish(w, config, on, steps)
    ensures Walks(w, config, steps) && r.0 == Walk(w, config, steps)
    decreases |steps|
  {
    if steps == [] then (w, on, maps)
    else
      Follow(Next(w, config, steps[0]), config, PhaseAfter(w, on, steps[0]), MapsAfter(w, config, maps, steps[0]),
        steps[1..])
  }

  /** Each registry refines its own map. */
  ghost predicate Tracked(w: Whole, config: Config, on: Phase, maps: Maps)
  {
    Sound(w, config) && DriverLists(w.d, config, maps.driver, on.driver) && GadgetRefines(w.g, maps.gadget)
  }

  lemma NumbersKnown(config: Config, cur: seq<nat>, m: Selection, g: Gadget)
    requires ConfigOk(config) && MapsCurrent(m, config, cur) && Alts(g.entries) == Concat(config)
    ensures forall k | 0 <= k < |g.entries| :: g.entries[k].alt.number in m
  {
    forall k | 0 <= k < |g.entries|
      ensures g.entries[k].alt.number in m
    {
      assert Alts(g.entries)[k] == g.entries[k].alt;
      var i, j := Unflat(config, k);
      assert config[i][j].number == config[i][0].number == config[i][cur[i]].number;
    }
  }

  lemma SetupTracked(w: Whole, config: Config, on: Phase, maps: Maps, i: nat, env: ControlEnv, o: Outcomes)
    requires Tracked(w, config, on, maps) && i < |w.s.gad.setups| && Finishes(w, config, on, HandleSetup(i, env, o))
    ensures Tracked(AfterSetup(w, i, env, o), config, on, MapsAfter(w, config, maps, HandleSetup(i, env, o)))
  {
    hide Sound, DriverLists, GadgetRefines, SetInterface, Selectable, Selects, AfterRunSetup;
    SetupSound(w, config, i, env, o);
    var b := w.s.gad.setups[i].it;
    if SelectsOnGadget(b, env) {
      SetInterfaceRefines(w.g, maps.gadget, Index(b), Value(b), o);
    }
  }

  lemma PacketTracked(w: Whole, config: Config, on: Phase, maps: Maps, i: nat, env: ControlEnv, transfer: bool,
                      o: Outcomes)
    requires Tracked(w, config, on, maps) && Possible(w, config, HandlePacket(i, env, transfer, o))
    requires Finishes(w, config, on, HandlePacket(i, env, transfer, o))
    ensures Tracked(AfterPacket(w, config, i, env, transfer, o), config, on,
                    MapsAfter(w, config, maps, HandlePacket(i, env, transfer, o)))
  {
    assert ConfigOk(config);
    hide Sound, ConfigOk, DriverLists, GadgetRefines, AfterToDriver, SetDriverInterface, StandardRequest;
    PacketSound(w, config, i, env, transfer, o);
    var b := w.s.up[i].it.body;
    if SelectsOnDriver(w, config, i, env, transfer, o) {
      var k := FindInterface(config, Index(b)).value;
      PacketRefines(w.d, config, maps.driver, k, Value(b), transfer, o);
    } else if env.memory && SetsInterface(b) {
      var n := RefusedChangesNothing(w.d, config, FindInterface(config, Index(b)).value, Value(b), transfer, o);
    }
  }

  lemma ReplyTracked(w: Whole, config: Config, on: Phase, maps: Maps, i: nat, env: ControlEnv, o: AllOutcomes)
    requires Tracked(w, config, on, maps) && i < |w.s.back| && Finishes(w, config, on, HandleReply(i, env, o))
    ensures var step := HandleReply(i, env, o);
            Tracked(AfterReply(w, i, env, o), config, PhaseAfter(w, on, step), MapsAfter(w, config, maps, step))
  {
    ReplySound(w, config, i, env, o);
    if Configures(w.s.back[i].it) {
      NumbersKnown(config, w.d.cur, maps.driver, w.g);
      ConfigReplyRefines(w.g, Zeros(maps.driver), o);
    }
  }

  lemma CompletionTracked(w: Whole, config: Config, on: Phase, maps: Maps, i: nat, env: ControlEnv, o: AllOutcomes)
    requires Tracked(w, config, on, maps) && D.Done(w.s.drv, i) && Finishes(w, config, on, HandleCompletion(i, env, o))
    ensures var step := HandleCompletion(i, env, o);
            Tracked(AfterCompletion(w, config, i, env, o), config, PhaseAfter(w, on, step),
              MapsAfter(w, config, maps, step))
  {
    CompletionSound(w, config, i, env, o);
    if Completes(w.s.drv[i].it) {
      ConfiguredAgain(w.d, config, on.driver, maps.driver, o);
    }
  }

  lemma StepTracked(w: Whole, config: Config, on: Phase, maps: Maps, step: Step)
    requires Tracked(w, config, on, maps) && Possible(w, config, step) && Finishes(w, config, on, step)
    ensures Tracked(Next(w, config, step), config, PhaseAfter(w, on, step), MapsAfter(w, config, maps, step))
  {
    match step {
      case Plain(a) => PlainSound(w, config, a);
      case HandleSetup(i, env, o) => SetupTracked(w, config, on, maps, i, env, o);
      case HandlePacket(i, env, transfer, o) => PacketTracked(w, config, on, maps, i, env, transfer, o);
      case HandleReply(i, env, o) => ReplyTracked(w, config, on, maps, i, env, o);
      case HandleCompletion(i, env, o) => CompletionTracked(w, config, on, maps, i, env, o);
    }
    hide Sound, AfterSetup, AfterPacket, AfterReply, AfterCompletion, Apply, DriverLists, GadgetRefines;
  }

  lemma {:induction false} FollowTracked(w: Whole, config: Config, on: Phase, maps: Maps, steps: seq<Step>)
    requires Tracked(w, config, on, maps) && AllFinish(w, config, on, steps)
    ensures var (r, now, m) := Follow(w, config, on, maps, steps); Tracked(r, config, now, m)
    decreases |steps|
  {
    if steps != [] {
      StepTracked(w, config, on, maps, steps[0]);
      hide Tracked, Finishes, Possible, PhaseAfter, MapsAfter;
      FollowTracked(Next(w, config, steps[0]), config, PhaseAfter(w, on, steps[0]),
        MapsAfter(w, config, maps, steps[0]), steps[1..]);
    }
  }

  /** What both ends start from: the driver's current alternates, and nothing on the gadget. */
  ghost function StartMaps(config: Config, cur: seq<nat>): Maps
    requires CurrentOk(config, cur)
  {
    Maps(SelectionOf(config, cur), map[])
  }

  /**
   * Over every such run from bound ends, once the driver is configured, both lists hold the same
   * endpoints exactly when the two maps call for the same endpoints of every interface. So a
   * request that was lost, overtaken, refused or carried out on one end only is made up for
   * exactly when later ones bring the maps together.
   */
  lemma ListsAgreeExactly(config: Config, cur: seq<nat>, steps: seq<Step>)
    requires ConfigOk(config) && CurrentOk(config, cur) && AllFinish(Fresh(config, cur), config, BOUND, steps)
    ensures var (w, on, maps) := Follow(Fresh(config, cur), config, BOUND, StartMaps(config, cur), steps);
            && NoDup(w.d.list) && NoDup(w.g.list)
            && (on.driver ==> (Elements(w.d.list) == Elements(w.g.list) <==> SameIds(config, maps.driver, maps.gadget)))
  {
    FreshLags(config, cur);
    FollowTracked(Fresh(config, cur), config, BOUND, StartMaps(config, cur), steps);
    var (w, on, maps) := Follow(Fresh(config, cur), config, BOUND, StartMaps(config, cur), steps);
    SameIdsExactly(config, maps.driver, maps.gadget);
  }
}
