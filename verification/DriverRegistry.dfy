/** The driver's endpoint list (driver.c), updated in place as alternates are selected. */
module DriverRegistry {
  import opened Bytes
  import opened Descriptors
  import opened EndpointList
  import opened Registry
  import opened Mirror

  type Interfaces = seq<seq<Setting>>

  ghost predicate RowsUsable(interfaces: Interfaces)
  {
    forall i | 0 <= i < |interfaces| :: AllUsable(interfaces[i])
  }

  function ConfigOf(interfaces: Interfaces): (config: Config)
    requires RowsUsable(interfaces)
    ensures |config| == |interfaces|
  {
    seq(|interfaces|, i requires 0 <= i < |interfaces| => AltsOf(interfaces[i]))
  }

  lemma DisableEveryNext(list: seq<EpId>, alts: seq<Alt>, j: nat)
    requires j < |alts|
    ensures DisableEvery(list, alts[..j + 1]) == RemoveAll(DisableEvery(list, alts[..j]), alts[j].ids)
  {
    assert alts[..j + 1][..j] == alts[..j];
  }

  lemma {:induction false} DisableEveryConcat(list: seq<EpId>, a: seq<Alt>, b: seq<Alt>)
    ensures DisableEvery(list, a + b) == DisableEvery(DisableEvery(list, a), b)
  {
    if b == [] {
      assert a + b == a;
    } else {
      assert (a + b)[..|a + b| - 1] == a + b[..|b| - 1];
      DisableEveryConcat(list, a, b[..|b| - 1]);
    }
  }

  lemma DisableEveryRow(list: seq<EpId>, config: Config, i: nat)
    requires i < |config|
    ensures DisableEvery(list, Concat(config[..i + 1])) ==
              DisableEvery(DisableEvery(list, Concat(config[..i])), config[i])
  {
    assert config[..i + 1][..i] == config[..i];
    DisableEveryConcat(list, Concat(config[..i]), config[i]);
  }

  /** driver_state, with the kernel's interfaces and their cur_altsetting. */
  class DriverState {
    var eplist: seq<EpId>
    const interfaces: Interfaces
    const current: array<nat>

    ghost predicate Valid()
      reads this, current
    {
      && RowsUsable(interfaces)
      && current.Length == |interfaces|
      && forall i | 0 <= i < |interfaces| :: current[i] < |interfaces[i]|
    }

    ghost function State(): Driver
      reads this, current
      requires Valid()
    {
      Driver(eplist, current[..])
    }

    ghost function Conf(): Config
      reads this, current
      requires Valid()
      ensures CurrentOk(Conf(), State().cur)
    {
      ConfigOf(interfaces)
    }

    /** driver_probe: the endpoint-zero pair, with the alternates the kernel selected. */
    constructor (interfaces: Interfaces, start: seq<nat>)
      requires RowsUsable(interfaces) && |start| == |interfaces|
      requires forall i | 0 <= i < |interfaces| :: start[i] < |interfaces[i]|
      ensures Valid() && fresh(current) && this.interfaces == interfaces
      ensures State() == Driver([EP0_OUT, EP0_IN], start)
    {
      this.interfaces := interfaces;
      current := new nat[|start|](i requires 0 <= i < |start| => start[i]);
      eplist := [EP0_OUT, EP0_IN];
      new;
      assert current[..] == start;
    }

    /** disable_driver_interface */
    method DisableInterface(setting: Setting)
      requires Valid() && Usable(setting)
      modifies `eplist
      ensures Valid() && eplist == RemoveAll(old(eplist), Ids(setting))
    {
      ghost var list, ids := eplist, Ids(setting);
      for ep := 0 to setting.desc[4]
        invariant eplist == RemoveAll(list, ids[..ep])
      {
        assert ids[..ep + 1][..ep] == ids[..ep];
        var id := IdOf(setting.endpoints[ep]);
        var at := FindEndpoint(eplist, id);
        if at.Some? {
          RemoveAt(eplist, id, at.value);
          eplist := eplist[..at.value] + eplist[at.value + 1..];
        } else {
          RemoveAbsent(eplist, id);
        }
      }
      assert ids[..setting.desc[4]] == ids;
    }

    /** enable_driver_interface: endpoint `ep` meets the outcome o(ep), and stays listed if its first URB fails. */
    method EnableInterface(setting: Setting, o: Outcomes) returns (ok: bool)
      requires Valid() && Usable(setting)
      modifies `eplist
      ensures Valid() && (eplist, ok) == Enable(DriverSide, old(eplist), Ids(setting), 0, o)
    {
      ghost var list, ids := eplist, Ids(setting);
      for ep := 0 to setting.desc[4]
        invariant Enable(DriverSide, eplist, ids, ep, o) == Enable(DriverSide, list, ids, 0, o)
      {
        var id := IdOf(setting.endpoints[ep]);
        if o(ep) == NotAdded {
          return false;
        }
        eplist := [id] + eplist;
        if id.dir == In && id.kind != Ctrl {
          if o(ep) == SubmitFailed {
            return false;
          }
        }
      }
      ok := true;
    }

    /**
     * set_driver_interface on interface index `i`, which the kernel found for the number; `transfer`
     * is whether usb_set_interface succeeds.
     */
    method SetAlternate(i: nat, alternative: nat, transfer: bool, o: Outcomes) returns (ok: bool)
      requires Valid() && i < |interfaces|
      modifies `eplist, current
      ensures Valid()
      ensures (State(), ok) == SetDriverInterface(old(State()), Conf(), i, alternative, transfer, o)
      ensures !transfer || (forall s | s in interfaces[i] :: INTERFACE_SIZE <= |s.desc| && s.desc[3] != alternative) ==>
                !ok && eplist == old(eplist) && current[..] == old(current[..])
      ensures forall m | ok && ConfigOk(Conf()) && old(DriverRefines(State(), Conf(), m)) ::
                DriverRefines(State(), Conf(), m[Conf()[i][0].number := alternative])
    {
      ghost var d, config := State(), Conf();
      ghost var n := RefusedChangesNothing(d, config, i, alternative, transfer, o);
      var prev := interfaces[i][current[i]];
      var next := FindSetting(interfaces[i], alternative);
      assert config[i] == AltsOf(interfaces[i]);
      if next.None? || !transfer {
        return false;
      }
      current[i] := next.value;
      assert State().cur == d.cur[i := next.value];
      DisableInterface(prev);
      ok := EnableInterface(interfaces[i][next.value], o);
      forall m | ok && ConfigOk(config) && DriverRefines(d, config, m)
        ensures DriverRefines(State(), config, m[config[i][0].number := alternative])
      {
        SetDriverInterfaceRefines(d, config, m, i, alternative, transfer, o);
      }
    }

    /** usb_ifnum_to_if */
    method FindIndex(n: nat) returns (i: Option<nat>)
      requires Valid()
      ensures (forall k | 0 <= k < |Conf()| :: Conf()[k] != []) && i == FindInterface(Conf(), n)
    {
      RowNumbers(interfaces);
      i := FindNumber(interfaces, n, Conf());
    }

    /** The inner loop of disable_active_driver_interface: every alternate of one interface. */
    method DisableAlternates(i: nat)
      requires Valid() && i < |interfaces|
      modifies `eplist
      ensures Valid() && eplist == DisableEvery(old(eplist), AltsOf(interfaces[i]))
    {
      ghost var list, row := eplist, AltsOf(interfaces[i]);
      for j := 0 to |interfaces[i]|
        invariant eplist == DisableEvery(list, row[..j])
      {
        DisableEveryNext(list, row, j);
        DisableInterface(interfaces[i][j]);
      }
      assert row[..|row|] == row;
    }

    /** disable_active_driver_interface: every alternate of every interface. */
    method DisableActiveInterface()
      requires Valid()
      modifies `eplist
      ensures Valid() && eplist == DisableEvery(old(eplist), Concat(Conf()))
    {
      ghost var list, config := eplist, Conf();
      for i := 0 to |interfaces|
        invariant eplist == DisableEvery(list, Concat(config[..i]))
      {
        DisableEveryRow(list, config, i);
        DisableAlternates(i);
      }
      assert config[..|config|] == config;
    }

    /** enable_default_driver_interface */
    method EnableDefaultInterface(o: AllOutcomes) returns (ok: bool)
      requires Valid()
      modifies `eplist
      ensures Valid() && (State(), ok) == EnableCurrent(old(State()), Conf(), 0, o)
    {
      ghost var d, config := State(), Conf();
      for i := 0 to |interfaces|
        invariant current[..] == d.cur
        invariant EnableCurrent(State(), config, i, o) == EnableCurrent(d, config, 0, o)
      {
        assert config[i] == AltsOf(interfaces[i]);
        ok := EnableInterface(interfaces[i][current[i]], OutcomesAt(o, i));
        if !ok {
          return;
        }
      }
      ok := true;
    }

    /** The part of ep_driver_recv_usb_ctrl that a completed SET_CONFIGURATION triggers. */
    method ConfigurationSet(o: AllOutcomes) returns (ok: bool)
      requires Valid()
      modifies `eplist
      ensures Valid() && (State(), ok) == ConfigureDriver(old(State()), Conf(), o)
    {
      DisableActiveInterface();
      ok := EnableDefaultInterface(o);
    }
  }

  /** usb_altnum_to_altsetting */
  method FindSetting(settings: seq<Setting>, a: nat) returns (j: Option<nat>)
    requires AllUsable(settings)
    ensures j == FindAlternate(AltsOf(settings), a)
  {
    ghost var alts := AltsOf(settings);
    for k := 0 to |settings|
      invariant forall l | 0 <= l < k :: alts[l].alternate != a
    {
      if settings[k].desc[3] == a {
        FirstAlternate(alts, a, k);
        return Some(k);
      }
    }
    j := None;
  }

  lemma RowNumber(interfaces: Interfaces, k: nat)
    requires RowsUsable(interfaces) && k < |interfaces| && interfaces[k] != []
    ensures ConfigOf(interfaces)[k] != [] && ConfigOf(interfaces)[k][0].number == interfaces[k][0].desc[2]
  {
    assert ConfigOf(interfaces)[k] == AltsOf(interfaces[k]) && AltsOf(interfaces[k])[0] == AltOf(interfaces[k][0]);
  }

  /** The numbers of the first alternates, which are those of their interfaces. */
  lemma RowNumbers(interfaces: Interfaces)
    requires RowsUsable(interfaces) && forall k | 0 <= k < |interfaces| :: interfaces[k] != []
    ensures forall k | 0 <= k < |interfaces| :: ConfigOf(interfaces)[k] != []
    ensures forall k | 0 <= k < |interfaces| :: INTERFACE_SIZE <= |interfaces[k][0].desc|
    ensures forall k | 0 <= k < |interfaces| :: ConfigOf(interfaces)[k][0].number == interfaces[k][0].desc[2]
  {
    forall k | 0 <= k < |interfaces|
      ensures ConfigOf(interfaces)[k] != [] && INTERFACE_SIZE <= |interfaces[k][0].desc|
      ensures ConfigOf(interfaces)[k][0].number == interfaces[k][0].desc[2]
    {
      assert AllUsable(interfaces[k]) && Usable(interfaces[k][0]);
      RowNumber(interfaces, k);
    }
  }

  method FindNumber(interfaces: Interfaces, n: nat, ghost config: Config) returns (i: Option<nat>)
    requires |config| == |interfaces|
    requires forall k | 0 <= k < |config| :: config[k] != [] && interfaces[k] != []
    requires forall k | 0 <= k < |config| :: INTERFACE_SIZE <= |interfaces[k][0].desc|
    requires forall k | 0 <= k < |config| :: config[k][0].number == interfaces[k][0].desc[2]
    ensures i == FindInterface(config, n)
  {
    hide FindInterface;
    for k := 0 to |interfaces|
      invariant forall l | 0 <= l < k :: config[l][0].number != n
    {
      if interfaces[k][0].desc[2] == n {
        FirstInterface(config, n, k);
        return Some(k);
      }
    }
    i := None;
  }

  lemma {:induction false} FirstInterface(config: Config, n: nat, k: nat)
    requires forall i | 0 <= i < |config| :: config[i] != []
    requires k < |config| && config[k][0].number == n && forall l | 0 <= l < k :: config[l][0].number != n
    ensures FindInterface(config, n) == Some(k)
  {
    if k > 0 {
      FirstInterface(config[1..], n, k - 1);
    }
  }

  lemma {:induction false} FirstAlternate(alts: seq<Alt>, a: nat, k: nat)
    requires k < |alts| && alts[k].alternate == a && forall l | 0 <= l < k :: alts[l].alternate != a
    ensures FindAlternate(alts, a) == Some(k)
  {
    if k > 0 {
      FirstAlternate(alts[1..], a, k - 1);
    }
  }
}
