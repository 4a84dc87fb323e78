/**
 * Both registries refine one map from interface number to selected alternate, and therefore
 * mirror each other.
 */
module Mirror {
  import opened Bytes
  import opened Descriptors
  import opened EndpointList
  import opened Registry
  import opened RegistryInvariant

  // ------------------------------------------------------------------- driver

  /** The driver's list and, per interface, the index of cur_altsetting. */
  datatype Driver = Driver(list: seq<EpId>, cur: seq<nat>)

  type Config = seq<seq<Alt>>

  /** Interfaces have alternates of one number, and different numbers. */
  ghost predicate ConfigOk(config: Config)
  {
    && WellFormedAlts(Concat(config))
    && (forall i | 0 <= i < |config| :: config[i] != [])
    && (forall i, j | 0 <= i < |config| && 0 <= j < |config[i]| :: config[i][j].number == config[i][0].number)
    && (forall i, k | 0 <= i < k < |config| :: config[i][0].number != config[k][0].number)
  }

  ghost predicate CurrentOk(config: Config, cur: seq<nat>)
  {
    |cur| == |config| && forall i | 0 <= i < |config| :: cur[i] < |config[i]|
  }

  /** usb_ifnum_to_if */
  function FindInterface(config: Config, n: nat): (i: Option<nat>)
    requires forall i | 0 <= i < |config| :: config[i] != []
    ensures i.Some? ==> i.value < |config| && config[i.value][0].number == n
    ensures i.None? ==> forall k | 0 <= k < |config| :: config[k][0].number != n
  {
    if config == [] then None
    else if config[0][0].number == n then Some(0)
    else match FindInterface(config[1..], n)
         case None =>
           assert forall k | 0 < k < |config| :: config[k] == config[1..][k - 1];
           None
         case Some(i) => Some(i + 1)
  }

  /** usb_altnum_to_altsetting */
  function FindAlternate(alts: seq<Alt>, a: nat): (j: Option<nat>)
    ensures j.Some? ==> j.value < |alts| && alts[j.value].alternate == a
    ensures j.None? ==> forall k | 0 <= k < |alts| :: alts[k].alternate != a
  {
    if alts == [] then None
    else if alts[0].alternate == a then Some(0)
    else match FindAlternate(alts[1..], a)
         case None =>
           assert forall k | 0 < k < |alts| :: alts[k] == alts[1..][k - 1];
           None
         case Some(j) => Some(j + 1)
  }

  /**
   * set_driver_interface on interface index `i`: usb_set_interface fails when the alternate does
   * not exist or the transfer fails, and otherwise moves cur_altsetting.
   */
  function SetDriverInterface(d: Driver, config: Config, i: nat, a: nat, transfer: bool, o: Outcomes)
    : (r: (Driver, bool))
    requires CurrentOk(config, d.cur) && i < |config|
    ensures CurrentOk(config, r.0.cur)
  {
    match FindAlternate(config[i], a)
    case None => (d, false)
    case Some(j) =>
      if !transfer then (d, false)
      else
        var (list, ok) := Enable(DriverSide, RemoveAll(d.list, config[i][d.cur[i]].ids), config[i][j].ids, 0, o);
        (Driver(list, d.cur[i := j]), ok)
  }

  /** SET_INTERFACE comes to nothing: the interface has no such alternate, or the device refuses the transfer. */
  predicate Refuses(row: seq<Alt>, a: nat, transfer: bool)
  {
    !transfer || forall j | 0 <= j < |row| :: row[j].alternate != a
  }

  /**
   * A refused selection is a failure that leaves list and current alternates as they were. Any
   * other moves the current alternate, lists some of its endpoints, newest first, before what the
   * old alternate leaves, and succeeds only with all of them.
   */
  lemma RefusedChangesNothing(d: Driver, config: Config, i: nat, a: nat, transfer: bool, o: Outcomes) returns (n: nat)
    requires CurrentOk(config, d.cur) && i < |config|
    ensures var (r, ok) := SetDriverInterface(d, config, i, a, transfer, o);
            if Refuses(config[i], a, transfer) then !ok && r.list == d.list && r.cur == d.cur
            else
              var j := r.cur[i];
              && r.cur == d.cur[i := j] && config[i][j].alternate == a && n <= |config[i][j].ids|
              && r.list == Reverse(config[i][j].ids[..n]) + RemoveAll(d.list, config[i][d.cur[i]].ids)
              && (ok ==> n == |config[i][j].ids|) && (NothingFails(o) ==> ok)
  {
    n := 0;
    var j := FindAlternate(config[i], a);
    if j.Some? && transfer {
      n := EnableFacts(DriverSide, RemoveAll(d.list, config[i][d.cur[i]].ids), config[i][j.value].ids, 0, o);
      assert config[i][j.value].ids[0..n] == config[i][j.value].ids[..n];
    }
  }

  /** disable_active_driver_interface: every alternate of the first `k` interfaces. */
  function DisableEvery(list: seq<EpId>, alts: seq<Alt>): seq<EpId>
  {
    if alts == [] then list else RemoveAll(DisableEvery(list, alts[..|alts| - 1]), alts[|alts| - 1].ids)
  }

  /** enable_default_driver_interface from interface `k` on. */
  function EnableCurrent(d: Driver, config: Config, k: nat, o: AllOutcomes): (r: (Driver, bool))
    requires CurrentOk(config, d.cur) && k <= |config|
    ensures r.0.cur == d.cur
    decreases |config| - k
  {
    if k == |config| then (d, true)
    else
      var (list, ok) := Enable(DriverSide, d.list, config[k][d.cur[k]].ids, 0, OutcomesAt(o, k));
      if ok then EnableCurrent(Driver(list, d.cur), config, k + 1, o) else (Driver(list, d.cur), false)
  }

  /** What the completion of SET_CONFIGURATION triggers on the driver. */
  function ConfigureDriver(d: Driver, config: Config, o: AllOutcomes): (r: (Driver, bool))
    requires CurrentOk(config, d.cur)
    ensures r.0.cur == d.cur
  {
    EnableCurrent(Driver(DisableEvery(d.list, Concat(config)), d.cur), config, 0, o)
  }

  // --------------------------------------------------------------- refinement

  /** The endpoints of the first `k` interfaces' current alternates. */
  ghost function CurrentIds(config: Config, cur: seq<nat>, k: nat): set<EpId>
    requires CurrentOk(config, cur) && k <= |config|
  {
    set i, id | 0 <= i < k && id in config[i][cur[i]].ids :: id
  }

  /** The map the current alternates of the first `k` interfaces make up. */
  function SelectionUpTo(config: Config, cur: seq<nat>, k: nat): (m: Selection)
    requires |cur| == |config| && forall i | 0 <= i < |config| :: cur[i] < |config[i]|
    requires k <= |config|
  {
    if k == 0 then map[] else
      SelectionUpTo(config, cur, k - 1)[config[k - 1][0].number := config[k - 1][cur[k - 1]].alternate]
  }

  ghost function SelectionOf(config: Config, cur: seq<nat>): Selection
    requires CurrentOk(config, cur)
  {
    SelectionUpTo(config, cur, |config|)
  }

  /** The driver's list is duplicate-free and holds endpoint zero and the current alternates, nothing else. */
  ghost predicate DriverRefines(d: Driver, config: Config, m: Selection)
  {
    && CurrentOk(config, d.cur)
    && NoDup(d.list)
    && (forall i | 0 <= i < |config| ::
          config[i][d.cur[i]].number in m && m[config[i][d.cur[i]].number] == config[i][d.cur[i]].alternate)
    && Elements(d.list) == EP0 + SelectedIds(Concat(config), m)
  }

  ghost predicate GadgetRefines(g: Gadget, m: Selection)
  {
    && Invariant(g)
    && (forall i | 0 <= i < |g.entries| :: g.entries[i].active <==> Selected(m, g.entries[i].alt))
    && Elements(g.list) == EP0 + SelectedIds(Alts(g.entries), m)
  }

  /** Two registries that refine the same map over the same settings list the same endpoints, each once. */
  lemma Mirrored(d: Driver, g: Gadget, config: Config, m: Selection)
    requires DriverRefines(d, config, m) && GadgetRefines(g, m) && Alts(g.entries) == Concat(config)
    ensures Elements(d.list) == Elements(g.list) && NoDup(d.list) && NoDup(g.list)
  {
  }

  // ------------------------------------------------- positions in the flat list

  /** Where alternate `j` of interface `i` stands in the flat list of settings. */
  lemma {:induction false} Flat(config: Config, i: nat, j: nat) returns (at: nat)
    requires i < |config| && j < |config[i]|
    ensures at < |Concat(config)| && Concat(config)[at] == config[i][j]
    decreases |config|
  {
    var last := |config| - 1;
    if i == last {
      at := |Concat(config[..last])| + j;
    } else {
      at := Flat(config[..last], i, j);
    }
  }

  lemma {:induction false} Unflat(config: Config, at: nat) returns (i: nat, j: nat)
    requires at < |Concat(config)|
    ensures i < |config| && j < |config[i]| && Concat(config)[at] == config[i][j]
    decreases |config|
  {
    var last := |config| - 1;
    var before := Concat(config[..last]);
    if at < |before| {
      i, j := Unflat(config[..last], at);
      assert config[..last][i] == config[i];
    } else {
      i, j := last, at - |before|;
    }
  }

  /** Facts of ConfigOk in terms of interface and alternate indices. */
  lemma ConfigFacts(config: Config, i: nat, j: nat)
    requires ConfigOk(config) && i < |config| && j < |config[i]|
    ensures NoDup(config[i][j].ids) && EP0_IN !in config[i][j].ids && EP0_OUT !in config[i][j].ids
  {
    var at := Flat(config, i, j);
  }

  lemma ConfigShared(config: Config, i: nat, j: nat, k: nat, l: nat, id: EpId)
    requires ConfigOk(config) && i < |config| && j < |config[i]| && k < |config| && l < |config[k]|
    requires id in config[i][j].ids && id in config[k][l].ids
    ensures i == k
  {
    var a := Flat(config, i, j);
    var b := Flat(config, k, l);
    assert id in Concat(config)[a].ids && id in Concat(config)[b].ids;
    assert config[i][j].number == config[k][l].number;
  }

  lemma AlternatesDiffer(config: Config, i: nat, j: nat, l: nat)
    requires ConfigOk(config) && i < |config| && j < |config[i]| && l < |config[i]|
    requires config[i][j].alternate == config[i][l].alternate
    ensures config[i][j] == config[i][l]
  {
    var a := Flat(config, i, j);
    var b := Flat(config, i, l);
    assert config[i][j].number == config[i][l].number;
    if a != b {
      DistinctAlts(Concat(config), a, b);
    }
  }

  lemma DistinctAlts(alts: seq<Alt>, a: nat, b: nat)
    requires WellFormedAlts(alts) && a < |alts| && b < |alts| && a != b
    ensures alts[a].number != alts[b].number || alts[a].alternate != alts[b].alternate
  {
    var lo, hi := if a < b then a else b, if a < b then b else a;
    assert lo < hi;
  }

  lemma InterfacesDiffer(config: Config, i: nat, k: nat)
    requires ConfigOk(config) && i < |config| && k < |config| && i != k
    ensures config[i] != [] && config[k] != [] && config[i][0].number != config[k][0].number
  {
    var lo, hi := if i < k then i else k, if i < k then k else i;
    assert lo < hi;
  }

  /** The selected settings are the current ones. */
  lemma SelectedAreCurrent(config: Config, cur: seq<nat>, m: Selection)
    requires ConfigOk(config) && CurrentOk(config, cur)
    requires forall i | 0 <= i < |config| ::
               config[i][cur[i]].number in m && m[config[i][cur[i]].number] == config[i][cur[i]].alternate
    ensures SelectedIds(Concat(config), m) == CurrentIds(config, cur, |config|)
  {
    var alts := Concat(config);
    forall id | id in SelectedIds(alts, m)
      ensures id in CurrentIds(config, cur, |config|)
    {
      var at :| 0 <= at < |alts| && Selected(m, alts[at]) && id in alts[at].ids;
      var i, j := Unflat(config, at);
      assert config[i][j].number == config[i][0].number == config[i][cur[i]].number;
      AlternatesDiffer(config, i, j, cur[i]);
    }
    forall id | id in CurrentIds(config, cur, |config|)
      ensures id in SelectedIds(alts, m)
    {
      var i :| 0 <= i < |config| && id in config[i][cur[i]].ids;
      var at := Flat(config, i, cur[i]);
      assert Selected(m, alts[at]) && id in alts[at].ids;
    }
  }

  // ------------------------------------------------------ driver: SET_INTERFACE

  /**
   * A successful set_driver_interface leaves exactly the list it found without the old alternate's
   * endpoints, behind the new alternate's, and every other interface untouched; the map is updated
   * at one point. The new alternate may equal the old.
   */
  lemma SetDriverInterfaceRefines(d: Driver, config: Config, m: Selection, i: nat, a: nat, transfer: bool, o: Outcomes)
    requires ConfigOk(config) && DriverRefines(d, config, m) && i < |config|
    requires SetDriverInterface(d, config, i, a, transfer, o).1
    ensures var r := SetDriverInterface(d, config, i, a, transfer, o).0;
            var j := r.cur[i];
            && config[i][j].alternate == a
            && r.cur == d.cur[i := j]
            && r.list == Reverse(config[i][j].ids) + Without(d.list, Elements(config[i][d.cur[i]].ids))
            && DriverRefines(r, config, m[config[i][0].number := a])
  {
    var j := FindAlternate(config[i], a).value;
    DriverListAfter(d, config, i, a, transfer, o);
    var r := SetDriverInterface(d, config, i, a, transfer, o).0;
    hide SetDriverInterface, Enable;
    DriverMapAfter(d, config, m, i, j);
    DriverElementsAfter(d, config, m, i, j);
    SelectedAreCurrent(config, r.cur, m[config[i][0].number := a]);
  }

  lemma DriverListAfter(d: Driver, config: Config, i: nat, a: nat, transfer: bool, o: Outcomes)
    requires CurrentOk(config, d.cur) && NoDup(d.list) && i < |config|
    requires SetDriverInterface(d, config, i, a, transfer, o).1
    ensures var j := FindAlternate(config[i], a);
            && j.Some?
            && SetDriverInterface(d, config, i, a, transfer, o).0 ==
               Driver(Reverse(config[i][j.value].ids) + Without(d.list, Elements(config[i][d.cur[i]].ids)),
                      d.cur[i := j.value])
  {
    var j := FindAlternate(config[i], a).value;
    var prev, next := config[i][d.cur[i]].ids, config[i][j].ids;
    RemoveAllIsWithout(d.list, prev);
    var n := EnableFacts(DriverSide, RemoveAll(d.list, prev), next, 0, o);
    assert next[0..n] == next;
  }

  lemma DriverMapAfter(d: Driver, config: Config, m: Selection, i: nat, j: nat)
    requires ConfigOk(config) && DriverRefines(d, config, m) && i < |config| && j < |config[i]|
    ensures var cur, m' := d.cur[i := j], m[config[i][0].number := config[i][j].alternate];
            forall k | 0 <= k < |config| ::
              config[k][cur[k]].number in m' && m'[config[k][cur[k]].number] == config[k][cur[k]].alternate
  {
    var cur, m' := d.cur[i := j], m[config[i][0].number := config[i][j].alternate];
    forall k | 0 <= k < |config|
      ensures config[k][cur[k]].number in m' && m'[config[k][cur[k]].number] == config[k][cur[k]].alternate
    {
      assert config[k][cur[k]].number == config[k][0].number;
      if k != i {
        InterfacesDiffer(config, i, k);
      }
    }
  }

  lemma DriverElementsAfter(d: Driver, config: Config, m: Selection, i: nat, j: nat)
    requires ConfigOk(config) && DriverRefines(d, config, m) && i < |config| && j < |config[i]|
    ensures var list := Reverse(config[i][j].ids) + Without(d.list, Elements(config[i][d.cur[i]].ids));
            && NoDup(list)
            && Elements(list) == EP0 + CurrentIds(config, d.cur[i := j], |config|)
  {
    var prev, next := config[i][d.cur[i]].ids, config[i][j].ids;
    var kept := Without(d.list, Elements(prev));
    SelectedAreCurrent(config, d.cur, m);
    KeptAreOthers(d, config, i);
    WithoutNoDup(d.list, Elements(prev));
    ConfigFacts(config, i, j);
    NextIsNew(d, config, i, j);
    SameOthers(config, d.cur, i, j);
    CurrentSplit(config, d.cur[i := j], i);
    hide NoDup, Without, WellFormedAlts, DriverRefines, ConfigOk, CurrentIds, OtherCurrentIds;
    PrependNoDup(next, kept);
  }

  lemma NextIsNew(d: Driver, config: Config, i: nat, j: nat)
    requires ConfigOk(config) && CurrentOk(config, d.cur) && i < |config| && j < |config[i]|
    ensures Elements(config[i][j].ids) !! EP0 + OtherCurrentIds(config, d.cur, i)
  {
    ConfigFacts(config, i, j);
    forall id | id in config[i][j].ids
      ensures id !in EP0 + OtherCurrentIds(config, d.cur, i)
    {
      if id in OtherCurrentIds(config, d.cur, i) {
        var k :| 0 <= k < |config| && k != i && id in config[k][d.cur[k]].ids;
        ConfigShared(config, i, j, k, d.cur[k], id);
      }
    }
  }

  ghost function OtherCurrentIds(config: Config, cur: seq<nat>, i: nat): set<EpId>
    requires CurrentOk(config, cur)
  {
    set k, id | 0 <= k < |config| && k != i && id in config[k][cur[k]].ids :: id
  }

  /** The current alternates are one interface's and the others'. */
  lemma CurrentSplit(config: Config, cur: seq<nat>, i: nat)
    requires CurrentOk(config, cur) && i < |config|
    ensures CurrentIds(config, cur, |config|) == OtherCurrentIds(config, cur, i) + Elements(config[i][cur[i]].ids)
  {
  }

  lemma SameOthers(config: Config, cur: seq<nat>, k: nat, j: nat)
    requires CurrentOk(config, cur) && k < |config| && j < |config[k]|
    ensures OtherCurrentIds(config, cur[k := j], k) == OtherCurrentIds(config, cur, k)
  {
    var now := cur[k := j];
    forall id
      ensures id in OtherCurrentIds(config, now, k) <==> id in OtherCurrentIds(config, cur, k)
    {
      assert forall i | 0 <= i < |config| && i != k :: config[i][now[i]] == config[i][cur[i]];
    }
  }

  lemma KeptAreOthers(d: Driver, config: Config, i: nat)
    requires ConfigOk(config) && CurrentOk(config, d.cur) && i < |config|
    requires Elements(d.list) == EP0 + CurrentIds(config, d.cur, |config|)
    ensures Elements(Without(d.list, Elements(config[i][d.cur[i]].ids))) == EP0 + OtherCurrentIds(config, d.cur, i)
  {
    var prev := config[i][d.cur[i]].ids;
    var kept := Without(d.list, Elements(prev));
    ConfigFacts(config, i, d.cur[i]);
    forall id | id in kept
      ensures id in EP0 + OtherCurrentIds(config, d.cur, i)
    {
      assert id in Elements(d.list) && id !in prev;
    }
    forall id | id in EP0 + OtherCurrentIds(config, d.cur, i)
      ensures id in kept
    {
      if id in OtherCurrentIds(config, d.cur, i) {
        var k :| 0 <= k < |config| && k != i && id in config[k][d.cur[k]].ids;
        assert id in Elements(d.list);
        if id in prev {
          ConfigShared(config, i, d.cur[i], k, d.cur[k], id);
        }
      } else {
        assert id in Elements(d.list);
      }
    }
  }

  // --------------------------------------------------- driver: SET_CONFIGURATION

  ghost function AllIds(alts: seq<Alt>): set<EpId>
  {
    set i, id | 0 <= i < |alts| && id in alts[i].ids :: id
  }

  lemma {:induction false} DisableEveryFacts(list: seq<EpId>, alts: seq<Alt>)
    requires NoDup(list)
    ensures NoDup(DisableEvery(list, alts)) && DisableEvery(list, alts) == Without(list, AllIds(alts))
  {
    if alts == [] {
      assert AllIds(alts) == {};
      WithoutAbsent(list, {});
    } else {
      var init, last := alts[..|alts| - 1], alts[|alts| - 1];
      DisableEveryFacts(list, init);
      RemoveMore(list, DisableEvery(list, init), AllIds(init), last.ids);
      assert AllIds(alts) == AllIds(init) + Elements(last.ids);
    }
  }

  /** The list holds endpoint zero and the current alternates of the first `k` interfaces. */
  ghost predicate EnabledUpTo(d: Driver, config: Config, k: nat)
    requires CurrentOk(config, d.cur) && k <= |config|
  {
    NoDup(d.list) && Elements(d.list) == EP0 + CurrentIds(config, d.cur, k)
  }

  lemma EnableNextInterface(d: Driver, config: Config, k: nat, o: Outcomes)
    requires ConfigOk(config) && CurrentOk(config, d.cur) && k < |config| && EnabledUpTo(d, config, k)
    requires Enable(DriverSide, d.list, config[k][d.cur[k]].ids, 0, o).1
    ensures EnabledUpTo(Driver(Enable(DriverSide, d.list, config[k][d.cur[k]].ids, 0, o).0, d.cur), config, k + 1)
  {
    var ids := config[k][d.cur[k]].ids;
    var n := EnableFacts(DriverSide, d.list, ids, 0, o);
    assert ids[0..n] == ids;
    ConfigFacts(config, k, d.cur[k]);
    LaterIsNew(config, d.cur, k);
    CurrentIdsNext(config, d.cur, k);
    hide Enable, ConfigOk, NoDup, CurrentIds, Elements, Reverse;
    PrependNoDup(ids, d.list);
  }

  lemma CurrentIdsNext(config: Config, cur: seq<nat>, k: nat)
    requires CurrentOk(config, cur) && k < |config|
    ensures CurrentIds(config, cur, k + 1) == CurrentIds(config, cur, k) + Elements(config[k][cur[k]].ids)
  {
  }

  lemma LaterIsNew(config: Config, cur: seq<nat>, k: nat)
    requires ConfigOk(config) && CurrentOk(config, cur) && k < |config|
    ensures Elements(config[k][cur[k]].ids) !! EP0 + CurrentIds(config, cur, k)
  {
    ConfigFacts(config, k, cur[k]);
    forall id | id in config[k][cur[k]].ids
      ensures id !in EP0 + CurrentIds(config, cur, k)
    {
      if id in CurrentIds(config, cur, k) {
        var i :| 0 <= i < k && id in config[i][cur[i]].ids;
        ConfigShared(config, i, cur[i], k, cur[k], id);
      }
    }
  }

  lemma {:induction false} EnableCurrentFacts(d: Driver, config: Config, k: nat, o: AllOutcomes)
    requires ConfigOk(config) && CurrentOk(config, d.cur) && k <= |config| && EnabledUpTo(d, config, k)
    requires EnableCurrent(d, config, k, o).1
    ensures EnabledUpTo(EnableCurrent(d, config, k, o).0, config, |config|)
    decreases |config| - k
  {
    if k < |config| {
      var part := OutcomesAt(o, k);
      var list := Enable(DriverSide, d.list, config[k][d.cur[k]].ids, 0, part).0;
      EnableNextInterface(d, config, k, part);
      hide EnabledUpTo;
      EnableCurrentFacts(Driver(list, d.cur), config, k + 1, o);
    }
  }

  /**
   * The completion of SET_CONFIGURATION, whatever alternates were listed before: on success the
   * driver refines the map of the current alternates.
   */
  lemma ConfigureDriverRefines(d: Driver, config: Config, o: AllOutcomes)
    requires ConfigOk(config) && CurrentOk(config, d.cur) && NoDup(d.list)
    requires EP0 <= Elements(d.list) <= EP0 + AllIds(Concat(config))
    requires ConfigureDriver(d, config, o).1
    ensures DriverRefines(ConfigureDriver(d, config, o).0, config, SelectionOf(config, d.cur))
  {
    var alts := Concat(config);
    DisableEveryFacts(d.list, alts);
    var cleared := Driver(DisableEvery(d.list, alts), d.cur);
    forall id | id in EP0
      ensures id !in AllIds(alts)
    {
      assert forall i | 0 <= i < |alts| :: id !in alts[i].ids;
    }
    assert Elements(cleared.list) == EP0 by {
      forall id
        ensures id in Elements(cleared.list) <==> id in EP0
      {
        assert id in Elements(cleared.list) <==> id in Elements(d.list) && id !in AllIds(alts);
      }
    }
    assert CurrentIds(config, d.cur, 0) == {};
    EnableCurrentFacts(cleared, config, 0, o);
    SelectionFacts(config, d.cur);
    SelectedAreCurrent(config, d.cur, SelectionOf(config, d.cur));
  }

  lemma SelectionFacts(config: Config, cur: seq<nat>)
    requires ConfigOk(config) && CurrentOk(config, cur)
    ensures var m := SelectionOf(config, cur);
            forall i | 0 <= i < |config| ::
              config[i][cur[i]].number in m && m[config[i][cur[i]].number] == config[i][cur[i]].alternate
  {
    SelectionUpToFacts(config, cur, |config|);
    assert forall i | 0 <= i < |config| :: config[i][cur[i]].number == config[i][0].number;
  }

  lemma {:induction false} SelectionUpToFacts(config: Config, cur: seq<nat>, k: nat)
    requires ConfigOk(config) && CurrentOk(config, cur) && k <= |config|
    ensures var m := SelectionUpTo(config, cur, k);
            forall i | 0 <= i < k :: config[i][0].number in m && m[config[i][0].number] == config[i][cur[i]].alternate
  {
    if k > 0 {
      SelectionUpToFacts(config, cur, k - 1);
      forall i | 0 <= i < k - 1
        ensures config[i][0].number != config[k - 1][0].number
      {
        InterfacesDiffer(config, i, k - 1);
      }
    }
  }

  /** The endpoints of the current alternates from interface `k` up to interface `stop`, in order. */
  function CurrentSeq(config: Config, cur: seq<nat>, k: nat, stop: nat): seq<EpId>
    requires |cur| == |config| && forall i | 0 <= i < |config| :: cur[i] < |config[i]|
    requires k <= stop <= |config|
    decreases stop - k
  {
    if k == stop then [] else config[k][cur[k]].ids + CurrentSeq(config, cur, k + 1, stop)
  }

  /** All endpoints of an interface's current alternate join. */
  ghost predicate CurrentJoins(config: Config, cur: seq<nat>, i: nat, o: AllOutcomes)
    requires CurrentOk(config, cur) && i < |config|
  {
    forall j | 0 <= j < |config[i][cur[i]].ids| :: Joins(DriverSide, config[i][cur[i]].ids[j], o(i, j))
  }

  /**
   * Enabling the current alternates from interface `k` on stopped at interface `stop`, the first of
   * which not all endpoints join: those before it are listed whole, it is listed in part, and the
   * alternates stay selected.
   */
  ghost predicate CurrentStopsAt(d: Driver, config: Config, k: nat, o: AllOutcomes, r: Driver, ok: bool, stop: nat,
                                 m: nat)
    requires CurrentOk(config, d.cur)
  {
    && k <= stop <= |config| && (stop < |config| ==> m <= |config[stop][d.cur[stop]].ids|)
    && (forall i | k <= i < stop :: CurrentJoins(config, d.cur, i, o))
    && (stop < |config| ==> !CurrentJoins(config, d.cur, stop, o))
    && (ok <==> stop == |config|) && r.cur == d.cur
    && r.list == (if stop < |config| then Reverse(config[stop][d.cur[stop]].ids[..m]) else []) +
                 (Reverse(CurrentSeq(config, d.cur, k, stop)) + d.list)
  }

  lemma {:induction false} EnableCurrentStops(d: Driver, config: Config, k: nat, o: AllOutcomes)
    returns (stop: nat, m: nat)
    requires CurrentOk(config, d.cur) && k <= |config|
    ensures CurrentStopsAt(d, config, k, o, EnableCurrent(d, config, k, o).0, EnableCurrent(d, config, k, o).1, stop, m)
    decreases |config| - k
  {
    stop, m := k, 0;
    hide CurrentStopsAt, Enable;
    if k == |config| {
      CurrentStopsEnd(d, config, o);
    } else {
      var (list, ok) := Enable(DriverSide, d.list, config[k][d.cur[k]].ids, 0, OutcomesAt(o, k));
      if ok {
        stop, m := EnableCurrentStops(Driver(list, d.cur), config, k + 1, o);
        CurrentStopsTake(d, config, k, o, EnableCurrent(d, config, k, o).0, EnableCurrent(d, config, k, o).1, stop, m);
      } else {
        m := CurrentStopsHere(d, config, k, o);
      }
    }
  }

  lemma CurrentStopsEnd(d: Driver, config: Config, o: AllOutcomes)
    requires CurrentOk(config, d.cur)
    ensures CurrentStopsAt(d, config, |config|, o, d, true, |config|, 0)
  {
    assert [] + ([] + d.list) == d.list;
  }

  lemma CurrentStopsHere(d: Driver, config: Config, k: nat, o: AllOutcomes) returns (m: nat)
    requires CurrentOk(config, d.cur) && k < |config|
    requires !Enable(DriverSide, d.list, config[k][d.cur[k]].ids, 0, OutcomesAt(o, k)).1
    ensures var list := Enable(DriverSide, d.list, config[k][d.cur[k]].ids, 0, OutcomesAt(o, k)).0;
            CurrentStopsAt(d, config, k, o, Driver(list, d.cur), false, k, m)
  {
    var ids := config[k][d.cur[k]].ids;
    var n := EnableStops(DriverSide, d.list, ids, 0, OutcomesAt(o, k));
    m := if OutcomesAt(o, k)(n) == SubmitFailed then n + 1 else n;
    assert ids[0..m] == ids[..m];
    assert [] + d.list == d.list;
    hide Enable, Reverse;
  }

  lemma CurrentStopsTake(d: Driver, config: Config, k: nat, o: AllOutcomes, r: Driver, ok: bool, stop: nat, m: nat)
    requires CurrentOk(config, d.cur) && k < |config|
    requires Enable(DriverSide, d.list, config[k][d.cur[k]].ids, 0, OutcomesAt(o, k)).1
    requires var list := Enable(DriverSide, d.list, config[k][d.cur[k]].ids, 0, OutcomesAt(o, k)).0;
             CurrentStopsAt(Driver(list, d.cur), config, k + 1, o, r, ok, stop, m)
    ensures CurrentStopsAt(d, config, k, o, r, ok, stop, m)
  {
    var ids := config[k][d.cur[k]].ids;
    var n := EnableStops(DriverSide, d.list, ids, 0, OutcomesAt(o, k));
    assert ids[0..|ids|] == ids;
    hide Enable, Reverse, Joins;
    assert CurrentJoins(config, d.cur, k, o);
    var rest := CurrentSeq(config, d.cur, k + 1, stop);
    ReverseBoth(ids, rest, d.list);
  }

  // -------------------------------------------------------------------- gadget

  /** A successful set_interface updates the gadget's map at one point. */
  lemma SetInterfaceRefines(g: Gadget, m: Selection, n: nat, a: nat, o: Outcomes)
    requires GadgetRefines(g, m) && Selectable(g, n, a) && SetInterface(g, n, a, o).1
    ensures GadgetRefines(SetInterface(g, n, a, o).0, m[n := a])
    ensures SameShape(g.entries, SetInterface(g, n, a, o).0.entries)
    ensures var t := Target(g.entries, n, a, |g.entries|);
            && t.Some?
            && SetInterface(g, n, a, o).0.list ==
               Reverse(g.entries[t.value].alt.ids) + Without(g.list, OtherIds(g.entries, n, a, |g.entries|))
  {
    var k := |g.entries|;
    var t := Target(g.entries, n, a, k).value;
    SetInterfaceKeepsInvariant(g, n, a, o);
    SetInterfaceShape(g, n, a, o);
    var r := SetInterface(g, n, a, o).0;
    SelectedAfter(g, m, n, a, t, r.list);
    SameAlts(g.entries, r.entries);
    hide SetInterface, Selectable;
    forall i | 0 <= i < k
      ensures r.entries[i].active <==> Selected(m[n := a], r.entries[i].alt)
    {
      if i != t {
        Distinct(g.entries, i, t);
      }
    }
  }

  /** The list and the flags a successful set_interface leaves. */
  lemma SetInterfaceShape(g: Gadget, n: nat, a: nat, o: Outcomes)
    requires Invariant(g) && Selectable(g, n, a) && SetInterface(g, n, a, o).1
    ensures var r, t := SetInterface(g, n, a, o).0, Target(g.entries, n, a, |g.entries|);
            && t.Some? && SameShape(g.entries, r.entries)
            && r.list == Reverse(g.entries[t.value].alt.ids) + Without(g.list, OtherIds(g.entries, n, a, |g.entries|))
            && forall i | 0 <= i < |g.entries| ::
                 r.entries[i].active == (i == t.value || (g.entries[i].active && !Other(g.entries[i], n, a)))
  {
    var k := |g.entries|;
    var t := Target(g.entries, n, a, k).value;
    var others := DisableOthers(g, n, a, k);
    DisableOthersFacts(g, n, a, k);
    TargetReady(g, n, a, t);
    DisableOthersInvariant(g, n, a);
    EnableEntryInvariant(others, t, o);
    hide Invariant, DisableOthers, Enable, Without, Reverse, OtherIds, Target;
  }

  /** The chosen setting's endpoints and those not disabled are what the updated map selects. */
  lemma SelectedAfter(g: Gadget, m: Selection, n: nat, a: nat, t: nat, list: seq<EpId>)
    requires GadgetRefines(g, m) && Target(g.entries, n, a, |g.entries|) == Some(t)
    requires list == Reverse(g.entries[t].alt.ids) + Without(g.list, OtherIds(g.entries, n, a, |g.entries|))
    ensures Elements(list) == EP0 + SelectedIds(Alts(g.entries), m[n := a])
  {
    forall id
      ensures id in list <==> id in EP0 + SelectedIds(Alts(g.entries), m[n := a])
    {
      if id in list {
        ListedIsSelected(g, m, n, a, t, id);
      }
      if id in EP0 + SelectedIds(Alts(g.entries), m[n := a]) {
        SelectedIsListed(g, m, n, a, t, id);
      }
    }
  }

  lemma ListedIsSelected(g: Gadget, m: Selection, n: nat, a: nat, t: nat, id: EpId)
    requires GadgetRefines(g, m) && Target(g.entries, n, a, |g.entries|) == Some(t)
    requires id in g.entries[t].alt.ids || (id in g.list && id !in OtherIds(g.entries, n, a, |g.entries|))
    ensures id in EP0 + SelectedIds(Alts(g.entries), m[n := a])
  {
    var alts, m' := Alts(g.entries), m[n := a];
    if id in g.entries[t].alt.ids {
      assert Selected(m', alts[t]) && id in alts[t].ids;
    } else if id !in EP0 {
      assert id in Elements(g.list);
      var i :| 0 <= i < |alts| && Selected(m, alts[i]) && id in alts[i].ids;
      assert !Other(g.entries[i], n, a);
      assert Selected(m', alts[i]);
    }
  }

  lemma SelectedIsListed(g: Gadget, m: Selection, n: nat, a: nat, t: nat, id: EpId)
    requires GadgetRefines(g, m) && Target(g.entries, n, a, |g.entries|) == Some(t)
    requires id in EP0 + SelectedIds(Alts(g.entries), m[n := a])
    ensures id in g.entries[t].alt.ids || (id in g.list && id !in OtherIds(g.entries, n, a, |g.entries|))
  {
    var alts, m' := Alts(g.entries), m[n := a];
    if id in EP0 {
      assert id in Elements(g.list);
      assert forall i | 0 <= i < |alts| :: id !in alts[i].ids && alts[i] == g.entries[i].alt;
    } else {
      var i :| 0 <= i < |alts| && Selected(m', alts[i]) && id in alts[i].ids;
      if i != t {
        Distinct(g.entries, i, t);
        assert Selected(m, alts[i]);
        assert id in Elements(g.list);
        NotGone(g.entries, n, a, i, id);
      }
    }
  }

  lemma NotGone(entries: seq<Entry>, n: nat, a: nat, i: nat, id: EpId)
    requires WellFormedAlts(Alts(entries)) && i < |entries| && id in entries[i].alt.ids && entries[i].alt.number != n
    ensures id !in OtherIds(entries, n, a, |entries|)
  {
    if id in OtherIds(entries, n, a, |entries|) {
      var j :| 0 <= j < |entries| && Other(entries[j], n, a) && id in entries[j].alt.ids;
      Shared(entries, i, j, id);
    }
  }

  /** A successful configuration reply makes the gadget refine the all-zero map. */
  lemma ConfigReplyRefines(g: Gadget, m: Selection, o: AllOutcomes)
    requires Invariant(g) && EP0 <= Elements(g.list) && ConfigReply(g, o).1
    requires forall i | 0 <= i < |g.entries| :: g.entries[i].alt.number in m && m[g.entries[i].alt.number] == 0
    ensures GadgetRefines(ConfigReply(g, o).0, m) && SameShape(g.entries, ConfigReply(g, o).0.entries)
  {
    ConfigReplyFacts(g, o);
    var r := ConfigReply(g, o).0;
    SameAlts(g.entries, r.entries);
    var ids := DefaultIds(g.entries, 0);
    DefaultIdsElements(g.entries, m, 0);
    SelectedFromStart(g.entries, m);
    OnlyEp0Elements(g.list);
    forall id
      ensures id in Elements(r.list) <==> id in EP0 + SelectedIds(Alts(g.entries), m)
    {
      assert id in r.list <==> id in ids || id in OnlyEp0(g.list);
      assert id in EP0 ==> id in Elements(g.list);
    }
  }

  lemma {:induction false} OnlyEp0Elements(list: seq<EpId>)
    ensures forall id :: id in OnlyEp0(list) <==> id in list && id in EP0
  {
    if list != [] {
      OnlyEp0Elements(list[1..]);
      assert list == [list[0]] + list[1..];
    }
  }

  /** Some setting from `k` on is selected and has the endpoint. */
  ghost predicate SelectedFrom(entries: seq<Entry>, m: Selection, k: nat, id: EpId)
  {
    exists i :: k <= i < |entries| && Selected(m, entries[i].alt) && id in entries[i].alt.ids
  }

  lemma SelectedFromNext(entries: seq<Entry>, m: Selection, k: nat, id: EpId)
    requires k < |entries|
    ensures SelectedFrom(entries, m, k, id) <==>
              (Selected(m, entries[k].alt) && id in entries[k].alt.ids) || SelectedFrom(entries, m, k + 1, id)
  {
    hide Selected;
  }

  lemma {:induction false} DefaultIdsElements(entries: seq<Entry>, m: Selection, k: nat)
    requires k <= |entries|
    requires forall i | 0 <= i < |entries| :: entries[i].alt.number in m && m[entries[i].alt.number] == 0
    ensures forall id :: id in DefaultIds(entries, k) <==> SelectedFrom(entries, m, k, id)
    decreases |entries| - k
  {
    if k < |entries| {
      DefaultIdsElements(entries, m, k + 1);
      hide SelectedFrom;
      var now, later := if entries[k].alt.alternate == 0 then entries[k].alt.ids else [], DefaultIds(entries, k + 1);
      forall id
        ensures id in DefaultIds(entries, k) <==> SelectedFrom(entries, m, k, id)
      {
        SelectedFromNext(entries, m, k, id);
        assert id in now + later <==> id in now || id in later;
      }
    }
  }

  lemma SelectedFromStart(entries: seq<Entry>, m: Selection)
    ensures forall id :: SelectedFrom(entries, m, 0, id) <==> id in SelectedIds(Alts(entries), m)
  {
    var alts := Alts(entries);
    hide Selected;
    forall id
      ensures SelectedFrom(entries, m, 0, id) <==> id in SelectedIds(alts, m)
    {
      if SelectedFrom(entries, m, 0, id) {
        var i :| 0 <= i < |entries| && Selected(m, entries[i].alt) && id in entries[i].alt.ids;
        assert Selected(m, alts[i]) && id in alts[i].ids;
      }
    }
  }

  // -------------------------------------------------------------------- mirror

  /** One SET_INTERFACE applied to both ends. */
  datatype Both = Both(interface: nat, alternate: nat, gadget: Outcomes, driver: Outcomes, transfer: bool)

  datatype Ends = Ends(driver: Driver, gadget: Gadget)

  ghost predicate EndsOk(s: Ends, config: Config)
  {
    CurrentOk(config, s.driver.cur) && Alts(s.gadget.entries) == Concat(config)
  }

  function StepBoth(s: Ends, config: Config, op: Both): Ends
    requires CurrentOk(config, s.driver.cur) && op.interface < |config| && config[op.interface] != []
  {
    Ends(SetDriverInterface(s.driver, config, op.interface, op.alternate, op.transfer, op.driver).0,
         SetInterface(s.gadget, config[op.interface][0].number, op.alternate, op.gadget).0)
  }

  /** The request names an alternate other than the current one, and succeeds on both ends. */
  ghost predicate Succeeds(s: Ends, config: Config, op: Both)
    requires CurrentOk(config, s.driver.cur)
  {
    && op.interface < |config| && config[op.interface] != []
    && config[op.interface][s.driver.cur[op.interface]].alternate != op.alternate
    && SetDriverInterface(s.driver, config, op.interface, op.alternate, op.transfer, op.driver).1
    && SetInterface(s.gadget, config[op.interface][0].number, op.alternate, op.gadget).1
  }

  ghost predicate AllSucceed(s: Ends, config: Config, ops: seq<Both>)
    requires CurrentOk(config, s.driver.cur)
    decreases |ops|
  {
    ops == [] || (Succeeds(s, config, ops[0]) && AllSucceed(StepBoth(s, config, ops[0]), config, ops[1..]))
  }

  function RunBoth(s: Ends, config: Config, ops: seq<Both>): Ends
    requires CurrentOk(config, s.driver.cur) && AllSucceed(s, config, ops)
    decreases |ops|
  {
    if ops == [] then s else RunBoth(StepBoth(s, config, ops[0]), config, ops[1..])
  }

  lemma StepBothRefines(s: Ends, config: Config, m: Selection, op: Both)
    requires ConfigOk(config) && EndsOk(s, config)
    requires DriverRefines(s.driver, config, m) && GadgetRefines(s.gadget, m) && Succeeds(s, config, op)
    ensures var r := StepBoth(s, config, op);
            var m' := m[config[op.interface][0].number := op.alternate];
            && EndsOk(r, config) && DriverRefines(r.driver, config, m') && GadgetRefines(r.gadget, m')
  {
    var i, n := op.interface, config[op.interface][0].number;
    var t := Target(s.gadget.entries, n, op.alternate, |s.gadget.entries|);
    if t.Some? {
      assert config[i][s.driver.cur[i]].number == n;
      assert !Selected(m, s.gadget.entries[t.value].alt);
    }
    InactiveIsSelectable(s.gadget, n, op.alternate);
    SetDriverInterfaceRefines(s.driver, config, m, i, op.alternate, op.transfer, op.driver);
    SetInterfaceRefines(s.gadget, m, n, op.alternate, op.gadget);
    SameAlts(s.gadget.entries, StepBoth(s, config, op).gadget.entries);
  }

  /** After any sequence of SET_INTERFACE requests that succeed on both ends, one map describes both. */
  lemma {:induction false} RunBothRefines(s: Ends, config: Config, m: Selection, ops: seq<Both>) returns (m': Selection)
    requires ConfigOk(config) && EndsOk(s, config) && AllSucceed(s, config, ops)
    requires DriverRefines(s.driver, config, m) && GadgetRefines(s.gadget, m)
    ensures var r := RunBoth(s, config, ops);
            EndsOk(r, config) && DriverRefines(r.driver, config, m') && GadgetRefines(r.gadget, m')
    decreases |ops|
  {
    if ops == [] {
      m' := m;
    } else {
      StepBothRefines(s, config, m, ops[0]);
      hide DriverRefines, GadgetRefines, Succeeds;
      m' := RunBothRefines(StepBoth(s, config, ops[0]), config,
        m[config[ops[0].interface][0].number := ops[0].alternate], ops[1..]);
    }
  }

  /** Both ends after their configuration: SET_CONFIGURATION's completion, and the descriptor's reply. */
  function Configured(config: Config, d: Driver, driver: AllOutcomes, gadget: AllOutcomes): Ends
    requires |d.cur| == |config| && forall i | 0 <= i < |config| :: d.cur[i] < |config[i]|
  {
    Ends(ConfigureDriver(d, config, driver).0, ConfigReply(Bound(Concat(config)), gadget).0)
  }

  lemma ConfiguredRefines(config: Config, d: Driver, driver: AllOutcomes, gadget: AllOutcomes)
    requires ConfigOk(config) && CurrentOk(config, d.cur) && d.list == [EP0_OUT, EP0_IN]
    requires forall i | 0 <= i < |config| :: config[i][d.cur[i]].alternate == 0
    requires ConfigureDriver(d, config, driver).1 && ConfigReply(Bound(Concat(config)), gadget).1
    ensures var s, m := Configured(config, d, driver, gadget), SelectionOf(config, d.cur);
            EndsOk(s, config) && DriverRefines(s.driver, config, m) && GadgetRefines(s.gadget, m)
  {
    ConfiguredDriver(config, d, driver);
    ConfiguredGadget(config, d.cur, gadget);
  }

  lemma BoundElements(alts: seq<Alt>)
    ensures Elements([EP0_OUT, EP0_IN]) == EP0
    ensures NoDup([EP0_OUT, EP0_IN]) && Bound(alts).list == [EP0_OUT, EP0_IN]
    ensures Alts(Bound(alts).entries) == alts
    ensures forall i | 0 <= i < |alts| :: Bound(alts).entries[i].alt == alts[i]
  {
    var list := [EP0_OUT, EP0_IN];
    assert list[0] == EP0_OUT && list[1] == EP0_IN;
  }

  lemma ConfiguredDriver(config: Config, d: Driver, driver: AllOutcomes)
    requires ConfigOk(config) && CurrentOk(config, d.cur) && d.list == [EP0_OUT, EP0_IN]
    requires ConfigureDriver(d, config, driver).1
    ensures DriverRefines(ConfigureDriver(d, config, driver).0, config, SelectionOf(config, d.cur))
    ensures CurrentOk(config, ConfigureDriver(d, config, driver).0.cur)
  {
    BoundElements([]);
    hide ConfigureDriver;
    ConfigureDriverRefines(d, config, driver);
  }

  lemma ConfiguredGadget(config: Config, cur: seq<nat>, gadget: AllOutcomes)
    requires ConfigOk(config) && CurrentOk(config, cur)
    requires forall i | 0 <= i < |config| :: config[i][cur[i]].alternate == 0
    requires ConfigReply(Bound(Concat(config)), gadget).1
    ensures GadgetRefines(ConfigReply(Bound(Concat(config)), gadget).0, SelectionOf(config, cur))
    ensures Alts(ConfigReply(Bound(Concat(config)), gadget).0.entries) == Concat(config)
  {
    var alts := Concat(config);
    BoundIsInvariant(alts);
    BoundElements(alts);
    ZeroSelection(config, cur);
    hide ConfigReply, SelectionOf, ConfigOk, GadgetRefines, Invariant;
    ConfigReplyRefines(Bound(alts), SelectionOf(config, cur), gadget);
    SameAlts(Bound(alts).entries, ConfigReply(Bound(alts), gadget).0.entries);
  }

  /**
   * The two ends mirror each other: from freshly bound ends over the same settings, a successful
   * configuration on both with every interface at alternate 0, followed by any sequence of
   * SET_INTERFACE requests that succeed on both, leaves the same set of endpoints listed on both,
   * each exactly once.
   */
  lemma EndsMirror(config: Config, d: Driver, driver: AllOutcomes, gadget: AllOutcomes, ops: seq<Both>)
    requires ConfigOk(config) && CurrentOk(config, d.cur) && d.list == [EP0_OUT, EP0_IN]
    requires forall i | 0 <= i < |config| :: config[i][d.cur[i]].alternate == 0
    requires ConfigureDriver(d, config, driver).1 && ConfigReply(Bound(Concat(config)), gadget).1
    requires AllSucceed(Configured(config, d, driver, gadget), config, ops)
    ensures var r := RunBoth(Configured(config, d, driver, gadget), config, ops);
            Elements(r.driver.list) == Elements(r.gadget.list) && NoDup(r.driver.list) && NoDup(r.gadget.list)
  {
    ConfiguredRefines(config, d, driver, gadget);
    var s := Configured(config, d, driver, gadget);
    var m := RunBothRefines(s, config, SelectionOf(config, d.cur), ops);
    var r := RunBoth(s, config, ops);
    Mirrored(r.driver, r.gadget, config, m);
  }

  lemma ZeroSelection(config: Config, cur: seq<nat>)
    requires ConfigOk(config) && CurrentOk(config, cur)
    requires forall i | 0 <= i < |config| :: config[i][cur[i]].alternate == 0
    ensures var m := SelectionOf(config, cur);
            forall k | 0 <= k < |Concat(config)| :: Concat(config)[k].number in m && m[Concat(config)[k].number] == 0
  {
    var m := SelectionOf(config, cur);
    SelectionUpToFacts(config, cur, |config|);
    forall k | 0 <= k < |Concat(config)|
      ensures Concat(config)[k].number in m && m[Concat(config)[k].number] == 0
    {
      var i, j := Unflat(config, k);
      assert config[i][j].number == config[i][0].number;
    }
  }
}
