/**
 * What every operation of the gadget's registry keeps: no endpoint twice, at most one active
 * alternate per interface, and nothing listed that no active setting owns.
 */
module RegistryInvariant {
  import opened Bytes
  import opened Descriptors
  import opened EndpointList
  import opened Registry

  lemma {:induction false} DisableOthersFacts(g: Gadget, n: nat, a: nat, k: nat)
    requires k <= |g.entries| && NoDup(g.list)
    ensures var r := DisableOthers(g, n, a, k);
            && NoDup(r.list)
            && r.list == Without(g.list, OtherIds(g.entries, n, a, k))
            && forall i | 0 <= i < |g.entries| ::
                 r.entries[i] ==
                 if i < k && Other(g.entries[i], n, a) then g.entries[i].(active := false) else g.entries[i]
  {
    if k == 0 {
      assert OtherIds(g.entries, n, a, 0) == {};
      WithoutAbsent(g.list, {});
    } else {
      DisableOthersFacts(g, n, a, k - 1);
      OtherIdsNext(g.entries, n, a, k);
      hide NoDup, RemoveAll, Without, OtherIds, Elements;
      var before := DisableOthers(g, n, a, k - 1);
      var gone := OtherIds(g.entries, n, a, k - 1);
      if Other(g.entries[k - 1], n, a) {
        RemoveMore(g.list, before.list, gone, g.entries[k - 1].alt.ids);
      } else {
        assert gone + {} == gone;
      }
    }
  }

  lemma OtherIdsNext(entries: seq<Entry>, n: nat, a: nat, k: nat)
    requires 0 < k <= |entries|
    ensures OtherIds(entries, n, a, k) == OtherIds(entries, n, a, k - 1) +
              if Other(entries[k - 1], n, a) then Elements(entries[k - 1].alt.ids) else {}
  {
  }

  lemma RemoveMore(list: seq<EpId>, now: seq<EpId>, gone: set<EpId>, ids: seq<EpId>)
    requires NoDup(list) && NoDup(now) && now == Without(list, gone)
    ensures NoDup(RemoveAll(now, ids)) && RemoveAll(now, ids) == Without(list, gone + Elements(ids))
  {
    RemoveAllIsWithout(now, ids);
    WithoutTwice(list, gone, Elements(ids));
    WithoutNoDup(now, Elements(ids));
  }

  lemma SameAlts(a: seq<Entry>, b: seq<Entry>)
    requires SameShape(a, b)
    ensures Alts(a) == Alts(b)
  {
  }

  lemma Distinct(entries: seq<Entry>, i: nat, j: nat)
    requires WellFormedAlts(Alts(entries)) && i < |entries| && j < |entries| && i != j
    ensures entries[i].alt.number != entries[j].alt.number || entries[i].alt.alternate != entries[j].alt.alternate
  {
    var alts := Alts(entries);
    var lo, hi := if i < j then i else j, if i < j then j else i;
    assert alts[lo] == entries[lo].alt && alts[hi] == entries[hi].alt;
  }

  lemma Shared(entries: seq<Entry>, i: nat, j: nat, id: EpId)
    requires WellFormedAlts(Alts(entries)) && i < |entries| && j < |entries|
    requires id in entries[i].alt.ids && id in entries[j].alt.ids
    ensures entries[i].alt.number == entries[j].alt.number
  {
    var alts := Alts(entries);
    assert id in alts[i].ids && id in alts[j].ids;
  }

  /** Disabling the other alternates of an interface keeps the invariant. */
  lemma DisableOthersInvariant(g: Gadget, n: nat, a: nat)
    requires Invariant(g)
    ensures Invariant(DisableOthers(g, n, a, |g.entries|))
  {
    var k := |g.entries|;
    DisableOthersFacts(g, n, a, k);
    var r := DisableOthers(g, n, a, k);
    SameAlts(g.entries, r.entries);
    forall id | id in r.list
      ensures Supported(r.entries, id)
    {
      assert Supported(g.entries, id);
      if id !in EP0 {
        var i :| 0 <= i < k && g.entries[i].active && id in g.entries[i].alt.ids;
        assert !Other(g.entries[i], n, a);
        assert r.entries[i].active && id in r.entries[i].alt.ids;
      }
    }
  }

  /** Enabling a setting none of whose endpoints is listed, and which is alone on its interface, keeps the invariant. */
  lemma EnableEntryInvariant(g: Gadget, i: nat, o: Outcomes)
    requires Invariant(g) && i < |g.entries|
    requires forall j | 0 <= j < |g.entries| && j != i && g.entries[j].active ::
               g.entries[j].alt.number != g.entries[i].alt.number
    requires Elements(g.entries[i].alt.ids) !! Elements(g.list)
    ensures Invariant(EnableEntry(g, i, o).0)
    ensures EnableEntry(g, i, o).1 ==> EnableEntry(g, i, o).0.list == Reverse(g.entries[i].alt.ids) + g.list
  {
    var ids := g.entries[i].alt.ids;
    assert Alts(g.entries)[i].ids == ids;
    var n := EnableFacts(GadgetSide, g.list, ids, 0, o);
    hide Enable;
    var run := ids[0..n];
    assert forall id | id in run :: id in Elements(ids);
    assert Elements(run) !! Elements(g.list);
    PrependNoDup(run, g.list);
    var r := EnableEntry(g, i, o).0;
    SameAlts(g.entries, r.entries);
    EnabledSupported(g, i, run);
    if n == |ids| {
      assert ids[0..n] == ids;
    }
  }

  lemma EnabledSupported(g: Gadget, i: nat, run: seq<EpId>)
    requires i < |g.entries| && forall id | id in run :: id in g.entries[i].alt.ids
    requires forall id | id in g.list :: Supported(g.entries, id)
    ensures forall id | id in Reverse(run) + g.list :: Supported(g.entries[i := g.entries[i].(active := true)], id)
  {
    var entries := g.entries[i := g.entries[i].(active := true)];
    forall id | id in Reverse(run) + g.list
      ensures Supported(entries, id)
    {
      if id in run {
        assert entries[i].active && id in entries[i].alt.ids;
      } else if id !in EP0 {
        assert id in g.list && Supported(g.entries, id);
        var j :| 0 <= j < |g.entries| && g.entries[j].active && id in g.entries[j].alt.ids;
        assert entries[j].active && id in entries[j].alt.ids;
      }
    }
  }

  /** What set_interface starts from once the other alternates are gone. */
  lemma TargetReady(g: Gadget, n: nat, a: nat, t: nat)
    requires Invariant(g) && Target(g.entries, n, a, |g.entries|) == Some(t)
    ensures var r := DisableOthers(g, n, a, |g.entries|);
            && r.entries[t].alt == g.entries[t].alt
            && (forall j | 0 <= j < |r.entries| && j != t && r.entries[j].active :: r.entries[j].alt.number != n)
            && (Elements(g.entries[t].alt.ids) !! Elements(r.list) <==> Selectable(g, n, a))
  {
    var k := |g.entries|;
    DisableOthersFacts(g, n, a, k);
    var r := DisableOthers(g, n, a, k);
    forall j | 0 <= j < k && j != t && r.entries[j].active
      ensures r.entries[j].alt.number != n
    {
      Distinct(g.entries, j, t);
    }
    var ids, gone := g.entries[t].alt.ids, OtherIds(g.entries, n, a, k);
    assert forall id :: id in Elements(ids) * Elements(r.list) <==> id in ids && id in g.list && id !in gone;
    if Selectable(g, n, a) {
      assert Elements(ids) * Elements(r.list) == {};
    } else {
      var id :| id in ids && id in g.list && id !in gone;
      assert id in Elements(ids) * Elements(r.list);
    }
  }

  /** set_interface keeps the invariant, however far it gets, when the caller's check holds. */
  lemma SetInterfaceKeepsInvariant(g: Gadget, n: nat, a: nat, o: Outcomes)
    requires Invariant(g) && Selectable(g, n, a)
    ensures Invariant(SetInterface(g, n, a, o).0)
  {
    DisableOthersInvariant(g, n, a);
    var t := Target(g.entries, n, a, |g.entries|);
    if t.Some? {
      TargetReady(g, n, a, t.value);
      EnableEntryInvariant(DisableOthers(g, n, a, |g.entries|), t.value, o);
    }
  }

  /** The check is exact: without it, a set_interface in which nothing fails lists an endpoint twice. */
  lemma SetInterfaceInvariantExactly(g: Gadget, n: nat, a: nat, o: Outcomes)
    requires Invariant(g) && NothingFails(o)
    ensures Invariant(SetInterface(g, n, a, o).0) <==> Selectable(g, n, a)
  {
    if Selectable(g, n, a) {
      SetInterfaceKeepsInvariant(g, n, a, o);
    } else {
      var t := Target(g.entries, n, a, |g.entries|).value;
      var others := DisableOthers(g, n, a, |g.entries|);
      TargetReady(g, n, a, t);
      DisableOthersFacts(g, n, a, |g.entries|);
      var ids := g.entries[t].alt.ids;
      assert Alts(g.entries)[t].ids == ids;
      var m := EnableFacts(GadgetSide, others.list, ids, 0, o);
      assert ids[0..m] == ids;
      PrependNoDup(ids, others.list);
    }
  }

  /** Selecting a setting that is not active always passes the check. */
  lemma InactiveIsSelectable(g: Gadget, n: nat, a: nat)
    requires Invariant(g)
    requires var t := Target(g.entries, n, a, |g.entries|); t.Some? ==> !g.entries[t.value].active
    ensures Selectable(g, n, a)
  {
    var t := Target(g.entries, n, a, |g.entries|);
    if t.Some? {
      forall id | id in g.entries[t.value].alt.ids && id in g.list
        ensures id in OtherIds(g.entries, n, a, |g.entries|)
      {
        var alts := Alts(g.entries);
        assert Supported(g.entries, id) && id in alts[t.value].ids;
        assert id !in EP0;
        var i :| 0 <= i < |g.entries| && g.entries[i].active && id in g.entries[i].alt.ids;
        Shared(g.entries, i, t.value, id);
        Distinct(g.entries, i, t.value);
        assert Other(g.entries[i], n, a);
      }
    }
  }

  /** Selecting the active setting again does list its endpoints twice. */
  lemma ReselectingDuplicates()
    ensures var id := EpId(1, Bulk, In);
            var g := Gadget([id, EP0_OUT, EP0_IN], [Entry(Alt(0, 0, [id]), true)]);
            && Invariant(g)
            && SetInterface(g, 0, 0, ALL_ADDED) == (Gadget([id, id, EP0_OUT, EP0_IN], g.entries), true)
            && !Invariant(SetInterface(g, 0, 0, ALL_ADDED).0)
  {
    var id := EpId(1, Bulk, In);
    var g := Gadget([id, EP0_OUT, EP0_IN], [Entry(Alt(0, 0, [id]), true)]);
    var o := ALL_ADDED;
    assert g.entries[0].active && id in g.entries[0].alt.ids;
    assert DisableOthers(g, 0, 0, 1) == g;
    assert Target(g.entries, 0, 0, 1) == Some(0);
    var ids := g.entries[0].alt.ids;
    assert Enable(GadgetSide, g.list, ids, 0, o) == Enable(GadgetSide, [id] + g.list, ids, 1, o);
    assert Enable(GadgetSide, [id] + g.list, ids, 1, o) == ([id] + g.list, true);
    var r := SetInterface(g, 0, 0, o).0;
    assert r.entries == g.entries;
    assert r.list == [id] + g.list == [id, id, EP0_OUT, EP0_IN];
    assert r.list[0] == r.list[1];
  }

  // ------------------------------------------------------------ configuration

  ghost function ActiveIds(entries: seq<Entry>, k: nat): set<EpId>
    requires k <= |entries|
  {
    set i, id | 0 <= i < k && entries[i].active && id in entries[i].alt.ids :: id
  }

  lemma {:induction false} DisableActiveFacts(g: Gadget, k: nat)
    requires k <= |g.entries| && NoDup(g.list)
    ensures var r := DisableActive(g, k);
            && NoDup(r.list)
            && r.list == Without(g.list, ActiveIds(g.entries, k))
            && forall i | 0 <= i < |g.entries| ::
                 r.entries[i] == if i < k then g.entries[i].(active := false) else g.entries[i]
  {
    if k == 0 {
      assert ActiveIds(g.entries, 0) == {};
      WithoutAbsent(g.list, {});
    } else {
      DisableActiveFacts(g, k - 1);
      ActiveIdsNext(g.entries, k);
      hide NoDup, RemoveAll, Without, ActiveIds, Elements;
      var before := DisableActive(g, k - 1);
      var gone := ActiveIds(g.entries, k - 1);
      if g.entries[k - 1].active {
        RemoveMore(g.list, before.list, gone, g.entries[k - 1].alt.ids);
      } else {
        assert gone + {} == gone;
      }
    }
  }

  lemma ActiveIdsNext(entries: seq<Entry>, k: nat)
    requires 0 < k <= |entries|
    ensures ActiveIds(entries, k) == ActiveIds(entries, k - 1) +
              if entries[k - 1].active then Elements(entries[k - 1].alt.ids) else {}
  {
  }

  /** The endpoint-zero entries of a list, in order. */
  function OnlyEp0(list: seq<EpId>): (r: seq<EpId>)
  {
    if list == [] then []
    else if list[0] in EP0 then [list[0]] + OnlyEp0(list[1..])
    else OnlyEp0(list[1..])
  }

  lemma {:induction false} WithoutRest(list: seq<EpId>, gone: set<EpId>)
    requires forall id | id in list :: id in gone <==> id !in EP0
    ensures Without(list, gone) == OnlyEp0(list)
  {
    if list != [] {
      WithoutRest(list[1..], gone);
    }
  }

  /** disable_active_interface leaves endpoint zero alone, and every setting inactive. */
  lemma DisableActiveClears(g: Gadget)
    requires Invariant(g)
    ensures var r := DisableActive(g, |g.entries|);
            && Invariant(r) && r.list == OnlyEp0(g.list)
            && (forall i | 0 <= i < |r.entries| :: r.entries[i] == g.entries[i].(active := false))
            && (forall id | id in r.list :: id in EP0)
  {
    var k := |g.entries|;
    DisableActiveFacts(g, k);
    var r := DisableActive(g, k);
    var gone := ActiveIds(g.entries, k);
    SameAlts(g.entries, r.entries);
    forall id | id in g.list
      ensures id in gone <==> id !in EP0
    {
      assert Supported(g.entries, id);
      if id in gone {
        var i :| 0 <= i < k && g.entries[i].active && id in g.entries[i].alt.ids;
        assert Alts(g.entries)[i].ids == g.entries[i].alt.ids;
      }
    }
    WithoutRest(g.list, gone);
    assert forall id | id in r.list :: id in g.list && id !in gone;
  }

  /** The endpoints of the alternate-0 settings from entry `k` on, in order. */
  function DefaultIds(entries: seq<Entry>, k: nat): (ids: seq<EpId>)
    requires k <= |entries|
    decreases |entries| - k
  {
    if k == |entries| then []
    else (if entries[k].alt.alternate == 0 then entries[k].alt.ids else []) + DefaultIds(entries, k + 1)
  }

  /** Entries before `k` are active only at alternate 0, entries from `k` on not at all. */
  ghost predicate DefaultsUpTo(g: Gadget, k: nat)
  {
    && Invariant(g)
    && (forall i | 0 <= i < |g.entries| && g.entries[i].active :: i < k && g.entries[i].alt.alternate == 0)
  }

  lemma {:induction false} EnableDefaultFacts(g: Gadget, k: nat, o: AllOutcomes)
    requires k <= |g.entries| && DefaultsUpTo(g, k)
    ensures var (r, ok) := EnableDefault(g, k, o);
            && Invariant(r)
            && SameShape(g.entries, r.entries)
            && (ok ==> r.list == Reverse(DefaultIds(g.entries, k)) + g.list)
            && (ok ==> forall i | 0 <= i < |g.entries| ::
                  r.entries[i].active == if i < k then g.entries[i].active else g.entries[i].alt.alternate == 0)
            && ((forall i, e :: o(i, e) == Added) ==> ok)
    decreases |g.entries| - k
  {
    hide Invariant, DefaultsUpTo, EnableEntry, DefaultIds, Reverse;
    if k == |g.entries| {
      DefaultsDone(g);
    } else if g.entries[k].alt.alternate != 0 {
      DefaultsSkip(g, k);
      EnableDefaultFacts(g, k + 1, o);
    } else {
      EnableDefaultStep(g, k, o);
      var (next, ok) := EnableEntry(g, k, OutcomesAt(o, k));
      assert EnableDefault(g, k, o) == if ok then EnableDefault(next, k + 1, o) else (next, false);
      hide EnableDefault;
      if ok {
        EnableDefaultFacts(next, k + 1, o);
        SameDefaults(g.entries, next.entries, k + 1);
        DefaultIdsNext(g.entries, k);
        var ids, rest := g.entries[k].alt.ids, DefaultIds(g.entries, k + 1);
        ReverseAppend(ids, rest);
        assert Reverse(rest) + (Reverse(ids) + g.list) == Reverse(ids + rest) + g.list;
      }
    }
  }

  lemma DefaultsDone(g: Gadget)
    requires DefaultsUpTo(g, |g.entries|)
    ensures Invariant(g) && Reverse(DefaultIds(g.entries, |g.entries|)) + g.list == g.list
  {
  }

  lemma DefaultsSkip(g: Gadget, k: nat)
    requires DefaultsUpTo(g, k) && k < |g.entries| && g.entries[k].alt.alternate != 0
    ensures DefaultsUpTo(g, k + 1) && !g.entries[k].active
    ensures DefaultIds(g.entries, k) == DefaultIds(g.entries, k + 1)
  {
    assert [] + DefaultIds(g.entries, k + 1) == DefaultIds(g.entries, k + 1);
  }

  lemma EnableDefaultStep(g: Gadget, k: nat, o: AllOutcomes)
    requires DefaultsUpTo(g, k) && k < |g.entries| && g.entries[k].alt.alternate == 0
    ensures var (next, ok) := EnableEntry(g, k, OutcomesAt(o, k));
            && Invariant(next)
            && next.entries == g.entries[k := g.entries[k].(active := true)]
            && (ok ==> DefaultsUpTo(next, k + 1) && next.list == Reverse(g.entries[k].alt.ids) + g.list)
            && ((forall i, e :: o(i, e) == Added) ==> ok)
  {
    var part := OutcomesAt(o, k);
    DefaultReady(g, k);
    EnableEntryInvariant(g, k, part);
    var n := EnableFacts(GadgetSide, g.list, g.entries[k].alt.ids, 0, part);
    hide Invariant, Enable;
  }

  lemma {:induction false} SameDefaults(a: seq<Entry>, b: seq<Entry>, k: nat)
    requires SameShape(a, b) && k <= |a|
    ensures DefaultIds(a, k) == DefaultIds(b, k)
    decreases |a| - k
  {
    if k < |a| {
      SameDefaults(a, b, k + 1);
    }
  }

  lemma DefaultIdsNext(entries: seq<Entry>, k: nat)
    requires k < |entries| && entries[k].alt.alternate == 0
    ensures DefaultIds(entries, k) == entries[k].alt.ids + DefaultIds(entries, k + 1)
  {
  }

  lemma DefaultReady(g: Gadget, k: nat)
    requires DefaultsUpTo(g, k) && k < |g.entries| && g.entries[k].alt.alternate == 0
    ensures forall j | 0 <= j < |g.entries| && j != k && g.entries[j].active ::
              g.entries[j].alt.number != g.entries[k].alt.number
    ensures Elements(g.entries[k].alt.ids) !! Elements(g.list)
  {
    var alts := Alts(g.entries);
    forall j | 0 <= j < |g.entries| && j != k && g.entries[j].active
      ensures g.entries[j].alt.number != g.entries[k].alt.number
    {
      Distinct(g.entries, j, k);
    }
    forall id | id in g.entries[k].alt.ids
      ensures id !in g.list
    {
      assert id in alts[k].ids;
      if id in g.list {
        assert Supported(g.entries, id);
        assert id !in EP0;
        var j :| 0 <= j < |g.entries| && g.entries[j].active && id in g.entries[j].alt.ids;
        Shared(g.entries, j, k, id);
      }
    }
  }

  /**
   * The configuration reply keeps the invariant, however far it gets; on success the list is
   * exactly the endpoints of the alternate-0 settings in front of endpoint zero, and exactly those
   * settings are active.
   */
  lemma ConfigReplyFacts(g: Gadget, o: AllOutcomes)
    requires Invariant(g)
    ensures var (r, ok) := ConfigReply(g, o);
            && Invariant(r) && SameShape(g.entries, r.entries)
            && (ok ==> r.list == Reverse(DefaultIds(g.entries, 0)) + OnlyEp0(g.list))
            && (ok ==> forall i | 0 <= i < |g.entries| :: r.entries[i].active <==> g.entries[i].alt.alternate == 0)
            && ((forall i, e :: o(i, e) == Added) ==> ok)
  {
    DisableActiveClears(g);
    var cleared := DisableActive(g, |g.entries|);
    SameDefaults(g.entries, cleared.entries, 0);
    EnableDefaultFacts(cleared, 0, o);
  }

  /** All endpoints of an entry join. */
  ghost predicate AllJoin(e: Entry, o: Outcomes)
  {
    forall j | 0 <= j < |e.alt.ids| :: Joins(GadgetSide, e.alt.ids[j], o(j))
  }

  /**
   * set_interface, whatever it meets: the other alternates of the interface are gone and inactive,
   * even when there is no such alternate; the chosen one is active, with those of its endpoints
   * listed that come before the first that does not join; and it succeeds exactly if all join.
   */
  lemma SetInterfaceExactly(g: Gadget, n: nat, a: nat, o: Outcomes) returns (m: nat)
    requires NoDup(g.list)
    ensures var (r, ok) := SetInterface(g, n, a, o);
            var t, rest := Target(g.entries, n, a, |g.entries|),
              Without(g.list, OtherIds(g.entries, n, a, |g.entries|));
            && SameShape(g.entries, r.entries)
            && (forall i | 0 <= i < |g.entries| ::
                  r.entries[i].active == (t == Some(i) || (g.entries[i].active && !Other(g.entries[i], n, a))))
            && (t.None? ==> r.list == rest && !ok)
            && (t.Some? ==>
                  var e := g.entries[t.value];
                  && m <= |e.alt.ids| && r.list == Reverse(e.alt.ids[..m]) + rest
                  && (forall j | 0 <= j < m :: Joins(GadgetSide, e.alt.ids[j], o(j)))
                  && (m < |e.alt.ids| ==> !Joins(GadgetSide, e.alt.ids[m], o(m)))
                  && (ok <==> AllJoin(e, o)))
  {
    DisableOthersFacts(g, n, a, |g.entries|);
    m := 0;
    var t, others := Target(g.entries, n, a, |g.entries|), DisableOthers(g, n, a, |g.entries|);
    if t.Some? {
      var ids := g.entries[t.value].alt.ids;
      m := EnableStops(GadgetSide, others.list, ids, 0, o);
      assert ids[0..m] == ids[..m];
    }
    hide Without, OtherIds, DisableOthers, Enable, Joins, Reverse, NoDup;
  }

  /**
   * The endpoints of the alternates 0 from entry `k` up to entry `stop`, and `m` of that entry's, in
   * front of the list.
   */
  function ListedUpTo(entries: seq<Entry>, list: seq<EpId>, k: nat, stop: nat, m: nat): seq<EpId>
    requires k <= stop <= |entries| && (stop < |entries| ==> m <= |entries[stop].alt.ids|)
  {
    (if stop < |entries| then Reverse(entries[stop].alt.ids[..m]) else []) +
    (Reverse(DefaultIds(entries[..stop], k)) + list)
  }

  lemma ListedHere(entries: seq<Entry>, list: seq<EpId>, k: nat, m: nat)
    requires k <= |entries| && (k < |entries| ==> m <= |entries[k].alt.ids|)
    ensures ListedUpTo(entries, list, k, k, m) == if k < |entries| then Reverse(entries[k].alt.ids[..m]) + list else
              list
  {
    assert DefaultIds(entries[..k], k) == [];
    assert [] + list == list;
  }

  lemma ListedOver(entries: seq<Entry>, list: seq<EpId>, k: nat, stop: nat, m: nat)
    requires k < stop <= |entries| && (stop < |entries| ==> m <= |entries[stop].alt.ids|)
    ensures var ids := if entries[k].alt.alternate == 0 then entries[k].alt.ids else [];
            ListedUpTo(entries, list, k, stop, m) == ListedUpTo(entries, Reverse(ids) + list, k + 1, stop, m)
  {
    var ids := if entries[k].alt.alternate == 0 then entries[k].alt.ids else [];
    var rest := DefaultIds(entries[..stop], k + 1);
    assert DefaultIds(entries[..stop], k) == ids + rest;
    hide Reverse;
    ReverseBoth(ids, rest, list);
  }

  lemma ListedSame(a: seq<Entry>, b: seq<Entry>, list: seq<EpId>, k: nat, stop: nat, m: nat)
    requires SameShape(a, b) && k <= stop <= |a| && (stop < |a| ==> m <= |a[stop].alt.ids|)
    ensures ListedUpTo(a, list, k, stop, m) == ListedUpTo(b, list, k, stop, m)
  {
    SameDefaults(a[..stop], b[..stop], k);
  }

  /** Every alternate 0 from entry `k` to entry `stop` is active; nothing else has changed. */
  predicate ActiveUpTo(before: seq<Entry>, after: seq<Entry>, k: nat, stop: nat)
  {
    && |before| == |after|
    && forall i | 0 <= i < |before| ::
         after[i] == if k <= i <= stop && before[i].alt.alternate == 0 then before[i].(active := true) else before[i]
  }

  /**
   * Enabling the defaults from entry `k` on stopped at entry `stop`, the first alternate 0 of which
   * not all endpoints join: those before it are active and listed whole, it is active and listed in
   * part, those after it are as they were.
   */
  ghost predicate StopsAt(g: Gadget, k: nat, o: AllOutcomes, r: Gadget, ok: bool, stop: nat, m: nat)
  {
    && k <= stop <= |g.entries| && (stop < |g.entries| ==> m <= |g.entries[stop].alt.ids|)
    && (forall i | k <= i < stop && g.entries[i].alt.alternate == 0 :: AllJoin(g.entries[i], OutcomesAt(o, i)))
    && (stop < |g.entries| ==> g.entries[stop].alt.alternate == 0 && !AllJoin(g.entries[stop], OutcomesAt(o, stop)))
    && (ok <==> stop == |g.entries|)
    && ActiveUpTo(g.entries, r.entries, k, stop)
    && r.list == ListedUpTo(g.entries, g.list, k, stop, m)
  }

  lemma {:induction false} EnableDefaultStops(g: Gadget, k: nat, o: AllOutcomes) returns (stop: nat, m: nat)
    requires k <= |g.entries|
    ensures StopsAt(g, k, o, EnableDefault(g, k, o).0, EnableDefault(g, k, o).1, stop, m)
    decreases |g.entries| - k
  {
    stop, m := k, 0;
    hide StopsAt, EnableEntry;
    if k == |g.entries| {
      StopsEnd(g, o);
    } else if g.entries[k].alt.alternate != 0 {
      stop, m := EnableDefaultStops(g, k + 1, o);
      StopsSkip(g, k, o, EnableDefault(g, k, o).0, EnableDefault(g, k, o).1, stop, m);
    } else {
      var (next, ok) := EnableEntry(g, k, OutcomesAt(o, k));
      if ok {
        stop, m := EnableDefaultStops(next, k + 1, o);
        StopsTake(g, k, o, EnableDefault(g, k, o).0, EnableDefault(g, k, o).1, stop, m);
      } else {
        m := StopsHere(g, k, o);
      }
    }
  }

  lemma StopsEnd(g: Gadget, o: AllOutcomes)
    ensures StopsAt(g, |g.entries|, o, g, true, |g.entries|, 0)
  {
    ListedHere(g.entries, g.list, |g.entries|, 0);
    hide ListedUpTo;
  }

  lemma StopsSkip(g: Gadget, k: nat, o: AllOutcomes, r: Gadget, ok: bool, stop: nat, m: nat)
    requires k < |g.entries| && g.entries[k].alt.alternate != 0 && StopsAt(g, k + 1, o, r, ok, stop, m)
    ensures StopsAt(g, k, o, r, ok, stop, m)
  {
    hide ListedUpTo, AllJoin;
    ListedOver(g.entries, g.list, k, stop, m);
    ReverseNothing(g.list);
  }

  lemma StopsTake(g: Gadget, k: nat, o: AllOutcomes, r: Gadget, ok: bool, stop: nat, m: nat)
    requires k < |g.entries| && g.entries[k].alt.alternate == 0 && EnableEntry(g, k, OutcomesAt(o, k)).1
    requires StopsAt(EnableEntry(g, k, OutcomesAt(o, k)).0, k + 1, o, r, ok, stop, m)
    ensures StopsAt(g, k, o, r, ok, stop, m)
  {
    var next := EnableEntry(g, k, OutcomesAt(o, k)).0;
    var n := EntryStops(g, k, OutcomesAt(o, k));
    hide ListedUpTo, EnableEntry;
    ListedOver(g.entries, g.list, k, stop, m);
    ListedSame(next.entries, g.entries, next.list, k + 1, stop, m);
    hide ActiveUpTo;
    ActiveOver(g.entries, next.entries, r.entries, k, stop);
  }

  lemma StopsHere(g: Gadget, k: nat, o: AllOutcomes) returns (m: nat)
    requires k < |g.entries| && g.entries[k].alt.alternate == 0 && !EnableEntry(g, k, OutcomesAt(o, k)).1
    ensures StopsAt(g, k, o, EnableEntry(g, k, OutcomesAt(o, k)).0, false, k, m)
  {
    m := EntryStops(g, k, OutcomesAt(o, k));
    hide ListedUpTo, EnableEntry, AllJoin;
    ListedHere(g.entries, g.list, k, m);
  }

  lemma ActiveOver(before: seq<Entry>, next: seq<Entry>, after: seq<Entry>, k: nat, stop: nat)
    requires k < |before| && k < stop && ActiveUpTo(next, after, k + 1, stop)
    requires next == if before[k].alt.alternate == 0 then before[k := before[k].(active := true)] else before
    ensures ActiveUpTo(before, after, k, stop)
  {
  }

  lemma EntryStops(g: Gadget, k: nat, o: Outcomes) returns (m: nat)
    requires k < |g.entries|
    ensures var (r, ok), ids := EnableEntry(g, k, o), g.entries[k].alt.ids;
            && m <= |ids| && (ok <==> AllJoin(g.entries[k], o))
            && r.entries == g.entries[k := g.entries[k].(active := true)]
            && r.list == Reverse(ids[..m]) + g.list && (ok ==> r.list == Reverse(ids) + g.list)
  {
    var ids := g.entries[k].alt.ids;
    m := EnableStops(GadgetSide, g.list, ids, 0, o);
    assert ids[0..m] == ids[..m] && ids[0..|ids|] == ids;
  }

  lemma ReverseNothing(list: seq<EpId>)
    ensures Reverse([]) + list == list
  {
  }

  // --------------------------------------------------------------- gadget runs

  datatype GadgetOp =
    | Select(number: nat, alternate: nat, outcomes: Outcomes)
    | Configure(all: AllOutcomes)

  function Apply(g: Gadget, op: GadgetOp): Gadget
  {
    match op
    case Select(n, a, o) => SetInterface(g, n, a, o).0
    case Configure(o) => ConfigReply(g, o).0
  }

  function RunGadget(g: Gadget, ops: seq<GadgetOp>): Gadget
    decreases |ops|
  {
    if ops == [] then g else RunGadget(Apply(g, ops[0]), ops[1..])
  }

  /** Every selection along the run passes the caller's check. */
  ghost predicate Careful(g: Gadget, ops: seq<GadgetOp>)
    decreases |ops|
  {
    ops == [] ||
    ((ops[0].Select? ==> Selectable(g, ops[0].number, ops[0].alternate)) && Careful(Apply(g, ops[0]), ops[1..]))
  }

  /** Over every run, including partly failed operations, the registry invariant holds. */
  lemma {:induction false} RunKeepsInvariant(g: Gadget, ops: seq<GadgetOp>)
    requires Invariant(g) && Careful(g, ops)
    ensures Invariant(RunGadget(g, ops))
    decreases |ops|
  {
    if ops != [] {
      match ops[0] {
        case Select(n, a, o) => SetInterfaceKeepsInvariant(g, n, a, o);
        case Configure(o) => ConfigReplyFacts(g, o);
      }
      hide Invariant, Apply;
      RunKeepsInvariant(Apply(g, ops[0]), ops[1..]);
    }
  }

  /** What binding a freshly parsed identity starts from. */
  lemma BoundIsInvariant(alts: seq<Alt>)
    requires WellFormedAlts(alts)
    ensures Invariant(Bound(alts))
  {
    SameAlts(Bound(alts).entries, Bound(alts).entries);
    assert Alts(Bound(alts).entries) == alts;
  }

  function Bound(alts: seq<Alt>): Gadget
  {
    Gadget([EP0_OUT, EP0_IN], seq(|alts|, i requires 0 <= i < |alts| => Entry(alts[i], false)))
  }
}
