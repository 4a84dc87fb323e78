/**
 * The endpoint registries as values: how enabling and disabling alternate settings acts on an
 * endpoint list, on the gadget's side (one flat list of settings with active flags) and on the
 * driver's (interfaces with a current alternate each). The classes GadgetRegistry and
 * DriverRegistry are proved against these functions.
 */
module Registry {
  import opened Bytes
  import opened Descriptors
  import opened EndpointList

  datatype Side = GadgetSide | DriverSide

  /**
   * What becomes of one endpoint: NotAdded when it cannot be configured, allocated or enabled,
   * SubmitFailed when it is added but its first transfer cannot be submitted.
   */
  datatype Outcome = Added | NotAdded | SubmitFailed

  type Outcomes = nat -> Outcome

  /** The direction each side starts receiving on as soon as the endpoint exists. */
  predicate Submits(side: Side, id: EpId)
  {
    id.kind != Ctrl && id.dir == (if side == GadgetSide then Out else In)
  }

  /** The loops of enable_interface and enable_driver_interface, from endpoint `k` on. */
  function Enable(side: Side, list: seq<EpId>, ids: seq<EpId>, k: nat, o: Outcomes): (r: (seq<EpId>, bool))
    requires k <= |ids|
    decreases |ids| - k
  {
    if k == |ids| then (list, true)
    else if o(k) == NotAdded then (list, false)
    else
      var added := [ids[k]] + list;
      if Submits(side, ids[k]) && o(k) == SubmitFailed then
        (if side == GadgetSide then list else added, false)
      else Enable(side, added, ids, k + 1, o)
  }

  const ALL_ADDED: Outcomes := k => Added

  ghost predicate NothingFails(o: Outcomes)
  {
    forall k :: o(k) == Added
  }

  /**
   * Enabling adds a run of the setting's endpoints in front, newest first; all of them if it
   * succeeds, and it succeeds when nothing fails.
   */
  lemma {:induction false} EnableFacts(side: Side, list: seq<EpId>, ids: seq<EpId>, k: nat, o: Outcomes)
    returns (n: nat)
    requires k <= |ids|
    ensures k <= n <= |ids|
    ensures Enable(side, list, ids, k, o).0 == Reverse(ids[k..n]) + list
    ensures Enable(side, list, ids, k, o).1 ==> n == |ids|
    ensures NothingFails(o) ==> Enable(side, list, ids, k, o).1
    decreases |ids| - k
  {
    var added := if k < |ids| then [ids[k]] + list else [];
    if k == |ids| || o(k) == NotAdded {
      n := k;
      assert ids[k..k] == [];
    } else if Submits(side, ids[k]) && o(k) == SubmitFailed {
      n := if side == GadgetSide then k else k + 1;
      if side == DriverSide {
        assert ids[k..k + 1][1..] == [];
        assert Reverse(ids[k..k + 1]) == [ids[k]];
      } else {
        assert ids[k..k] == [];
      }
    } else {
      n := EnableFacts(side, added, ids, k + 1, o);
      assert ids[k..n][1..] == ids[k + 1..n];
      assert Reverse(ids[k + 1..n]) + ([ids[k]] + list) == Reverse(ids[k + 1..n]) + [ids[k]] + list;
    }
  }

  /**
   * An endpoint is listed for good: it is added, and where its side receives first, so is its first
   * transfer submitted.
   */
  predicate Joins(side: Side, id: EpId, out: Outcome)
  {
    out == Added ||
    (out == SubmitFailed && (id.kind == Ctrl || id.dir == if side == GadgetSide then In else Out))
  }

  /**
   * Enabling stops at the first endpoint that does not join, and succeeds when there is none. What
   * it has listed by then stays, and so does, on the driver, an endpoint whose first transfer failed.
   */
  lemma {:induction false} EnableStops(side: Side, list: seq<EpId>, ids: seq<EpId>, k: nat, o: Outcomes)
    returns (n: nat)
    requires k <= |ids|
    ensures k <= n <= |ids|
    ensures forall i | k <= i < n :: Joins(side, ids[i], o(i))
    ensures n < |ids| ==> !Joins(side, ids[n], o(n))
    ensures var listed := if n < |ids| && side == DriverSide && o(n) == SubmitFailed then n + 1 else n;
            && Enable(side, list, ids, k, o).0 == Reverse(ids[k..listed]) + list
            && Enable(side, list, ids, k, o).1 == (n == |ids|)
    decreases |ids| - k
  {
    n := k;
    if k < |ids| && Joins(side, ids[k], o(k)) {
      n := EnableStops(side, [ids[k]] + list, ids, k + 1, o);
      var listed := if n < |ids| && side == DriverSide && o(n) == SubmitFailed then n + 1 else n;
      hide Reverse, Joins;
      ReverseNext(ids, k, listed, list);
    } else {
      assert ids[k..k] == [] && [] + list == list;
      if k < |ids| {
        assert ids[k + 1..k + 1] == [];
        ReverseNext(ids, k, k + 1, list);
      }
    }
  }

  lemma ReverseNext(ids: seq<EpId>, k: nat, n: nat, list: seq<EpId>)
    requires k < n <= |ids|
    ensures Reverse(ids[k..n]) + list == Reverse(ids[k + 1..n]) + ([ids[k]] + list)
  {
    assert ids[k..n][1..] == ids[k + 1..n];
  }

  // ------------------------------------------------------------ well-formedness

  /**
   * Identities as sections 9.6.3 and 9.6.6 of USB 2.0 allow them: no endpoint twice in a setting, none equal
   * to endpoint zero, endpoints shared only between alternates of one interface, and each
   * alternate of an interface described once.
   */
  ghost predicate WellFormedAlts(alts: seq<Alt>)
  {
    && (forall i | 0 <= i < |alts| :: NoDup(alts[i].ids) && EP0_IN !in alts[i].ids && EP0_OUT !in alts[i].ids)
    && (forall i, j | 0 <= i < j < |alts| :: alts[i].number != alts[j].number || alts[i].alternate != alts[j].alternate)
    && (forall i, j, id | 0 <= i < |alts| && 0 <= j < |alts| && id in alts[i].ids && id in alts[j].ids ::
          alts[i].number == alts[j].number)
  }

  /** A map from interface numbers to the alternate selected there. */
  type Selection = map<nat, nat>

  predicate Selected(m: Selection, alt: Alt)
  {
    alt.number in m && m[alt.number] == alt.alternate
  }

  const EP0: set<EpId> := {EP0_IN, EP0_OUT}

  /** The endpoints a selection calls for. */
  ghost function SelectedIds(alts: seq<Alt>, m: Selection): set<EpId>
  {
    set i, id | 0 <= i < |alts| && Selected(m, alts[i]) && id in alts[i].ids :: id
  }

  // ------------------------------------------------------------------- gadget

  datatype Entry = Entry(alt: Alt, active: bool)

  datatype Gadget = Gadget(list: seq<EpId>, entries: seq<Entry>)

  function Alts(entries: seq<Entry>): (alts: seq<Alt>)
    ensures |alts| == |entries|
  {
    seq(|entries|, i requires 0 <= i < |entries| => entries[i].alt)
  }

  predicate SameShape(a: seq<Entry>, b: seq<Entry>)
  {
    |a| == |b| && forall i | 0 <= i < |a| :: a[i].alt == b[i].alt
  }

  /** disable_interface */
  function DisableEntry(g: Gadget, i: nat): (r: Gadget)
    requires i < |g.entries|
  {
    Gadget(RemoveAll(g.list, g.entries[i].alt.ids), g.entries[i := g.entries[i].(active := false)])
  }

  /** enable_interface */
  function EnableEntry(g: Gadget, i: nat, o: Outcomes): (r: (Gadget, bool))
    requires i < |g.entries|
  {
    var (list, ok) := Enable(GadgetSide, g.list, g.entries[i].alt.ids, 0, o);
    (Gadget(list, g.entries[i := g.entries[i].(active := true)]), ok)
  }

  predicate Other(e: Entry, n: nat, a: nat)
  {
    e.alt.number == n && e.alt.alternate != a
  }

  /** The loop of set_interface over the first `k` entries: every other alternate is disabled. */
  function DisableOthers(g: Gadget, n: nat, a: nat, k: nat): (r: Gadget)
    requires k <= |g.entries|
    ensures SameShape(g.entries, r.entries)
    ensures forall i | k <= i < |g.entries| :: r.entries[i] == g.entries[i]
  {
    if k == 0 then g
    else
      var before := DisableOthers(g, n, a, k - 1);
      if Other(g.entries[k - 1], n, a) then DisableEntry(before, k - 1) else before
  }

  /** The entry the loop ends up choosing: the last of this number and alternate. */
  function Target(entries: seq<Entry>, n: nat, a: nat, k: nat): (t: Option<nat>)
    requires k <= |entries|
    ensures t.Some? ==> t.value < k && entries[t.value].alt.number == n && entries[t.value].alt.alternate == a
    ensures forall i | (if t.Some? then t.value + 1 else 0) <= i < k ::
              entries[i].alt.number != n || entries[i].alt.alternate != a
  {
    if k == 0 then None
    else if entries[k - 1].alt.number == n && entries[k - 1].alt.alternate == a then Some(k - 1)
    else Target(entries, n, a, k - 1)
  }

  /** set_interface */
  function SetInterface(g: Gadget, n: nat, a: nat, o: Outcomes): (r: (Gadget, bool))
    ensures |r.0.entries| == |g.entries|
  {
    var others := DisableOthers(g, n, a, |g.entries|);
    match Target(g.entries, n, a, |g.entries|)
    case None => (others, false)
    case Some(t) => EnableEntry(others, t, o)
  }

  /** disable_active_interface over the first `k` entries. */
  function DisableActive(g: Gadget, k: nat): (r: Gadget)
    requires k <= |g.entries|
    ensures SameShape(g.entries, r.entries)
    ensures forall i | k <= i < |g.entries| :: r.entries[i] == g.entries[i]
  {
    if k == 0 then g
    else
      var before := DisableActive(g, k - 1);
      if g.entries[k - 1].active then DisableEntry(before, k - 1) else before
  }

  type AllOutcomes = (nat, nat) -> Outcome

  function OutcomesAt(o: AllOutcomes, k: nat): Outcomes
  {
    (e: nat) => o(k, e)
  }

  /** enable_default_interface from entry `k` on. */
  function EnableDefault(g: Gadget, k: nat, o: AllOutcomes): (r: (Gadget, bool))
    requires k <= |g.entries|
    ensures |r.0.entries| == |g.entries|
    decreases |g.entries| - k
  {
    if k == |g.entries| then (g, true)
    else if g.entries[k].alt.alternate != 0 then EnableDefault(g, k + 1, o)
    else
      var (next, ok) := EnableEntry(g, k, OutcomesAt(o, k));
      if !ok then (next, false) else EnableDefault(next, k + 1, o)
  }

  /** What a forwarded configuration descriptor triggers on the gadget. */
  function ConfigReply(g: Gadget, o: AllOutcomes): (r: (Gadget, bool))
    ensures |r.0.entries| == |g.entries|
  {
    EnableDefault(DisableActive(g, |g.entries|), 0, o)
  }

  // ------------------------------------------------------- registry invariant

  predicate Supported(entries: seq<Entry>, id: EpId)
  {
    id in EP0 || exists i :: 0 <= i < |entries| && entries[i].active && id in entries[i].alt.ids
  }

  ghost predicate Invariant(g: Gadget)
  {
    && WellFormedAlts(Alts(g.entries))
    && NoDup(g.list)
    && (forall i, j | 0 <= i < j < |g.entries| && g.entries[i].active && g.entries[j].active ::
          g.entries[i].alt.number != g.entries[j].alt.number)
    && forall id | id in g.list :: Supported(g.entries, id)
  }

  /** The endpoints of the alternates that set_interface(n, a) disables. */
  ghost function OtherIds(entries: seq<Entry>, n: nat, a: nat, k: nat): set<EpId>
    requires k <= |entries|
  {
    set i, id | 0 <= i < k && Other(entries[i], n, a) && id in entries[i].alt.ids :: id
  }

  /**
   * A caller's check that set_interface(n, a) lists no endpoint twice: whatever the chosen setting
   * already has listed also belongs to one of the alternates about to be disabled.
   */
  ghost predicate Selectable(g: Gadget, n: nat, a: nat)
  {
    var t := Target(g.entries, n, a, |g.entries|);
    t.Some? ==> forall id | id in g.entries[t.value].alt.ids && id in g.list ::
      id in OtherIds(g.entries, n, a, |g.entries|)
  }
}
