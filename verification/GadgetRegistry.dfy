/** The gadget's endpoint list and identity (gadget.c), updated in place. */
module GadgetRegistry {
  import opened Bytes
  import opened Descriptors
  import opened EndpointList
  import opened Registry
  import opened RegistryInvariant
  import opened PacketBounds
  import opened InitParser

  /** A parsed slot whose announced endpoints are all stored. */
  predicate SlotReady(slot: Slot)
  {
    && |slot.desc| == INTERFACE_SIZE && slot.desc[4] <= MAX_ENDPOINTS == |slot.endpoints|
    && forall k | 0 <= k < slot.desc[4] :: ENDPOINT_SIZE <= |slot.endpoints[k]|
  }

  function SlotIds(slot: Slot): (ids: seq<EpId>)
    requires SlotReady(slot)
    ensures |ids| == slot.desc[4]
  {
    seq(slot.desc[4], k requires 0 <= k < slot.desc[4] => IdOf(slot.endpoints[k]))
  }

  function EntryOf(slot: Slot): Entry
    requires SlotReady(slot)
  {
    Entry(Alt(slot.desc[2], slot.desc[3], SlotIds(slot)), slot.active)
  }

  predicate AllReady(slots: seq<Slot>)
  {
    forall i | 0 <= i < |slots| :: SlotReady(slots[i])
  }

  function Entries(slots: seq<Slot>): (entries: seq<Entry>)
    requires AllReady(slots)
    ensures |entries| == |slots|
  {
    seq(|slots|, i requires 0 <= i < |slots| => EntryOf(slots[i]))
  }

  lemma SetActive(slots: seq<Slot>, i: nat, active: bool)
    requires AllReady(slots) && i < |slots|
    ensures AllReady(slots[i := slots[i].(active := active)])
    ensures Entries(slots[i := slots[i].(active := active)]) ==
              Entries(slots)[i := Entries(slots)[i].(active := active)]
  {
    var after := slots[i := slots[i].(active := active)];
    assert SlotIds(after[i]) == SlotIds(slots[i]);
  }

  /** Of the slots in use only the flags may have changed, of the others nothing. */
  ghost predicate OnlyFlags(before: seq<Slot>, after: seq<Slot>, used: nat)
  {
    && |before| == |after|
    && forall i | 0 <= i < |before| :: after[i] == if i < used then before[i].(active := after[i].active) else before[i]
  }

  lemma OnlyFlagsTwice(a: seq<Slot>, b: seq<Slot>, c: seq<Slot>, used: nat)
    requires OnlyFlags(a, b, used) && OnlyFlags(b, c, used)
    ensures OnlyFlags(a, c, used)
  {
  }

  lemma NoFlags(a: seq<Slot>, used: nat)
    ensures OnlyFlags(a, a, used)
  {
  }

  /** gadget_state */
  class GadgetState {
    var eplist: seq<EpId>
    const identity: IdentityState

    ghost predicate Valid()
      reads this, identity, identity.interfaces
    {
      && identity.nbInt <= identity.interfaces.Length
      && AllReady(identity.interfaces[..identity.nbInt])
    }

    ghost function State(): Gadget
      reads this, identity, identity.interfaces
      requires Valid()
    {
      Gadget(eplist, Entries(identity.interfaces[..identity.nbInt]))
    }

    /** ubq_bind: the endpoint-zero pair on top of a parsed identity. */
    constructor (identity: IdentityState)
      requires identity.nbInt <= identity.interfaces.Length && AllReady(identity.interfaces[..identity.nbInt])
      ensures Valid() && this.identity == identity && eplist == [EP0_OUT, EP0_IN]
    {
      this.identity := identity;
      eplist := [EP0_OUT, EP0_IN];
    }

    /** find_gadget_endpoint and, when found, free_gadget_endpoint's removal from the list. */
    method FreeEndpoint(id: EpId)
      modifies this
      ensures eplist == Remove(old(eplist), id)
    {
      var at := FindEndpoint(eplist, id);
      if at.Some? {
        RemoveAt(eplist, id, at.value);
        eplist := eplist[..at.value] + eplist[at.value + 1..];
      } else {
        RemoveAbsent(eplist, id);
      }
    }

    method SetFlag(i: nat, active: bool)
      requires Valid() && i < identity.nbInt
      modifies identity.interfaces
      ensures OnlyFlags(old(identity.interfaces[..]), identity.interfaces[..], identity.nbInt)
      ensures Valid()
      ensures State() == Gadget(eplist, old(State()).entries[i := old(State()).entries[i].(active := active)])
    {
      ghost var n := identity.nbInt;
      ghost var slots := identity.interfaces[..n];
      SetActive(slots, i, active);
      identity.interfaces[i] := identity.interfaces[i].(active := active);
      assert identity.interfaces[..n] == slots[i := slots[i].(active := active)];
    }

    /** disable_interface */
    method DisableInterface(i: nat)
      requires Valid() && i < identity.nbInt
      modifies this, identity.interfaces
      ensures OnlyFlags(old(identity.interfaces[..]), identity.interfaces[..], identity.nbInt)
      ensures Valid() && State() == DisableEntry(old(State()), i)
    {
      ghost var list, ids, slots := eplist, State().entries[i].alt.ids, identity.interfaces[..];
      SetFlag(i, false);
      ghost var entries := State().entries;
      var slot := identity.interfaces[i];
      assert SlotIds(slot) == ids by { assert State().entries[i] == EntryOf(slot); }
      for ep := 0 to slot.desc[4]
        invariant eplist == RemoveAll(list, ids[..ep])
        invariant Valid() && State().entries == entries
        invariant OnlyFlags(slots, identity.interfaces[..], identity.nbInt)
      {
        assert ids[..ep + 1][..ep] == ids[..ep];
        FreeEndpoint(IdOf(slot.endpoints[ep]));
      }
      assert ids[..slot.desc[4]] == ids;
    }

    /** enable_interface: endpoint `ep` meets the outcome o(ep). */
    method EnableInterface(i: nat, o: Outcomes) returns (ok: bool)
      requires Valid() && i < identity.nbInt
      modifies this, identity.interfaces
      ensures OnlyFlags(old(identity.interfaces[..]), identity.interfaces[..], identity.nbInt)
      ensures Valid() && (State(), ok) == EnableEntry(old(State()), i, o)
    {
      ghost var list, ids, slots := eplist, State().entries[i].alt.ids, identity.interfaces[..];
      SetFlag(i, true);
      ghost var entries := State().entries;
      var slot := identity.interfaces[i];
      assert SlotIds(slot) == ids by { assert State().entries[i] == EntryOf(slot); }
      for ep := 0 to slot.desc[4]
        invariant Enable(GadgetSide, eplist, ids, ep, o) == Enable(GadgetSide, list, ids, 0, o)
        invariant Valid() && State().entries == entries
        invariant OnlyFlags(slots, identity.interfaces[..], identity.nbInt)
      {
        var id := IdOf(slot.endpoints[ep]);
        if o(ep) == NotAdded {
          return false;
        }
        eplist := [id] + eplist;
        if id.dir == Out && id.kind != Ctrl {
          if o(ep) == SubmitFailed {
            eplist := eplist[1..];
            return false;
          }
        }
      }
      ok := true;
    }

    /** The loop of set_interface: it disables the other alternates and finds the chosen one. */
    method DisableAlternates(ifnumber: nat, alternative: nat) returns (active: Option<nat>)
      requires Valid()
      modifies this, identity.interfaces
      ensures OnlyFlags(old(identity.interfaces[..]), identity.interfaces[..], identity.nbInt)
      ensures Valid() && |State().entries| == |old(State()).entries|
      ensures State() == DisableOthers(old(State()), ifnumber, alternative, |old(State()).entries|)
      ensures active == Target(old(State()).entries, ifnumber, alternative, |old(State()).entries|)
    {
      ghost var g, slots := State(), identity.interfaces[..];
      active := None;
      NoFlags(slots, identity.nbInt);
      for i := 0 to identity.nbInt
        invariant Valid() && State() == DisableOthers(g, ifnumber, alternative, i)
        invariant OnlyFlags(slots, identity.interfaces[..], identity.nbInt)
        invariant active == Target(g.entries, ifnumber, alternative, i)
      {
        hide OnlyFlags;
        var slot := identity.interfaces[i];
        assert State().entries[i] == EntryOf(slot);
        assert State().entries[i].alt == g.entries[i].alt;
        ghost var before := identity.interfaces[..];
        if slot.desc[2] == ifnumber {
          if slot.desc[3] == alternative {
            active := Some(i);
          } else {
            DisableInterface(i);
            OnlyFlagsTwice(slots, before, identity.interfaces[..], identity.nbInt);
          }
        }
      }
    }

    /** set_interface */
    method SetAlternate(ifnumber: nat, alternative: nat, o: Outcomes) returns (ok: bool)
      requires Valid()
      modifies this, identity.interfaces
      ensures OnlyFlags(old(identity.interfaces[..]), identity.interfaces[..], identity.nbInt)
      ensures Valid() && (State(), ok) == SetInterface(old(State()), ifnumber, alternative, o)
      ensures old(Invariant(State()) && Selectable(State(), ifnumber, alternative)) ==> Invariant(State())
    {
      hide OnlyFlags;
      ghost var g, slots := State(), identity.interfaces[..];
      if Invariant(g) && Selectable(g, ifnumber, alternative) {
        SetInterfaceKeepsInvariant(g, ifnumber, alternative, o);
      }
      hide Invariant, Selectable;
      ok := false;
      var active := DisableAlternates(ifnumber, alternative);
      if active.Some? {
        ghost var before := identity.interfaces[..];
        ok := EnableInterface(active.value, o);
        OnlyFlagsTwice(slots, before, identity.interfaces[..], identity.nbInt);
      }
    }

    /** disable_active_interface */
    method DisableActiveInterface()
      requires Valid()
      modifies this, identity.interfaces
      ensures OnlyFlags(old(identity.interfaces[..]), identity.interfaces[..], identity.nbInt)
      ensures Valid() && identity.nbInt == old(identity.nbInt) && |State().entries| == |old(State()).entries|
      ensures State() == DisableActive(old(State()), |old(State()).entries|)
    {
      ghost var g, slots := State(), identity.interfaces[..];
      NoFlags(slots, identity.nbInt);
      for i := 0 to identity.nbInt
        invariant Valid() && State() == DisableActive(g, i)
        invariant OnlyFlags(slots, identity.interfaces[..], identity.nbInt)
      {
        hide OnlyFlags;
        assert State().entries[i] == EntryOf(identity.interfaces[i]);
        ghost var before := identity.interfaces[..];
        if identity.interfaces[i].active {
          DisableInterface(i);
          OnlyFlagsTwice(slots, before, identity.interfaces[..], identity.nbInt);
        }
      }
    }

    /** enable_default_interface */
    method EnableDefaultInterface(o: AllOutcomes) returns (ok: bool)
      requires Valid()
      modifies this, identity.interfaces
      ensures OnlyFlags(old(identity.interfaces[..]), identity.interfaces[..], identity.nbInt)
      ensures Valid() && (State(), ok) == EnableDefault(old(State()), 0, o)
    {
      ghost var g, slots := State(), identity.interfaces[..];
      for i := 0 to identity.nbInt
        invariant Valid() && EnableDefault(State(), i, o) == EnableDefault(g, 0, o)
        invariant OnlyFlags(slots, identity.interfaces[..], identity.nbInt)
      {
        assert State().entries[i] == EntryOf(identity.interfaces[i]);
        if identity.interfaces[i].desc[3] == 0 {
          ok := EnableInterface(i, OutcomesAt(o, i));
          if !ok {
            return;
          }
        }
      }
      ok := true;
    }

    /** The part of ep_gadget_recv_userland_ctrl that a configuration descriptor triggers. */
    method ConfigurationReply(o: AllOutcomes) returns (ok: bool)
      requires Valid()
      modifies this, identity.interfaces
      ensures OnlyFlags(old(identity.interfaces[..]), identity.interfaces[..], identity.nbInt)
      ensures Valid() && (State(), ok) == ConfigReply(old(State()), o)
      ensures old(Invariant(State())) ==> Invariant(State())
    {
      ghost var g, slots := State(), identity.interfaces[..];
      hide OnlyFlags;
      if Invariant(g) {
        ConfigReplyFacts(g, o);
      }
      hide Invariant;
      DisableActiveInterface();
      ghost var before := identity.interfaces[..];
      ok := EnableDefaultInterface(o);
      OnlyFlagsTwice(slots, before, identity.interfaces[..], identity.nbInt);
    }
  }
}
