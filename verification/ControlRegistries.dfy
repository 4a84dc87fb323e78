/**
 * Both ends in memory, each with its registry. Every operation is a step of RegistryRuns, so what
 * is proved of its runs holds of these bytes and lists.
 */
module ControlRegistries {
  import opened Bytes
  import opened Messages
  import opened Descriptors
  import opened ControlTransfer
  import opened DataMessages
  import opened ControlMessages
  import opened Control
  import opened HeldRequests
  import opened ControlSystem
  import opened GadgetRegistry
  import opened DriverRegistry
  import opened RegistryRuns
  import opened RegistryMirror
  import opened EndpointList
  import Registry
  import Mirror

  // ------------------------------------------------------- each handler's part on its registry

  method SelectOnGadget(g: GadgetState, b: Body, env: ControlEnv, o: Registry.Outcomes) returns (selected: bool)
    requires g.Valid()
    modifies g, g.identity.interfaces
    ensures g.Valid() && (g.State(), selected) == OnSetup(old(g.State()), b, env, o)
  {
    selected := env.selected;
    if env.memory && !AwaitsData(Direction(b), b) && SetsInterface(b) {
      selected := g.SetAlternate(Index(b), Value(b), o);
    }
  }

  method ConfigureOnGadget(g: GadgetState, img: seq<byte>, ghost r: Reply, env: ControlEnv, o: Registry.AllOutcomes)
    returns (selected: bool)
    requires g.Valid() && CarriesReply(img, r)
    modifies g, g.identity.interfaces
    ensures g.Valid() && (g.State(), selected) == OnReply(old(g.State()), r, env, o)
  {
    selected := env.selected;
    if Type(img) != ACK && GetsConfiguration(Data(img)) && Length(Data(img)) > 9 {
      selected := g.ConfigurationReply(o);
    }
  }

  method SelectOnDriver(d: DriverState, b: Body, env: ControlEnv, transfer: bool, o: Registry.Outcomes)
    returns (selected: bool)
    requires d.Valid() && (env.memory && SetsInterface(b) ==> Known(d.Conf(), Index(b)))
    modifies d, d.current
    ensures d.Valid() && d.Conf() == old(d.Conf())
    ensures (d.State(), selected) == OnPacket(old(d.State()), old(d.Conf()), b, env, transfer, o)
  {
    selected := env.selected;
    if env.memory && SetsInterface(b) {
      var k := d.FindIndex(Index(b));
      selected := d.SetAlternate(k.value, Value(b), transfer, o);
    }
  }

  method ConfigureOnDriver(d: DriverState, ghost u: D.Urb, dir: Dir, status: Option<int>, setup: Body,
                           o: Registry.AllOutcomes)
    returns (ok: bool)
    requires d.Valid() && dir == u.dir && status == u.status && setup == u.image[..SETUP]
    modifies d
    ensures d.Valid() && d.Conf() == old(d.Conf())
    ensures (d.State(), ok) == OnCompletion(old(d.State()), old(d.Conf()), u, o)
  {
    ok := true;
    if dir == Out && status == Some(0) && SetsConfiguration(setup) {
      ok := d.ConfigurationSet(o);
    }
  }

  /** handle_setup: SET_INTERFACE runs set_interface before the setup is forwarded, and only its success forwards it. */
  method SetupOnGadget(e: Ends, g: GadgetState, i: nat, env: ControlEnv, o: Registry.Outcomes)
    returns (ghost used: ControlEnv)
    requires e.Valid() && g.Valid() && i < |e.gad.setups|
    requires g.identity.interfaces !in e.gad.Memory() + e.drv.Memory()
    modifies e, e.gad, g, g.identity.interfaces
    ensures e.Valid() && g.Valid() && used == env.(room := used.room, selected := used.selected)
    ensures i < |old(e.s).gad.setups| && e.s == AfterRunSetup(old(e.s), i, used)
    ensures (g.State(), used.selected) == OnSetup(old(g.State()), old(e.s).gad.setups[i].it, env, o)
  {
    hide AfterRunSetup, OnSetup, SystemInvariant, InTransit, OnReturn, AllHold;
    var selected := SelectOnGadget(g, e.gad.setups[i].it, env, o);
    used := e.OnRunSetup(i, env.(selected := selected));
  }

  /**
   * ep_gadget_recv_userland_ctrl: a configuration descriptor sets every interface to alternate 0
   * before it is answered.
   */
  method ReplyOnGadget(e: Ends, g: GadgetState, i: nat, com: seq<byte>, env: ControlEnv, o: Registry.AllOutcomes)
    returns (outcome: G.Outcome, ghost used: ControlEnv)
    requires e.Valid() && g.Valid() && i < |e.back| && UNION_AT <= |e.back[i].it|
    requires Deliverable(e.back[i].it) && ReceiveBuffer(com)
    requires g.identity.interfaces !in e.gad.Memory() + e.drv.Memory()
    modifies e, e.gad, g, g.identity.interfaces
    ensures e.Valid() && g.Valid() && used == env.(room := used.room, selected := used.selected)
    ensures i < |old(e.s).back| && e.s == AfterToGadget(old(e.s), i, used)
    ensures (g.State(), used.selected) == OnReply(old(g.State()), old(e.s).back[i].it, env, o)
  {
    hide AfterToGadget, OnReply, CarriesReply, SystemInvariant, InTransit, OnReturn, AllHold, Deliverable;
    hide ReceiveBuffer, Ends.Valid;
    e.ReplyAt(i);
    var selected := ConfigureOnGadget(g, e.back[i].it, e.s.back[i].it, env, o);
    outcome, used := e.OnToGadget(i, com, env.(selected := selected));
  }

  /** ep_driver_recv_userland_ctrl: SET_INTERFACE is carried out by set_driver_interface. */
  method PacketOnDriver(e: Ends, d: DriverState, i: nat, com: seq<byte>, env: ControlEnv, transfer: bool,
                        o: Registry.Outcomes)
    returns (ghost used: ControlEnv)
    requires e.Valid() && d.Valid() && i < |e.up| && UNION_AT <= |e.up[i].it| && Deliverable(e.up[i].it)
    requires ReceiveBuffer(com)
    requires i < |e.s.up| && (SetsInterface(e.s.up[i].it.body) ==> Known(d.Conf(), Index(e.s.up[i].it.body)))
    requires d.current !in e.gad.Memory() + e.drv.Memory()
    modifies e, e.drv, d, d.current
    ensures e.Valid() && d.Valid() && d.Conf() == old(d.Conf())
    ensures used == env.(room := used.room, selected := used.selected)
    ensures i < |old(e.s).up| && e.s == AfterToDriver(old(e.s), i, used)
    ensures SetsInterface(old(e.s).up[i].it.body) ==> Known(old(d.Conf()), Index(old(e.s).up[i].it.body))
    ensures (d.State(), used.selected) ==
              OnPacket(old(d.State()), old(d.Conf()), old(e.s).up[i].it.body, env, transfer, o)
  {
    e.MessagesAt();
    var body: Body := Data(e.up[i].it);
    hide AfterToDriver, OnPacket, Known, Carries, SystemInvariant, InTransit, OnReturn, AllHold, Deliverable;
    hide ReceiveBuffer;
    hide StandardRequest;
    var selected := SelectOnDriver(d, body, env, transfer, o);
    used := e.OnToDriver(i, com, env.(selected := selected));
  }

  /** ep_driver_recv_usb_ctrl: a completed SET_CONFIGURATION disables every alternate and enables the current ones. */
  method CompletionOnDriver(e: Ends, d: DriverState, i: nat, env: ControlEnv, o: Registry.AllOutcomes)
    returns (ok: bool)
    requires e.Valid() && d.Valid() && D.Done(e.s.drv, i)
    requires {d, d.current} !! e.gad.Memory() + e.drv.Memory()
    modifies e, e.drv, e.drv.Memory(), d
    ensures e.Valid() && d.Valid() && d.Conf() == old(d.Conf())
    ensures D.Done(old(e.s).drv, i) && e.s == AfterDriverWork(old(e.s), i, env)
    ensures (d.State(), ok) == OnCompletion(old(d.State()), old(d.Conf()), old(e.s).drv[i].it, o)
  {
    hide OnCompletion, SystemInvariant, InTransit, OnReturn, AllHold;
    ghost var u := e.s.drv[i].it;
    var dir, status, setup := e.CompletionOf(i);
    hide AfterDriverWork;
    ok := ConfigureOnDriver(d, u, dir, status, setup, o);
    e.OnDriverWork(i, env);
  }

  // --------------------------------------------------------------------- both ends

  class Pair {
    const e: Ends
    const g: GadgetState
    const d: DriverState
    ghost const config: Mirror.Config
    ghost var w: Whole

    ghost predicate Valid()
      reads this, e, e.gad, e.drv, e.gad.Memory(), e.drv.Memory(), g, g.identity, g.identity.interfaces, d, d.current
    {
      && e.Valid() && g.Valid() && d.Valid() && d.Conf() == config
      && g.identity.interfaces !in e.gad.Memory() + e.drv.Memory()
      && {d, d.current} !! e.gad.Memory() + e.drv.Memory()
      && w.s == e.s && w.g == g.State() && w.d == d.State()
      && Sound(w, config)
    }

    /** Both ends bound: the registries as their own constructors leave them, and nothing in transit. */
    constructor (g: GadgetState, d: DriverState)
      requires g.Valid() && d.Valid() && Mirror.ConfigOk(d.Conf())
      requires Whole(START, g.State(), d.State(), []) == Fresh(d.Conf(), d.State().cur)
      ensures Valid() && fresh(e) && this.g == g && this.d == d && config == d.Conf()
      ensures w == Fresh(config, d.State().cur)
    {
      hide Sound, SystemInvariant, InTransit, OnReturn, AllHold, Mirror.ConfigOk;
      e := new Ends();
      this.g, this.d, config := g, d, d.Conf();
      w := Whole(START, g.State(), d.State(), []);
      new;
      FreshSound(config, w.d.cur);
    }

    /** handle_setup: SET_INTERFACE runs set_interface before the setup is forwarded. */
    method Setup(i: nat, env: ControlEnv, o: Registry.Outcomes) returns (ghost used: ControlEnv)
      requires Valid() && i < |e.gad.setups|
      modifies this, e, e.gad, g, g.identity.interfaces
      ensures Valid() && used == env.(room := used.room)
      ensures i < |old(w).s.gad.setups| && w == AfterSetup(old(w), i, used, o)
    {
      hide Sound, AfterRunSetup, Registry.SetInterface, Selects, InTransit, OnReturn, AllHold, SystemInvariant;
      used := SetupOnGadget(e, g, i, env, o);
      used := used.(selected := env.selected);
      SetupSound(w, config, i, used, o);
      w := AfterSetup(w, i, used, o);
    }
  
    /**
     * ep_driver_recv_userland_ctrl: SET_INTERFACE is carried out by set_driver_interface. Only one with
     * a data stage can name an interface the kernel does not know.
     */
    method Packet(i: nat, com: seq<byte>, env: ControlEnv, transfer: bool, o: Registry.Outcomes)
      returns (ghost used: ControlEnv)
      requires Valid() && i < |e.up| && UNION_AT <= |e.up[i].it| && Deliverable(e.up[i].it) && ReceiveBuffer(com)
      requires i < |w.s.up|
      requires SetsInterface(w.s.up[i].it.body) && !Pending(w.s.up[i]) ==> Known(config, Index(w.s.up[i].it.body))
      modifies this, e, e.drv, d, d.current
      ensures Valid() && used == env.(room := used.room)
      ensures Possible(old(w), config, HandlePacket(i, used, transfer, o))
      ensures w == AfterPacket(old(w), config, i, used, transfer, o)
    {
      hide Sound, AfterToDriver, AfterPacket, OnPacket, Possible, Known, Pending, StandardRequest, Mirror.CurrentOk;
      hide RowsUsable, ConfigOf, InTransit, OnReturn, AllHold, SystemInvariant, Deliverable, ReceiveBuffer;
      PendingIsKnown(w, config, i);
      ghost var met := PacketOnDriver(e, d, i, com, env, transfer, o);
      used := env.(room := met.room);
      PacketTaken(w, config, i, env, met, transfer, o);
      w := AfterPacket(w, config, i, used, transfer, o);
    }

    /**
     * ep_gadget_recv_userland_ctrl: a configuration descriptor sets every interface to alternate 0
     * before it is answered.
     */
    method Reply(i: nat, com: seq<byte>, env: ControlEnv, o: Registry.AllOutcomes)
      returns (outcome: G.Outcome, ghost used: ControlEnv)
      requires Valid() && i < |e.back| && UNION_AT <= |e.back[i].it| && Deliverable(e.back[i].it) && ReceiveBuffer(com)
      modifies this, e, e.gad, g, g.identity.interfaces
      ensures Valid() && used == env.(room := used.room)
      ensures i < |old(w).s.back| && w == AfterReply(old(w), i, used, o)
    {
      hide Sound, AfterToGadget, Registry.ConfigReply, Configures;
      hide InTransit, OnReturn, AllHold, SystemInvariant, Deliverable, ReceiveBuffer;
      outcome, used := ReplyOnGadget(e, g, i, com, env, o);
      used := used.(selected := env.selected);
      ReplySound(w, config, i, used, o);
      w := AfterReply(w, i, used, o);
    }

    /** ep_driver_recv_usb_ctrl: a completed SET_CONFIGURATION disables every alternate and enables the current ones. */
    method Completion(i: nat, env: ControlEnv, o: Registry.AllOutcomes) returns (ok: bool)
      requires Valid() && D.Done(w.s.drv, i)
      modifies this, e, e.drv, e.drv.Memory(), d
      ensures Valid() && D.Done(old(w).s.drv, i) && w == AfterCompletion(old(w), config, i, env, o)
    {
      hide Sound, AfterDriverWork, OnCompletion, InTransit, OnReturn, AllHold, SystemInvariant;
      ok := CompletionOnDriver(e, d, i, env, o);
      CompletionSound(w, config, i, env, o);
      w := AfterCompletion(w, config, i, env, o);
    }

    // The steps that leave both registries alone.

    method BeginTransfer(ghost t: Transfer, setup: Body, origin: nat)
      requires Valid() && Legal(t) && setup == t.setup && origin == |w.s.host|
      modifies this, e, e.gad
      ensures Valid() && w == old(w).(s := AfterHostSetup(old(w).s, t))
    {
      hide Sound, AfterHostSetup, Legal, InTransit, OnReturn, AllHold, SystemInvariant;
      PlainSound(w, config, HostSetup(t));
      e.OnHostSetup(t, setup, origin);
      w := w.(s := e.s);
    }

    method CompleteRequest(i: nat, status: int, bytes: seq<byte>)
      requires Valid() && HostMayComplete(w.s, i, |bytes|) && bytes == HostBytes(w.s, i, |bytes|)
      modifies this, e, e.gad, e.gad.Memory()
      ensures Valid() && HostMayComplete(old(w).s, i, |bytes|)
      ensures w == old(w).(s := AfterGadgetDone(old(w).s, i, status, |bytes|))
    {
      hide Sound, AfterGadgetDone, HostMayComplete, InTransit, OnReturn, AllHold, SystemInvariant;
      PlainSound(w, config, GadgetDone(i, status, |bytes|));
      e.OnGadgetDone(i, status, bytes);
      w := w.(s := e.s);
    }

    method WorkOnRequest(i: nat, send: bool)
      requires Valid() && G.Done(w.s.gad, i)
      modifies this, e, e.gad, e.gad.Memory()
      ensures Valid() && G.Done(old(w).s.gad, i) && w == old(w).(s := AfterGadgetWork(old(w).s, i, send))
    {
      hide Sound, AfterGadgetWork, InTransit, OnReturn, AllHold, SystemInvariant;
      PlainSound(w, config, GadgetWork(i, send));
      e.OnGadgetWork(i, send);
      w := w.(s := e.s);
    }

    method CompleteUrb(i: nat, status: int, bytes: seq<byte>)
      requires Valid() && DeviceMayComplete(w.s, i) && bytes == DeviceBytes(w.s, i)
      modifies this, e, e.drv, e.drv.Memory()
      ensures Valid() && DeviceMayComplete(old(w).s, i) && w == old(w).(s := AfterUrbDone(old(w).s, i, status))
    {
      hide Sound, AfterUrbDone, DeviceMayComplete, InTransit, OnReturn, AllHold, SystemInvariant;
      PlainSound(w, config, UrbDone(i, status));
      e.OnUrbDone(i, status, bytes);
      w := w.(s := e.s);
    }

    method Lose(i: nat, upward: bool)
      requires Valid() && i < if upward then |e.up| else |e.back|
      modifies this, e
      ensures Valid() && Enabled(old(w).s, if upward then LoseUp(i) else LoseBack(i))
      ensures w == old(w).(s := Apply(old(w).s, if upward then LoseUp(i) else LoseBack(i)))
    {
      hide Sound, Apply, AllHold, SystemInvariant;
      e.MessagesAt();
      hide InTransit, OnReturn;
      PlainSound(w, config, if upward then LoseUp(i) else LoseBack(i));
      e.OnLose(i, upward);
      w := w.(s := e.s);
    }

    /** After an orderly run, the endpoint lists in memory agree whenever no SET_INTERFACE is in transit. */
    lemma ListsMirror(m: Registry.Selection)
      requires Valid() && Lagging(w, config, Phase(true, true), m) && NonePending(w.s.up)
      ensures Elements(d.eplist) == Elements(g.eplist) && NoDup(d.eplist) && NoDup(g.eplist)
    {
      ReplayNone(m, w.s.up);
      Mirror.Mirrored(w.d, w.g, config, m);
    }
  }

  lemma PendingIsKnown(w: Whole, config: Mirror.Config, i: nat)
    requires Sound(w, config) && i < |w.s.up|
    ensures Mirror.CurrentOk(config, w.d.cur)
    ensures Pending(w.s.up[i]) ==> Known(config, Index(w.s.up[i].it.body))
  {
    assert w.s.up[i] in w.s.up;
  }

  /** What the driver's step meets is what its registry left. */
  lemma PacketTaken(w: Whole, config: Mirror.Config, i: nat, env: ControlEnv, met: ControlEnv, transfer: bool,
                    o: Registry.Outcomes)
    requires Sound(w, config) && i < |w.s.up| && met == env.(room := met.room, selected := met.selected)
    requires Mirror.CurrentOk(config, w.d.cur)
    requires SetsInterface(w.s.up[i].it.body) ==> Known(config, Index(w.s.up[i].it.body))
    requires met.selected == OnPacket(w.d, config, w.s.up[i].it.body, env, transfer, o).1
    ensures var used := env.(room := met.room);
            && Possible(w, config, HandlePacket(i, used, transfer, o))
            && var r := AfterPacket(w, config, i, used, transfer, o);
               && Sound(r, config) && r.s == AfterToDriver(w.s, i, met)
               && r.g == w.g && r.d == OnPacket(w.d, config, w.s.up[i].it.body, env, transfer, o).0
  {
    hide Sound, AfterToDriver, Mirror.SetDriverInterface, Known, StandardRequest;
    PacketSound(w, config, i, env.(room := met.room), transfer, o);
  }
}
