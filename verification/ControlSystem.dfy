/**
 * Endpoint zero of both ends in memory, with the messages between them. Every operation is a step
 * of the abstract system, so what is proved of its runs holds of these bytes.
 */
module ControlSystem {
  import opened Bytes
  import opened Errno
  import opened Messages
  import opened Descriptors
  import opened ControlTransfer
  import opened DataMessages
  import opened ControlMessages
  import opened Sums
  import opened Control
  import opened HeldRequests
  import GadgetZero
  import DriverZero

  /** The images in transit carry the abstract packets, in order. */
  ghost predicate InTransit(images: seq<Tagged<seq<byte>>>, packets: seq<Tagged<Packet>>)
  {
    |images| == |packets| &&
    forall i | 0 <= i < |images| ::
      images[i].origin == packets[i].origin && Carries(images[i].it, packets[i].it.dir, packets[i].it.body)
  }

  ghost predicate OnReturn(images: seq<Tagged<seq<byte>>>, replies: seq<Tagged<Reply>>)
  {
    |images| == |replies| &&
    forall i | 0 <= i < |images| :: images[i].origin == replies[i].origin && CarriesReply(images[i].it, replies[i].it)
  }

  lemma MoreInTransit(images: seq<Tagged<seq<byte>>>, packets: seq<Tagged<Packet>>, origin: nat,
                      sent: Option<seq<byte>>, p: Option<Tagged<Packet>>)
    requires InTransit(images, packets) && Sends(sent, p) && (p.Some? ==> p.value.origin == origin)
    ensures InTransit(AddImage(images, origin, sent), Add(packets, p))
  {
    hide Carries;
  }

  lemma MoreOnReturn(images: seq<Tagged<seq<byte>>>, replies: seq<Tagged<Reply>>, origin: nat,
                     sent: Option<seq<byte>>, r: Option<Tagged<Reply>>)
    requires OnReturn(images, replies) && SendsReply(sent, r) && (r.Some? ==> r.value.origin == origin)
    ensures OnReturn(AddImage(images, origin, sent), Add(replies, r))
  {
    hide CarriesReply;
  }

  lemma LessInTransit(images: seq<Tagged<seq<byte>>>, packets: seq<Tagged<Packet>>, i: nat)
    requires InTransit(images, packets) && i < |images|
    ensures |images| == |packets| && InTransit(Drop(images, i), Drop(packets, i))
    ensures images[i].origin == packets[i].origin && Carries(images[i].it, packets[i].it.dir, packets[i].it.body)
  {
    hide Carries;
  }

  lemma LessOnReturn(images: seq<Tagged<seq<byte>>>, replies: seq<Tagged<Reply>>, i: nat)
    requires OnReturn(images, replies) && i < |images|
    ensures |images| == |replies| && OnReturn(Drop(images, i), Drop(replies, i))
    ensures images[i].origin == replies[i].origin && CarriesReply(images[i].it, replies[i].it)
  {
    hide CarriesReply;
  }

  function AddImage(images: seq<Tagged<seq<byte>>>, origin: nat, sent: Option<seq<byte>>): seq<Tagged<seq<byte>>>
  {
    if sent.Some? then images + [Tagged(origin, sent.value)] else images
  }

  /** What the gadget queues to the host is the device's answer. */
  lemma GivenIsAnswer(s: System, i: nat, env: ControlEnv)
    requires SystemInvariant(s) && i < |s.back|
    ensures var outcome := G.Receive(s.gad, s.back[i], env).1;
            outcome.GivenToHost? ==>
              s.back[i].origin < |s.host| && outcome.bytes == s.host[s.back[i].origin].answer
  {
    assert ExactReply(s.host, s.back[i]);
    GadgetReceiveExact(s.host, s.gad, s.back[i], env);
  }

  /** What a message on its way to the gadget is, for the transfer it belongs to. */
  ghost predicate ReturnExact(img: seq<byte>, t: Transfer)
  {
    && WellFormed(img) && CheckMsg(img) && Type(img) != MANAGEMENT && |t.setup| == SETUP
    && EpNum(img) == 0 && EpType(img) == 0 && EpDirection(img) == (if Direction(t.setup) == In then 0 else 1)
    && if Type(img) == DATA then Direction(t.setup) == In && !SetsInterface(t.setup) && Data(img) == t.setup + t.answer
       else if SetsInterface(t.setup) then Status(img) == 0 && Data(img) == t.setup + t.stage
       else Direction(t.setup) == In && Status(img) == -EPIPE && Data(img) == []
  }

  lemma ReturnIsExact(host: seq<Transfer>, r: Tagged<Reply>, img: seq<byte>)
    requires ExactReply(host, r) && Legal(host[r.origin]) && CarriesReply(img, r.it)
    ensures ReturnExact(img, host[r.origin])
  {
    ReplyIsAccepted(img, r.it);
  }

  class Ends {
    const gad: GadgetZero.EndpointZero
    const drv: DriverZero.EndpointZero
    var up: seq<Tagged<seq<byte>>>
    var back: seq<Tagged<seq<byte>>>
    ghost var s: System

    ghost predicate Valid()
      reads this, gad, drv, gad.Memory(), drv.Memory()
    {
      && gad.Sound() && drv.Sound() && gad.Memory() !! drv.Memory()
      && s.gad == gad.View() && s.drv == drv.held
      && InTransit(up, s.up) && OnReturn(back, s.back) && SystemInvariant(s)
    }

    constructor ()
      ensures Valid() && s == START && fresh(gad) && fresh(drv)
    {
      gad := new GadgetZero.EndpointZero();
      drv := new DriverZero.EndpointZero();
      up, back, s := [], [], START;
      new;
      StartInvariant();
      hide SystemInvariant;
    }

    /**
     * Every message on its way to the driver passes check_msg and holds the host's setup and data
     * stage, byte for byte. So does every message on its way back, which is for the half of endpoint
     * zero its transfer belongs to: an answer holds the setup and the device's bytes, a
     * SET_INTERFACE is acknowledged with what was received, a stall with nothing.
     */
    lemma MessagesExact()
      requires Valid()
      ensures forall i | 0 <= i < |up| ::
                var o := up[i].origin;
                o < |s.host| && CheckMsg(up[i].it) && Data(up[i].it) == s.host[o].setup + s.host[o].stage
      ensures forall i | 0 <= i < |back| :: back[i].origin < |s.host| && ReturnExact(back[i].it, s.host[back[i].origin])
    {
      forall i | 0 <= i < |up|
        ensures up[i].origin < |s.host| && CheckMsg(up[i].it)
        ensures Data(up[i].it) == s.host[up[i].origin].setup + s.host[up[i].origin].stage
      {
        assert ExactPacket(s.host, s.up[i]);
        CarriedIsAccepted(up[i].it, Zero(s.up[i].it.dir), s.up[i].it.body);
      }
      forall i | 0 <= i < |back|
        ensures back[i].origin < |s.host| && ReturnExact(back[i].it, s.host[back[i].origin])
      {
        assert ExactReply(s.host, s.back[i]) && Legal(s.host[s.back[i].origin]);
        ReturnIsExact(s.host, s.back[i], back[i].it);
      }
    }

    /** The abstract messages behind the images. */
    lemma MessagesAt()
      requires Valid()
      ensures |up| == |s.up| && |back| == |s.back|
      ensures forall i | 0 <= i < |up| :: Carries(up[i].it, s.up[i].it.dir, s.up[i].it.body)
      ensures forall i | 0 <= i < |back| :: CarriesReply(back[i].it, s.back[i].it)
    {
    }

    lemma ReplyAt(i: nat)
      requires Valid() && i < |back|
      ensures |back| == |s.back| && CarriesReply(back[i].it, s.back[i].it)
    {
    }

    /** What a completed URB was: its direction, status and setup packet. */
    method CompletionOf(i: nat) returns (dir: Dir, status: Option<int>, setup: Body)
      requires Valid() && i < |s.drv|
      ensures dir == s.drv[i].it.dir && status == s.drv[i].it.status && setup == s.drv[i].it.image[..SETUP]
    {
      drv.FieldsAt(i);
      setup := drv.SetupOf(i);
      dir, status := drv.reqs[i].fields.dir, drv.reqs[i].fields.status;
    }

    /** ubq_setup: the host starts a transfer; `origin` is its number. */
    method OnHostSetup(ghost t: Transfer, setup: Body, origin: nat)
      requires Valid() && Legal(t) && setup == t.setup && origin == |s.host|
      modifies this, gad
      ensures Valid() && s == AfterHostSetup(old(s), t)
    {
      StepKeepsInvariant(s, HostSetup(t));
      hide InTransit, OnReturn, SystemInvariant;
      s := AfterHostSetup(s, t);
      gad.OnSetup(Tagged(origin, setup));
    }

    /** handle_setup; `used` is what the step met. */
    method OnRunSetup(i: nat, env: ControlEnv) returns (ghost used: ControlEnv)
      requires Valid() && i < |gad.setups|
      modifies this, gad
      ensures Valid() && used == env.(room := used.room)
      ensures i < |old(s).gad.setups| && s == AfterRunSetup(old(s), i, used)
    {
      hide InTransit, OnReturn, SystemInvariant, G.HandleSetup, Sends, AllHold;
      ghost var was := gad.View();
      var origin := gad.setups[i].origin;
      var sent;
      sent, used := gad.RunSetup(i, env);
      StepKeepsInvariant(s, RunSetup(i, used));
      MoreInTransit(up, s.up, origin, sent, G.HandleSetup(was, i, used).1);
      s := AfterRunSetup(s, i, used);
      up := AddImage(up, origin, sent);
    }

    /** gadget_recv_usb: the host sent its data stage, or consumed `bytes` of an answer. */
    method OnGadgetDone(i: nat, status: int, bytes: seq<byte>)
      requires Valid() && HostMayComplete(s, i, |bytes|) && bytes == HostBytes(s, i, |bytes|)
      modifies this, gad, gad.Memory()
      ensures Valid() && HostMayComplete(old(s), i, |bytes|)
      ensures s == AfterGadgetDone(old(s), i, status, |bytes|)
    {
      hide InTransit, OnReturn, SystemInvariant, G.Complete, HostBytes, AllHold;
      StepKeepsInvariant(s, GadgetDone(i, status, |bytes|));
      gad.OnComplete(i, status, bytes);
      s := AfterGadgetDone(s, i, status, |bytes|);
    }

    /** The work item of a gadget request. */
    method OnGadgetWork(i: nat, send: bool)
      requires Valid() && G.Done(s.gad, i)
      modifies this, gad, gad.Memory()
      ensures Valid() && G.Done(old(s).gad, i) && s == AfterGadgetWork(old(s), i, send)
    {
      hide InTransit, OnReturn, SystemInvariant, G.Work, Sends, AllHold;
      gad.OriginAt(i);
      ghost var was := gad.View();
      var origin := gad.reqs[i].fields.origin;
      var sent := gad.RunWork(i, send);
      StepKeepsInvariant(s, GadgetWork(i, send));
      MoreInTransit(up, s.up, origin, sent, G.Work(was, i, send).1);
      s := AfterGadgetWork(s, i, send);
      up := AddImage(up, origin, sent);
    }

    /** The driver receives a message in com.c's buffer; `used` is what the step met. */
    method OnToDriver(i: nat, com: seq<byte>, env: ControlEnv) returns (ghost used: ControlEnv)
      requires Valid() && i < |up| && UNION_AT <= |up[i].it| && Deliverable(up[i].it) && ReceiveBuffer(com)
      modifies this, drv
      ensures Valid() && used == env.(room := used.room)
      ensures i < |old(s).up| && s == AfterToDriver(old(s), i, used)
    {
      hide InTransit, OnReturn, SystemInvariant, D.Receive, SendsReply, AllHold, Carries, Deliverable, ReceiveBuffer;
      LessInTransit(up, s.up, i);
      ghost var p, was := s.up[i].it, drv.held;
      var img, origin := up[i].it, up[i].origin;
      SentShape(img);
      DeliveredCarries(img, com, p.dir, p.body);
      var taken, reply;
      taken, reply, used := drv.OnMessage(InBuffer(img, com), origin, p, env);
      assert s.up[i] == Tagged(origin, p);
      StepKeepsInvariant(s, ToDriver(i, used));
      MoreOnReturn(back, s.back, origin, reply, D.Receive(was, s.up[i], used).2);
      s := AfterToDriver(s, i, used);
      up := Drop(up, i);
      back := AddImage(back, origin, reply);
    }

    /** driver_recv_usb: the device's bytes have arrived, if any. */
    method OnUrbDone(i: nat, status: int, bytes: seq<byte>)
      requires Valid() && DeviceMayComplete(s, i) && bytes == DeviceBytes(s, i)
      modifies this, drv, drv.Memory()
      ensures Valid() && DeviceMayComplete(old(s), i) && s == AfterUrbDone(old(s), i, status)
    {
      hide InTransit, OnReturn, SystemInvariant, D.Complete, DeviceBytes, AllHold;
      StepKeepsInvariant(s, UrbDone(i, status));
      drv.OnComplete(i, status, bytes);
      s := AfterUrbDone(s, i, status);
    }

    /** The work item of an URB. */
    method OnDriverWork(i: nat, env: ControlEnv)
      requires Valid() && D.Done(s.drv, i)
      modifies this, drv, drv.Memory()
      ensures Valid() && D.Done(old(s).drv, i) && s == AfterDriverWork(old(s), i, env)
    {
      hide InTransit, OnReturn, SystemInvariant, D.Work, SendsReply, AllHold;
      drv.FieldsAt(i);
      ghost var was := drv.held;
      var origin := drv.reqs[i].fields.origin;
      var reply := drv.RunWork(i, env);
      StepKeepsInvariant(s, DriverWork(i, env));
      MoreOnReturn(back, s.back, origin, reply, D.Work(was, i, env).1);
      s := AfterDriverWork(s, i, env);
      back := AddImage(back, origin, reply);
    }

    /**
     * The gadget receives a reply in com.c's buffer; what it queues to the host is its request's
     * memory behind the setup.
     */
    method OnToGadget(i: nat, com: seq<byte>, env: ControlEnv) returns (outcome: G.Outcome, ghost used: ControlEnv)
      requires Valid() && i < |back| && UNION_AT <= |back[i].it| && Deliverable(back[i].it) && ReceiveBuffer(com)
      modifies this, gad
      ensures Valid() && used == env.(room := used.room)
      ensures i < |old(s).back| && s == AfterToGadget(old(s), i, used)
      ensures outcome.GivenToHost? ==>
                var o := old(back)[i].origin; o < |old(s).host| && outcome.bytes == old(s).host[o].answer
    {
      hide InTransit, OnReturn, SystemInvariant, G.Receive, CarriesReply, AllHold, Deliverable, ReceiveBuffer;
      LessOnReturn(back, s.back, i);
      ghost var r := s.back[i].it;
      var img, origin := back[i].it, back[i].origin;
      SentShape(img);
      DeliveredReply(img, com, r);
      outcome, used := gad.OnMessage(InBuffer(img, com), origin, r, env);
      assert s.back[i] == Tagged(origin, r);
      GivenIsAnswer(s, i, used);
      StepKeepsInvariant(s, ToGadget(i, used));
      s := AfterToGadget(s, i, used);
      back := Drop(back, i);
    }

    /** The relay drops a message. */
    method OnLose(i: nat, upward: bool)
      requires Valid() && i < if upward then |up| else |back|
      modifies this
      ensures Valid() && Enabled(old(s), if upward then LoseUp(i) else LoseBack(i))
      ensures s == Apply(old(s), if upward then LoseUp(i) else LoseBack(i))
    {
      hide InTransit, OnReturn, SystemInvariant, AllHold;
      if upward {
        LessInTransit(up, s.up, i);
        StepKeepsInvariant(s, LoseUp(i));
        s := Apply(s, LoseUp(i));
        up := Drop(up, i);
      } else {
        LessOnReturn(back, s.back, i);
        StepKeepsInvariant(s, LoseBack(i));
        s := Apply(s, LoseBack(i));
        back := Drop(back, i);
      }
    }
  }

  lemma SentShape(img: seq<byte>)
    ensures forall dir, body | Carries(img, dir, body) :: WellFormed(img)
    ensures forall r | CarriesReply(img, r) :: WellFormed(img)
  {
  }

  /** A descriptor read of 16000 bytes that the device answers in full. */
  const LONG := Transfer([128, 6, 0, 3, 0, 0, 128, 62], [], seq(16000, i => 0))

  /** A run that leaves an answer in transit which no receive buffer of com.c can take. */
  lemma LongAnswerIsReached() returns (acts: seq<Action>)
    ensures Runs(START, acts)
    ensures var back := Exec(START, acts).back;
            && |back| == 1 && back[0].it == Answer(LONG.setup + LONG.answer)
            && forall img | CarriesReply(img, back[0].it) :: UNION_AT <= |img| && !Deliverable(img)
  {
    var s1, s2, s3 := LongTaken();
    var s4, s5 := LongReturned(s3);
    hide *;
    RunsNothing(s5);
    RunsStep(s4, DriverWork(0, SMOOTH), []);
    acts := [DriverWork(0, SMOOTH)] + [];
    RunsStep(s3, UrbDone(0, 0), acts);
    acts := [UrbDone(0, 0)] + acts;
    RunsStep(s2, ToDriver(0, SMOOTH), acts);
    acts := [ToDriver(0, SMOOTH)] + acts;
    RunsStep(s1, RunSetup(0, SMOOTH), acts);
    acts := [RunSetup(0, SMOOTH)] + acts;
    RunsStep(START, HostSetup(LONG), acts);
    acts := [HostSetup(LONG)] + acts;
    LongIsUndeliverable();
  }

  lemma LongTaken() returns (s1: System, s2: System, s: System)
    ensures Enabled(START, HostSetup(LONG)) && s1 == Apply(START, HostSetup(LONG))
    ensures Enabled(s1, RunSetup(0, SMOOTH)) && s2 == Apply(s1, RunSetup(0, SMOOTH))
    ensures Enabled(s2, ToDriver(0, SMOOTH)) && s == Apply(s2, ToDriver(0, SMOOTH))
    ensures s.host == [LONG] && s.back == [] && s.drv == [Tagged(0, D.Fill(In, LONG.setup, SMOOTH.room))]
  {
    s1 := Apply(START, HostSetup(LONG));
    s2 := Apply(s1, RunSetup(0, SMOOTH));
    assert s2.up == [Tagged(0, Packet(In, LONG.setup))];
    s := Apply(s2, ToDriver(0, SMOOTH));
  }

  lemma LongReturned(s: System) returns (s1: System, r: System)
    requires s.host == [LONG] && s.back == [] && s.drv == [Tagged(0, D.Fill(In, LONG.setup, SMOOTH.room))]
    ensures Enabled(s, UrbDone(0, 0)) && s1 == Apply(s, UrbDone(0, 0))
    ensures Enabled(s1, DriverWork(0, SMOOTH)) && r == Apply(s1, DriverWork(0, SMOOTH))
    ensures |r.back| == 1 && r.back[0].it == Answer(LONG.setup + LONG.answer)
  {
    s1 := Apply(s, UrbDone(0, 0));
    var u := s.drv[0].it;
    StoredAfterSetup(u.image, LONG.answer);
    r := Apply(s1, DriverWork(0, SMOOTH));
  }

  lemma LongIsUndeliverable()
    ensures forall img | CarriesReply(img, Answer(LONG.setup + LONG.answer)) :: UNION_AT <= |img| && !Deliverable(img)
  {
    forall img | CarriesReply(img, Answer(LONG.setup + LONG.answer))
      ensures UNION_AT <= |img| && !Deliverable(img)
    {
      DeliverableData(img, Zero(In), LONG.setup + LONG.answer);
    }
  }
}
