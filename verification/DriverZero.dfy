/** The driver's endpoint zero in memory: its requests are messages, updated in place. */
module DriverZero {
  import opened Bytes
  import opened Messages
  import opened Descriptors
  import opened Errno
  import opened HeldRequests
  import opened ControlTransfer
  import opened DataMessages
  import opened ControlMessages
  import opened ControlDriver

  /** driver_request_t and its URB beside the message. */
  datatype Fields = Fields(origin: nat, dir: Dir, length: nat, actual: nat, status: Option<int>, kept: bool)

  /** The message carries `size` data bytes; the rest of its memory is room for the controller. */
  ghost predicate Holds(img: seq<byte>, f: Fields, t: Tagged<Urb>)
  {
    && WellFormed(img) && Type(img) == DATA && ZeroId(img, f.dir)
    && t.origin == f.origin && t.it.dir == f.dir && t.it.image == img[BODY..] && t.it.size == |Data(img)|
    && t.it.length == f.length && t.it.actual == f.actual && t.it.status == f.status && t.it.kept == f.kept
  }

  /** The URB after the controller has put the device's bytes behind the setup. */
  function Filled(u: Urb, bytes: seq<byte>): Urb
    requires u.dir == In && u.status.None? && |bytes| <= u.length
  {
    UrbImage(In, Store(u.image, bytes), u.size, u.length, |bytes|, None, false)
  }

  lemma CompleteCases(d: Driver, i: nat, status: int, bytes: seq<byte>)
    requires Pending(d, i) && |bytes| <= d[i].it.length
    ensures var u := d[i].it;
            var v := if u.dir == In && status == 0 then Filled(u, bytes) else u;
            v.status.None? && Complete(d, i, status, bytes) == d[i := Tagged(d[i].origin, v.(status := Some(status)))]
  {
  }

  lemma FilledHolds(before: seq<byte>, after: seq<byte>, f: Fields, t: Tagged<Urb>, bytes: seq<byte>)
    requires Holds(before, f, t) && t.it.dir == In && t.it.status.None? && |bytes| <= t.it.length
    requires WellFormed(after) && Type(after) == DATA && ZeroId(after, In) && Size(after) == Size(before)
    requires after[BODY..] == Store(before[BODY..], bytes)
    ensures Holds(after, f.(actual := |bytes|), Tagged(t.origin, Filled(t.it, bytes)))
  {
    DataSizeOf(before);
    DataSizeOf(after);
    hide Store;
  }

  /** The memory an IN transfer needs is there. */
  lemma RoomFor(img: seq<byte>, f: Fields, t: Tagged<Urb>)
    requires Holds(img, f, t)
    ensures WellFormed(img) && Type(img) == DATA && ZeroId(img, f.dir) && f.dir == t.it.dir
    ensures t.it.dir == In ==> BODY + SETUP + t.it.length <= |img|
    ensures t.it.status.None? ==> f.status.None? && !f.kept
  {
    DataSizeOf(img);
  }

  lemma ReceiveCases(d: Driver, t: Tagged<Packet>, env: ControlEnv)
    ensures var (r, taken, reply) := Receive(d, t, env);
            if SetsInterface(t.it.body) then
              && r == d && taken == (if env.memory && env.selected then Interface else Failed)
              && reply == if taken.Interface? &&
                   env.send then Some(Tagged(t.origin, Ack(t.it.dir, 0, t.it.body))) else None
            else if env.memory && env.submit then
              var u := Fill(t.it.dir, t.it.body, env.room);
              && r == [Tagged(t.origin, u)] + d && reply == None
              && taken == Submitted(u.dir, u.image[..SETUP], u.image[SETUP..u.size], u.length)
            else r == d && taken == Failed && reply == None
  {
  }

  lemma WorkCases(d: Driver, i: nat, env: ControlEnv)
    requires Done(d, i)
    ensures var u, r := d[i].it, Work(d, i, env);
            if u.dir == In && u.status == Some(0) then
              r.0 == Drop(d, i) &&
              r.1 == if env.send then Some(Tagged(d[i].origin, Answer(u.image[..u.size + u.actual]))) else None
            else if u.dir == In && u.status == Some(-EPIPE) then
              if env.memory && env.send then r == (Drop(d, i), Some(Tagged(d[i].origin, Ack(In, -EPIPE, []))))
              else r == (d[i := Tagged(d[i].origin, u.(kept := true))], None)
            else r == (Drop(d, i), None)
  {
  }

  class EndpointZero {
    var reqs: seq<Held<Fields>>
    ghost var held: seq<Tagged<Urb>>

    ghost function Memory(): set<object>
      reads this
    {
      MemoryOf(reqs)
    }

    ghost predicate Sound()
      reads this, Memory()
    {
      AllHold(reqs, held, Holds)
    }

    constructor ()
      ensures Sound() && held == [] && Memory() == {}
    {
      reqs, held := [], [];
    }

    /** ep_driver_fill_ctrl_request: `room` is what the fresh memory held behind the data. */
    method FillRequest(origin: nat, dir: Dir, data: Body) returns (r: Held<Fields>, ghost room: nat -> byte)
      requires |data| <= MAX_SIZE_MSG
      ensures fresh(r.msg) && fresh(r.msg.mem)
      ensures Holds(r.msg.mem[..], r.fields, Tagged(origin, Fill(dir, data, room)))
      ensures r.fields.length == data[6] as int + 256 * data[7] as int
      ensures r.msg.mem.Length == BODY + |data| + if dir == In then r.fields.length else 0
    {
      var wLength := Length(data);
      var size := |data|;
      if dir == In {
        size := wLength + size;
      }
      var m := NewMessage(size, Zero(dir), data);
      ghost var image := m.mem[..][BODY..];
      room := Room(image, |data|);
      GrowsTo(data, image);
      r := Held(m, Fields(origin, dir, wLength, 0, None, false));
    }

    method Insert(r: Held<Fields>, ghost t: Tagged<Urb>)
      requires Sound() && Holds(r.msg.mem[..], r.fields, t) && r.msg.mem !in Memory()
      modifies `reqs, `held
      ensures Sound() && Memory() == {r.msg.mem} + old(Memory()) && held == [t] + old(held)
    {
      hide AllHold, Holds;
      FrontHolds(r, t, reqs, held, Holds);
      reqs := [r] + reqs;
      held := [t] + held;
    }

    /** ep_driver_send_usb; a refused request is freed again. */
    method SendUsb(origin: nat, dir: Dir, body: Body, env: ControlEnv) returns (ok: bool, ghost room: nat -> byte)
      requires Sound() && |body| <= MAX_SIZE_MSG
      modifies `reqs, `held
      ensures Sound() && fresh(Memory() - old(Memory())) && ok == (env.memory && env.submit)
      ensures held == if ok then [Tagged(origin, Fill(dir, body, room))] + old(held) else old(held)
    {
      assert forall o | o in MemoryOf(reqs) :: allocated(o);
      hide *;
      room := env.room;
      if !env.memory {
        return false, room;
      }
      var r;
      r, room := FillRequest(origin, dir, body);
      if env.submit {
        Insert(r, Tagged(origin, Fill(dir, body, room)));
      }
      ok := env.submit;
    }

    /** ep_driver_recv_userland_ctrl on a received message; `used` is what the step met. */
    method OnMessage(img: seq<byte>, origin: nat, ghost p: Packet, env: ControlEnv)
      returns (taken: Taken, reply: Option<seq<byte>>, ghost used: ControlEnv)
      requires Sound() && Carries(img, p.dir, p.body) && |p.body| <= MAX_SIZE_MSG
      modifies `reqs, `held
      ensures Sound() && fresh(Memory() - old(Memory())) && used == env.(room := used.room)
      ensures var (d, t, r) := Receive(old(held), Tagged(origin, p), used);
              held == d && taken == t && SendsReply(reply, r)
    {
      var body: Body := Data(img);
      var half := HalfOf(img);
      assert half == Some(p.dir) && body == p.body;
      var dir := half.value;
      assert forall o | o in Memory() :: allocated(o);
      ReceiveCases(held, Tagged(origin, p), env);
      hide AllHold, Holds, Fill, StandardRequest, Carries, Receive;
      used := env;
      if SetsInterface(body) {
        taken, reply := SelectsInterface(dir, body, env);
        return;
      }
      reply := None;
      var ok;
      ghost var room;
      ok, room := SendUsb(origin, dir, body, env);
      used := used.(room := room);
      ReceiveCases(old(held), Tagged(origin, p), used);
      if !ok {
        return Failed, None, used;
      }
      taken := Newest();
    }

    /** SET_INTERFACE: the acknowledgement is built first, then the interface is selected. */
    method SelectsInterface(dir: Dir, body: Body, env: ControlEnv) returns (taken: Taken, reply: Option<seq<byte>>)
      requires |body| <= MAX_SIZE_MSG
      ensures taken == if env.memory && env.selected then Interface else Failed
      ensures if taken.Interface? && env.send then reply.Some? && CarriesReply(reply.value, Ack(dir, 0, body))
              else reply.None?
    {
      if !env.memory {
        return Failed, None;
      }
      var m := AllocAck(0, 0, DirCode(dir), 0, Some(body), |body|);
      if !env.selected {
        return Failed, None;
      }
      taken := Interface;
      reply := if env.send then Some(m.mem[..]) else None;
    }

    /** What the newest URB gives the controller: setup packet, bytes behind it, and transfer length. */
    method Newest() returns (taken: Taken)
      requires Sound() && held != []
      ensures var u := held[0].it; taken == Submitted(u.dir, u.image[..SETUP], u.image[SETUP..u.size], u.length)
    {
      assert |reqs| == |held|;
      HoldsAt(reqs, held, Holds, 0);
      var r := reqs[0];
      ghost var u := held[0].it;
      var size := DataSize(r.msg.mem[..]);
      DataSizeOf(r.msg.mem[..]);
      assert r.msg.mem[..][BODY..][..SETUP] == r.msg.mem[BODY..BODY + SETUP];
      assert r.msg.mem[..][BODY..][SETUP..size] == r.msg.mem[BODY + SETUP..BODY + size];
      taken := Submitted(r.fields.dir, r.msg.mem[BODY..BODY + SETUP], r.msg.mem[BODY + SETUP..BODY + size],
        r.fields.length);
    }

    lemma FieldsAt(i: nat)
      requires Sound() && i < |held|
      ensures |reqs| == |held| && reqs[i].fields.origin == held[i].origin
      ensures reqs[i].fields.dir == held[i].it.dir && reqs[i].fields.status == held[i].it.status
    {
      HoldsAt(reqs, held, Holds, i);
    }

    /** The setup packet of a request. */
    method SetupOf(i: nat) returns (setup: Body)
      requires Sound() && i < |held|
      ensures setup == held[i].it.image[..SETUP]
    {
      assert |reqs| == |held|;
      HoldsAt(reqs, held, Holds, i);
      ghost var img := reqs[i].msg.mem[..];
      assert |img| >= BODY + SETUP && img[BODY..][..SETUP] == img[BODY..BODY + SETUP];
      setup := reqs[i].msg.mem[BODY..BODY + SETUP];
    }

    /** driver_recv_usb, after the controller has put the device's bytes into the request's buffer. */
    method OnComplete(i: nat, status: int, bytes: seq<byte>)
      requires Sound() && Pending(held, i) && |bytes| <= held[i].it.length
      modifies `reqs, `held, Memory()
      ensures Sound() && Memory() <= old(Memory())
      ensures held == Complete(old(held), i, status, bytes)
    {
      FieldsAt(i);
      CompleteCases(held, i, status, bytes);
      hide AllHold, Holds, Complete, Filled;
      if reqs[i].fields.dir == In && status == 0 {
        Receives(i, bytes);
      }
      SetStatus(i, status);
    }

    /** The controller's transfer: the bytes behind the setup, and the actual length. */
    method Receives(i: nat, bytes: seq<byte>)
      requires Sound() && Pending(held, i) && |bytes| <= held[i].it.length && held[i].it.dir == In
      modifies `reqs, `held, Memory()
      ensures Sound() && Memory() <= old(Memory())
      ensures held == old(held)[i := Tagged(old(held)[i].origin, Filled(old(held)[i].it, bytes))]
    {
      assert |reqs| == |held|;
      HoldsAt(reqs, held, Holds, i);
      DropHolds(reqs, held, Holds, i);
      var r := reqs[i];
      ghost var before, f := r.msg.mem[..], r.fields;
      RoomFor(before, f, held[i]);
      hide AllHold, Holds, Filled;
      Transfer(r.msg, In, bytes);
      FilledHolds(before, r.msg.mem[..], f, held[i], bytes);
      r := r.(fields := r.fields.(actual := |bytes|));
      ghost var t := Tagged(held[i].origin, Filled(held[i].it, bytes));
      PutBack(reqs, held, Holds, i, r, t);
      reqs := reqs[i := r];
      held := held[i := t];
    }

    method SetStatus(i: nat, status: int)
      requires Sound() && Pending(held, i)
      modifies `reqs, `held
      ensures Sound() && Memory() <= old(Memory())
      ensures held == old(held)[i := Tagged(old(held)[i].origin, old(held)[i].it.(status := Some(status)))]
    {
      assert |reqs| == |held|;
      hide AllHold;
      HoldsAt(reqs, held, Holds, i);
      DropHolds(reqs, held, Holds, i);
      var r := reqs[i].(fields := reqs[i].fields.(status := Some(status)));
      ghost var t: Tagged<Urb> := Tagged(held[i].origin, held[i].it.(status := Some(status)));
      PutBack(reqs, held, Holds, i, r, t);
      reqs := reqs[i := r];
      held := held[i := t];
    }

    /** recv with ep_driver_recv_usb_ctrl; after an early return the request stays listed. */
    method RunWork(i: nat, env: ControlEnv) returns (reply: Option<seq<byte>>)
      requires Sound() && Done(held, i)
      modifies `reqs, `held, Memory()
      ensures Sound() && Memory() <= old(Memory())
      ensures held == Work(old(held), i, env).0 && SendsReply(reply, Work(old(held), i, env).1)
    {
      FieldsAt(i);
      WorkCases(held, i, env);
      hide AllHold, Holds, Carries, Work, Drop;
      var f := reqs[i].fields;
      if f.dir == In && f.status.value == 0 {
        reply := Answered(i, env.send);
      } else if f.dir == In && f.status.value == -EPIPE {
        reply := Stalls(i, env);
      } else {
        reply := None;
        Free(i);
      }
    }

    /** The stall of an IN transfer is reported; without memory or transport recv returns early. */
    method Stalls(i: nat, env: ControlEnv) returns (reply: Option<seq<byte>>)
      requires Sound() && Done(held, i)
      modifies `reqs, `held
      ensures Sound() && Memory() <= old(Memory())
      ensures if env.memory && env.send then
                held == Drop(old(held), i) && reply.Some? && CarriesReply(reply.value, Ack(In, -EPIPE, []))
              else
                held == old(held)[i := Tagged(old(held)[i].origin, old(held)[i].it.(kept := true))] && reply.None?
    {
      hide AllHold, Holds;
      reply := None;
      if !env.memory {
        Keep(i);
        return;
      }
      assert forall o | o in Memory() :: allocated(o);
      var m := AllocAck(0, 0, DirCode(In), -EPIPE, None, 0);
      if !env.send {
        Keep(i);
        return;
      }
      reply := Some(m.mem[..]);
      Free(i);
    }

    /** free_driver_request */
    method Free(i: nat)
      requires Sound() && i < |held|
      modifies `reqs, `held
      ensures Sound() && Memory() <= old(Memory()) && held == Drop(old(held), i)
    {
      assert |reqs| == |held|;
      hide AllHold;
      DropHolds(reqs, held, Holds, i);
      reqs, held := reqs[..i] + reqs[i + 1..], held[..i] + held[i + 1..];
    }

    /** The early return: nothing is released. */
    method Keep(i: nat)
      requires Sound() && Done(held, i)
      modifies `reqs, `held
      ensures Sound() && Memory() <= old(Memory())
      ensures held == old(held)[i := Tagged(old(held)[i].origin, old(held)[i].it.(kept := true))]
    {
      assert |reqs| == |held|;
      hide AllHold;
      HoldsAt(reqs, held, Holds, i);
      DropHolds(reqs, held, Holds, i);
      var r := reqs[i].(fields := reqs[i].fields.(kept := true));
      ghost var t: Tagged<Urb> := Tagged(held[i].origin, held[i].it.(kept := true));
      PutBack(reqs, held, Holds, i, r, t);
      reqs := reqs[i := r];
      held := held[i := t];
    }

    /** A successful IN transfer: the message grows by the actual length, is sent, and is released. */
    method Answered(i: nat, send: bool) returns (reply: Option<seq<byte>>)
      requires Sound() && Done(held, i) && held[i].it.dir == In
      modifies `reqs, `held, Memory()
      ensures Sound() && Memory() <= old(Memory()) && held == Drop(old(held), i)
      ensures var u := old(held)[i].it;
              if send then reply.Some? && Carries(reply.value, In, u.image[..u.size + u.actual]) else reply.None?
    {
      assert |reqs| == |held|;
      hide AllHold, Carries;
      HoldsAt(reqs, held, Holds, i);
      DropHolds(reqs, held, Holds, i);
      var r := reqs[i];
      ghost var u := held[i].it;
      DataSizeOf(r.msg.mem[..]);
      var size := r.fields.actual + DataSize(r.msg.mem[..]);
      assert r.msg.mem[..][BODY..BODY + size] == u.image[..size];
      Resize(r.msg, Zero(In), size);
      reply := if send then Some(r.msg.mem[..]) else None;
      reqs, held := reqs[..i] + reqs[i + 1..], held[..i] + held[i + 1..];
    }
  }
}
