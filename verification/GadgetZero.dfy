/** The gadget's endpoint zero in memory: its requests are messages, updated in place. */
module GadgetZero {
  import opened Bytes
  import opened Messages
  import opened Descriptors
  import opened Errno
  import opened HeldRequests
  import opened ControlTransfer
  import opened DataMessages
  import opened ControlMessages
  import opened ControlGadget

  /** gadget_request_t beside its message. */
  datatype Fields = Fields(origin: nat, dir: Dir, length: nat, actual: nat, done: bool)

  /** The memory of a request: exactly room for a setup and `length` bytes, holding the image. */
  ghost predicate Holds(img: seq<byte>, f: Fields, t: Tagged<Request>)
  {
    && WellFormed(img) && |img| == BODY + SETUP + f.length
    && Type(img) == DATA && ZeroId(img, f.dir)
    && t.origin == f.origin && t.it.dir == f.dir && t.it.image == img[BODY..]
    && t.it.length == f.length && t.it.actual == f.actual && t.it.done == f.done
  }

  class EndpointZero {
    var setups: seq<Tagged<Body>>
    var reqs: seq<Held<Fields>>
    ghost var held: seq<Tagged<Request>>

    ghost function Memory(): set<object>
      reads this
    {
      MemoryOf(reqs)
    }

    ghost predicate Sound()
      reads this, Memory()
    {
      AllHold(reqs, held, Holds) && forall i | 0 <= i < |setups| :: |setups[i].it| == SETUP
    }

    ghost function View(): Gadget
      reads this
    {
      Gadget(setups, held)
    }

    constructor ()
      ensures Sound() && View() == IDLE && Memory() == {}
    {
      setups, reqs, held := [], [], [];
    }

    /** ubq_setup */
    method OnSetup(t: Tagged<Body>)
      requires Sound() && |t.it| == SETUP
      modifies `setups
      ensures Sound() && View() == old(View()).(setups := old(setups) + [t])
    {
      setups := setups + [t];
    }

    /** ep_fill_ctrl_request: `room` is what the fresh memory held behind the data. */
    method FillRequest(t: Tagged<Body>, dir: Dir) returns (r: Held<Fields>, ghost room: nat -> byte)
      requires |t.it| <= MAX_SIZE_MSG
      ensures fresh(r.msg) && fresh(r.msg.mem)
      ensures Holds(r.msg.mem[..], r.fields, Tagged(t.origin, Fill(dir, t.it, room)))
      ensures var stage := if dir == In then 0 else t.it[6] as int + 256 * t.it[7] as int;
              r.msg.mem.Length == BODY + |t.it| + stage && r.fields.length == |t.it| - SETUP + stage
    {
      var size := |t.it|;
      if dir == Out {
        size := size + Length(t.it);
      }
      var m := NewMessage(size, Zero(dir), t.it);
      ghost var image := m.mem[..][BODY..];
      room := Room(image, |t.it|);
      GrowsTo(t.it, image);
      r := Held(m, Fields(t.origin, dir, size - SETUP, 0, false));
    }

    /** ep_gadget_send_usb; a refused request is freed again. */
    method SendUsb(t: Tagged<Body>, dir: Dir, env: ControlEnv) returns (ok: bool, ghost room: nat -> byte)
      requires Sound() && |t.it| <= MAX_SIZE_MSG
      modifies `reqs, `held
      ensures Sound() && fresh(Memory() - old(Memory()))
      ensures View() == Send(old(View()), t, dir, env.(room := room)) && ok == (env.memory && env.submit)
    {
      assert forall o | o in MemoryOf(reqs) :: allocated(o);
      hide *;
      room := env.room;
      if !env.memory {
        return false, room;
      }
      var r;
      r, room := FillRequest(t, dir);
      if env.submit {
        Insert(r, Tagged(t.origin, Fill(dir, t.it, room)));
      }
      ok := env.submit;
    }

    method Insert(r: Held<Fields>, ghost t: Tagged<Request>)
      requires Sound() && Holds(r.msg.mem[..], r.fields, t) && r.msg.mem !in Memory()
      modifies `reqs, `held
      ensures Sound() && Memory() == {r.msg.mem} + old(Memory())
      ensures View() == old(View()).(reqs := [t] + old(held))
    {
      hide AllHold, Holds;
      FrontHolds(r, t, reqs, held, Holds);
      reqs := [r] + reqs;
      held := [t] + held;
    }

    /** handle_setup; `used` is what the step met. */
    method RunSetup(i: nat, env: ControlEnv) returns (sent: Option<seq<byte>>, ghost used: ControlEnv)
      requires Sound() && i < |setups|
      modifies `setups, `reqs, `held
      ensures Sound() && fresh(Memory() - old(Memory())) && used == env.(room := used.room)
      ensures View() == HandleSetup(old(View()), i, used).0 && Sends(sent, HandleSetup(old(View()), i, used).1)
    {
      hide AllHold, Send, CarriesData, StandardRequest;
      var t := setups[i];
      TakeSetup(i);
      sent, used := None, env;
      if !env.memory {
        return;
      }
      var dir := Direction(t.it);
      assert forall o | o in Memory() :: allocated(o);
      var msg := NewMessage(SETUP, Zero(dir), t.it);
      ghost var room;
      var ok;
      if dir == Out && Length(t.it) != 0 {
        ok, room := SendUsb(t, dir, env);
        used := env.(room := room);
      } else {
        if SetsInterface(t.it) && !env.selected {
          return;
        }
        if !env.send {
          return;
        }
        sent := Some(msg.mem[..]);
        if dir == Out && Length(t.it) == 0 {
          ok, room := SendUsb(t, dir, env);
          used := used.(room := room);
        }
      }
    }

    /** The work item leaves its queue. */
    method TakeSetup(i: nat)
      requires Sound() && i < |setups|
      modifies `setups
      ensures Sound() && View() == old(View()).(setups := Drop(old(setups), i)) && |old(setups)[i].it| == SETUP
    {
      assert forall k | 0 <= k < |setups| - 1 :: Drop(setups, i)[k] in setups;
      hide AllHold;
      setups := setups[..i] + setups[i + 1..];
    }

    /** gadget_recv_usb, after the controller has put `bytes` into the request's buffer. */
    method OnComplete(i: nat, status: int, bytes: seq<byte>)
      requires Sound() && Queued(View(), i) && |bytes| <= held[i].it.length
      modifies `reqs, `held, Memory()
      ensures Sound() && Memory() <= old(Memory())
      ensures View() == Complete(old(View()), i, status, bytes)
      ensures if status < 0 then held == old(held)[..i] + old(held)[i + 1..]
              else
                var was, now := old(held)[i], held[i];
                && held == old(held)[i := now] && now.origin == was.origin && now.it.dir == was.it.dir
                && now.it.done && now.it.actual == |bytes| && now.it.length == was.it.length
                && now.it.image ==
                   if was.it.dir == In then was.it.image
                   else was.it.image[..SETUP] + bytes + was.it.image[SETUP + |bytes|..]
    {
      assert |reqs| == |held|;
      hide AllHold;
      HoldsAt(reqs, held, Holds, i);
      DropHolds(reqs, held, Holds, i);
      if status < 0 {
        reqs, held := reqs[..i] + reqs[i + 1..], held[..i] + held[i + 1..];
        return;
      }
      var r := reqs[i];
      ghost var x: Request := held[i].it;
      if r.fields.dir == Out {
        Transfer(r.msg, Out, bytes);
        x := RequestImage(x.dir, Store(x.image, bytes), x.length, |bytes|, true);
      } else {
        x := RequestImage(x.dir, x.image, x.length, |bytes|, true);
      }
      r := r.(fields := r.fields.(actual := |bytes|, done := true));
      ghost var t: Tagged<Request> := Tagged(held[i].origin, x);
      PutBack(reqs, held, Holds, i, r, t);
      reqs := reqs[i := r];
      held := held[i := t];
    }

    lemma OriginAt(i: nat)
      requires Sound() && i < |held|
      ensures |reqs| == |held| && reqs[i].fields.origin == held[i].origin
    {
      HoldsAt(reqs, held, Holds, i);
    }

    /** recv with ep_gadget_recv_usb_ctrl. */
    method RunWork(i: nat, send: bool) returns (sent: Option<seq<byte>>)
      requires Sound() && Done(View(), i)
      modifies `reqs, `held, Memory()
      ensures Sound() && Memory() <= old(Memory())
      ensures View() == Work(old(View()), i, send).0 && Sends(sent, Work(old(View()), i, send).1)
    {
      assert |reqs| == |held|;
      hide AllHold, Carries;
      HoldsAt(reqs, held, Holds, i);
      DropHolds(reqs, held, Holds, i);
      var r := reqs[i];
      sent := None;
      if r.fields.dir == Out {
        var size := r.fields.actual + SETUP;
        ghost var image := held[i].it.image;
        assert r.msg.mem[..][BODY..BODY + size] == image[..size];
        assert image[..SETUP][6] == r.msg.mem[BODY + 6] && image[..SETUP][7] == r.msg.mem[BODY + 7];
        var wLength := Word16(r.msg.mem[BODY + 6], r.msg.mem[BODY + 7]);
        Resize(r.msg, Zero(Out), size);
        if wLength > 0 && send {
          sent := Some(r.msg.mem[..]);
        }
      }
      reqs, held := reqs[..i] + reqs[i + 1..], held[..i] + held[i + 1..];
    }

    /**
     * ep_gadget_recv_userland_ctrl on a received message. The buffer queued to the host is the
     * request's memory behind the setup.
     */
    method OnMessage(img: seq<byte>, origin: nat, ghost reply: Reply, env: ControlEnv)
      returns (r: Outcome, ghost used: ControlEnv)
      requires Sound() && CarriesReply(img, reply) && (reply.Answer? ==> |reply.body| <= MAX_SIZE_MSG)
      modifies `reqs, `held
      ensures Sound() && fresh(Memory() - old(Memory())) && used == env.(room := used.room)
      ensures (View(), r) == Receive(old(View()), Tagged(origin, reply), used)
    {
      hide AllHold, StandardRequest, Holds, Fill;
      used := env;
      var half := HalfOf(img);
      assert half == Some(if reply.Answer? then In else reply.half);
      if Type(img) == ACK {
        r := if Status(img) == -EPIPE then Halted(half.value) else Ignored;
        return;
      }
      var body: Body := Data(img);
      if GetsConfiguration(body) && Length(body) > 9 && !env.selected {
        return Failed, used;
      }
      var ok;
      ghost var room;
      ok, room := SendUsb(Tagged(origin, body), half.value, env);
      used := used.(room := room);
      if !ok {
        return Failed, used;
      }
      var bytes := FirstBuffer();
      r := GivenToHost(bytes);
    }

    /** The buffer of the newest request. */
    method FirstBuffer() returns (bytes: seq<byte>)
      requires Sound() && held != []
      ensures bytes == Buffer(held[0].it)
    {
      assert |reqs| == |held|;
      HoldsAt(reqs, held, Holds, 0);
      bytes := reqs[0].msg.mem[BODY + SETUP..];
    }
  }
}
