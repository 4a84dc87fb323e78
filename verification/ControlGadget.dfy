/** The endpoint-zero pair of the gadget (gadget.c): setups, data stages, answers. */
module ControlGadget {
  import opened Bytes
  import opened Descriptors
  import opened ControlTransfer
  import opened Errno

  /** gadget_request_t: the message's data region, and the part after the setup given to the controller. */
  datatype RequestImage = RequestImage(dir: Dir, image: Body, length: nat, actual: nat, done: bool)

  type Request = r: RequestImage |
      SETUP + r.length == |r.image| && r.actual <= r.length
    witness RequestImage(In, seq(SETUP, i => 0), 0, 0, false)

  /** The setups waiting for their work item, and both request lists, each request naming its endpoint's direction. */
  datatype Gadget = Gadget(setups: seq<Tagged<Body>>, reqs: seq<Tagged<Request>>)

  const IDLE := Gadget([], [])

  /** ep_fill_ctrl_request: the setup is kept in front, and the controller's buffer starts behind it. */
  function Fill(dir: Dir, data: Body, room: nat -> byte): (r: Request)
    ensures r.dir == dir && !r.done
    ensures |r.image| == |data| + (if dir == In then 0 else Length(data)) && r.image[..|data|] == data
  {
    var more := if dir == In then 0 else Length(data);
    RequestImage(dir, Grow(data, more, room), |data| + more - SETUP, 0, false)
  }

  /** The bytes handed to the controller. */
  function Buffer(r: Request): seq<byte>
  {
    r.image[SETUP..]
  }

  /** ep_gadget_send_usb; a refused request is freed again. */
  function Send(g: Gadget, t: Tagged<Body>, dir: Dir, env: ControlEnv): Gadget
  {
    if env.memory && env.submit then g.(reqs := [Tagged(t.origin, Fill(dir, t.it, env.room))] + g.reqs) else g
  }

  /** handle_setup */
  function HandleSetup(g: Gadget, i: nat, env: ControlEnv): (r: (Gadget, Option<Tagged<Packet>>))
    requires i < |g.setups|
    ensures r.1.Some? ==> r.1.value.origin == g.setups[i].origin
  {
    var t := g.setups[i];
    var dir := Direction(t.it);
    var rest := g.(setups := Drop(g.setups, i));
    if !env.memory then (rest, None)
    else if AwaitsData(dir, t.it) then (Send(rest, t, dir, env), None)
    else if (SetsInterface(t.it) && !env.selected) || !env.send then (rest, None)
    else (if dir == Out then Send(rest, t, dir, env) else rest, Some(Tagged(t.origin, Packet(dir, t.it))))
  }

  /** The setups that go no further: neither forwarded nor waiting for their data stage. */
  predicate SetupFails(b: Body, env: ControlEnv)
  {
    || !env.memory
    || (if AwaitsData(Direction(b), b) then !env.submit else (SetsInterface(b) && !env.selected) || !env.send)
  }

  predicate Queued(g: Gadget, i: nat)
  {
    i < |g.reqs| && !g.reqs[i].it.done
  }

  /** gadget_recv_usb: `bytes` is the data stage the host sent, or what it consumed of an answer. */
  function Complete(g: Gadget, i: nat, status: int, bytes: seq<byte>): Gadget
    requires Queued(g, i) && |bytes| <= g.reqs[i].it.length
  {
    if status < 0 then g.(reqs := Drop(g.reqs, i))
    else
      var r := g.reqs[i].it;
      var image := if r.dir == Out then Store(r.image, bytes) else r.image;
      g.(reqs := g.reqs[i := g.reqs[i].(it := RequestImage(r.dir, image, r.length, |bytes|, true))])
  }

  predicate Done(g: Gadget, i: nat)
  {
    i < |g.reqs| && g.reqs[i].it.done
  }

  /** recv with ep_gadget_recv_usb_ctrl: only a received data stage goes to userland. */
  function Work(g: Gadget, i: nat, send: bool): (r: (Gadget, Option<Tagged<Packet>>))
    requires Done(g, i)
    ensures r.1.Some? ==> r.1.value.origin == g.reqs[i].origin
  {
    var t := g.reqs[i];
    (g.(reqs := Drop(g.reqs, i)),
     if AwaitsData(t.it.dir, t.it.image[..SETUP]) && send
     then Some(Tagged(t.origin, Packet(Out, t.it.image[..SETUP + t.it.actual])))
     else None)
  }

  /** What handling a reply comes to. */
  datatype Outcome = GivenToHost(bytes: seq<byte>) | Halted(half: Dir) | Ignored | Failed

  /** ep_gadget_recv_userland_ctrl on the IN endpoint, and its ACK branch on either. */
  function Receive(g: Gadget, t: Tagged<Reply>, env: ControlEnv): (r: (Gadget, Outcome))
  {
    match t.it
    case Ack(half, status, _) => (g, if status == -EPIPE then Halted(half) else Ignored)
    case Answer(body) =>
      if GetsConfiguration(body) && Length(body) > 9 && !env.selected then (g, Failed)
      else if !env.memory || !env.submit then (g, Failed)
      else
        var after := Send(g, Tagged(t.origin, body), In, env);
        (after, GivenToHost(Buffer(after.reqs[0].it)))
  }
}
