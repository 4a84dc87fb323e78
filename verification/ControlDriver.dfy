/** The endpoint-zero pair of the driver (driver.c): submitting control URBs and returning answers. */
module ControlDriver {
  import opened Bytes
  import opened Descriptors
  import opened ControlTransfer
  import opened Errno

  /**
   * driver_request_t: the message's data region and data size, and the URB's transfer length,
   * actual length and status; `kept` once a work item has run without releasing it. The setup
   * packet is the front of the region, the transfer buffer the rest.
   */
  datatype UrbImage =
    UrbImage(dir: Dir, image: Body, size: nat, length: nat, actual: nat, status: Option<int>, kept: bool)

  type Urb = u: UrbImage |
      && SETUP <= u.size <= |u.image| && u.actual <= u.length && (u.dir == In ==> u.size + u.length <= |u.image|)
      && (u.kept ==> u.status.Some?)
    witness UrbImage(Out, seq(SETUP, i => 0), SETUP, 0, 0, None, false)

  type Driver = seq<Tagged<Urb>>

  /** ep_driver_fill_ctrl_request: an IN request gets room for wLength answer bytes. */
  function Fill(dir: Dir, data: Body, room: nat -> byte): (u: Urb)
    ensures u.dir == dir && u.status.None? && !u.kept && u.size == |data| && u.length == Length(data)
    ensures u.image[..|data|] == data
    ensures dir == Out ==> u.image == data
  {
    var more := if dir == In then Length(data) else 0;
    UrbImage(dir, Grow(data, more, room), |data|, Length(data), 0, None, false)
  }

  /** What a message from userland comes to. */
  datatype Taken = Submitted(dir: Dir, setup: seq<byte>, data: seq<byte>, length: nat) | Interface | Failed

  /** ep_driver_recv_userland_ctrl: SET_INTERFACE is carried out and acknowledged, all else becomes an URB. */
  function Receive(d: Driver, t: Tagged<Packet>, env: ControlEnv): (r: (Driver, Taken, Option<Tagged<Reply>>))
    ensures r.2.Some? ==> r.2.value.origin == t.origin
  {
    var (dir, body) := (t.it.dir, t.it.body);
    if SetsInterface(body) then
      if !env.memory || !env.selected then (d, Failed, None)
      else (d, Interface, if env.send then Some(Tagged(t.origin, Ack(dir, 0, body))) else None)
    else if !env.memory || !env.submit then (d, Failed, None)
    else
      var u := Fill(dir, body, env.room);
      ([Tagged(t.origin, u)] + d, Submitted(dir, u.image[..SETUP], u.image[SETUP..u.size], u.length), None)
  }

  predicate Pending(d: Driver, i: nat)
  {
    i < |d| && d[i].it.status.None?
  }

  /** The controller's completion: a successful IN transfer fills the transfer buffer. */
  function Complete(d: Driver, i: nat, status: int, bytes: seq<byte>): Driver
    requires Pending(d, i) && |bytes| <= d[i].it.length
  {
    var u := d[i].it;
    var v: Urb := if u.dir == In && status == 0
                  then UrbImage(In, Store(u.image, bytes), u.size, u.length, |bytes|, Some(status), u.kept)
                  else UrbImage(u.dir, u.image, u.size, u.length, u.actual, Some(status), u.kept);
    d[i := Tagged(d[i].origin, v)]
  }

  predicate Done(d: Driver, i: nat)
  {
    i < |d| && d[i].it.status.Some? && !d[i].it.kept
  }

  /** A stall whose acknowledgement cannot be built or sent: recv returns early and the request stays listed. */
  predicate KeepsRequest(u: Urb, env: ControlEnv)
  {
    u.dir == In && u.status == Some(-EPIPE) && (!env.memory || !env.send)
  }

  /** recv with ep_driver_recv_usb_ctrl: an answer grows the message by the actual length. */
  function Work(d: Driver, i: nat, env: ControlEnv): (r: (Driver, Option<Tagged<Reply>>))
    requires Done(d, i)
    ensures r.1.Some? ==> r.1.value.origin == d[i].origin
  {
    var t := d[i];
    var u := t.it;
    var reply :=
      if u.dir == Out then None
      else if u.status == Some(0) then
        (if env.send then Some(Tagged(t.origin, Answer(u.image[..u.size + u.actual]))) else None)
      else if u.status == Some(-EPIPE) && env.memory && env.send then Some(Tagged(t.origin, Ack(In, -EPIPE, [])))
      else None;
    (if KeepsRequest(u, env) then d[i := Tagged(t.origin, u.(kept := true))] else Drop(d, i), reply)
  }
}
