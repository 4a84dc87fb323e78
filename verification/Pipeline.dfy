/**
 * The two ends, the messages in transit between them, and every step either kernel or the
 * userland relay can take. Channels may drop and reorder; they never duplicate.
 */
module Pipeline {
  import opened Bytes
  import opened Descriptors
  import opened Requests
  import G = GadgetEndpoint
  import D = DriverEndpoint

  datatype Message = Message(ep: EpId, packet: G.Packet)

  datatype System = System(drv: map<EpId, D.Endpoint>, gad: map<EpId, G.Endpoint>, up: seq<Message>, down: seq<Message>)

  /** up: driver to gadget; down: gadget to driver. */
  datatype Action =
    | UrbDone(ep: EpId, i: nat, status: int, data: seq<byte>)
    | DriverWork(ep: EpId, i: nat, env: WorkEnv)
    | HostDone(ep: EpId, i: nat, status: int, data: seq<byte>)
    | GadgetWork(ep: EpId, i: nat, env: WorkEnv)
    | DeliverUp(i: nat, s: Submit)
    | DeliverDown(i: nat, s: Submit)
    | LoseUp(i: nat)
    | LoseDown(i: nat)

  predicate Enabled(s: System, a: Action)
  {
    match a
    case UrbDone(e, i, _, _) => e in s.drv && D.Pending(s.drv[e], i)
    case DriverWork(e, i, _) => e in s.drv && D.Waiting(s.drv[e], i)
    case HostDone(e, i, _, _) => e in s.gad && G.Queued(s.gad[e], i)
    case GadgetWork(e, i, _) => e in s.gad && G.Waiting(s.gad[e], i)
    case DeliverUp(i, _) => i < |s.up|
    case DeliverDown(i, _) => i < |s.down|
    case LoseUp(i) => i < |s.up|
    case LoseDown(i) => i < |s.down|
  }

  /** The endpoint a step concerns. */
  function Subject(s: System, a: Action): EpId
    requires Enabled(s, a)
  {
    match a
    case UrbDone(e, _, _, _) => e
    case DriverWork(e, _, _) => e
    case HostDone(e, _, _, _) => e
    case GadgetWork(e, _, _) => e
    case DeliverUp(i, _) => s.up[i].ep
    case DeliverDown(i, _) => s.down[i].ep
    case LoseUp(i) => s.up[i].ep
    case LoseDown(i) => s.down[i].ep
  }

  function Post(msgs: seq<Message>, e: EpId, p: Option<G.Packet>): seq<Message>
  {
    if p.Some? then msgs + [Message(e, p.value)] else msgs
  }

  /** A message for an endpoint that is not listed is discarded (find_endpoint fails). */
  function Apply(s: System, a: Action): System
    requires Enabled(s, a)
  {
    match a
    case UrbDone(e, i, status, data) => s.(drv := s.drv[e := D.Complete(s.drv[e], i, status, data)])
    case DriverWork(e, i, env) =>
      var (ep, sent) := D.Work(s.drv[e], i, env);
      s.(drv := s.drv[e := ep], up := Post(s.up, e, sent))
    case HostDone(e, i, status, data) => s.(gad := s.gad[e := G.Complete(s.gad[e], i, status, data)])
    case GadgetWork(e, i, env) =>
      var (ep, sent) := G.Work(s.gad[e], i, env);
      s.(gad := s.gad[e := ep], down := Post(s.down, e, sent))
    case DeliverUp(i, sub) =>
      var e, rest := s.up[i].ep, s.(up := Drop(s.up, i));
      if e !in s.gad then rest
      else rest.(gad := s.gad[e := G.Send(s.gad[e], PayloadOf(s.up[i].packet), sub).0])
    case DeliverDown(i, sub) =>
      var e, rest := s.down[i].ep, s.(down := Drop(s.down, i));
      if e !in s.drv then rest
      else rest.(drv := s.drv[e := D.RecvUserland(s.drv[e], s.down[i].packet, sub).0])
    case LoseUp(i) => s.(up := Drop(s.up, i))
    case LoseDown(i) => s.(down := Drop(s.down, i))
  }

  /** An acknowledgement of these endpoints carries no data. */
  function PayloadOf(p: G.Packet): (data: seq<byte>)
    ensures p.Ack? ==> |data| == 0
  {
    match p
    case Data(payload) => payload
    case Ack(_) => []
  }

  predicate Runs(s: System, acts: seq<Action>)
    decreases |acts|
  {
    acts == [] || (Enabled(s, acts[0]) && Runs(Apply(s, acts[0]), acts[1..]))
  }

  function Exec(s: System, acts: seq<Action>): System
    requires Runs(s, acts)
    decreases |acts|
  {
    if acts == [] then s else Exec(Apply(s, acts[0]), acts[1..])
  }

  // --------------------------------------------------------- one endpoint's view

  /** The packets for one endpoint, in order. */
  function For(msgs: seq<Message>, e: EpId): seq<G.Packet>
  {
    if msgs == [] then []
    else For(msgs[..|msgs| - 1], e) + if msgs[|msgs| - 1].ep == e then [msgs[|msgs| - 1].packet] else []
  }

  lemma {:induction false} ForConcat(a: seq<Message>, b: seq<Message>, e: EpId)
    ensures For(a + b, e) == For(a, e) + For(b, e)
  {
    if b == [] {
      assert a + b == a;
    } else {
      assert (a + b)[..|a + b| - 1] == a + b[..|b| - 1];
      ForConcat(a, b[..|b| - 1], e);
    }
  }

  lemma ForOne(m: Message, e: EpId)
    ensures For([m], e) == if m.ep == e then [m.packet] else []
  {
    assert [m][..0] == [];
    assert For([], e) == [];
  }

  lemma ForPost(msgs: seq<Message>, x: EpId, p: Option<G.Packet>, e: EpId)
    ensures For(Post(msgs, x, p), e) == For(msgs, e) + if p.Some? && x == e then [p.value] else []
  {
    if p.Some? {
      ForConcat(msgs, [Message(x, p.value)], e);
      ForOne(Message(x, p.value), e);
    }
  }

  lemma ForDrop(msgs: seq<Message>, i: nat, e: EpId)
    requires i < |msgs|
    ensures For(Drop(msgs, i), e) == For(msgs[..i], e) + For(msgs[i + 1..], e)
    ensures For(msgs, e) ==
              For(msgs[..i], e) + (if msgs[i].ep == e then [msgs[i].packet] else []) + For(msgs[i + 1..], e)
  {
    ForConcat(msgs[..i], msgs[i + 1..], e);
    assert msgs == msgs[..i] + [msgs[i]] + msgs[i + 1..];
    ForConcat(msgs[..i] + [msgs[i]], msgs[i + 1..], e);
    ForConcat(msgs[..i], [msgs[i]], e);
    ForOne(msgs[i], e);
  }

  /** What one endpoint sees of the system. */
  datatype Lane = Lane(drv: D.Endpoint, gad: G.Endpoint, up: seq<G.Packet>, down: seq<G.Packet>)

  predicate Present(s: System, e: EpId)
  {
    e in s.drv && e in s.gad
  }

  function LaneOf(s: System, e: EpId): Lane
    requires Present(s, e)
  {
    Lane(s.drv[e], s.gad[e], For(s.up, e), For(s.down, e))
  }

  /** The lane's part of a step: positions are those among the lane's own packets. */
  datatype LaneStep =
    | LUrbDone(i: nat, status: int, data: seq<byte>)
    | LDriverWork(i: nat, env: WorkEnv)
    | LHostDone(i: nat, status: int, data: seq<byte>)
    | LGadgetWork(i: nat, env: WorkEnv)
    | LDeliverUp(i: nat, s: Submit)
    | LDeliverDown(i: nat, s: Submit)
    | LLoseUp(i: nat)
    | LLoseDown(i: nat)

  predicate LaneEnabled(l: Lane, a: LaneStep)
  {
    match a
    case LUrbDone(i, _, _) => D.Pending(l.drv, i)
    case LDriverWork(i, _) => D.Waiting(l.drv, i)
    case LHostDone(i, _, _) => G.Queued(l.gad, i)
    case LGadgetWork(i, _) => G.Waiting(l.gad, i)
    case LDeliverUp(i, _) => i < |l.up|
    case LDeliverDown(i, _) => i < |l.down|
    case LLoseUp(i) => i < |l.up|
    case LLoseDown(i) => i < |l.down|
  }

  function With(packets: seq<G.Packet>, p: Option<G.Packet>): seq<G.Packet>
  {
    if p.Some? then packets + [p.value] else packets
  }

  function LaneApply(l: Lane, a: LaneStep): Lane
    requires LaneEnabled(l, a)
  {
    match a
    case LUrbDone(i, status, data) => l.(drv := D.Complete(l.drv, i, status, data))
    case LDriverWork(i, env) =>
      var (ep, sent) := D.Work(l.drv, i, env);
      l.(drv := ep, up := With(l.up, sent))
    case LHostDone(i, status, data) => l.(gad := G.Complete(l.gad, i, status, data))
    case LGadgetWork(i, env) =>
      var (ep, sent) := G.Work(l.gad, i, env);
      l.(gad := ep, down := With(l.down, sent))
    case LDeliverUp(i, s) => l.(gad := G.Send(l.gad, PayloadOf(l.up[i]), s).0, up := Drop(l.up, i))
    case LDeliverDown(i, s) => l.(drv := D.RecvUserland(l.drv, l.down[i], s).0, down := Drop(l.down, i))
    case LLoseUp(i) => l.(up := Drop(l.up, i))
    case LLoseDown(i) => l.(down := Drop(l.down, i))
  }

  /** The step an action is on its subject's own lane. */
  function LaneStepOf(s: System, a: Action): LaneStep
    requires Enabled(s, a)
  {
    match a
    case UrbDone(_, i, status, data) => LUrbDone(i, status, data)
    case DriverWork(_, i, env) => LDriverWork(i, env)
    case HostDone(_, i, status, data) => LHostDone(i, status, data)
    case GadgetWork(_, i, env) => LGadgetWork(i, env)
    case DeliverUp(i, sub) => LDeliverUp(|For(s.up[..i], s.up[i].ep)|, sub)
    case DeliverDown(i, sub) => LDeliverDown(|For(s.down[..i], s.down[i].ep)|, sub)
    case LoseUp(i) => LLoseUp(|For(s.up[..i], s.up[i].ep)|)
    case LoseDown(i) => LLoseDown(|For(s.down[..i], s.down[i].ep)|)
  }

  lemma CutAt(packets: seq<G.Packet>, before: seq<G.Packet>, p: G.Packet, after: seq<G.Packet>)
    requires packets == before + [p] + after
    ensures |before| < |packets| && packets[|before|] == p && Drop(packets, |before|) == before + after
  {
  }

  /**
   * Lanes are independent: a step changes only the lane of its subject, and there it is a step of
   * that lane, on its own position among the lane's packets.
   */
  lemma StepOnLane(s: System, a: Action, e: EpId)
    requires Enabled(s, a) && Present(s, e)
    ensures Present(Apply(s, a), e)
    ensures Subject(s, a) != e ==> LaneOf(Apply(s, a), e) == LaneOf(s, e)
    ensures Subject(s, a) == e ==>
              && LaneEnabled(LaneOf(s, e), LaneStepOf(s, a))
              && LaneOf(Apply(s, a), e) == LaneApply(LaneOf(s, e), LaneStepOf(s, a))
  {
    match a {
      case UrbDone(x, i, status, data) =>
      case DriverWork(x, i, env) =>
        ForPost(s.up, x, D.Work(s.drv[x], i, env).1, e);
      case HostDone(x, i, status, data) =>
      case GadgetWork(x, i, env) =>
        ForPost(s.down, x, G.Work(s.gad[x], i, env).1, e);
      case DeliverUp(i, sub) => DropOnLane(s.up, i, e);
      case DeliverDown(i, sub) => DropOnLane(s.down, i, e);
      case LoseUp(i) => DropOnLane(s.up, i, e);
      case LoseDown(i) => DropOnLane(s.down, i, e);
    }
  }

  /** A message for an endpoint its receiver does not list is discarded, and nothing else happens. */
  lemma UnlistedDiscarded(s: System, a: Action)
    requires Enabled(s, a) && (a.DeliverUp? || a.DeliverDown?)
    requires Subject(s, a) !in if a.DeliverUp? then s.gad.Keys else s.drv.Keys
    ensures Apply(s, a) ==
              if a.DeliverUp? then s.(up := s.up[..a.i] + s.up[a.i + 1..]) else
                s.(down := s.down[..a.i] + s.down[a.i + 1..])
  {
  }

  lemma DropOnLane(msgs: seq<Message>, i: nat, e: EpId)
    requires i < |msgs|
    ensures msgs[i].ep != e ==> For(Drop(msgs, i), e) == For(msgs, e)
    ensures msgs[i].ep == e ==>
              var at := |For(msgs[..i], e)|;
              && at < |For(msgs, e)| && For(msgs, e)[at] == msgs[i].packet
              && For(Drop(msgs, i), e) == Drop(For(msgs, e), at)
  {
    ForDrop(msgs, i, e);
    if msgs[i].ep == e {
      CutAt(For(msgs, e), For(msgs[..i], e), msgs[i].packet, For(msgs[i + 1..], e));
    } else {
      assert For(msgs[..i], e) + [] + For(msgs[i + 1..], e) == For(msgs[..i], e) + For(msgs[i + 1..], e);
    }
  }

  predicate LaneRuns(l: Lane, steps: seq<LaneStep>)
    decreases |steps|
  {
    steps == [] || (LaneEnabled(l, steps[0]) && LaneRuns(LaneApply(l, steps[0]), steps[1..]))
  }

  function LaneExec(l: Lane, steps: seq<LaneStep>): Lane
    requires LaneRuns(l, steps)
    decreases |steps|
  {
    if steps == [] then l else LaneExec(LaneApply(l, steps[0]), steps[1..])
  }

  /** The lane steps of a run: those whose subject is `e`. */
  function Project(s: System, acts: seq<Action>, e: EpId): seq<LaneStep>
    requires Runs(s, acts)
    decreases |acts|
  {
    if acts == [] then []
    else
      (if Subject(s, acts[0]) == e then [LaneStepOf(s, acts[0])] else [])
      + Project(Apply(s, acts[0]), acts[1..], e)
  }

  /** Every run of the system is, for each endpoint, a run of its lane. */
  lemma {:induction false} RunOnLane(s: System, acts: seq<Action>, e: EpId)
    requires Runs(s, acts) && Present(s, e)
    ensures Present(Exec(s, acts), e)
    ensures LaneRuns(LaneOf(s, e), Project(s, acts, e))
    ensures LaneOf(Exec(s, acts), e) == LaneExec(LaneOf(s, e), Project(s, acts, e))
    decreases |acts|
  {
    if acts != [] {
      StepOnLane(s, acts[0], e);
      var next := Apply(s, acts[0]);
      hide Enabled, Apply, LaneApply, LaneEnabled, LaneOf;
      RunOnLane(next, acts[1..], e);
      var rest := Project(next, acts[1..], e);
      if Subject(s, acts[0]) == e {
        assert ([LaneStepOf(s, acts[0])] + rest)[1..] == rest;
      } else {
        assert [] + rest == rest;
      }
    }
  }
}
