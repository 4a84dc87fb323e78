/**
 * One bulk or interrupt endpoint of the gadget (gadget.c): submitting, completing, the work item
 * that follows a completion, and the teardown.
 */
module GadgetEndpoint {
  import opened Bytes
  import opened Descriptors
  import opened Requests
  import opened Errno

  /** What travels for such an endpoint: payloads, and acknowledgements of consumed IN payloads. */
  datatype Packet = Data(payload: seq<byte>) | Ack(status: int)

  /**
   * `log` is the history of payloads exchanged with the host: consumed by it on an IN endpoint,
   * received from it on an OUT endpoint.
   */
  datatype Endpoint = Endpoint(dir: Dir, pool: Pool, enabled: bool, log: seq<seq<byte>>)

  /** add_gadget_endpoint */
  function New(dir: Dir): Endpoint
  {
    Endpoint(dir, EMPTY, true, [])
  }

  /** ep_gadget_send_usb: a disabled endpoint refuses new requests. */
  function Send(ep: Endpoint, data: seq<byte>, s: Submit): (r: (Endpoint, bool))
  {
    if s == NoMemory then (ep, false)
    else
      var queued := Alloc(ep.pool, data);
      if s == Refused || !ep.enabled then (ep.(pool := Free(queued, 0)), false)
      else (ep.(pool := queued), true)
  }

  predicate Queued(ep: Endpoint, i: nat)
  {
    i < |ep.pool.reqs| && ep.pool.reqs[i].status.None?
  }

  predicate Waiting(ep: Endpoint, i: nat)
  {
    i < |ep.pool.reqs| && ep.pool.reqs[i].status.Some?
  }

  /** gadget_recv_usb, the completion: a negative status frees at once, any other queues the work item. */
  function Complete(ep: Endpoint, i: nat, status: int, received: seq<byte>): (r: Endpoint)
    requires Queued(ep, i)
  {
    if status < 0 then ep.(pool := Free(ep.pool, i))
    else
      var data := if ep.dir == Out then received else ep.pool.reqs[i].data;
      var done := ep.pool.reqs[i].(data := data, status := Some(status));
      ep.(pool := ep.pool.(reqs := ep.pool.reqs[i := done]), log := ep.log + [data])
  }

  /**
   * recv, the work item: an OUT payload goes to userland and the endpoint listens again; a
   * consumed IN payload is acknowledged. The request is freed whatever happens.
   */
  function Work(ep: Endpoint, i: nat, env: WorkEnv): (r: (Endpoint, Option<Packet>))
    requires Waiting(ep, i)
  {
    var req := ep.pool.reqs[i];
    if ep.dir == Out then
      if !env.send then (ep.(pool := Free(ep.pool, i)), None)
      else
        var again := Send(ep, [], env.submit).0;
        var at := i + |again.pool.reqs| - |ep.pool.reqs|;
        (again.(pool := Free(again.pool, at)), Some(Data(req.data)))
    else
      (ep.(pool := Free(ep.pool, i)), if env.memory && env.send then Some(Ack(req.status.value)) else None)
  }

  lemma SendFacts(ep: Endpoint, data: seq<byte>, s: Submit)
    ensures var (r, ok) := Send(ep, data, s);
            && ok == (s == Accepted && ep.enabled)
            && (ok ==> r.pool.reqs == [Request(ep.pool.next, data, None)] + ep.pool.reqs)
            && (!ok ==> r.pool.reqs == ep.pool.reqs)
            && r.dir == ep.dir && r.enabled == ep.enabled && r.log == ep.log
  {
    var queued := Alloc(ep.pool, data);
    assert queued.reqs[..0] + queued.reqs[1..] == ep.pool.reqs;
  }

  lemma SendOwned(ep: Endpoint, data: seq<byte>, s: Submit)
    requires Owned(ep.pool)
    ensures Owned(Send(ep, data, s).0.pool)
  {
    AllocOwned(ep.pool, data);
    FreeOwned(Alloc(ep.pool, data), 0);
  }

  lemma CompleteOwned(ep: Endpoint, i: nat, status: int, received: seq<byte>)
    requires Owned(ep.pool) && Queued(ep, i)
    ensures Owned(Complete(ep, i, status, received).pool)
  {
    if status < 0 {
      FreeOwned(ep.pool, i);
    } else {
      SameIdsOwned(ep.pool, Complete(ep, i, status, received).pool.reqs);
    }
  }

  lemma WorkOwned(ep: Endpoint, i: nat, env: WorkEnv)
    requires Owned(ep.pool) && Waiting(ep, i)
    ensures Owned(Work(ep, i, env).0.pool)
  {
    hide Owned, Send, Free, Alloc;
    FreeOwned(ep.pool, i);
    SendFacts(ep, [], env.submit);
    SendOwned(ep, [], env.submit);
    var again := Send(ep, [], env.submit).0;
    FreeOwned(again.pool, i + |again.pool.reqs| - |ep.pool.reqs|);
  }

  /**
   * A work item sends what the direction calls for, releases its request, and listens again only after
   * an OUT payload was sent.
   */
  lemma WorkLeaves(ep: Endpoint, i: nat, env: WorkEnv)
    requires Waiting(ep, i)
    ensures var (r, sent) := Work(ep, i, env);
            var again := if ep.dir == Out && env.send && env.submit == Accepted && ep.enabled
                         then [Request(ep.pool.next, [], None)] else [];
            && r.pool.reqs == again + (ep.pool.reqs[..i] + ep.pool.reqs[i + 1..])
            && r.pool.released[|r.pool.released| - 1..] == [ep.pool.reqs[i].id]
            && (ep.dir == In ==>
                 sent == if env.memory && env.send then Some(Ack(ep.pool.reqs[i].status.value)) else None)
            && (ep.dir == Out ==> sent == if env.send then Some(Data(ep.pool.reqs[i].data)) else None)
  {
    SendFacts(ep, [], env.submit);
    hide Send;
    BehindHead(Request(ep.pool.next, [], None), ep.pool.reqs, i);
  }

  lemma BehindHead(x: Request, reqs: seq<Request>, i: nat)
    requires i < |reqs|
    ensures ([x] + reqs)[..i + 1] + ([x] + reqs)[i + 2..] == [x] + (reqs[..i] + reqs[i + 1..])
    ensures ([x] + reqs)[i + 1] == reqs[i]
    ensures [] + (reqs[..i] + reqs[i + 1..]) == reqs[..i] + reqs[i + 1..]
  {
  }

  // ------------------------------------------------------------------ teardown

  /** What can interleave with the teardown's phases. */
  datatype Event =
    | Completion(i: nat, status: int, received: seq<byte>)
    | WorkItem(i: nat, env: WorkEnv)

  predicate Possible(ep: Endpoint, e: Event)
  {
    match e
    case Completion(i, _, _) => Queued(ep, i)
    case WorkItem(i, _) => Waiting(ep, i)
  }

  function Happen(ep: Endpoint, e: Event): Endpoint
    requires Possible(ep, e)
  {
    match e
    case Completion(i, status, received) => Complete(ep, i, status, received)
    case WorkItem(i, env) => Work(ep, i, env).0
  }

  predicate Schedule(ep: Endpoint, events: seq<Event>)
    decreases |events|
  {
    events == [] || (Possible(ep, events[0]) && Schedule(Happen(ep, events[0]), events[1..]))
  }

  function Play(ep: Endpoint, events: seq<Event>): Endpoint
    requires Schedule(ep, events)
    decreases |events|
  {
    if events == [] then ep else Play(Happen(ep, events[0]), events[1..])
  }

  /** Completes every request the controller owns, from list position `k` on, with a negative status. */
  function Abort(ep: Endpoint, k: nat, status: int): (r: Endpoint)
    requires k <= |ep.pool.reqs| && status < 0
    decreases |ep.pool.reqs| - k
  {
    if k == |ep.pool.reqs| then ep
    else if Queued(ep, k) then Abort(Complete(ep, k, status, []), k, status)
    else Abort(ep, k + 1, status)
  }

  /** usb_ep_disable, by the controller's contract. */
  function Disable(ep: Endpoint): Endpoint
  {
    Abort(ep.(enabled := false), 0, -ESHUTDOWN)
  }

  /** flush_workqueue: every waiting work item runs, `pick` deciding the order. */
  function Flush(ep: Endpoint, pick: nat -> nat, envs: nat -> WorkEnv): (r: Endpoint)
    requires Drained(ep.pool) && !ep.enabled
    decreases |ep.pool.reqs|
  {
    var n := |ep.pool.reqs|;
    if n == 0 then ep
    else
      WorkDrains(ep, pick(n) % n, envs(n));
      Flush(Work(ep, pick(n) % n, envs(n)).0, pick, envs)
  }

  /** On a disabled endpoint a work item only ever removes its own request. */
  lemma WorkDrains(ep: Endpoint, i: nat, env: WorkEnv)
    requires Drained(ep.pool) && !ep.enabled && i < |ep.pool.reqs|
    ensures var r := Work(ep, i, env).0;
            Drained(r.pool) && !r.enabled && |r.pool.reqs| == |ep.pool.reqs| - 1
  {
    SendFacts(ep, [], env.submit);
  }

  lemma {:induction false} AbortFacts(ep: Endpoint, k: nat, status: int)
    requires k <= |ep.pool.reqs| && status < 0
    requires forall j | 0 <= j < k :: ep.pool.reqs[j].status.Some?
    ensures var r := Abort(ep, k, status);
            && Drained(r.pool) && r.enabled == ep.enabled && r.dir == ep.dir && r.log == ep.log
            && (Owned(ep.pool) ==> Owned(r.pool))
            && |r.pool.reqs| <= |ep.pool.reqs|
    decreases |ep.pool.reqs| - k
  {
    hide Owned;
    if k < |ep.pool.reqs| {
      if Queued(ep, k) {
        if Owned(ep.pool) {
          FreeOwned(ep.pool, k);
        }
        AbortFacts(Complete(ep, k, status, []), k, status);
      } else {
        AbortFacts(ep, k + 1, status);
      }
    }
  }

  lemma {:induction false} PlayOwned(ep: Endpoint, events: seq<Event>)
    requires Schedule(ep, events) && Owned(ep.pool)
    ensures Owned(Play(ep, events).pool)
    decreases |events|
  {
    if events != [] {
      HappenOwned(ep, events[0]);
      PlayOwned(Happen(ep, events[0]), events[1..]);
    }
  }

  /** Once disabled and without controller-owned requests, an endpoint stays so. */
  lemma {:induction false} PlayDisabled(ep: Endpoint, events: seq<Event>)
    requires Schedule(ep, events) && Drained(ep.pool) && !ep.enabled
    ensures var r := Play(ep, events); Drained(r.pool) && !r.enabled
    decreases |events|
  {
    if events != [] {
      match events[0] {
        case Completion(i, status, received) => assert false;
        case WorkItem(i, env) => WorkDrains(ep, i, env);
      }
      PlayDisabled(Happen(ep, events[0]), events[1..]);
    }
  }

  lemma {:induction false} FlushFacts(ep: Endpoint, pick: nat -> nat, envs: nat -> WorkEnv)
    requires Drained(ep.pool) && !ep.enabled
    ensures Flush(ep, pick, envs).pool.reqs == []
    ensures Owned(ep.pool) ==> Owned(Flush(ep, pick, envs).pool)
    decreases |ep.pool.reqs|
  {
    var n := |ep.pool.reqs|;
    if n > 0 {
      WorkDrains(ep, pick(n) % n, envs(n));
      if Owned(ep.pool) {
        WorkOwned(ep, pick(n) % n, envs(n));
      }
      FlushFacts(Work(ep, pick(n) % n, envs(n)).0, pick, envs);
    }
  }

  /** free_gadget_endpoint: dequeue, disable, flush, with arbitrary schedules in between. */
  function Teardown(ep: Endpoint, before: seq<Event>, after: seq<Event>, pick: nat -> nat,
                    envs: nat -> WorkEnv): Endpoint
    requires TeardownSchedules(ep, before, after)
  {
    var disabled := Disable(Play(Abort(ep, 0, -ECONNRESET), before));
    AbortFacts(Play(Abort(ep, 0, -ECONNRESET), before).(enabled := false), 0, -ESHUTDOWN);
    PlayDisabled(disabled, after);
    Flush(Play(disabled, after), pick, envs)
  }

  predicate TeardownSchedules(ep: Endpoint, before: seq<Event>, after: seq<Event>)
  {
    var dequeued := Abort(ep, 0, -ECONNRESET);
    Schedule(dequeued, before) && Schedule(Disable(Play(dequeued, before)), after)
  }

  lemma OwnedTeardown(ep: Endpoint, before: seq<Event>, after: seq<Event>, pick: nat -> nat, envs: nat -> WorkEnv)
    requires Owned(ep.pool) && TeardownSchedules(ep, before, after)
    ensures var r := Teardown(ep, before, after, pick, envs);
            r.pool.reqs == [] && multiset(r.pool.released) == multiset(UpTo(r.pool.next))
  {
    AbortFacts(ep, 0, -ECONNRESET);
    var dequeued := Abort(ep, 0, -ECONNRESET);
    PlayOwned(dequeued, before);
    AbortFacts(Play(dequeued, before).(enabled := false), 0, -ESHUTDOWN);
    var disabled := Disable(Play(dequeued, before));
    PlayOwned(disabled, after);
    PlayDisabled(disabled, after);
    FlushFacts(Play(disabled, after), pick, envs);
    assert RequestIds([]) == [];
  }

  /** What can happen to an endpoint while it is listed: submissions, completions and work items. */
  datatype Deed = Submission(data: seq<byte>, s: Submit) | Then(e: Event)

  predicate Lives(ep: Endpoint, life: seq<Deed>)
    decreases |life|
  {
    life == [] || ((life[0].Then? ==> Possible(ep, life[0].e)) && Lives(Do(ep, life[0]), life[1..]))
  }

  function Do(ep: Endpoint, d: Deed): Endpoint
    requires d.Then? ==> Possible(ep, d.e)
  {
    match d
    case Submission(data, s) => Send(ep, data, s).0
    case Then(e) => Happen(ep, e)
  }

  function Live(ep: Endpoint, life: seq<Deed>): Endpoint
    requires Lives(ep, life)
    decreases |life|
  {
    if life == [] then ep else Live(Do(ep, life[0]), life[1..])
  }

  lemma HappenOwned(ep: Endpoint, e: Event)
    requires Possible(ep, e) && Owned(ep.pool)
    ensures Owned(Happen(ep, e).pool)
  {
    match e {
      case Completion(i, status, received) => CompleteOwned(ep, i, status, received);
      case WorkItem(i, env) => WorkOwned(ep, i, env);
    }
  }

  lemma {:induction false} LifeOwned(ep: Endpoint, life: seq<Deed>)
    requires Lives(ep, life) && Owned(ep.pool)
    ensures Owned(Live(ep, life).pool)
    decreases |life|
  {
    hide Owned;
    if life != [] {
      match life[0] {
        case Submission(data, s) => SendOwned(ep, data, s);
        case Then(e) => HappenOwned(ep, e);
      }
      LifeOwned(Do(ep, life[0]), life[1..]);
    }
  }

  /**
   * Teardown completeness: for every life of an endpoint since it was created, whatever
   * completions, work items and OUT resubmissions run between the phases of its teardown, the
   * request list is empty at the end, and every request ever allocated on the endpoint has been
   * released exactly once.
   */
  lemma TeardownComplete(dir: Dir, life: seq<Deed>, before: seq<Event>, after: seq<Event>, pick: nat -> nat,
                         envs: nat -> WorkEnv)
    requires Lives(New(dir), life) && TeardownSchedules(Live(New(dir), life), before, after)
    ensures var r := Teardown(Live(New(dir), life), before, after, pick, envs);
            r.pool.reqs == [] && multiset(r.pool.released) == multiset(UpTo(r.pool.next))
  {
    EmptyOwned();
    LifeOwned(New(dir), life);
    OwnedTeardown(Live(New(dir), life), before, after, pick, envs);
  }

  /** In particular no request is released twice. */
  lemma ReleasedOnce(p: Pool, id: nat)
    requires p.reqs == [] && Owned(p)
    ensures multiset(p.released)[id] == if id < p.next then 1 else 0
  {
    assert RequestIds(p.reqs) == [];
    UpToCounts(p.next, id);
  }

  lemma {:induction false} UpToCounts(n: nat, id: nat)
    ensures multiset(UpTo(n))[id] == if id < n then 1 else 0
  {
    if n > 0 {
      UpToCounts(n - 1, id);
      assert UpTo(n) == UpTo(n - 1) + [n - 1];
    } else {
      assert UpTo(0) == [];
    }
  }

  // ------------------------------------------------ the descriptor during the flush

  /**
   * Whether the flush reads the endpoint's descriptor, which free_endpoint has released just
   * before: the resubmission of an OUT endpoint takes its buffer size from it.
   */
  function FlushReadsDescriptor(ep: Endpoint, pick: nat -> nat, envs: nat -> WorkEnv): bool
    requires Drained(ep.pool) && !ep.enabled
    decreases |ep.pool.reqs|
  {
    var n := |ep.pool.reqs|;
    n != 0 &&
    (WorkDrains(ep, pick(n) % n, envs(n));
     (ep.dir == Out && envs(n).send) || FlushReadsDescriptor(Work(ep, pick(n) % n, envs(n)).0, pick, envs))
  }

  const SENDS: nat -> WorkEnv := (n: nat) => WorkEnv(true, true, Accepted)

  lemma {:induction false} OnlyOutReads(ep: Endpoint, pick: nat -> nat, envs: nat -> WorkEnv)
    requires Drained(ep.pool) && !ep.enabled && (ep.dir == In || ep.pool.reqs == [])
    ensures !FlushReadsDescriptor(ep, pick, envs)
    decreases |ep.pool.reqs|
  {
    var n := |ep.pool.reqs|;
    if n != 0 {
      WorkDrains(ep, pick(n) % n, envs(n));
      OnlyOutReads(Work(ep, pick(n) % n, envs(n)).0, pick, envs);
    }
  }

  predicate ReadsReleased(ep: Endpoint, pick: nat -> nat, envs: nat -> WorkEnv)
    requires Drained(ep.pool) && !ep.enabled
  {
    FlushReadsDescriptor(ep, pick, envs)
  }

  /** The flush may read the released descriptor exactly when an OUT completion still waits for its work item. */
  lemma DescriptorReadExactly(ep: Endpoint, pick: nat -> nat)
    requires Drained(ep.pool) && !ep.enabled
    ensures (exists envs: nat -> WorkEnv :: ReadsReleased(ep, pick, envs)) <==> ep.dir == Out && ep.pool.reqs != []
  {
    if ep.dir == Out && ep.pool.reqs != [] {
      assert SENDS(|ep.pool.reqs|).send;
      assert ReadsReleased(ep, pick, SENDS);
    } else {
      forall envs: nat -> WorkEnv
        ensures !ReadsReleased(ep, pick, envs)
      {
        OnlyOutReads(ep, pick, envs);
      }
    }
  }

  /** One received payload before the teardown is enough to reach such a flush. */
  lemma DescriptorReadIsReached(pick: nat -> nat) returns (ep: Endpoint)
    ensures var life := [Submission([], Accepted), Then(Completion(0, 0, []))];
            Lives(New(Out), life) && ep == Disable(Abort(Live(New(Out), life), 0, -ECONNRESET))
    ensures Drained(ep.pool) && !ep.enabled && ReadsReleased(ep, pick, SENDS)
  {
    var a, b := Submission([], Accepted), Then(Completion(0, 0, []));
    var life := [a, b];
    SendFacts(New(Out), [], Accepted);
    var received := Do(Do(New(Out), a), b);
    assert life[1..] == [b] && [b][1..] == [];
    assert Live(Do(New(Out), a), [b]) == received;
    assert received.pool.reqs == [Request(0, [], Some(0))];
    assert Abort(received, 1, -ECONNRESET) == received;
    var closed := received.(enabled := false);
    assert Abort(closed, 1, -ESHUTDOWN) == closed;
    ep := closed;
    assert SENDS(1).send;
  }

  // ------------------------------------------------------------------ the class

  /** gadget_endpoint_t with its request list. */
  class GadgetEndpoint {
    const dir: Dir
    var reqs: seq<Request>
    var next: nat
    var released: seq<nat>
    var enabled: bool
    var log: seq<seq<byte>>

    ghost function View(): Endpoint
      reads this
    {
      Endpoint(dir, Pool(reqs, next, released), enabled, log)
    }

    /** Every request ever allocated is listed or was released, exactly once. */
    ghost predicate Valid()
      reads this
    {
      Owned(View().pool)
    }

    constructor (dir: Dir)
      ensures Valid() && this.dir == dir && View() == New(dir)
    {
      EmptyOwned();
      this.dir := dir;
      reqs, next, released, enabled, log := [], 0, [], true, [];
    }

    /** alloc_gadget_request */
    method AllocRequest(data: seq<byte>)
      modifies this
      ensures View() == old(View()).(pool := Alloc(old(View()).pool, data))
    {
      reqs := [Request(next, data, None)] + reqs;
      next := next + 1;
    }

    /** free_gadget_request */
    method FreeRequest(i: nat)
      requires i < |reqs|
      modifies this
      ensures View() == old(View()).(pool := Free(old(View()).pool, i))
    {
      released := released + [reqs[i].id];
      reqs := reqs[..i] + reqs[i + 1..];
    }

    /** ep_gadget_send_usb */
    method SendUsb(data: seq<byte>, s: Submit) returns (ok: bool)
      modifies this
      ensures (View(), ok) == Send(old(View()), data, s)
      ensures ok == (s == Accepted && enabled) && enabled == old(enabled) && log == old(log)
      ensures reqs == (if ok then [Request(old(next), data, None)] else []) + old(reqs)
      ensures next == old(next) + if s == NoMemory then 0 else 1
      ensures released == old(released) + if s == NoMemory || ok then [] else [old(next)]
      ensures old(Valid()) ==> Valid()
    {
      if Valid() {
        SendOwned(View(), data, s);
      }
      if s == NoMemory {
        return false;
      }
      AllocRequest(data);
      if s == Refused || !enabled {
        FreeRequest(0);
        return false;
      }
      ok := true;
    }

    /** gadget_recv_usb */
    method OnComplete(i: nat, status: int, received: seq<byte>)
      requires Queued(View(), i)
      modifies this
      ensures View() == Complete(old(View()), i, status, received)
      ensures var r := old(reqs[i]).(data := if dir == Out then received else
                old(reqs[i].data), status := Some(status));
              if status < 0 then
                reqs == old(reqs)[..i] + old(reqs)[i + 1..] && log == old(log) &&
                  released == old(released) + [old(reqs[i].id)]
              else reqs == old(reqs)[i := r] && log == old(log) + [r.data] && released == old(released)
      ensures old(Valid()) ==> Valid()
    {
      if Valid() {
        CompleteOwned(View(), i, status, received);
      }
      if status < 0 {
        FreeRequest(i);
        return;
      }
      var data := if dir == Out then received else reqs[i].data;
      reqs := reqs[i := reqs[i].(data := data, status := Some(status))];
      log := log + [data];
    }

    /** ep_gadget_recv_usb: what the work item does before the request is freed; `at` is where it then stands. */
    method RecvUsb(i: nat, env: WorkEnv) returns (sent: Option<Packet>, at: nat)
      requires Waiting(View(), i)
      modifies this
      ensures at < |reqs|
      ensures (View().(pool := Free(View().pool, at)), sent) == Work(old(View()), i, env)
    {
      at := i;
      if dir == Out {
        if !env.send {
          return None, at;
        }
        sent := Some(Data(reqs[i].data));
        ghost var ep := View();
        var length := |reqs|;
        var ok := SendUsb([], env.submit);
        SendFacts(ep, [], env.submit);
        at := i + |reqs| - length;
      } else {
        if !env.memory || !env.send {
          return None, at;
        }
        sent := Some(Ack(reqs[i].status.value));
      }
    }

    /** recv, the workqueue function. */
    method RunWork(i: nat, env: WorkEnv) returns (sent: Option<Packet>)
      requires Waiting(View(), i)
      modifies this
      ensures (View(), sent) == Work(old(View()), i, env)
      ensures dir == In ==> sent == if env.memory && env.send then Some(Ack(old(reqs[i].status.value))) else None
      ensures dir == Out ==> sent == if env.send then Some(Data(old(reqs[i].data))) else None
      ensures var again := if dir == Out && env.send && env.submit == Accepted &&
                enabled then [Request(old(next), [], None)] else [];
              reqs == again + (old(reqs)[..i] + old(reqs)[i + 1..])
      ensures old(Valid()) ==> Valid()
    {
      if Valid() {
        WorkOwned(View(), i, env);
      }
      WorkLeaves(View(), i, env);
      var at;
      sent, at := RecvUsb(i, env);
      FreeRequest(at);
    }

    /** The loop over reqlist with usb_ep_dequeue, and the controller's own sweep in usb_ep_disable. */
    method AbortAll(status: int)
      requires status < 0
      modifies this
      ensures View() == Abort(old(View()), 0, status)
    {
      ghost var ep := View();
      var k := 0;
      while k < |reqs|
        invariant k <= |reqs| && Abort(View(), k, status) == Abort(ep, 0, status)
        decreases |reqs| - k
      {
        if reqs[k].status.None? {
          OnComplete(k, status, []);
        } else {
          k := k + 1;
        }
      }
    }

    /** A schedule of completions and work items that the kernel runs meanwhile. */
    method Meanwhile(events: seq<Event>)
      requires Schedule(View(), events)
      modifies this
      ensures View() == Play(old(View()), events)
    {
      ghost var ep := View();
      for k := 0 to |events|
        invariant Schedule(View(), events[k..]) && Play(View(), events[k..]) == Play(ep, events)
      {
        assert events[k..][1..] == events[k + 1..];
        match events[k] {
          case Completion(i, status, received) => OnComplete(i, status, received);
          case WorkItem(i, env) => var sent := RunWork(i, env);
        }
      }
      assert events[|events|..] == [];
    }

    /** flush_workqueue inside free_endpoint. */
    method FlushWork(pick: nat -> nat, envs: nat -> WorkEnv)
      requires Drained(View().pool) && !enabled
      modifies this
      ensures View() == Flush(old(View()), pick, envs)
    {
      ghost var ep := View();
      while reqs != []
        invariant Drained(View().pool) && !enabled
        invariant Flush(View(), pick, envs) == Flush(ep, pick, envs)
        decreases |reqs|
      {
        var n := |reqs|;
        WorkDrains(View(), pick(n) % n, envs(n));
        var sent := RunWork(pick(n) % n, envs(n));
      }
    }

    /**
     * free_gadget_endpoint: dequeue, flush the FIFO (no effect on the request list), disable, then
     * free_endpoint's flush of the workqueue. It reaches its final free with the list empty and
     * every request released exactly once.
     */
    method FreeEndpoint(before: seq<Event>, after: seq<Event>, pick: nat -> nat, envs: nat -> WorkEnv)
      requires Valid() && TeardownSchedules(View(), before, after)
      modifies this
      ensures View() == Teardown(old(View()), before, after, pick, envs)
      ensures reqs == [] && multiset(released) == multiset(UpTo(next))
    {
      ghost var ep := View();
      OwnedTeardown(ep, before, after, pick, envs);
      AbortAll(-ECONNRESET);
      Meanwhile(before);
      AbortFacts(View().(enabled := false), 0, -ESHUTDOWN);
      enabled := false;
      AbortAll(-ESHUTDOWN);
      PlayDisabled(View(), after);
      Meanwhile(after);
      FlushWork(pick, envs);
    }
  }
}
