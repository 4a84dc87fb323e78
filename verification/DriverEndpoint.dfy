/**
 * One bulk or interrupt endpoint of the driver (driver.c): submitting URBs, their completion and
 * work item, messages from userland, and the teardown.
 */
module DriverEndpoint {
  import opened Bytes
  import opened Descriptors
  import opened Requests
  import opened Errno
  import G = GadgetEndpoint

  /**
   * `log` is the history of payloads exchanged with the device: read from it on an IN endpoint,
   * submitted to it on an OUT endpoint.
   */
  datatype Endpoint = Endpoint(dir: Dir, pool: Pool, log: seq<seq<byte>>)

  function New(dir: Dir): Endpoint
  {
    Endpoint(dir, EMPTY, [])
  }

  /** ep_driver_send_usb */
  function Send(ep: Endpoint, data: seq<byte>, s: Submit): (r: (Endpoint, bool))
  {
    if s == NoMemory then (ep, false)
    else
      var queued := Alloc(ep.pool, data);
      if s == Refused then (ep.(pool := Free(queued, 0)), false)
      else (Endpoint(ep.dir, queued, if ep.dir == Out then ep.log + [data] else ep.log), true)
  }

  predicate Pending(ep: Endpoint, i: nat)
  {
    i < |ep.pool.reqs| && ep.pool.reqs[i].status.None?
  }

  predicate Waiting(ep: Endpoint, i: nat)
  {
    i < |ep.pool.reqs| && ep.pool.reqs[i].status.Some?
  }

  /** driver_recv_usb, the completion: it only queues the work item, whatever the status. */
  function Complete(ep: Endpoint, i: nat, status: int, received: seq<byte>): (r: Endpoint)
    requires Pending(ep, i)
  {
    var read := ep.dir == In && status == 0;
    var data := if read then received else ep.pool.reqs[i].data;
    var done := ep.pool.reqs[i].(data := data, status := Some(status));
    Endpoint(ep.dir, ep.pool.(reqs := ep.pool.reqs[i := done]), if read then ep.log + [data] else ep.log)
  }

  /**
   * recv, the work item: a payload read goes to userland, a stalled IN endpoint is cleared and
   * asked again, any other status is dropped. The request is freed whatever happens.
   */
  function Work(ep: Endpoint, i: nat, env: WorkEnv): (r: (Endpoint, Option<G.Packet>))
    requires Waiting(ep, i)
  {
    var req := ep.pool.reqs[i];
    if req.status.value == 0 then
      (ep.(pool := Free(ep.pool, i)), if ep.dir == In && env.send then Some(G.Data(req.data)) else None)
    else if req.status.value == -EPIPE && ep.dir == In then
      var again := Send(ep, [], env.submit).0;
      var at := i + |again.pool.reqs| - |ep.pool.reqs|;
      (again.(pool := Free(again.pool, at)), None)
    else (ep.(pool := Free(ep.pool, i)), None)
  }

  /** ep_driver_recv_userland: an acknowledgement asks the device again, data goes to it. */
  function RecvUserland(ep: Endpoint, p: G.Packet, s: Submit): (r: (Endpoint, bool))
  {
    match p
    case Ack(_) => Send(ep, [], s)
    case Data(payload) => Send(ep, payload, s)
  }

  lemma SendFacts(ep: Endpoint, data: seq<byte>, s: Submit)
    ensures var (r, ok) := Send(ep, data, s);
            && ok == (s == Accepted)
            && (ok ==> r.pool.reqs == [Request(ep.pool.next, data, None)] + ep.pool.reqs)
            && (!ok ==> r.pool.reqs == ep.pool.reqs)
            && r.dir == ep.dir
            && r.log == if ok && ep.dir == Out then ep.log + [data] else ep.log
  {
    var queued := Alloc(ep.pool, data);
    assert queued.reqs[..0] + queued.reqs[1..] == ep.pool.reqs;
  }

  // ------------------------------------------------------------------ teardown

  /** The loop of free_driver_endpoint: usb_kill_urb completes every URB the controller owns. */
  function Kill(ep: Endpoint, k: nat): (r: Endpoint)
    requires k <= |ep.pool.reqs|
    ensures |r.pool.reqs| == |ep.pool.reqs|
    decreases |ep.pool.reqs| - k
  {
    if k == |ep.pool.reqs| then ep
    else if Pending(ep, k) then Kill(Complete(ep, k, -ENOENT, []), k + 1)
    else Kill(ep, k + 1)
  }

  /** Which of the `left` oldest requests has its work item run next. */
  function Next(ep: Endpoint, left: nat, pick: nat -> nat): (at: nat)
    requires 0 < left <= |ep.pool.reqs|
    ensures |ep.pool.reqs| - left <= at < |ep.pool.reqs|
  {
    |ep.pool.reqs| - left + pick(left) % left
  }

  /**
   * flush_workqueue: the `left` oldest requests, all of them waiting, have their work item run,
   * `pick` deciding the order. Requests they submit are newer and are not waited for.
   */
  function Flush(ep: Endpoint, left: nat, pick: nat -> nat, envs: nat -> WorkEnv): (r: Endpoint)
    requires left <= |ep.pool.reqs| && OldestWait(ep, left)
    decreases left
  {
    if left == 0 then ep
    else
      var at := Next(ep, left, pick);
      WorkOldest(ep, left, at, envs(left));
      Flush(Work(ep, at, envs(left)).0, left - 1, pick, envs)
  }

  lemma FlushNext(ep: Endpoint, left: nat, pick: nat -> nat, envs: nat -> WorkEnv)
    requires 0 < left <= |ep.pool.reqs| && OldestWait(ep, left)
    ensures Waiting(ep, Next(ep, left, pick))
    ensures var r := Work(ep, Next(ep, left, pick), envs(left)).0;
            && left - 1 <= |r.pool.reqs| && OldestWait(r, left - 1)
            && Flush(ep, left, pick, envs) == Flush(r, left - 1, pick, envs)
  {
    WorkOldest(ep, left, Next(ep, left, pick), envs(left));
  }

  predicate OldestWait(ep: Endpoint, left: nat)
    requires left <= |ep.pool.reqs|
  {
    forall i | |ep.pool.reqs| - left <= i < |ep.pool.reqs| :: ep.pool.reqs[i].status.Some?
  }

  predicate Stalled(ep: Endpoint, r: Request)
  {
    ep.dir == In && r.status == Some(-EPIPE)
  }

  /** What a work item at `at` puts in front of the list: a new request exactly for a stall that is resubmitted. */
  function Renewed(ep: Endpoint, at: nat, env: WorkEnv): seq<Request>
    requires at < |ep.pool.reqs|
  {
    if Stalled(ep, ep.pool.reqs[at]) && env.submit == Accepted then [Request(ep.pool.next, [], None)] else []
  }

  lemma WorkOldest(ep: Endpoint, left: nat, at: nat, env: WorkEnv)
    requires 0 < left <= |ep.pool.reqs| && OldestWait(ep, left) && |ep.pool.reqs| - left <= at < |ep.pool.reqs|
    ensures Waiting(ep, at)
    ensures var r := Work(ep, at, env).0;
            && r.dir == ep.dir
            && r.pool.reqs == Renewed(ep, at, env) + (ep.pool.reqs[..at] + ep.pool.reqs[at + 1..])
            && left - 1 <= |r.pool.reqs| && OldestWait(r, left - 1)
  {
    WorkAt(ep, at, env);
    hide Work, Renewed;
    WithoutOldest(ep.pool.reqs, Renewed(ep, at, env), left, at);
  }

  /** The oldest requests still wait when one of them is gone. */
  lemma WithoutOldest(reqs: seq<Request>, more: seq<Request>, left: nat, at: nat)
    requires 0 < left <= |reqs| && |reqs| - left <= at < |reqs|
    requires forall i | |reqs| - left <= i < |reqs| :: reqs[i].status.Some?
    ensures var r := more + (reqs[..at] + reqs[at + 1..]);
            forall i | |r| - (left - 1) <= i < |r| :: r[i].status.Some?
  {
    var r := more + (reqs[..at] + reqs[at + 1..]);
    forall i | |r| - (left - 1) <= i < |r|
      ensures r[i].status.Some?
    {
      assert r[i] == reqs[if i - |more| < at then i - |more| else i - |more| + 1];
    }
  }

  lemma WorkAt(ep: Endpoint, at: nat, env: WorkEnv)
    requires Waiting(ep, at)
    ensures var r := Work(ep, at, env).0;
            && r.dir == ep.dir
            && r.pool.reqs == Renewed(ep, at, env) + (ep.pool.reqs[..at] + ep.pool.reqs[at + 1..])
  {
    var reqs, head := ep.pool.reqs, [Request(ep.pool.next, [], None)];
    if Stalled(ep, reqs[at]) {
      SendFacts(ep, [], env.submit);
      hide Send;
      if env.submit == Accepted {
        assert (head + reqs)[..at + 1] == head + reqs[..at] && (head + reqs)[at + 2..] == reqs[at + 1..];
        assert head + reqs[..at] + reqs[at + 1..] == head + (reqs[..at] + reqs[at + 1..]);
      } else {
        assert [] + (reqs[..at] + reqs[at + 1..]) == reqs[..at] + reqs[at + 1..];
      }
    } else {
      hide Send;
      assert [] + (reqs[..at] + reqs[at + 1..]) == reqs[..at] + reqs[at + 1..];
    }
  }

  lemma FlushDone(ep: Endpoint, pick: nat -> nat, envs: nat -> WorkEnv)
    requires OldestWait(ep, 0)
    ensures Flush(ep, 0, pick, envs) == ep
  {
  }

  lemma StartFlush(ep: Endpoint)
    requires Drained(ep.pool)
    ensures OldestWait(ep, |ep.pool.reqs|)
  {
  }

  lemma {:induction false} KillWaits(ep: Endpoint, k: nat)
    requires k <= |ep.pool.reqs| && forall i | 0 <= i < k :: ep.pool.reqs[i].status.Some?
    ensures var r := Kill(ep, k);
            && r.dir == ep.dir && Drained(r.pool)
            && forall i | 0 <= i < |ep.pool.reqs| :: Stalled(r, r.pool.reqs[i]) <==> Stalled(ep, ep.pool.reqs[i])
    decreases |ep.pool.reqs| - k
  {
    if k < |ep.pool.reqs| {
      if Pending(ep, k) {
        KillWaits(Complete(ep, k, -ENOENT, []), k + 1);
      } else {
        KillWaits(ep, k + 1);
      }
    }
  }

  /** free_driver_endpoint */
  function Teardown(ep: Endpoint, pick: nat -> nat, envs: nat -> WorkEnv): Endpoint
  {
    KillWaits(ep, 0);
    var killed := Kill(ep, 0);
    Flush(killed, |killed.pool.reqs|, pick, envs)
  }

  lemma {:induction false} FlushClean(ep: Endpoint, left: nat, pick: nat -> nat, envs: nat -> WorkEnv)
    requires left == |ep.pool.reqs| && OldestWait(ep, left)
    requires forall i | 0 <= i < left :: !Stalled(ep, ep.pool.reqs[i])
    ensures Flush(ep, left, pick, envs).pool.reqs == []
    decreases left
  {
    hide Work;
    if left > 0 {
      var at := Next(ep, left, pick);
      WorkOldest(ep, left, at, envs(left));
      var r := Work(ep, at, envs(left)).0;
      assert r.pool.reqs == ep.pool.reqs[..at] + ep.pool.reqs[at + 1..];
      FlushClean(r, left - 1, pick, envs);
    }
  }

  /** With more requests than the flush waits for, one survives it. */
  lemma {:induction false} FlushKeeps(ep: Endpoint, left: nat, pick: nat -> nat, envs: nat -> WorkEnv)
    requires left < |ep.pool.reqs| && OldestWait(ep, left)
    ensures Flush(ep, left, pick, envs).pool.reqs != []
    decreases left
  {
    hide Work;
    if left > 0 {
      var at := Next(ep, left, pick);
      WorkOldest(ep, left, at, envs(left));
      FlushKeeps(Work(ep, at, envs(left)).0, left - 1, pick, envs);
    }
  }

  const ALL_WELL: nat -> WorkEnv := (n: nat) => WorkEnv(true, true, Accepted)

  lemma {:induction false} FlushStalled(ep: Endpoint, left: nat, pick: nat -> nat, k: nat)
    requires left == |ep.pool.reqs| && OldestWait(ep, left) && k < left && Stalled(ep, ep.pool.reqs[k])
    ensures Flush(ep, left, pick, ALL_WELL).pool.reqs != []
    decreases left
  {
    hide Work, Flush, Next;
    FlushNext(ep, left, pick, ALL_WELL);
    var at := Next(ep, left, pick);
    WorkOldest(ep, left, at, ALL_WELL(left));
    var r := Work(ep, at, ALL_WELL(left)).0;
    if Stalled(ep, ep.pool.reqs[at]) {
      FlushKeeps(r, left - 1, pick, ALL_WELL);
    } else {
      assert r.pool.reqs == ep.pool.reqs[..at] + ep.pool.reqs[at + 1..];
      var next: nat := if k < at then k else k - 1;
      assert r.pool.reqs[next] == ep.pool.reqs[k];
      FlushStalled(r, left - 1, pick, next);
    }
  }

  /**
   * The driver's teardown empties the request list in every case exactly when no stalled IN
   * completion is waiting for its work item: such a work item submits a new URB during the flush.
   */
  lemma TeardownCompleteExactly(ep: Endpoint, pick: nat -> nat)
    ensures (forall envs: nat -> WorkEnv :: Teardown(ep, pick, envs).pool.reqs == []) <==>
            (forall i | 0 <= i < |ep.pool.reqs| :: !Stalled(ep, ep.pool.reqs[i]))
  {
    KillWaits(ep, 0);
    var killed := Kill(ep, 0);
    if forall i | 0 <= i < |ep.pool.reqs| :: !Stalled(ep, ep.pool.reqs[i]) {
      forall envs: nat -> WorkEnv
        ensures Teardown(ep, pick, envs).pool.reqs == []
      {
        FlushClean(killed, |killed.pool.reqs|, pick, envs);
      }
    } else {
      var k :| 0 <= k < |ep.pool.reqs| && Stalled(ep, ep.pool.reqs[k]);
      FlushStalled(killed, |killed.pool.reqs|, pick, k);
      assert Teardown(ep, pick, ALL_WELL).pool.reqs != [];
    }
  }

  lemma WorkOwned(ep: Endpoint, i: nat, env: WorkEnv)
    requires Owned(ep.pool) && Waiting(ep, i)
    ensures Owned(Work(ep, i, env).0.pool)
  {
    hide Owned, Send, Free, Alloc;
    FreeOwned(ep.pool, i);
    SendFacts(ep, [], env.submit);
    SendOwned(ep, [], env.submit);
    var again := Send(ep, [], env.submit).0;
    FreeOwned(again.pool, i + |again.pool.reqs| - |ep.pool.reqs|);
  }

  lemma SendOwned(ep: Endpoint, data: seq<byte>, s: Submit)
    requires Owned(ep.pool)
    ensures Owned(Send(ep, data, s).0.pool)
  {
    AllocOwned(ep.pool, data);
    FreeOwned(Alloc(ep.pool, data), 0);
  }

  lemma {:induction false} KillOwned(ep: Endpoint, k: nat)
    requires Owned(ep.pool) && k <= |ep.pool.reqs|
    ensures Owned(Kill(ep, k).pool)
    decreases |ep.pool.reqs| - k
  {
    if k < |ep.pool.reqs| {
      if Pending(ep, k) {
        SameIdsOwned(ep.pool, Complete(ep, k, -ENOENT, []).pool.reqs);
        KillOwned(Complete(ep, k, -ENOENT, []), k + 1);
      } else {
        KillOwned(ep, k + 1);
      }
    }
  }

  lemma {:induction false} FlushOwned(ep: Endpoint, left: nat, pick: nat -> nat, envs: nat -> WorkEnv)
    requires Owned(ep.pool) && left <= |ep.pool.reqs| && OldestWait(ep, left)
    ensures Owned(Flush(ep, left, pick, envs).pool)
    decreases left
  {
    hide *;
    if left == 0 {
      FlushDone(ep, pick, envs);
    } else {
      FlushNext(ep, left, pick, envs);
      var at := Next(ep, left, pick);
      WorkOwned(ep, at, envs(left));
      FlushOwned(Work(ep, at, envs(left)).0, left - 1, pick, envs);
    }
  }

  lemma OwnedTeardown(ep: Endpoint, pick: nat -> nat, envs: nat -> WorkEnv)
    requires Owned(ep.pool) && forall i | 0 <= i < |ep.pool.reqs| :: !Stalled(ep, ep.pool.reqs[i])
    ensures var r := Teardown(ep, pick, envs);
            r.pool.reqs == [] && multiset(r.pool.released) == multiset(UpTo(r.pool.next))
  {
    KillWaits(ep, 0);
    KillOwned(ep, 0);
    var killed := Kill(ep, 0);
    FlushClean(killed, |killed.pool.reqs|, pick, envs);
    FlushOwned(killed, |killed.pool.reqs|, pick, envs);
    assert RequestIds([]) == [];
  }

  /** What can happen to an endpoint while it is listed. */
  datatype Deed =
    | Submission(data: seq<byte>, s: Submit)
    | Completion(i: nat, status: int, received: seq<byte>)
    | WorkItem(i: nat, env: WorkEnv)

  predicate Possible(ep: Endpoint, d: Deed)
  {
    match d
    case Submission(_, _) => true
    case Completion(i, _, _) => Pending(ep, i)
    case WorkItem(i, _) => Waiting(ep, i)
  }

  function Do(ep: Endpoint, d: Deed): Endpoint
    requires Possible(ep, d)
  {
    match d
    case Submission(data, s) => Send(ep, data, s).0
    case Completion(i, status, received) => Complete(ep, i, status, received)
    case WorkItem(i, env) => Work(ep, i, env).0
  }

  predicate Lives(ep: Endpoint, life: seq<Deed>)
    decreases |life|
  {
    life == [] || (Possible(ep, life[0]) && Lives(Do(ep, life[0]), life[1..]))
  }

  function Live(ep: Endpoint, life: seq<Deed>): Endpoint
    requires Lives(ep, life)
    decreases |life|
  {
    if life == [] then ep else Live(Do(ep, life[0]), life[1..])
  }

  lemma {:induction false} LifeOwned(ep: Endpoint, life: seq<Deed>)
    requires Lives(ep, life) && Owned(ep.pool)
    ensures Owned(Live(ep, life).pool)
    decreases |life|
  {
    hide Owned;
    if life != [] {
      match life[0] {
        case Submission(data, s) => SendOwned(ep, data, s);
        case Completion(i, status, received) => SameIdsOwned(ep.pool, Complete(ep, i, status, received).pool.reqs);
        case WorkItem(i, env) => WorkOwned(ep, i, env);
      }
      LifeOwned(Do(ep, life[0]), life[1..]);
    }
  }

  /**
   * For every life of an endpoint since it was created that leaves no stall waiting, the teardown
   * empties the list and every request ever allocated has been released exactly once.
   */
  lemma TeardownReleases(dir: Dir, life: seq<Deed>, pick: nat -> nat, envs: nat -> WorkEnv)
    requires Lives(New(dir), life)
    requires var ep := Live(New(dir), life); forall i | 0 <= i < |ep.pool.reqs| :: !Stalled(ep, ep.pool.reqs[i])
    ensures var r := Teardown(Live(New(dir), life), pick, envs);
            r.pool.reqs == [] && multiset(r.pool.released) == multiset(UpTo(r.pool.next))
  {
    EmptyOwned();
    LifeOwned(New(dir), life);
    OwnedTeardown(Live(New(dir), life), pick, envs);
  }

  /** A stall is reached at once, and then the teardown leaves a request behind. */
  lemma StallIsReached(pick: nat -> nat)
    ensures var life := [Submission([], Accepted), Completion(0, -EPIPE, [])];
            Lives(New(In), life) && Teardown(Live(New(In), life), pick, ALL_WELL).pool.reqs != []
  {
    var a, b := Submission([], Accepted), Completion(0, -EPIPE, []);
    var life := [a, b];
    SendFacts(New(In), [], Accepted);
    var ep := Do(Do(New(In), a), b);
    assert life[1..] == [b] && [b][1..] == [];
    assert Live(Do(New(In), a), [b]) == ep;
    assert Stalled(ep, ep.pool.reqs[0]);
    KillWaits(ep, 0);
    var killed := Kill(ep, 0);
    FlushStalled(killed, |killed.pool.reqs|, pick, 0);
  }

  // ------------------------------------------------------------------ the class

  /** driver_endpoint_t with its request list. */
  class DriverEndpoint {
    const dir: Dir
    var reqs: seq<Request>
    var next: nat
    var released: seq<nat>
    var log: seq<seq<byte>>

    ghost function View(): Endpoint
      reads this
    {
      Endpoint(dir, Pool(reqs, next, released), log)
    }

    /** Every request ever allocated is listed or was released, exactly once. */
    ghost predicate Valid()
      reads this
    {
      Owned(View().pool)
    }

    constructor (dir: Dir)
      ensures Valid() && this.dir == dir && View() == New(dir)
    {
      EmptyOwned();
      this.dir := dir;
      reqs, next, released, log := [], 0, [], [];
    }

    /** free_driver_request */
    method FreeRequest(i: nat)
      requires i < |reqs|
      modifies this
      ensures View() == old(View()).(pool := Free(old(View()).pool, i))
    {
      released := released + [reqs[i].id];
      reqs := reqs[..i] + reqs[i + 1..];
    }

    /** ep_driver_send_usb */
    method SendUsb(data: seq<byte>, s: Submit) returns (ok: bool)
      modifies this
      ensures (View(), ok) == Send(old(View()), data, s)
      ensures ok == (s == Accepted) && log == old(log) + if ok && dir == Out then [data] else []
      ensures reqs == (if ok then [Request(old(next), data, None)] else []) + old(reqs)
      ensures next == old(next) + if s == NoMemory then 0 else 1
      ensures released == old(released) + if s == NoMemory || ok then [] else [old(next)]
      ensures old(Valid()) ==> Valid()
    {
      if Valid() {
        SendOwned(View(), data, s);
      }
      if s == NoMemory {
        return false;
      }
      reqs := [Request(next, data, None)] + reqs;
      next := next + 1;
      if s == Refused {
        FreeRequest(0);
        return false;
      }
      if dir == Out {
        log := log + [data];
      }
      ok := true;
    }

    /** driver_recv_usb */
    method OnComplete(i: nat, status: int, received: seq<byte>)
      requires Pending(View(), i)
      modifies this
      ensures View() == Complete(old(View()), i, status, received)
      ensures var r := old(reqs[i]).(data := if dir == In &&
                status == 0 then received else old(reqs[i].data), status := Some(status));
              reqs == old(reqs)[i := r] && released == old(released) && log == old(log) + if dir == In &&
                status == 0 then [received] else []
      ensures old(Valid()) ==> Valid()
    {
      if Valid() {
        SameIdsOwned(View().pool, Complete(View(), i, status, received).pool.reqs);
      }
      if dir == In && status == 0 {
        reqs := reqs[i := reqs[i].(data := received, status := Some(status))];
        log := log + [received];
      } else {
        reqs := reqs[i := reqs[i].(status := Some(status))];
      }
    }

    /** recv, the workqueue function. */
    method RunWork(i: nat, env: WorkEnv) returns (sent: Option<G.Packet>)
      requires Waiting(View(), i)
      modifies this
      ensures (View(), sent) == Work(old(View()), i, env)
      ensures sent == if dir == In && old(reqs[i].status) == Some(0) &&
                env.send then Some(G.Data(old(reqs[i].data))) else None
      ensures var again := if dir == In && old(reqs[i].status) == Some(-EPIPE) && env.submit == Accepted
                           then [Request(old(next), [], None)] else [];
              reqs == again + (old(reqs)[..i] + old(reqs)[i + 1..])
      ensures old(Valid()) ==> Valid()
    {
      if Valid() {
        WorkOwned(View(), i, env);
      }
      WorkAt(View(), i, env);
      var req := reqs[i];
      var at := i;
      sent := None;
      if req.status.value == 0 {
        if dir == In && env.send {
          sent := Some(G.Data(req.data));
        }
      } else if req.status.value == -EPIPE {
        if dir == In {
          ghost var ep := View();
          var length := |reqs|;
          var ok := SendUsb([], env.submit);
          SendFacts(ep, [], env.submit);
          at := i + |reqs| - length;
        }
      }
      FreeRequest(at);
    }

    /** ep_driver_recv_userland */
    method OnMessage(p: G.Packet, s: Submit) returns (ok: bool)
      modifies this
      ensures (View(), ok) == RecvUserland(old(View()), p, s)
      ensures ok == (s == Accepted)
      ensures reqs == (if ok then [Request(old(next), if p.Data? then p.payload else [], None)] else []) + old(reqs)
      ensures old(Valid()) ==> Valid()
    {
      match p {
        case Ack(_) => ok := SendUsb([], s);
        case Data(payload) => ok := SendUsb(payload, s);
      }
    }

    /** The loop over reqlist with cancel_driver_request. */
    method KillAll()
      modifies this
      ensures View() == Kill(old(View()), 0)
    {
      ghost var ep := View();
      for k := 0 to |reqs|
        invariant |reqs| == |ep.pool.reqs| && Kill(View(), k) == Kill(ep, 0)
      {
        if reqs[k].status.None? {
          OnComplete(k, -ENOENT, []);
        }
      }
    }

    method FlushOne(left: nat, pick: nat -> nat, envs: nat -> WorkEnv)
      requires 0 < left <= |View().pool.reqs| && OldestWait(View(), left)
      modifies this
      ensures View() == Work(old(View()), Next(old(View()), left, pick), envs(left)).0
    {
      var sent := RunWork(Next(Endpoint(dir, Pool(reqs, next, released), log), left, pick), envs(left));
    }

    /** flush_workqueue inside free_endpoint, with `left` work items to go. */
    method FlushWork(left: nat, pick: nat -> nat, envs: nat -> WorkEnv)
      requires left <= |View().pool.reqs| && OldestWait(View(), left)
      modifies this
      ensures View() == Flush(old(View()), left, pick, envs)
      decreases left
    {
      ghost var ep := View();
      hide *;
      if left == 0 {
        FlushDone(ep, pick, envs);
      } else {
        FlushNext(ep, left, pick, envs);
        FlushOne(left, pick, envs);
        FlushWork(left - 1, pick, envs);
      }
    }

    /** free_driver_endpoint: kill every URB, then flush the workqueue. */
    method FreeEndpoint(pick: nat -> nat, envs: nat -> WorkEnv)
      modifies this
      ensures View() == Teardown(old(View()), pick, envs)
      ensures old(Valid() && forall i | 0 <= i < |reqs| :: !Stalled(View(), reqs[i])) ==>
                reqs == [] && multiset(released) == multiset(UpTo(next))
    {
      if Valid() && forall i | 0 <= i < |reqs| :: !Stalled(View(), reqs[i]) {
        OwnedTeardown(View(), pick, envs);
      }
      KillWaits(View(), 0);
      KillAll();
      StartFlush(View());
      FlushWork(|reqs|, pick, envs);
    }
  }
}
