/**
 * The per-endpoint request lists of both ends: allocation puts a request in front of the list,
 * freeing takes it out. `released` records every free, in order.
 */
module Requests {
  import opened Bytes

  /**
   * A request. `status` is None while the controller owns it, and the completion status once its
   * completion has run and its work item waits.
   */
  datatype Request = Request(id: nat, data: seq<byte>, status: Option<int>)

  datatype Pool = Pool(reqs: seq<Request>, next: nat, released: seq<nat>)

  const EMPTY := Pool([], 0, [])

  /** What a submission meets: allocation failure, refusal by the controller, or success. */
  datatype Submit = NoMemory | Refused | Accepted

  /** What a work item meets: memory for an acknowledgement, the transport, and a resubmission. */
  datatype WorkEnv = WorkEnv(memory: bool, send: bool, submit: Submit)

  function Alloc(p: Pool, data: seq<byte>): (r: Pool)
  {
    Pool([Request(p.next, data, None)] + p.reqs, p.next + 1, p.released)
  }

  function Free(p: Pool, i: nat): (r: Pool)
    requires i < |p.reqs|
    ensures |r.reqs| == |p.reqs| - 1
  {
    Pool(p.reqs[..i] + p.reqs[i + 1..], p.next, p.released + [p.reqs[i].id])
  }

  function RequestIds(reqs: seq<Request>): (ids: seq<nat>)
    ensures |ids| == |reqs|
  {
    seq(|reqs|, i requires 0 <= i < |reqs| => reqs[i].id)
  }

  function UpTo(n: nat): seq<nat>
  {
    seq(n, i => i)
  }

  /** Every request ever allocated is either still listed or has been released, exactly once. */
  ghost predicate Owned(p: Pool)
  {
    multiset(RequestIds(p.reqs)) + multiset(p.released) == multiset(UpTo(p.next))
  }

  lemma AllocOwned(p: Pool, data: seq<byte>)
    requires Owned(p)
    ensures Owned(Alloc(p, data))
  {
    var r := Alloc(p, data);
    assert RequestIds(r.reqs) == [p.next] + RequestIds(p.reqs);
    assert UpTo(r.next) == UpTo(p.next) + [p.next];
  }

  lemma FreeOwned(p: Pool, i: nat)
    requires Owned(p) && i < |p.reqs|
    ensures Owned(Free(p, i))
  {
    var r, ids := Free(p, i), RequestIds(p.reqs);
    assert ids == ids[..i] + [ids[i]] + ids[i + 1..];
    assert RequestIds(r.reqs) == ids[..i] + ids[i + 1..];
  }

  lemma EmptyOwned()
    ensures Owned(EMPTY)
  {
    assert RequestIds([]) == [] && UpTo(0) == [];
  }

  /** Only the list's order matters for ownership, so status changes do not affect it. */
  lemma SameIdsOwned(p: Pool, reqs: seq<Request>)
    requires Owned(p) && |reqs| == |p.reqs| && forall i | 0 <= i < |reqs| :: reqs[i].id == p.reqs[i].id
    ensures Owned(p.(reqs := reqs))
  {
    assert RequestIds(reqs) == RequestIds(p.reqs);
  }

  predicate Drained(p: Pool)
  {
    forall i | 0 <= i < |p.reqs| :: p.reqs[i].status.Some?
  }
}
