/** Request lists in memory: every request owns one message, and no two share their memory. */
module HeldRequests {
  import opened Bytes
  import opened Messages

  /** A request: its message, and the fields beside it. */
  datatype Held<T> = Held(msg: Message, fields: T)

  ghost function MemoryOf<T>(reqs: seq<Held<T>>): set<object>
  {
    set r | r in reqs :: r.msg.mem
  }

  /** The list stands for `v`: `holds` ties the message's bytes and the fields to each element. */
  ghost predicate AllHold<T, V>(reqs: seq<Held<T>>, v: seq<V>, holds: (seq<byte>, T, V) -> bool)
    reads MemoryOf(reqs)
  {
    && |reqs| == |v|
    && (forall i | 0 <= i < |reqs| :: holds(reqs[i].msg.mem[..], reqs[i].fields, v[i]))
    && (forall i, j | 0 <= i < j < |reqs| :: reqs[i].msg.mem != reqs[j].msg.mem)
  }

  lemma HoldsAt<T, V>(reqs: seq<Held<T>>, v: seq<V>, holds: (seq<byte>, T, V) -> bool, i: nat)
    requires AllHold(reqs, v, holds) && i < |reqs|
    ensures |reqs| == |v| && holds(reqs[i].msg.mem[..], reqs[i].fields, v[i]) && reqs[i].msg.mem in MemoryOf(reqs)
  {
  }

  lemma DropHolds<T, V>(reqs: seq<Held<T>>, v: seq<V>, holds: (seq<byte>, T, V) -> bool, i: nat)
    requires AllHold(reqs, v, holds) && i < |reqs|
    ensures |reqs| == |v| && AllHold(Drop(reqs, i), Drop(v, i), holds)
    ensures MemoryOf(Drop(reqs, i)) <= MemoryOf(reqs) && reqs[i].msg.mem !in MemoryOf(Drop(reqs, i))
  {
    var rest := Drop(reqs, i);
    forall k | 0 <= k < |rest|
      ensures rest[k] == reqs[if k < i then k else k + 1] && Drop(v, i)[k] == v[if k < i then k else k + 1]
    {
    }
    forall j, k | 0 <= j < k < |rest|
      ensures rest[j].msg.mem != rest[k].msg.mem
    {
      assert rest[j] == reqs[if j < i then j else j + 1] && rest[k] == reqs[if k < i then k else k + 1];
    }
    forall q | q in rest
      ensures q in reqs && q.msg.mem != reqs[i].msg.mem
    {
      var k :| 0 <= k < |rest| && rest[k] == q;
      assert q == reqs[if k < i then k else k + 1];
    }
  }

  lemma FrontHolds<T, V>(r: Held<T>, x: V, reqs: seq<Held<T>>, v: seq<V>, holds: (seq<byte>, T, V) -> bool)
    requires AllHold(reqs, v, holds) && holds(r.msg.mem[..], r.fields, x) && r.msg.mem !in MemoryOf(reqs)
    ensures AllHold([r] + reqs, [x] + v, holds) && MemoryOf([r] + reqs) == {r.msg.mem} + MemoryOf(reqs)
  {
    MemoryFront(r, reqs);
    hide MemoryOf;
  }

  lemma MemoryFront<T>(r: Held<T>, reqs: seq<Held<T>>)
    ensures MemoryOf([r] + reqs) == {r.msg.mem} + MemoryOf(reqs)
    ensures forall i | 0 <= i < |reqs| :: reqs[i].msg.mem in MemoryOf(reqs)
  {
    assert forall q :: q in [r] + reqs <==> q == r || q in reqs;
  }

  /** Putting a changed request back in the place of the one it was. */
  lemma PutBack<T, V>(reqs: seq<Held<T>>, v: seq<V>, holds: (seq<byte>, T, V) -> bool, i: nat, r: Held<T>, x: V)
    requires i < |reqs| == |v| && AllHold(Drop(reqs, i), Drop(v, i), holds)
    requires holds(r.msg.mem[..], r.fields, x) && r.msg.mem !in MemoryOf(Drop(reqs, i))
    ensures AllHold(reqs[i := r], v[i := x], holds)
    ensures MemoryOf(reqs[i := r]) == MemoryOf(Drop(reqs, i)) + {r.msg.mem}
  {
    var rest, all := Drop(reqs, i), reqs[i := r];
    forall k | 0 <= k < |reqs| && k != i
      ensures all[k] == rest[if k < i then k else k - 1] && v[i := x][k] == Drop(v, i)[if k < i then k else k - 1]
      ensures all[k] in rest
    {
    }
    forall q | q in rest
      ensures q in all
    {
      var k :| 0 <= k < |rest| && rest[k] == q;
      assert all[if k < i then k else k + 1] == q;
    }
    assert all[i] == r;
    forall j, k | 0 <= j < k < |all|
      ensures all[j].msg.mem != all[k].msg.mem
    {
      if j != i && k != i {
        assert rest[if j < i then j else j - 1] == all[j] && rest[if k < i then k else k - 1] == all[k];
      }
    }
  }
}
