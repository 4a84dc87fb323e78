/** The endpoint lists of both ends (common.c): newest first, searched by identity. */
module EndpointList {
  import opened Bytes
  import opened Descriptors

  predicate NoDup(list: seq<EpId>)
  {
    forall i, j | 0 <= i < j < |list| :: list[i] != list[j]
  }

  function Elements(list: seq<EpId>): set<EpId>
  {
    set id | id in list
  }

  /** find_endpoint followed by list_del: the first entry with this identity goes. */
  function Remove(list: seq<EpId>, id: EpId): (r: seq<EpId>)
  {
    if list == [] then []
    else if list[0] == id then list[1..]
    else [list[0]] + Remove(list[1..], id)
  }

  function RemoveAll(list: seq<EpId>, ids: seq<EpId>): (r: seq<EpId>)
  {
    if ids == [] then list else Remove(RemoveAll(list, ids[..|ids| - 1]), ids[|ids| - 1])
  }

  /** The list with every entry of `gone` left out. */
  function Without(list: seq<EpId>, gone: set<EpId>): (r: seq<EpId>)
    ensures forall id :: id in r <==> id in list && id !in gone
  {
    if list == [] then []
    else
      assert list == [list[0]] + list[1..];
      if list[0] in gone then Without(list[1..], gone)
      else [list[0]] + Without(list[1..], gone)
  }

  function Reverse(list: seq<EpId>): (r: seq<EpId>)
    ensures |r| == |list|
    ensures forall id :: id in r <==> id in list
  {
    if list == [] then []
    else
      assert list == [list[0]] + list[1..];
      Reverse(list[1..]) + [list[0]]
  }

  lemma {:induction false} WithoutNoDup(list: seq<EpId>, gone: set<EpId>)
    requires NoDup(list)
    ensures NoDup(Without(list, gone))
  {
    if list != [] {
      WithoutNoDup(list[1..], gone);
      assert list[0] !in list[1..];
    }
  }

  lemma {:induction false} RemoveIsWithout(list: seq<EpId>, id: EpId)
    requires NoDup(list)
    ensures Remove(list, id) == Without(list, {id})
  {
    if list != [] {
      if list[0] == id {
        assert id !in list[1..];
        WithoutAbsent(list[1..], {id});
      } else {
        RemoveIsWithout(list[1..], id);
      }
    }
  }

  lemma {:induction false} WithoutAbsent(list: seq<EpId>, gone: set<EpId>)
    requires forall id | id in list :: id !in gone
    ensures Without(list, gone) == list
  {
    if list != [] {
      WithoutAbsent(list[1..], gone);
    }
  }

  lemma {:induction false} WithoutTwice(list: seq<EpId>, a: set<EpId>, b: set<EpId>)
    ensures Without(Without(list, a), b) == Without(list, a + b)
  {
    if list != [] {
      WithoutTwice(list[1..], a, b);
      if list[0] !in a {
        assert Without(list, a)[1..] == Without(list[1..], a);
      }
    }
  }

  /** Freeing one endpoint after the other leaves exactly the others, in their order. */
  lemma {:induction false} RemoveAllIsWithout(list: seq<EpId>, ids: seq<EpId>)
    requires NoDup(list)
    ensures RemoveAll(list, ids) == Without(list, Elements(ids))
  {
    if ids == [] {
      assert Elements(ids) == {};
      WithoutAbsent(list, {});
    } else {
      var init, last := ids[..|ids| - 1], ids[|ids| - 1];
      RemoveAllIsWithout(list, init);
      WithoutNoDup(list, Elements(init));
      RemoveIsWithout(Without(list, Elements(init)), last);
      WithoutTwice(list, Elements(init), {last});
      assert ids == init + [last];
      assert forall id :: id in ids <==> id in init || id == last;
      assert Elements(ids) == Elements(init) + {last};
    }
  }

  /** Prepending a run of endpoints keeps the list free of duplicates exactly when they are new. */
  lemma {:induction false} PrependNoDup(ids: seq<EpId>, list: seq<EpId>)
    requires NoDup(ids) && NoDup(list)
    ensures NoDup(Reverse(ids) + list) <==> Elements(ids) !! Elements(list)
    ensures Elements(Reverse(ids) + list) == Elements(ids) + Elements(list)
  {
    ReverseNoDup(ids);
    var r := Reverse(ids);
    var all := r + list;
    if id :| id in Elements(ids) && id in Elements(list) {
      var i :| 0 <= i < |r| && r[i] == id;
      var j :| 0 <= j < |list| && list[j] == id;
      assert all[i] == all[|r| + j];
    } else {
      assert forall i, j | 0 <= i < j < |all| :: all[i] != all[j] by {
        forall i, j | 0 <= i < j < |all| ensures all[i] != all[j] {
          if i < |r| <= j {
            assert all[i] in r && all[j] in list;
            assert all[i] in Elements(ids);
          }
        }
      }
    }
  }

  lemma {:induction false} ReverseNoDup(ids: seq<EpId>)
    requires NoDup(ids)
    ensures NoDup(Reverse(ids))
  {
    if ids != [] {
      ReverseNoDup(ids[1..]);
      assert ids[0] !in ids[1..];
    }
  }

  lemma {:induction false} ReverseAppend(a: seq<EpId>, b: seq<EpId>)
    ensures Reverse(a + b) == Reverse(b) + Reverse(a)
  {
    if a == [] {
      assert a + b == b;
    } else {
      assert (a + b)[1..] == a[1..] + b;
      ReverseAppend(a[1..], b);
    }
  }

  /** find_endpoint */
  method FindEndpoint(list: seq<EpId>, id: EpId) returns (at: Option<nat>)
    ensures at.Some? ==> at.value < |list| && list[at.value] == id && id !in list[..at.value]
    ensures at.None? ==> id !in list
  {
    for i := 0 to |list|
      invariant id !in list[..i]
    {
      if id.num == list[i].num && id.kind == list[i].kind && id.dir == list[i].dir {
        return Some(i);
      }
    }
    at := None;
  }

  lemma {:induction false} RemoveAt(list: seq<EpId>, id: EpId, at: nat)
    requires at < |list| && list[at] == id && id !in list[..at]
    ensures Remove(list, id) == list[..at] + list[at + 1..]
  {
    if at > 0 {
      assert list[0] == list[..at][0];
      assert list[1..][..at - 1] == list[..at][1..];
      RemoveAt(list[1..], id, at - 1);
      assert list[1..][at..] == list[at + 1..];
      assert list[..at] == [list[0]] + list[1..][..at - 1];
    }
  }

  lemma {:induction false} RemoveAbsent(list: seq<EpId>, id: EpId)
    requires id !in list
    ensures Remove(list, id) == list
  {
    if list != [] {
      RemoveAbsent(list[1..], id);
    }
  }

  lemma ReverseBoth(a: seq<EpId>, b: seq<EpId>, list: seq<EpId>)
    ensures Reverse(a + b) + list == Reverse(b) + (Reverse(a) + list)
  {
    ReverseAppend(a, b);
  }
}
