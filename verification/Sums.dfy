/** Sums over lists, for counting places and bounding steps. */
module Sums {
  import opened Bytes

  function Add<T>(s: seq<T>, x: Option<T>): seq<T>
  {
    if x.Some? then s + [x.value] else s
  }

  function Sum<T>(s: seq<T>, weight: T -> nat): nat
  {
    if s == [] then 0 else Sum(s[..|s| - 1], weight) + weight(s[|s| - 1])
  }

  lemma {:induction false} SumConcat<T>(a: seq<T>, b: seq<T>, weight: T -> nat)
    ensures Sum(a + b, weight) == Sum(a, weight) + Sum(b, weight)
  {
    if b == [] {
      assert a + b == a;
    } else {
      assert (a + b)[..|a + b| - 1] == a + b[..|b| - 1];
      SumConcat(a, b[..|b| - 1], weight);
    }
  }

  lemma SumAdd<T>(s: seq<T>, x: Option<T>, weight: T -> nat)
    ensures Sum(Add(s, x), weight) == Sum(s, weight) + if x.Some? then weight(x.value) else 0
  {
    if x.Some? {
      assert (s + [x.value])[..|s|] == s;
    }
  }

  lemma SumFront<T>(x: T, s: seq<T>, weight: T -> nat)
    ensures Sum([x] + s, weight) == weight(x) + Sum(s, weight)
  {
    SumConcat([x], s, weight);
    assert [x][..0] == [];
    assert Sum<T>([], weight) == 0;
  }

  lemma SumAround<T>(a: seq<T>, x: T, b: seq<T>, weight: T -> nat)
    ensures Sum(a + ([x] + b), weight) == Sum(a + b, weight) + weight(x)
  {
    hide Sum;
    SumConcat(a, [x] + b, weight);
    SumFront(x, b, weight);
    SumConcat(a, b, weight);
  }

  lemma SumDrop<T>(s: seq<T>, i: nat, weight: T -> nat)
    requires i < |s|
    ensures Sum(s, weight) == Sum(Drop(s, i), weight) + weight(s[i])
  {
    hide Sum, Drop;
    SplitAt(s, i);
    SumAround(s[..i], s[i], s[i + 1..], weight);
  }

  lemma SumReplace<T>(s: seq<T>, i: nat, x: T, weight: T -> nat)
    requires i < |s|
    ensures Sum(s[i := x], weight) + weight(s[i]) == Sum(s, weight) + weight(x)
  {
    SumDrop(s, i, weight);
    SumDrop(s[i := x], i, weight);
    assert Drop(s[i := x], i) == Drop(s, i);
  }

  /** What a single element contributes is in the sum, and so are any two. */
  lemma SumHas<T>(s: seq<T>, i: nat, j: nat, weight: T -> nat)
    requires i < |s| && j < |s|
    ensures weight(s[i]) <= Sum(s, weight)
    ensures i != j ==> weight(s[i]) + weight(s[j]) <= Sum(s, weight)
  {
    SumDrop(s, i, weight);
    if i != j {
      var at := if j < i then j else j - 1;
      assert Drop(s, i)[at] == s[j];
      SumDrop(Drop(s, i), at, weight);
    }
  }

  /** A positive sum has an element to which it is due. */
  lemma {:induction false} SumDue<T>(s: seq<T>, weight: T -> nat) returns (i: nat)
    requires Sum(s, weight) > 0
    ensures i < |s| && weight(s[i]) > 0
  {
    var last := |s| - 1;
    i := last;
    if weight(s[last]) == 0 {
      i := SumDue(s[..last], weight);
    }
  }
}
