/** Bytes and the little-endian words of the 32-bit ARM layout. */
module Bytes {

  type byte = b: int | 0 <= b < 256

  const WORD := 0x1_0000_0000

  type uint32 = w: int | 0 <= w < WORD

  datatype Option<+T> = None | Some(value: T)

  /** A 16-bit little-endian field such as wLength. */
  function Word16(lo: byte, hi: byte): (w: nat)
    ensures w < 0x1_0000
  {
    var l: int, h: int := lo, hi;
    l + 256 * h
  }

  function Encode32(w: uint32): (s: seq<byte>)
    ensures |s| == 4
  {
    [w % 256, w / 0x100 % 256, w / 0x1_0000 % 256, w / 0x100_0000]
  }

  function Decode32(s: seq<byte>): (w: uint32)
    requires |s| == 4
  {
    var b0: int, b1: int, b2: int, b3: int := s[0], s[1], s[2], s[3];
    b0 + 0x100 * b1 + 0x1_0000 * b2 + 0x100_0000 * b3
  }

  lemma DecodeEncode32(w: uint32)
    ensures Decode32(Encode32(w)) == w
  {
    var a := w / 0x100;
    assert w == 0x100 * a + w % 256;
    assert w / 0x1_0000 == a / 0x100;
    assert a == 0x100 * (a / 0x100) + a % 256;
    var b := a / 0x100;
    assert w / 0x100_0000 == b / 0x100;
    assert b == 0x100 * (b / 0x100) + b % 256;
  }

  lemma EncodeDecode32(s: seq<byte>)
    requires |s| == 4
    ensures Encode32(Decode32(s)) == s
  {
    var w := Decode32(s);
    assert w == s[0] as int + 0x100 * (s[1] as int + 0x100 * (s[2] as int + 0x100 * s[3] as int));
    assert w / 0x100 == s[1] as int + 0x100 * (s[2] as int + 0x100 * s[3] as int);
    assert w / 0x1_0000 == s[2] as int + 0x100 * s[3] as int;
    assert w / 0x100_0000 == s[3] as int;
  }

  lemma SliceOfSlice<T>(s: seq<T>, lo: nat, hi: nat, a: nat, b: nat)
    requires lo <= hi <= |s| && a <= b <= hi - lo
    ensures s[lo..hi][a..b] == s[lo + a..lo + b]
  {
    var l, r := s[lo..hi][a..b], s[lo + a..lo + b];
    assert |l| == |r| && forall i | 0 <= i < |l| :: l[i] == s[lo + a + i] == r[i];
  }

  function Drop<T>(s: seq<T>, i: nat): (r: seq<T>)
    requires i < |s|
    ensures |r| == |s| - 1
  {
    s[..i] + s[i + 1..]
  }

  lemma SplitAt<T>(s: seq<T>, i: nat)
    requires i < |s|
    ensures s == s[..i] + ([s[i]] + s[i + 1..]) && Drop(s, i) == s[..i] + s[i + 1..]
  {
  }

  /** The concatenation of a list of buffers. */
  function Concat<T>(parts: seq<seq<T>>): (s: seq<T>)
  {
    if parts == [] then [] else Concat(parts[..|parts| - 1]) + parts[|parts| - 1]
  }

  lemma {:induction false} ConcatAppend<T>(a: seq<seq<T>>, b: seq<seq<T>>)
    ensures Concat(a + b) == Concat(a) + Concat(b)
  {
    if b == [] {
      assert a + b == a;
    } else {
      var init := b[..|b| - 1];
      assert (a + b)[..|a + b| - 1] == a + init;
      ConcatAppend(a, init);
    }
  }

  lemma ConcatOne<T>(x: seq<T>)
    ensures Concat([x]) == x
  {
    assert [x][..0] == [];
    assert Concat<T>([]) == [];
  }

  lemma ConcatFront<T>(parts: seq<seq<T>>)
    requires parts != []
    ensures Concat(parts) == parts[0] + Concat(parts[1..])
  {
    ConcatOne(parts[0]);
    ConcatAppend([parts[0]], parts[1..]);
    assert [parts[0]] + parts[1..] == parts;
  }
}
