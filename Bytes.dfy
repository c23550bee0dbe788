/**
 * Unsigned bytes, big-endian 32-bit words, and object ids with their
 * unsigned lexicographic order.
 */
module Bytes {

  /** A byte as Java code sees it after masking with 0xff. */
  type byte = x: int | 0 <= x < 256

  const ID_LENGTH: nat := 20

  /** A 20-byte object id (Constants.OBJECT_ID_LENGTH). */
  type ObjectId = s: seq<byte> | |s| == ID_LENGTH witness seq(20, _ => 0)

  /** The unsigned big-endian 32-bit word at `at`. */
  function Be32(s: seq<byte>, at: nat): (r: nat)
    requires at + 4 <= |s|
    ensures r < 0x1_0000_0000
  {
    (s[at] as int) * 0x100_0000 + (s[at + 1] as int) * 0x1_0000 + (s[at + 2] as int) * 0x100 + s[at + 3]
  }

  /** The four bytes that store `v` big-endian. */
  function EncodeBe32(v: nat): (r: seq<byte>)
    requires v < 0x1_0000_0000
    ensures |r| == 4
  {
    [v / 0x100_0000, (v / 0x1_0000) % 0x100, (v / 0x100) % 0x100, v % 0x100]
  }

  lemma Be32RoundTrip(prefix: seq<byte>, v: nat, rest: seq<byte>)
    requires v < 0x1_0000_0000
    ensures Be32(prefix + EncodeBe32(v) + rest, |prefix|) == v
  {
    var s, n := prefix + EncodeBe32(v) + rest, |prefix|;
    var e := EncodeBe32(v);
    assert s[n] == e[0] && s[n + 1] == e[1] && s[n + 2] == e[2] && s[n + 3] == e[3];
    Be32OfEncoding(v);
  }

  /** The four bytes of `v`, weighted by their place, add up to `v`. */
  lemma Be32OfEncoding(v: nat)
    requires v < 0x1_0000_0000
    ensures Be32(EncodeBe32(v), 0) == v
  {
    var q1, q2, q3 := v / 0x100, v / 0x1_0000, v / 0x100_0000;
    assert v == q1 * 0x100 + v % 0x100;
    assert q1 == q2 * 0x100 + q1 % 0x100 by {
      assert q2 == q1 / 0x100;
    }
    assert q2 == q3 * 0x100 + q2 % 0x100 by {
      assert q3 == q2 / 0x100;
    }
  }

  /**
   * Unsigned lexicographic comparison of two equally long byte strings:
   * negative, zero or positive as `a` sorts before, equal to or after `b`.
   */
  function Compare(a: seq<byte>, b: seq<byte>): (r: int)
    requires |a| == |b|
    ensures -1 <= r <= 1
    decreases |a|
  {
    if a == [] then 0
    else if a[0] < b[0] then -1
    else if a[0] > b[0] then 1
    else Compare(a[1..], b[1..])
  }

  lemma {:induction false} CompareZero(a: seq<byte>, b: seq<byte>)
    requires |a| == |b|
    ensures Compare(a, b) == 0 <==> a == b
    decreases |a|
  {
    if a != [] {
      CompareZero(a[1..], b[1..]);
      if a[0] == b[0] && a[1..] == b[1..] {
        assert a == [a[0]] + a[1..] && b == [b[0]] + b[1..];
      }
    }
  }

  lemma {:induction false} CompareAntisymmetric(a: seq<byte>, b: seq<byte>)
    requires |a| == |b|
    ensures Compare(a, b) == -Compare(b, a)
    decreases |a|
  {
    if a != [] && a[0] == b[0] {
      CompareAntisymmetric(a[1..], b[1..]);
    }
  }

  lemma {:induction false} CompareTransitive(a: seq<byte>, b: seq<byte>, c: seq<byte>)
    requires |a| == |b| == |c|
    requires Compare(a, b) < 0 && Compare(b, c) < 0
    ensures Compare(a, c) < 0
    decreases |a|
  {
    if a[0] == b[0] && b[0] == c[0] {
      CompareTransitive(a[1..], b[1..], c[1..]);
    }
  }
}
