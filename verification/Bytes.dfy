/** Bytes on the wire and the pack/unpack helpers of both endiannesses. */
module Bytes {

  type Byte = n: nat | n < 0x100
  type U16 = n: nat | n < 0x1_0000
  type U32 = n: nat | n < 0x1_0000_0000
  type U64 = n: nat | n < 0x1_0000_0000_0000_0000

  // A 32-bit float as it travels: its bit pattern.
  type F32 = U32

  datatype Option<+T> = None | Some(value: T)

  // The values there are, in order.
  function Present<T>(xs: seq<Option<T>>): seq<T>
    decreases |xs|
  {
    if xs == [] then [] else (match xs[0] case None => [] case Some(x) => [x]) + Present(xs[1..])
  }

  lemma {:induction false} PresentAdds<T>(a: seq<Option<T>>, b: seq<Option<T>>)
    ensures Present(a + b) == Present(a) + Present(b)
    decreases |a|
  {
    if a == [] {
      assert a + b == b;
    } else {
      assert (a + b)[1..] == a[1..] + b;
      PresentAdds(a[1..], b);
    }
  }

  function Zeros(n: nat): (z: seq<Byte>)
    ensures |z| == n && forall i :: 0 <= i < n ==> z[i] == 0
  {
    seq(n, _ => 0)
  }

  // ----- Unpacking at an offset -----

  function UnpackBe32(p: seq<Byte>, at: nat): (v: U32)
    requires at + 4 <= |p|
  {
    var a: nat, b: nat, c: nat, d: nat := p[at], p[at + 1], p[at + 2], p[at + 3];
    a * 0x100_0000 + b * 0x1_0000 + c * 0x100 + d
  }

  function UnpackBe64(p: seq<Byte>, at: nat): (v: U64)
    requires at + 8 <= |p|
  {
    UnpackBe32(p, at) * 0x1_0000_0000 + UnpackBe32(p, at + 4)
  }

  function UnpackLe16(p: seq<Byte>, at: nat): (v: U16)
    requires at + 2 <= |p|
  {
    var a: nat, b: nat := p[at], p[at + 1];
    a + b * 0x100
  }

  function UnpackLe32(p: seq<Byte>, at: nat): (v: U32)
    requires at + 4 <= |p|
  {
    var a: nat, b: nat, c: nat, d: nat := p[at], p[at + 1], p[at + 2], p[at + 3];
    a + b * 0x100 + c * 0x1_0000 + d * 0x100_0000
  }

  function UnpackLe64(p: seq<Byte>, at: nat): (v: U64)
    requires at + 8 <= |p|
  {
    UnpackLe32(p, at) + UnpackLe32(p, at + 4) * 0x1_0000_0000
  }

  // ----- Packing -----

  function PackBe32(v: U32): (p: seq<Byte>)
    ensures |p| == 4
  {
    [v / 0x100_0000, v / 0x1_0000 % 0x100, v / 0x100 % 0x100, v % 0x100]
  }

  function PackBe64(v: U64): (p: seq<Byte>)
    ensures |p| == 8
  {
    PackBe32(v / 0x1_0000_0000) + PackBe32(v % 0x1_0000_0000)
  }

  function PackLe16(v: U16): (p: seq<Byte>)
    ensures |p| == 2
  {
    [v % 0x100, v / 0x100]
  }

  function PackLe32(v: U32): (p: seq<Byte>)
    ensures |p| == 4
  {
    [v % 0x100, v / 0x100 % 0x100, v / 0x1_0000 % 0x100, v / 0x100_0000]
  }

  function PackLe64(v: U64): (p: seq<Byte>)
    ensures |p| == 8
  {
    PackLe32(v % 0x1_0000_0000) + PackLe32(v / 0x1_0000_0000)
  }

  // ----- Round trips, in the middle of any buffer -----

  // Whether `field` sits in `p` at offset `at`.
  ghost predicate Holds(p: seq<Byte>, at: nat, field: seq<Byte>) {
    at + |field| <= |p| && p[at..at + |field|] == field
  }

  lemma HeldByte(p: seq<Byte>, at: nat, field: seq<Byte>, i: nat)
    requires Holds(p, at, field) && i < |field|
    ensures p[at + i] == field[i]
  {
    assert p[at..at + |field|][i] == p[at + i];
  }

  lemma HeldAfter(a: seq<Byte>, field: seq<Byte>, b: seq<Byte>)
    ensures Holds(a + field + b, |a|, field)
  {
  }

  lemma HeldPair(p: seq<Byte>, at: nat, a: seq<Byte>, b: seq<Byte>)
    requires Holds(p, at, a + b)
    ensures Holds(p, at, a) && Holds(p, at + |a|, b)
  {
    var s := p[at..at + |a + b|];
    assert p[at..at + |a|] == s[..|a|] && p[at + |a|..at + |a| + |b|] == s[|a|..];
  }

  lemma HeldPart(p: seq<Byte>, at: nat, field: seq<Byte>, lo: nat, hi: nat)
    requires Holds(p, at, field) && lo <= hi <= |field|
    ensures at + lo + (hi - lo) == at + hi && Holds(p, at + lo, field[lo..hi])
  {
    forall i | 0 <= i < hi - lo ensures p[at + lo..at + hi][i] == field[lo..hi][i] {
      HeldByte(p, at, field, lo + i);
    }
    assert |p[at + lo..at + hi]| == hi - lo;
    assert p[at + lo..at + hi] == field[lo..hi];
  }

  lemma Digits(v: U32)
    ensures v == v / 0x100_0000 * 0x100_0000 + v / 0x1_0000 % 0x100 * 0x1_0000 + v / 0x100 % 0x100 * 0x100 + v % 0x100
  {
    var a, b, c := v / 0x100, v / 0x1_0000, v / 0x100_0000;
    assert b == a / 0x100 && c == b / 0x100;
    assert v == 0x100 * a + v % 0x100 && a == 0x100 * b + a % 0x100 && b == 0x100 * c + b % 0x100;
  }

  lemma Be32RoundTrip(p: seq<Byte>, at: nat, v: U32)
    requires Holds(p, at, PackBe32(v))
    ensures UnpackBe32(p, at) == v
  {
    var f := PackBe32(v);
    HeldByte(p, at, f, 0); HeldByte(p, at, f, 1); HeldByte(p, at, f, 2); HeldByte(p, at, f, 3);
    Digits(v);
  }

  lemma Be64RoundTrip(p: seq<Byte>, at: nat, v: U64)
    requires Holds(p, at, PackBe64(v))
    ensures UnpackBe64(p, at) == v
  {
    HeldPair(p, at, PackBe32(v / 0x1_0000_0000), PackBe32(v % 0x1_0000_0000));
    Be32RoundTrip(p, at, v / 0x1_0000_0000);
    Be32RoundTrip(p, at + 4, v % 0x1_0000_0000);
  }

  lemma Le16RoundTrip(p: seq<Byte>, at: nat, v: U16)
    requires Holds(p, at, PackLe16(v))
    ensures UnpackLe16(p, at) == v
  {
    HeldByte(p, at, PackLe16(v), 0); HeldByte(p, at, PackLe16(v), 1);
  }

  lemma Le32RoundTrip(p: seq<Byte>, at: nat, v: U32)
    requires Holds(p, at, PackLe32(v))
    ensures UnpackLe32(p, at) == v
  {
    var f := PackLe32(v);
    HeldByte(p, at, f, 0); HeldByte(p, at, f, 1); HeldByte(p, at, f, 2); HeldByte(p, at, f, 3);
    Digits(v);
  }

  lemma Le64RoundTrip(p: seq<Byte>, at: nat, v: U64)
    requires Holds(p, at, PackLe64(v))
    ensures UnpackLe64(p, at) == v
  {
    HeldPair(p, at, PackLe32(v % 0x1_0000_0000), PackLe32(v / 0x1_0000_0000));
    Le32RoundTrip(p, at, v % 0x1_0000_0000);
    Le32RoundTrip(p, at + 4, v / 0x1_0000_0000);
  }

  // ----- And back: packing what was read gives the bytes -----

  lemma DigitsOf(a: Byte, b: Byte, c: Byte, d: Byte)
    ensures var v: nat := a + b * 0x100 + c * 0x1_0000 + d * 0x100_0000;
            v % 0x100 == a && v / 0x100 % 0x100 == b && v / 0x1_0000 % 0x100 == c && v / 0x100_0000 == d
  {
    var a1: nat, b1: nat, c1: nat, d1: nat := a, b, c, d;
    var v: nat := a1 + b1 * 0x100 + c1 * 0x1_0000 + d1 * 0x100_0000;
    assert v / 0x100 == b1 + c1 * 0x100 + d1 * 0x1_0000;
    assert v / 0x1_0000 == c1 + d1 * 0x100;
  }

  lemma Le32Inverse(p: seq<Byte>, at: nat)
    requires at + 4 <= |p|
    ensures PackLe32(UnpackLe32(p, at)) == p[at..at + 4]
  {
    DigitsOf(p[at], p[at + 1], p[at + 2], p[at + 3]);
  }

  lemma Le64Inverse(p: seq<Byte>, at: nat)
    requires at + 8 <= |p|
    ensures PackLe64(UnpackLe64(p, at)) == p[at..at + 8]
  {
    var lo: nat, hi: nat := UnpackLe32(p, at), UnpackLe32(p, at + 4);
    assert (lo + hi * 0x1_0000_0000) % 0x1_0000_0000 == lo && (lo + hi * 0x1_0000_0000) / 0x1_0000_0000 == hi;
    Le32Inverse(p, at);
    Le32Inverse(p, at + 4);
    assert p[at..at + 8] == p[at..at + 4] + p[at + 4..at + 8];
  }

  // ----- What the readings are as numbers -----

  /** The number of which these are the digits to base 256, the least significant first. */
  function LeNumber(p: seq<Byte>): nat {
    if p == [] then 0 else p[0] + 0x100 * LeNumber(p[1..])
  }

  /** The same with the most significant first. */
  function BeNumber(p: seq<Byte>): nat {
    if p == [] then 0 else BeNumber(p[..|p| - 1]) * 0x100 + p[|p| - 1]
  }

  lemma LeMore(p: seq<Byte>, at: nat, end: nat)
    requires at < end <= |p|
    ensures LeNumber(p[at..end]) == p[at] + 0x100 * LeNumber(p[at + 1..end])
  {
    assert p[at..end][1..] == p[at + 1..end];
  }

  lemma LeNone(p: seq<Byte>, at: nat)
    requires at <= |p|
    ensures LeNumber(p[at..at]) == 0
  {
  }

  lemma BeMore(p: seq<Byte>, at: nat, end: nat)
    requires at < end <= |p|
    ensures BeNumber(p[at..end]) == BeNumber(p[at..end - 1]) * 0x100 + p[end - 1]
  {
    assert p[at..end][..end - at - 1] == p[at..end - 1];
  }

  lemma BeNone(p: seq<Byte>, at: nat)
    requires at <= |p|
    ensures BeNumber(p[at..at]) == 0
  {
  }

  lemma Le16IsNumber(p: seq<Byte>, at: nat)
    requires at + 2 <= |p|
    ensures UnpackLe16(p, at) == LeNumber(p[at..at + 2])
  {
    LeMore(p, at, at + 2);
    LeMore(p, at + 1, at + 2);
    LeNone(p, at + 2);
  }

  lemma FourLe(p: seq<Byte>, at: nat, end: nat)
    requires at + 4 <= end <= |p|
    ensures LeNumber(p[at..end]) == UnpackLe32(p, at) + 0x1_0000_0000 * LeNumber(p[at + 4..end])
  {
    LeMore(p, at, end);
    LeMore(p, at + 1, end);
    LeMore(p, at + 2, end);
    LeMore(p, at + 3, end);
  }

  lemma Le32IsNumber(p: seq<Byte>, at: nat)
    requires at + 4 <= |p|
    ensures UnpackLe32(p, at) == LeNumber(p[at..at + 4])
  {
    FourLe(p, at, at + 4);
    LeNone(p, at + 4);
  }

  lemma Le64IsNumber(p: seq<Byte>, at: nat)
    requires at + 8 <= |p|
    ensures UnpackLe64(p, at) == LeNumber(p[at..at + 8])
  {
    FourLe(p, at, at + 8);
    FourLe(p, at + 4, at + 8);
    LeNone(p, at + 8);
  }

  lemma FourBe(p: seq<Byte>, at: nat, mid: nat)
    requires at <= mid && mid + 4 <= |p|
    ensures BeNumber(p[at..mid + 4]) == BeNumber(p[at..mid]) * 0x1_0000_0000 + UnpackBe32(p, mid)
  {
    BeMore(p, at, mid + 1);
    BeMore(p, at, mid + 2);
    BeMore(p, at, mid + 3);
    BeMore(p, at, mid + 4);
  }

  lemma Be32IsNumber(p: seq<Byte>, at: nat)
    requires at + 4 <= |p|
    ensures UnpackBe32(p, at) == BeNumber(p[at..at + 4])
  {
    FourBe(p, at, at);
    BeNone(p, at);
  }

  lemma Be64IsNumber(p: seq<Byte>, at: nat)
    requires at + 8 <= |p|
    ensures UnpackBe64(p, at) == BeNumber(p[at..at + 8])
  {
    FourBe(p, at, at);
    FourBe(p, at, at + 4);
    BeNone(p, at);
  }

  // A 32-bit field as two 16-bit ones.
  lemma Be32Halves(p: seq<Byte>, at: nat)
    requires at + 4 <= |p|
    ensures UnpackBe32(p, at) / 0x1_0000 == BeNumber(p[at..at + 2])
    ensures UnpackBe32(p, at) % 0x1_0000 == BeNumber(p[at + 2..at + 4])
  {
    BeMore(p, at, at + 2);
    BeMore(p, at, at + 1);
    BeNone(p, at);
    BeMore(p, at + 2, at + 4);
    BeMore(p, at + 2, at + 3);
    BeNone(p, at + 2);
    var a: nat, b: nat, c: nat, d: nat := p[at], p[at + 1], p[at + 2], p[at + 3];
    Halves(a * 0x100 + b, c * 0x100 + d);
  }

  lemma Halves(high: nat, low: nat)
    requires low < 0x1_0000
    ensures (high * 0x1_0000 + low) / 0x1_0000 == high && (high * 0x1_0000 + low) % 0x1_0000 == low
  {
  }
}
