/**
 Byte strings and fixed-width integer encodings.
 */
module Bytes {

  type byte = x: nat | x < 256

  type bytes = seq<byte>

  type u64 = x: nat | x < 0x1_0000_0000_0000_0000

  /** A 32-byte digest or identifier. */
  type Hash = b: bytes | |b| == 32 witness seq(32, _ => 0)

  function Power256(n: nat): (r: nat)
    ensures r > 0
  {
    if n == 0 then 1 else 256 * Power256(n - 1)
  }

  function ToLittleEndian(v: nat, n: nat): (b: bytes)
    ensures |b| == n
  {
    if n == 0 then [] else [v % 256] + ToLittleEndian(v / 256, n - 1)
  }

  function FromLittleEndian(b: bytes): (v: nat) {
    if b == [] then 0 else b[0] + 256 * FromLittleEndian(b[1..])
  }

  function ToBigEndian(v: nat, n: nat): (b: bytes)
    ensures |b| == n
  {
    if n == 0 then [] else ToBigEndian(v / 256, n - 1) + [v % 256]
  }

  function FromBigEndian(b: bytes): (v: nat) {
    if b == [] then 0 else FromBigEndian(b[..|b| - 1]) * 256 + b[|b| - 1]
  }

  lemma {:induction false} LittleEndianRoundTrip(v: nat, n: nat)
    requires v < Power256(n)
    ensures FromLittleEndian(ToLittleEndian(v, n)) == v
  {
    if n > 0 {
      LittleEndianRoundTrip(v / 256, n - 1);
      assert ToLittleEndian(v, n)[1..] == ToLittleEndian(v / 256, n - 1);
    }
  }

  lemma {:induction false} BigEndianRoundTrip(v: nat, n: nat)
    requires v < Power256(n)
    ensures FromBigEndian(ToBigEndian(v, n)) == v
  {
    if n > 0 {
      BigEndianRoundTrip(v / 256, n - 1);
      assert ToBigEndian(v, n)[..n - 1] == ToBigEndian(v / 256, n - 1);
    }
  }

  lemma {:induction false} LittleEndianBound(b: bytes)
    ensures FromLittleEndian(b) < Power256(|b|)
  {
    if b != [] {
      LittleEndianBound(b[1..]);
    }
  }

  /** The byte at position i weighs 256^i. */
  lemma {:induction false} LittleEndianWeighs(a: bytes, x: byte)
    ensures FromLittleEndian(a + [x]) == FromLittleEndian(a) + Power256(|a|) * x
  {
    if a == [] {
      assert [x][1..] == [];
    } else {
      LittleEndianWeighs(a[1..], x);
      assert (a + [x])[1..] == a[1..] + [x];
      var p := Power256(|a| - 1);
      assert 256 * (p * x) == 256 * p * x;
    }
  }

  /** The first difference decides. */
  ghost predicate LexLess(a: bytes, b: bytes) {
    exists k :: 0 <= k < |a| && k < |b| && a[..k] == b[..k] && a[k] < b[k]
  }

  /** Big-endian forms sort like their values. */
  lemma {:induction false} BigEndianOrder(v: nat, w: nat, n: nat)
    requires v < w < Power256(n)
    ensures LexLess(ToBigEndian(v, n), ToBigEndian(w, n))
  {
    var a, b := ToBigEndian(v, n), ToBigEndian(w, n);
    if v / 256 < w / 256 {
      BigEndianOrder(v / 256, w / 256, n - 1);
      var p, q := ToBigEndian(v / 256, n - 1), ToBigEndian(w / 256, n - 1);
      var k :| 0 <= k < n - 1 && p[..k] == q[..k] && p[k] < q[k];
      assert a[..k] == p[..k] && b[..k] == q[..k];
      assert a[k] < b[k];
    } else {
      assert a[..n - 1] == b[..n - 1];
      assert a[n - 1] < b[n - 1];
    }
  }

  function Ascii(s: string): bytes
    requires forall i :: 0 <= i < |s| ==> s[i] < 128 as char
  {
    seq(|s|, i requires 0 <= i < |s| => s[i] as nat)
  }

  lemma Widths()
    ensures Power256(2) == 0x1_0000 && Power256(8) == 0x1_0000_0000_0000_0000
  {
    assert Power256(4) == 0x1_0000_0000;
  }
}
