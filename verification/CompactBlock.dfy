/**
 The compact-block wire format: 32 bytes of header hash, an 8-byte nonce, a 2-byte count, that many
 6-byte short ids, then 33 bytes of key and 64 bytes of signature. Integers are little-endian.
 */
module CompactBlock {
  import opened Bytes

  type ShortId = b: bytes | |b| == 6 witness seq(6, _ => 0)

  datatype CompactBlock = CompactBlock(headerHash: Hash, nonce: u64, shortIds: seq<ShortId>)

  datatype Parsed = Parsed(shortIds: seq<ShortId>, nonce: u64, pubkey: bytes, signature: bytes)

  datatype Result<+T> = Ok(value: T) | TooShort(expected: nat, actual: nat)

  const PUBKEY_LEN: nat := 33
  const SIGNATURE_LEN: nat := 64

  function Zeros(n: nat): (b: bytes)
    ensures |b| == n
  {
    seq(n, _ => 0)
  }

  function Concat(ids: seq<ShortId>): (b: bytes)
    ensures |b| == 6 * |ids|
  {
    if ids == [] then [] else Concat(ids[..|ids| - 1]) + ids[|ids| - 1]
  }

  /** The message of a block with the sender's key and signature. */
  ghost function Wire(c: CompactBlock, pubkey: bytes, signature: bytes): (b: bytes)
    ensures |b| == 42 + 6 * |c.shortIds| + |pubkey| + |signature|
  {
    c.headerHash + ToLittleEndian(c.nonce, 8) + ToLittleEndian(|c.shortIds| % 0x1_0000, 2)
    + Concat(c.shortIds) + pubkey + signature
  }

  /** The count is truncated to 16 bits; key and signature are left zero. */
  method Serialize(c: CompactBlock) returns (data: bytes)
    ensures data == Wire(c, Zeros(PUBKEY_LEN), Zeros(SIGNATURE_LEN))
  {
    var count := |c.shortIds| % 0x1_0000;
    data := c.headerHash + ToLittleEndian(c.nonce, 8) + ToLittleEndian(count, 2);
    ghost var head := data;
    for i := 0 to |c.shortIds|
      invariant data == head + Concat(c.shortIds[..i])
    {
      assert c.shortIds[..i + 1][..i] == c.shortIds[..i];
      data := data + c.shortIds[i];
    }
    assert c.shortIds[..|c.shortIds|] == c.shortIds;
    data := data + Zeros(PUBKEY_LEN) + Zeros(SIGNATURE_LEN);
  }

  /** The bytes at an offset if they are all there, zeros otherwise. */
  function FieldOrZeros(data: bytes, offset: nat, n: nat): (b: bytes)
    ensures |b| == n
  {
    if offset + n <= |data| then data[offset..offset + n] else Zeros(n)
  }

  function ClaimedCount(data: bytes): nat
    requires |data| >= 48
  {
    FromLittleEndian(data[40..42])
  }

  /** The number of ids a parser takes: the claimed count, cut to what is there. */
  function IdCount(data: bytes): (n: nat)
    requires |data| >= 48
    ensures 42 + 6 * n <= |data|
  {
    var available := (|data| - 42) / 6;
    if ClaimedCount(data) <= available then ClaimedCount(data) else available
  }

  ghost function Meaning(data: bytes): Parsed
    requires |data| >= 48
  {
    var n := IdCount(data);
    LittleEndianBound(data[32..40]);
    Widths();
    Parsed(seq(n, k requires 0 <= k < n => data[42 + 6 * k..48 + 6 * k]),
           FromLittleEndian(data[32..40]),
           FieldOrZeros(data, 42 + 6 * n, PUBKEY_LEN),
           FieldOrZeros(data, 42 + 6 * n + PUBKEY_LEN, SIGNATURE_LEN))
  }

  /** Where everything stands in the data: as many ids as claimed or as fit, then 33 bytes of key, then 64 of
      signature, each zero unless it is all there. */
  ghost predicate IsParsed(data: bytes, p: Parsed) {
    |data| >= 48 &&
    var n, claimed: nat := |p.shortIds|, data[40] as nat + 256 * data[41] as nat;
    && n <= claimed && 42 + 6 * n <= |data| && (n < claimed ==> |data| < 48 + 6 * n)
    && p.nonce == FromLittleEndian(data[32..40])
    && (forall k :: 0 <= k < n ==> p.shortIds[k] == data[42 + 6 * k..48 + 6 * k])
    && p.pubkey == (if 75 + 6 * n <= |data| then data[42 + 6 * n..75 + 6 * n] else Zeros(33))
    && p.signature == (if 139 + 6 * n <= |data| then data[75 + 6 * n..139 + 6 * n] else Zeros(64))
  }

  lemma FieldsAt(data: bytes)
    requires |data| >= 48
    ensures IsParsed(data, Meaning(data))
  {
    assert data[40..42] == [data[40], data[41]];
    TwoBytes(data[40], data[41]);
    hide FromLittleEndian;
  }

  lemma TwoBytes(low: byte, high: byte)
    ensures FromLittleEndian([low, high]) == low as nat + 256 * high as nat
  {
    assert [low, high] == [] + [low] + [high];
    LittleEndianWeighs([], low);
    LittleEndianWeighs([low], high);
    assert [] + [low] == [low];
  }

  /** Total on arbitrary bytes: it never reads outside the data. */
  method Parse(data: bytes) returns (r: Result<Parsed>)
    ensures r == if |data| < 48 then TooShort(48, |data|) else Ok(Meaning(data))
    ensures r.Ok? ==> IsParsed(data, r.value)
  {
    if |data| < 48 {
      return TooShort(48, |data|);
    }
    FieldsAt(data);
    hide IsParsed;
    LittleEndianBound(data[32..40]);
    Widths();
    var nonce: u64 := FromLittleEndian(data[32..40]);
    var count := FromLittleEndian(data[40..42]);
    var shortIds: seq<ShortId> := [];
    var offset: nat := 42;
    var i := 0;
    while i < count
      invariant 0 <= i <= IdCount(data) && offset == 42 + 6 * i && |shortIds| == i
      invariant forall k :: 0 <= k < i ==> shortIds[k] == data[42 + 6 * k..48 + 6 * k]
    {
      if offset + 6 > |data| {
        break;
      }
      shortIds := shortIds + [data[offset..offset + 6]];
      offset := offset + 6;
      i := i + 1;
    }
    var pubkey := if offset + 33 <= |data| then data[offset..offset + 33] else Zeros(33);
    offset := offset + 33;
    var signature := if offset + 64 <= |data| then data[offset..offset + 64] else Zeros(64);
    r := Ok(Parsed(shortIds, nonce, pubkey, signature));
    assert shortIds == Meaning(data).shortIds;
  }

  /** The first 32 bytes, if there are as many. */
  function ExtractBlockHash(data: bytes): (r: Result<Hash>)
    ensures if |data| < 32 then r == TooShort(32, |data|) else r.Ok? && r.value + data[32..] == data
  {
    if |data| < 32 then TooShort(32, |data|) else Ok(data[..32])
  }

  // ----- round trip -----

  lemma {:induction false} ConcatAt(ids: seq<ShortId>, k: nat)
    requires k < |ids|
    ensures Concat(ids)[6 * k..6 * k + 6] == ids[k]
  {
    var n := |ids| - 1;
    if k < n {
      ConcatAt(ids[..n], k);
      assert Concat(ids)[6 * k..6 * k + 6] == Concat(ids[..n])[6 * k..6 * k + 6];
    }
  }

  lemma WireLayout(c: CompactBlock, pubkey: bytes, signature: bytes)
    ensures var d, n := Wire(c, pubkey, signature), |c.shortIds|;
            && |d| == 42 + 6 * n + |pubkey| + |signature|
            && d[..32] == c.headerHash
            && d[32..40] == ToLittleEndian(c.nonce, 8)
            && d[40..42] == ToLittleEndian(n % 0x1_0000, 2)
            && d[42..42 + 6 * n] == Concat(c.shortIds)
            && d[42 + 6 * n..] == pubkey + signature
  {
  }

  lemma WireIds(c: CompactBlock, pubkey: bytes, signature: bytes, k: nat)
    requires k < |c.shortIds|
    ensures Wire(c, pubkey, signature)[42 + 6 * k..48 + 6 * k] == c.shortIds[k]
  {
    hide Wire, Concat;
    WireLayout(c, pubkey, signature);
    ConcatAt(c.shortIds, k);
    SliceOfSlice(Wire(c, pubkey, signature), 42, 42 + 6 * |c.shortIds|, 6 * k, 6 * k + 6);
  }

  lemma SliceOfSlice(d: bytes, a: nat, b: nat, i: nat, j: nat)
    requires a <= b <= |d| && i <= j <= b - a
    ensures d[a..b][i..j] == d[a + i..a + j]
  {
    var x, y := d[a..b][i..j], d[a + i..a + j];
    assert |x| == |y| && forall k :: 0 <= k < |x| ==> x[k] == y[k];
  }

  /** Parsing a message returns its nonce and hash, the ids up to the truncated count, and, if that is all of them,
      its key and signature. */
  lemma ParseOfWire(c: CompactBlock, pubkey: bytes, signature: bytes)
    requires |pubkey| == 33 && |signature| == 64
    ensures var d, m := Wire(c, pubkey, signature), |c.shortIds| % 0x1_0000;
            var p := Meaning(d);
            && p.nonce == c.nonce
            && p.shortIds == c.shortIds[..m]
            && ExtractBlockHash(d) == Ok(c.headerHash)
            && (m == |c.shortIds| ==> p.pubkey == pubkey && p.signature == signature)
  {
    hide Wire, Concat, ToLittleEndian, FromLittleEndian, Power256;
    var d, m := Wire(c, pubkey, signature), |c.shortIds| % 0x1_0000;
    WireLayout(c, pubkey, signature);
    Widths();
    LittleEndianRoundTrip(c.nonce, 8);
    LittleEndianRoundTrip(m, 2);
    var p := Meaning(d);
    assert |p.shortIds| == m;
    forall k | 0 <= k < m
      ensures p.shortIds[k] == c.shortIds[k]
    {
      WireIds(c, pubkey, signature, k);
    }
    if m == |c.shortIds| {
      var tail := d[42 + 6 * m..];
      assert p.pubkey == tail[..33] && p.signature == tail[33..];
    }
  }

  /** Every message, with any key and signature, parses to what it was made of exactly if the ids fit the 16-bit
      count; so does every serialised block. */
  lemma RoundTripIff(c: CompactBlock, pubkey: bytes, signature: bytes)
    requires |pubkey| == 33 && |signature| == 64
    ensures Meaning(Wire(c, pubkey, signature)) == Parsed(c.shortIds, c.nonce, pubkey, signature)
            <==> |c.shortIds| <= 0xFFFF
  {
    hide Wire, Meaning;
    ParseOfWire(c, pubkey, signature);
    if |c.shortIds| > 0xFFFF {
      assert |Meaning(Wire(c, pubkey, signature)).shortIds| < |c.shortIds|;
    } else {
      assert c.shortIds[..|c.shortIds|] == c.shortIds;
    }
  }
}
