/**
 The persisted layout of the block store and its consistency with the in-memory indexes.

 Keys are byte strings: "b:" + hash, "h:" + big-endian height, "t:" + transaction hash. Values are
 the decoded records, that is, the serialiser is taken to be lossless. The header hash, the
 checksum and the size estimate are parameters.
 */
module BlockStore {
  import opened Bytes

  /** The fields that enter the header hash; nothing here reads the others. */
  datatype Header = Header(height: u64, parentHash: Hash, merkleRoot: Hash, stateRoot: Hash, timestamp: u64)

  datatype Block = Block(header: Header, txs: seq<Hash>)

  datatype StoredBlock = StoredBlock(block: Block, merkleRoot: Hash, stateRoot: Hash, storedAt: nat, checksum: nat)

  datatype TxLocation = TxLocation(blockHash: Hash, height: u64, index: nat, merkleRoot: Hash)

  datatype Value = BlockValue(stored: StoredBlock) | HashValue(hash: Hash) | LocationValue(location: TxLocation)

  type Kv = map<bytes, Value>

  datatype Env = Env(hashOf: Header -> Hash, crc: (Header, Hash, Hash) -> nat, sizeOf: StoredBlock -> nat)

  // ----- keys -----

  const BLOCK_PREFIX: bytes := [98, 58]
  const HEIGHT_PREFIX: bytes := [104, 58]
  const TX_PREFIX: bytes := [116, 58]

  function BlockKey(h: Hash): bytes {
    BLOCK_PREFIX + h
  }

  function HeightKey(n: u64): bytes {
    HEIGHT_PREFIX + ToBigEndian(n, 8)
  }

  function TxKey(t: Hash): bytes {
    TX_PREFIX + t
  }

  lemma KeysDistinct()
    ensures forall h: Hash, n: u64 :: BlockKey(h) != HeightKey(n)
    ensures forall h: Hash, t: Hash :: BlockKey(h) != TxKey(t)
    ensures forall n: u64, t: Hash :: HeightKey(n) != TxKey(t)
    ensures forall h: Hash, h': Hash :: BlockKey(h) == BlockKey(h') ==> h == h'
    ensures forall t: Hash, t': Hash :: TxKey(t) == TxKey(t') ==> t == t'
    ensures forall n: u64, n': u64 :: HeightKey(n) == HeightKey(n') ==> n == n'
  {
    assert forall h: Hash :: BlockKey(h)[0] == 98 && BlockKey(h)[2..] == h;
    assert forall t: Hash :: TxKey(t)[0] == 116 && TxKey(t)[2..] == t;
    forall n: u64
      ensures HeightKey(n)[0] == 104 && FromBigEndian(HeightKey(n)[2..]) == n
    {
      Widths();
      BigEndianRoundTrip(n, 8);
      assert HeightKey(n)[2..] == ToBigEndian(n, 8);
    }
  }

  /** The layout of the keys; height keys sort by height. */
  lemma KeysSpelled(h: Hash, m: u64, n: u64)
    ensures BlockKey(h) == Ascii("b:") + h && TxKey(h) == Ascii("t:") + h && Ascii("h:") <= HeightKey(n)
    ensures m < n ==> LexLess(HeightKey(m), HeightKey(n))
  {
    if m < n {
      Widths();
      BigEndianOrder(m, n, 8);
      var a, b := ToBigEndian(m, 8), ToBigEndian(n, 8);
      var k :| 0 <= k < 8 && a[..k] == b[..k] && a[k] < b[k];
      assert HeightKey(m)[..k + 2] == HEIGHT_PREFIX + a[..k];
      assert HeightKey(n)[..k + 2] == HEIGHT_PREFIX + b[..k];
      assert HeightKey(m)[k + 2] < HeightKey(n)[k + 2];
    }
  }

  /** A key under the height prefix with the right length is the key of the height it spells. */
  lemma HeightKeyParses(key: bytes)
    requires HEIGHT_PREFIX <= key && |key| == 10
    ensures FromBigEndian(key[2..]) < 0x1_0000_0000_0000_0000 && HeightKey(FromBigEndian(key[2..])) == key
  {
    Widths();
    BigEndianInverse(key[2..]);
    assert key == HEIGHT_PREFIX + key[2..];
  }

  lemma {:induction false} BigEndianInverse(b: bytes)
    ensures FromBigEndian(b) < Power256(|b|) && ToBigEndian(FromBigEndian(b), |b|) == b
  {
    if b != [] {
      BigEndianInverse(b[..|b| - 1]);
    }
  }

  // ----- consistency of the persisted keys -----

  predicate HasBlock(kv: Kv, h: Hash) {
    BlockKey(h) in kv && kv[BlockKey(h)].BlockValue?
  }

  function BlockOf(kv: Kv, h: Hash): StoredBlock
    requires HasBlock(kv, h)
  {
    kv[BlockKey(h)].stored
  }

  predicate ChecksumOk(env: Env, s: StoredBlock) {
    s.checksum == env.crc(s.block.header, s.merkleRoot, s.stateRoot)
  }

  /** Every block sits under the hash of its header, with the checksum of its content. */
  ghost predicate BlocksOk(env: Env, kv: Kv) {
    forall h: Hash :: BlockKey(h) in kv ==>
      HasBlock(kv, h) && env.hashOf(BlockOf(kv, h).block.header) == h && ChecksumOk(env, BlockOf(kv, h))
  }

  /** A height key names a stored block of that height. */
  ghost predicate HeightsOk(kv: Kv) {
    forall n: u64 :: HeightKey(n) in kv ==>
      kv[HeightKey(n)].HashValue? && HasBlock(kv, kv[HeightKey(n)].hash)
      && BlockOf(kv, kv[HeightKey(n)].hash).block.header.height == n
  }

  /** A location names a stored block that holds the transaction at that position. */
  ghost predicate LocationOk(kv: Kv, t: Hash, l: TxLocation) {
    HasBlock(kv, l.blockHash) &&
    var b := BlockOf(kv, l.blockHash).block;
    l.index < |b.txs| && b.txs[l.index] == t && l.height == b.header.height && l.merkleRoot == b.header.merkleRoot
  }

  ghost predicate TxsOk(kv: Kv) {
    forall t: Hash :: TxKey(t) in kv ==> kv[TxKey(t)].LocationValue? && LocationOk(kv, t, kv[TxKey(t)].location)
  }

  // ----- agreement of the in-memory indexes -----

  /** The height index is exactly the persisted height keys. */
  ghost predicate IndexMatches(kv: Kv, index: map<u64, Hash>) {
    forall n: u64 :: (n in index <==> HeightKey(n) in kv) && (n in index ==> kv[HeightKey(n)] == HashValue(index[n]))
  }

  ghost predicate TxIndexOk(kv: Kv, txs: map<Hash, TxLocation>) {
    forall t :: t in txs ==> LocationOk(kv, t, txs[t])
  }

  ghost predicate TxIndexMatches(kv: Kv, txs: map<Hash, TxLocation>) {
    forall t: Hash :: (t in txs <==> TxKey(t) in kv) && (t in txs ==> kv[TxKey(t)] == LocationValue(txs[t]))
  }

  /** A matching index is determined by the store. */
  lemma MatchingIndexUnique(kv: Kv, a: map<u64, Hash>, b: map<u64, Hash>)
    requires IndexMatches(kv, a) && IndexMatches(kv, b)
    ensures a == b
  {
    assert forall n :: n in a <==> n in b;
    assert forall n :: n in a ==> HashValue(a[n]) == kv[HeightKey(n)] == HashValue(b[n]);
  }

  lemma MatchingTxIndexUnique(kv: Kv, a: map<Hash, TxLocation>, b: map<Hash, TxLocation>)
    requires TxIndexMatches(kv, a) && TxIndexMatches(kv, b)
    ensures a == b
  {
    assert forall t :: t in a <==> t in b;
    assert forall t :: t in a ==> LocationValue(a[t]) == kv[TxKey(t)] == LocationValue(b[t]);
  }

  // ----- ancestry -----

  /** rank is the order in which blocks were stored: a parent was stored before its child. */
  ghost predicate Ancestry(kv: Kv, rank: map<Hash, nat>) {
    && (forall h: Hash :: h in rank <==> BlockKey(h) in kv)
    && (forall h: Hash :: h in rank ==> rank[h] < |rank|)
    && (forall h: Hash :: h in rank ==> ParentFirst(kv, rank, h))
  }

  ghost predicate ParentFirst(kv: Kv, rank: map<Hash, nat>, h: Hash)
    requires h in rank
  {
    HasBlock(kv, h) &&
    var header := BlockOf(kv, h).block.header;
    header.height == 0 || (header.parentHash in rank && rank[header.parentHash] < rank[h])
  }

  /** Following parent links from h ends at a block of height 0 within n steps, all blocks being stored. */
  ghost predicate WalksToGenesis(kv: Kv, h: Hash, n: nat)
    decreases n
  {
    HasBlock(kv, h) &&
    var header := BlockOf(kv, h).block.header;
    header.height == 0 || (n > 0 && WalksToGenesis(kv, header.parentHash, n - 1))
  }

  lemma {:induction false} ParentWalk(kv: Kv, rank: map<Hash, nat>, h: Hash, n: nat)
    requires Ancestry(kv, rank) && h in rank && rank[h] <= n
    ensures WalksToGenesis(kv, h, n)
    decreases n
  {
    var header := BlockOf(kv, h).block.header;
    if header.height != 0 {
      ParentWalk(kv, rank, header.parentHash, n - 1);
    }
  }

  // ----- one write -----

  function Locate(b: Block, h: Hash, i: nat): TxLocation {
    TxLocation(h, b.header.height, i, b.header.merkleRoot)
  }

  ghost function WithBlock(kv: Kv, h: Hash, s: StoredBlock): Kv {
    kv[BlockKey(h) := BlockValue(s)][HeightKey(s.block.header.height) := HashValue(h)]
  }

  /** The transaction index after the first n transactions of a block. */
  ghost function WithTxs(txs: map<Hash, TxLocation>, b: Block, h: Hash, n: nat): map<Hash, TxLocation>
    requires n <= |b.txs|
  {
    if n == 0 then txs else WithTxs(txs, b, h, n - 1)[b.txs[n - 1] := Locate(b, h, n - 1)]
  }

  /** Every transaction of the block is located in it, at a position that holds it; all others stay. */
  lemma {:induction false} TxsLocated(txs: map<Hash, TxLocation>, b: Block, h: Hash, n: nat)
    requires n <= |b.txs|
    ensures var after := WithTxs(txs, b, h, n);
            forall t: Hash ::
              if t in b.txs[..n] then
                && t in after && after[t].index < n && b.txs[after[t].index] == t && after[t].blockHash == h
                && after[t].height == b.header.height && after[t].merkleRoot == b.header.merkleRoot
              else (t in after <==> t in txs) && (t in txs ==> after[t] == txs[t])
  {
    if n > 0 {
      TxsLocated(txs, b, h, n - 1);
      assert b.txs[..n] == b.txs[..n - 1] + [b.txs[n - 1]];
    }
  }

  /** The persisted transaction keys after the first n transactions; putOk says which puts succeed. */
  ghost function WithTxKeys(kv: Kv, b: Block, h: Hash, putOk: nat -> bool, n: nat): Kv
    requires n <= |b.txs|
  {
    if n == 0 then kv else
      var k := WithTxKeys(kv, b, h, putOk, n - 1);
      if putOk(n - 1) then k[TxKey(b.txs[n - 1]) := LocationValue(Locate(b, h, n - 1))] else k
  }

  lemma BlockFrame(kv: Kv, h: Hash, s: StoredBlock)
    requires BlockKey(h) !in kv
    ensures var kv' := WithBlock(kv, h, s);
            && HasBlock(kv', h) && BlockOf(kv', h) == s
            && (forall x: Hash :: BlockKey(x) in kv' <==> BlockKey(x) in kv || x == h)
            && (forall x: Hash :: HasBlock(kv, x) ==> HasBlock(kv', x) && BlockOf(kv', x) == BlockOf(kv, x))
            && (forall n: u64 :: HeightKey(n) in kv' <==> HeightKey(n) in kv || n == s.block.header.height)
            && (forall n: u64 | n != s.block.header.height && HeightKey(n) in kv ::
                  kv'[HeightKey(n)] == kv[HeightKey(n)])
            && kv'[HeightKey(s.block.header.height)] == HashValue(h)
            && (forall t: Hash :: TxKey(t) in kv' <==> TxKey(t) in kv)
            && (forall t: Hash :: TxKey(t) in kv ==> kv'[TxKey(t)] == kv[TxKey(t)])
  {
    KeysDistinct();
    hide BlockKey, HeightKey, TxKey;
  }

  lemma BlockKeeps(env: Env, kv: Kv, h: Hash, s: StoredBlock, index: map<u64, Hash>, txs: map<Hash, TxLocation>)
    requires BlocksOk(env, kv) && HeightsOk(kv) && TxsOk(kv) && IndexMatches(kv, index) && TxIndexOk(kv, txs)
    requires BlockKey(h) !in kv && env.hashOf(s.block.header) == h && ChecksumOk(env, s)
    ensures var kv' := WithBlock(kv, h, s);
            && BlocksOk(env, kv') && HeightsOk(kv') && TxsOk(kv') && TxIndexOk(kv', txs)
            && IndexMatches(kv', index[s.block.header.height := h])
            && (TxIndexMatches(kv, txs) ==> TxIndexMatches(kv', txs))
  {
    BlockFrame(kv, h, s);
    hide WithBlock, BlockKey, HeightKey, TxKey;
  }

  lemma NewKey<K, V>(m: map<K, V>, k: K, v: V)
    requires k !in m
    ensures |m[k := v]| == |m| + 1
  {
    assert m[k := v].Keys == m.Keys + {k};
  }

  lemma BlockAncestry(kv: Kv, h: Hash, s: StoredBlock, rank: map<Hash, nat>)
    requires Ancestry(kv, rank) && BlockKey(h) !in kv
    requires s.block.header.height == 0 || BlockKey(s.block.header.parentHash) in kv
    ensures Ancestry(WithBlock(kv, h, s), rank[h := |rank|])
  {
    BlockFrame(kv, h, s);
    hide WithBlock, BlockKey, HeightKey, TxKey;
    var n := |rank|;
    var rank' := rank[h := n];
    assert h !in rank;
    NewKey(rank, h, n);
    forall x: Hash | x in rank'
      ensures ParentFirst(WithBlock(kv, h, s), rank', x)
    {
      assert x in rank ==> ParentFirst(kv, rank, x);
    }
  }

  /** Putting a transaction key touches no block and no height key. */
  lemma TxPutFrame(kv: Kv, t: Hash, l: TxLocation)
    ensures var kv' := kv[TxKey(t) := LocationValue(l)];
            && (forall x: Hash :: (BlockKey(x) in kv' <==> BlockKey(x) in kv)
                 && (BlockKey(x) in kv ==> kv'[BlockKey(x)] == kv[BlockKey(x)]))
            && (forall n: u64 :: (HeightKey(n) in kv' <==> HeightKey(n) in kv)
                 && (HeightKey(n) in kv ==> kv'[HeightKey(n)] == kv[HeightKey(n)]))
            && (forall x: Hash :: (TxKey(x) in kv' <==> TxKey(x) in kv || x == t)
                 && (x != t && TxKey(x) in kv ==> kv'[TxKey(x)] == kv[TxKey(x)]))
  {
    KeysDistinct();
    hide BlockKey, HeightKey, TxKey;
  }

  lemma TxPutAncestry(kv: Kv, t: Hash, l: TxLocation, rank: map<Hash, nat>)
    requires Ancestry(kv, rank)
    ensures Ancestry(kv[TxKey(t) := LocationValue(l)], rank)
  {
    TxPutFrame(kv, t, l);
    hide BlockKey, HeightKey, TxKey;
    forall x: Hash | x in rank
      ensures ParentFirst(kv[TxKey(t) := LocationValue(l)], rank, x)
    {
      assert ParentFirst(kv, rank, x);
    }
  }

  lemma TxPutKeeps(env: Env, kv: Kv, t: Hash, l: TxLocation, index: map<u64, Hash>, txs: map<Hash, TxLocation>)
    requires BlocksOk(env, kv) && HeightsOk(kv) && TxsOk(kv) && IndexMatches(kv, index) && TxIndexOk(kv, txs)
    requires LocationOk(kv, t, l)
    ensures var kv' := kv[TxKey(t) := LocationValue(l)];
            && BlocksOk(env, kv') && HeightsOk(kv') && TxsOk(kv') && IndexMatches(kv', index) && TxIndexOk(kv', txs)
            && (TxIndexMatches(kv, txs) ==> TxIndexMatches(kv', txs[t := l]))
  {
    TxPutFrame(kv, t, l);
    hide BlockKey, HeightKey, TxKey;
  }
}
