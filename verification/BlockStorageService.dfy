/**
 The block storage service: writes, reads, transaction indexing and reloading after a restart.
 Disk space, clock, and the success of serialisation, batch writes and single puts are parameters of
 each call; a batch write is atomic.
 */
module BlockStorageService {
  import opened Bytes
  import opened BlockStore
  import opened Options

  datatype Error =
    | DiskFull | DiskCheckFailed | ParentNotFound(parent: Hash) | BlockExists(hash: Hash) | BlockTooLarge(size: nat)
    | SerializationError | DatabaseError | BlockNotFound(hash: Hash) | HeightNotFound(height: u64)
    | DataCorruption(hash: Hash)

  datatype Result<+T> = Ok(value: T) | Err(error: Error)

  datatype Config = Config(minDiskPercent: nat, maxBlockSize: nat, persistTxIndex: bool)

  /** What the environment answers during one write. */
  datatype Conditions = Conditions(diskPercent: Option<nat>, now: nat, serializes: bool, batchOk: bool,
                                   putOk: nat -> bool)

  function ToStore(env: Env, b: Block, merkleRoot: Hash, stateRoot: Hash, now: nat): StoredBlock {
    StoredBlock(b, merkleRoot, stateRoot, now, env.crc(b.header, merkleRoot, stateRoot))
  }

  /** The verdict on a write: the checks in order, None if the block is to be stored. */
  function WriteError(env: Env, config: Config, kv: Kv, b: Block, merkleRoot: Hash, stateRoot: Hash,
                      c: Conditions): Option<Error> {
    var h := env.hashOf(b.header);
    var s := ToStore(env, b, merkleRoot, stateRoot, c.now);
    if c.diskPercent.None? then Some(DiskCheckFailed)
    else if c.diskPercent.value < config.minDiskPercent then Some(DiskFull)
    else if b.header.height != 0 && BlockKey(b.header.parentHash) !in kv then Some(ParentNotFound(b.header.parentHash))
    else if BlockKey(h) in kv then Some(BlockExists(h))
    else if env.sizeOf(s) > config.maxBlockSize then Some(BlockTooLarge(env.sizeOf(s)))
    else if !c.serializes then Some(SerializationError)
    else if !c.batchOk then Some(DatabaseError)
    else None
  }

  /** The stored record is of this block, with these roots, at this time. */
  predicate Records(env: Env, s: StoredBlock, b: Block, merkleRoot: Hash, stateRoot: Hash, now: nat) {
    && s.block == b && s.merkleRoot == merkleRoot && s.stateRoot == stateRoot && s.storedAt == now
    && s.checksum == env.crc(b.header, merkleRoot, stateRoot)
  }

  /** A write is stored exactly if there is enough disk, the parent of a block above height 0 is stored, the block is
      not, its record is not too large, and it serialises and is written; else the first that fails is named. */
  lemma WriteErrorMeans(env: Env, config: Config, kv: Kv, b: Block, merkleRoot: Hash, stateRoot: Hash, c: Conditions,
                        s: StoredBlock)
    requires Records(env, s, b, merkleRoot, stateRoot, c.now)
    ensures var e := WriteError(env, config, kv, b, merkleRoot, stateRoot, c);
            var h, parent := env.hashOf(b.header), b.header.parentHash;
            var disk := c.diskPercent.Some? && c.diskPercent.value >= config.minDiskPercent;
            var attached := disk && (b.header.height == 0 || BlockKey(parent) in kv);
            var unseen := attached && BlockKey(h) !in kv;
            var fits := unseen && env.sizeOf(s) <= config.maxBlockSize;
            && (e == None <==> fits && c.serializes && c.batchOk)
            && (e == Some(DiskCheckFailed) <==> c.diskPercent.None?)
            && (e == Some(DiskFull) <==> c.diskPercent.Some? && !disk)
            && (e == Some(ParentNotFound(parent)) <==> disk && !attached)
            && (e == Some(BlockExists(h)) <==> attached && !unseen)
            && (e == Some(BlockTooLarge(env.sizeOf(s))) <==> unseen && !fits)
            && (e == Some(SerializationError) <==> fits && !c.serializes)
            && (e == Some(DatabaseError) <==> fits && c.serializes && !c.batchOk)
  {
    assert s == ToStore(env, b, merkleRoot, stateRoot, c.now);
  }

  /** Every transaction of the block is located in it now, and all others where they were. */
  ghost predicate NewlyLocated(before: map<Hash, TxLocation>, after: map<Hash, TxLocation>, b: Block, h: Hash) {
    forall t: Hash ::
      if t in b.txs then t in after && after[t].blockHash == h
      else (t in after <==> t in before) && (t in after ==> after[t] == before[t])
  }

  lemma WithTxsLocates(txs: map<Hash, TxLocation>, b: Block, h: Hash)
    ensures NewlyLocated(txs, WithTxs(txs, b, h, |b.txs|), b, h)
  {
    TxsLocated(txs, b, h, |b.txs|);
    hide WithTxs;
    assert b.txs[..|b.txs|] == b.txs;
  }

  /** What a read by hash returns: not found, not decoding, wrong checksum, or the block. */
  function ReadResult(env: Env, kv: Kv, h: Hash): Result<StoredBlock> {
    if BlockKey(h) !in kv then Err(BlockNotFound(h))
    else if !HasBlock(kv, h) then Err(SerializationError)
    else if !ChecksumOk(env, BlockOf(kv, h)) then Err(DataCorruption(env.hashOf(BlockOf(kv, h).block.header)))
    else Ok(BlockOf(kv, h))
  }

  function HeightResult(env: Env, kv: Kv, index: map<u64, Hash>, n: u64): Result<StoredBlock> {
    if n !in index then Err(HeightNotFound(n)) else ReadResult(env, kv, index[n])
  }

  /** The blocks are those at consecutive heights from start. */
  ghost predicate Reads(env: Env, kv: Kv, index: map<u64, Hash>, start: u64, blocks: seq<StoredBlock>) {
    && start + |blocks| <= 0x1_0000_0000_0000_0000
    && forall k: nat :: k < |blocks| ==> HeightResult(env, kv, index, start + k) == Ok(blocks[k])
  }

  /** A range of n heights: as many blocks, or fewer up to the first missing height, or the error of the first
      block that does not read. */
  ghost predicate IsRange(env: Env, kv: Kv, index: map<u64, Hash>, start: u64, n: nat, r: Result<seq<StoredBlock>>)
    requires start + n < 0x1_0000_0000_0000_0000
  {
    match r
    case Ok(blocks) =>
      |blocks| <= n && Reads(env, kv, index, start, blocks) && (|blocks| < n ==> start + |blocks| !in index)
    case Err(e) =>
      exists blocks | |blocks| < n && Reads(env, kv, index, start, blocks) ::
        start + |blocks| in index && ReadResult(env, kv, index[start + |blocks|]) == Err(e)
  }

  class Service {
    const env: Env
    const config: Config
    var kv: Kv
    var index: map<u64, Hash>
    var txIndex: map<Hash, TxLocation>

    ghost var rank: map<Hash, nat>
    /** Transaction keys are persisted and no put has failed. */
    ghost var txComplete: bool

    ghost predicate Valid()
      reads this
    {
      && BlocksOk(env, kv) && HeightsOk(kv) && TxsOk(kv)
      && IndexMatches(kv, index) && TxIndexOk(kv, txIndex)
      && (txComplete ==> config.persistTxIndex && TxIndexMatches(kv, txIndex))
      && Ancestry(kv, rank)
    }

    constructor Empty(env: Env, config: Config)
      ensures Valid() && kv == map[] && index == map[] && txIndex == map[] && rank == map[]
      ensures this.env == env && this.config == config && txComplete == config.persistTxIndex
    {
      this.env, this.config := env, config;
      kv, index, txIndex, rank := map[], map[], map[], map[];
      txComplete := config.persistTxIndex;
    }

    /** Start on any store: both indexes are rebuilt from the persisted keys that decode, and a consistent
        store gives a consistent service. */
    constructor Open(env: Env, config: Config, stored: Kv, ghost order: map<Hash, nat>)
      ensures kv == stored && rank == order && this.env == env && this.config == config
      ensures forall n: u64 :: n in index <==> HeightKey(n) in kv && kv[HeightKey(n)].HashValue?
      ensures forall n: u64 :: n in index ==> kv[HeightKey(n)] == HashValue(index[n])
      ensures forall t: Hash :: t in txIndex ==> TxKey(t) in kv && kv[TxKey(t)] == LocationValue(txIndex[t])
      ensures txComplete == config.persistTxIndex
      ensures !config.persistTxIndex ==> txIndex == map[]
      ensures BlocksOk(env, stored) && HeightsOk(stored) && TxsOk(stored) && Ancestry(stored, order) ==> Valid()
    {
      this.env, this.config := env, config;
      kv, index, txIndex, rank := stored, map[], map[], order;
      txComplete := config.persistTxIndex;
      new;
      hide BlocksOk, HeightsOk, TxsOk, IndexMatches, TxIndexOk, TxIndexMatches, Ancestry, TxKey, HeightKey;
      NoTxsOk(kv);
      index := LoadIndex(kv);
      if config.persistTxIndex {
        var ok;
        txIndex, ok := LoadTxIndex(kv);
      }
      if HeightsOk(kv) && TxsOk(kv) {
        LoadedIndex(kv, index);
        LoadedTxIndex(kv, txIndex);
      }
    }

    method IndexTransactions(b: Block, h: Hash, putOk: nat -> bool)
      requires Valid() && HasBlock(kv, h) && BlockOf(kv, h).block == b
      modifies this`kv, this`txIndex, this`txComplete
      ensures Valid()
      ensures txIndex == WithTxs(old(txIndex), b, h, |b.txs|)
      ensures kv == if config.persistTxIndex then WithTxKeys(old(kv), b, h, putOk, |b.txs|) else old(kv)
      ensures txComplete == (old(txComplete) && forall i: nat :: i < |b.txs| ==> putOk(i))
    {
      hide BlocksOk, HeightsOk, TxsOk, IndexMatches, TxIndexOk, TxIndexMatches, Ancestry;
      for i := 0 to |b.txs|
        invariant Valid() && HasBlock(kv, h) && BlockOf(kv, h).block == b
        invariant txIndex == WithTxs(old(txIndex), b, h, i)
        invariant kv == if config.persistTxIndex then WithTxKeys(old(kv), b, h, putOk, i) else old(kv)
        invariant txComplete == (old(txComplete) && forall k: nat :: k < i ==> putOk(k))
      {
        var location := Locate(b, h, i);
        assert LocationOk(kv, b.txs[i], location);
        TxIndexAdd(kv, txIndex, b.txs[i], location);
        if config.persistTxIndex && putOk(i) {
          TxPutKeeps(env, kv, b.txs[i], location, index, txIndex);
          TxPutLocations(kv, b.txs[i], location, txIndex[b.txs[i] := location]);
        }
        txIndex := txIndex[b.txs[i] := location];
        if config.persistTxIndex && putOk(i) {
          TxPutAncestry(kv, b.txs[i], location, rank);
          TxPutFrame(kv, b.txs[i], location);
          kv := kv[TxKey(b.txs[i]) := LocationValue(location)];
        }
        txComplete := txComplete && putOk(i);
      }
    }

    method WriteBlock(b: Block, merkleRoot: Hash, stateRoot: Hash, c: Conditions) returns (r: Result<Hash>)
      requires Valid()
      modifies this
      ensures Valid()
      ensures var e := WriteError(env, config, old(kv), b, merkleRoot, stateRoot, c);
              var h := env.hashOf(b.header);
              if e.Some? then
                && r == Err(e.value)
                && kv == old(kv) && index == old(index) && txIndex == old(txIndex)
                && rank == old(rank) && txComplete == old(txComplete)
              else
                && r == Ok(h)
                && (var k := WithBlock(old(kv), h, ToStore(env, b, merkleRoot, stateRoot, c.now));
                    kv == if config.persistTxIndex then WithTxKeys(k, b, h, c.putOk, |b.txs|) else k)
                && index == old(index)[b.header.height := h]
                && txIndex == WithTxs(old(txIndex), b, h, |b.txs|)
                && rank == old(rank)[h := |old(rank)|]
                && txComplete == (old(txComplete) && forall i: nat :: i < |b.txs| ==> c.putOk(i))
      ensures forall h: Hash :: HasBlock(old(kv), h) ==> HasBlock(kv, h) && BlockOf(kv, h) == BlockOf(old(kv), h)
      ensures r.Ok? ==> r.value == env.hashOf(b.header) && HasBlock(kv, r.value)
                        && Records(env, BlockOf(kv, r.value), b, merkleRoot, stateRoot, c.now)
      ensures r.Ok? ==> NewlyLocated(old(txIndex), txIndex, b, r.value)
    {
      hide BlocksOk, HeightsOk, TxsOk, IndexMatches, TxIndexOk, TxIndexMatches, Ancestry, WithTxs, WithTxKeys;
      hide NewlyLocated;
      if c.diskPercent.None? {
        return Err(DiskCheckFailed);
      }
      if c.diskPercent.value < config.minDiskPercent {
        return Err(DiskFull);
      }
      if b.header.height != 0 && BlockKey(b.header.parentHash) !in kv {
        return Err(ParentNotFound(b.header.parentHash));
      }
      var h := env.hashOf(b.header);
      if BlockKey(h) in kv {
        return Err(BlockExists(h));
      }
      var s := StoredBlock(b, merkleRoot, stateRoot, c.now, env.crc(b.header, merkleRoot, stateRoot));
      var size := env.sizeOf(s);
      if size > config.maxBlockSize {
        return Err(BlockTooLarge(size));
      }
      if !c.serializes {
        return Err(SerializationError);
      }
      if !c.batchOk {
        return Err(DatabaseError);
      }
      BlockKeeps(env, kv, h, s, index, txIndex);
      BlockAncestry(kv, h, s, rank);
      BlockFrame(kv, h, s);
      TxKeysKeepBlocks(WithBlock(kv, h, s), b, h, c.putOk, |b.txs|);
      kv := kv[BlockKey(h) := BlockValue(s)][HeightKey(b.header.height) := HashValue(h)];
      index := index[b.header.height := h];
      rank := rank[h := |rank|];
      WithTxsLocates(txIndex, b, h);
      IndexTransactions(b, h, c.putOk);
      return Ok(h);
    }

    /** From every stored block the parent links lead to a block of height 0, although no height is compared
        with its parent's. */
    lemma EveryBlockWalks(h: Hash, n: nat)
      requires Valid() && HasBlock(kv, h) && |rank| <= n
      ensures WalksToGenesis(kv, h, n)
    {
      ParentWalk(kv, rank, h, n);
    }

    lemma CompleteTxIndex()
      requires Valid() && txComplete
      ensures TxIndexMatches(kv, txIndex)
    {
    }

    /** Reads back exactly what decodes with the right checksum; in a consistent store that is every stored block. */
    method ReadBlock(h: Hash) returns (r: Result<StoredBlock>)
      ensures r == ReadResult(env, kv, h)
      ensures r == Err(BlockNotFound(h)) <==> BlockKey(h) !in kv
      ensures r == Err(SerializationError) <==> BlockKey(h) in kv && !HasBlock(kv, h)
      ensures HasBlock(kv, h) ==>
                var s := BlockOf(kv, h);
                r == if s.checksum == env.crc(s.block.header, s.merkleRoot, s.stateRoot) then Ok(s)
                     else Err(DataCorruption(env.hashOf(s.block.header)))
      ensures Valid() ==> r == if HasBlock(kv, h) then Ok(BlockOf(kv, h)) else Err(BlockNotFound(h))
    {
      if BlockKey(h) !in kv {
        return Err(BlockNotFound(h));
      }
      if !kv[BlockKey(h)].BlockValue? {
        return Err(SerializationError);
      }
      var s := kv[BlockKey(h)].stored;
      if !ChecksumOk(env, s) {
        return Err(DataCorruption(env.hashOf(s.block.header)));
      }
      return Ok(s);
    }

    /** In a consistent store every indexed height reads back as a block of that height. */
    method ReadBlockByHeight(n: u64) returns (r: Result<StoredBlock>)
      ensures r == HeightResult(env, kv, index, n)
      ensures n !in index ==> r == Err(HeightNotFound(n))
      ensures Valid() ==> (r.Ok? <==> n in index) && (r.Ok? ==> r.value.block.header.height == n)
    {
      if n !in index {
        return Err(HeightNotFound(n));
      }
      if Valid() {
        IndexedReads(n);
      }
      r := ReadBlock(index[n]);
    }

    lemma IndexedReads(n: u64)
      requires Valid() && n in index
      ensures HasBlock(kv, index[n]) && ReadResult(env, kv, index[n]) == Ok(BlockOf(kv, index[n]))
      ensures BlockOf(kv, index[n]).block.header.height == n
    {
      assert HeightKey(n) in kv;
    }

    /** The end of the range is computed in 64 bits, so a range that would pass 2^64 is empty. In a consistent
        store a range whose start is indexed never fails. */
    method ReadBlockRange(start: u64, limit: u64) returns (r: Result<seq<StoredBlock>>)
      ensures start !in index ==> r == Err(HeightNotFound(start))
      ensures start in index ==>
                var cap := if limit <= 100 then limit else 100;
                if start + cap < 0x1_0000_0000_0000_0000 then IsRange(env, kv, index, start, cap, r) else r == Ok([])
      ensures Valid() && start in index ==> r.Ok?
    {
      hide BlockKey, ReadResult, BlocksOk, HeightsOk, TxsOk, IndexMatches, TxIndexOk, TxIndexMatches, Ancestry;
      var cap := if limit <= 100 then limit else 100;
      if start !in index {
        return Err(HeightNotFound(start));
      }
      var end := (start + cap) % 0x1_0000_0000_0000_0000;
      var blocks: seq<StoredBlock> := [];
      var height: nat := start;
      while height < end
        invariant start <= height && |blocks| == height - start
        invariant start <= end ==> height <= end == start + cap
        invariant end < start ==> height == start
        invariant Reads(env, kv, index, start, blocks)
        decreases end - height
      {
        var block := ReadBlockByHeight(height);
        if block.Err? {
          if block.error.HeightNotFound? {
            OnlyMissingHeights(height);
            return Ok(blocks);
          }
          return Err(block.error);
        }
        blocks := blocks + [block.value];
        height := height + 1;
      }
      return Ok(blocks);
    }

    lemma OnlyMissingHeights(n: u64)
      ensures var r := HeightResult(env, kv, index, n);
              r.Err? && r.error.HeightNotFound? ==> n !in index
    {
    }
  }

  /** What was written is read back: the block, both roots and the time of the call. */
  method WriteThenRead(s: Service, b: Block, merkleRoot: Hash, stateRoot: Hash, c: Conditions)
    returns (w: Result<Hash>, r: Result<StoredBlock>)
    requires s.Valid()
    modifies s
    ensures s.Valid()
    ensures w.Ok? ==> r.Ok? && Records(s.env, r.value, b, merkleRoot, stateRoot, c.now)
  {
    hide BlocksOk, HeightsOk, TxsOk, IndexMatches, TxIndexOk, TxIndexMatches, Ancestry, WithTxs, WithTxKeys, Records;
    w := s.WriteBlock(b, merkleRoot, stateRoot, c);
    r := s.ReadBlock(s.env.hashOf(b.header));
  }

  /** Scans the height prefix in arbitrary order, skipping keys and values of the wrong shape. */
  method LoadIndex(kv: Kv) returns (index: map<u64, Hash>)
    ensures forall n: u64 :: n in index <==> HeightKey(n) in kv && kv[HeightKey(n)].HashValue?
    ensures forall n: u64 :: n in index ==> kv[HeightKey(n)] == HashValue(index[n])
  {
    index := map[];
    var remaining := set key | key in kv && HEIGHT_PREFIX <= key;
    KeysDistinct();
    while remaining != {}
      invariant forall key :: key in remaining ==> key in kv && HEIGHT_PREFIX <= key
      invariant forall n: u64 ::
                  n in index <==> HeightKey(n) in kv && HeightKey(n) !in remaining && kv[HeightKey(n)].HashValue?
      invariant forall n: u64 :: n in index ==> kv[HeightKey(n)] == HashValue(index[n])
      decreases remaining
    {
      var key :| key in remaining;
      remaining := remaining - {key};
      if |key| != 10 {
        continue;
      }
      HeightKeyParses(key);
      assert key[2..10] == key[2..];
      var height: u64 := FromBigEndian(key[2..10]);
      if !kv[key].HashValue? {
        continue;
      }
      index := index[height := kv[key].hash];
    }
  }

  /** Scans the transaction prefix; a value that does not decode ends the load with what was read so far. */
  method LoadTxIndex(kv: Kv) returns (txIndex: map<Hash, TxLocation>, ok: bool)
    ensures ok <==> forall t: Hash :: TxKey(t) in kv ==> kv[TxKey(t)].LocationValue?
    ensures ok ==> TxIndexMatches(kv, txIndex)
    ensures forall t: Hash :: t in txIndex ==> TxKey(t) in kv && kv[TxKey(t)] == LocationValue(txIndex[t])
  {
    txIndex := map[];
    var remaining := set key | key in kv && TX_PREFIX <= key;
    KeysDistinct();
    while remaining != {}
      invariant forall key :: key in remaining ==> key in kv && TX_PREFIX <= key
      invariant forall t: Hash :: t in txIndex <==> TxKey(t) in kv && TxKey(t) !in remaining
      invariant forall t: Hash :: t in txIndex ==> kv[TxKey(t)] == LocationValue(txIndex[t])
      decreases remaining
    {
      var key :| key in remaining;
      remaining := remaining - {key};
      if |key| != 34 {
        continue;
      }
      var txHash: Hash := key[2..34];
      assert key == TxKey(txHash);
      if !kv[key].LocationValue? {
        return txIndex, false;
      }
      txIndex := txIndex[txHash := kv[key].location];
    }
    ok := true;
  }

  /** Restart: reopening a store yields the height index it had, and the transaction index too if it was
      completely persisted. */
  method Restart(s: Service) returns (t: Service)
    requires s.Valid()
    ensures fresh(t) && t.Valid() && t.kv == s.kv && t.index == s.index && t.env == s.env && t.config == s.config
    ensures t.rank == s.rank
    ensures s.txComplete ==> t.txIndex == s.txIndex && t.txComplete
  {
    t := new Service.Open(s.env, s.config, s.kv, s.rank);
    MatchingIndexUnique(s.kv, t.index, s.index);
    if s.txComplete {
      MatchingTxIndexUnique(s.kv, t.txIndex, s.txIndex);
    }
  }

  // ----- whole runs -----

  datatype Op = Write(b: Block, merkleRoot: Hash, stateRoot: Hash, c: Conditions) | Reopen

  /** Every block of the one store is in the other, unchanged. */
  ghost predicate Extends(before: Kv, after: Kv) {
    forall h: Hash :: HasBlock(before, h) ==> HasBlock(after, h) && BlockOf(after, h) == BlockOf(before, h)
  }

  ghost function NextStore(env: Env, config: Config, kv: Kv, op: Op): Kv {
    match op
    case Reopen => kv
    case Write(b, merkleRoot, stateRoot, c) =>
      if WriteError(env, config, kv, b, merkleRoot, stateRoot, c).Some? then kv else
        var h := env.hashOf(b.header);
        var k := WithBlock(kv, h, ToStore(env, b, merkleRoot, stateRoot, c.now));
        if config.persistTxIndex then WithTxKeys(k, b, h, c.putOk, |b.txs|) else k
  }

  ghost function StoreAfter(env: Env, config: Config, ops: seq<Op>): Kv {
    if ops == [] then map[] else NextStore(env, config, StoreAfter(env, config, ops[..|ops| - 1]), ops[|ops| - 1])
  }

  lemma NextExtends(env: Env, config: Config, kv: Kv, op: Op)
    ensures Extends(kv, NextStore(env, config, kv, op))
  {
    if op.Write? && WriteError(env, config, kv, op.b, op.merkleRoot, op.stateRoot, op.c).None? {
      var h, s := env.hashOf(op.b.header), ToStore(env, op.b, op.merkleRoot, op.stateRoot, op.c.now);
      BlockFrame(kv, h, s);
      TxKeysKeepBlocks(WithBlock(kv, h, s), op.b, h, op.c.putOk, |op.b.txs|);
      hide WithBlock, WithTxKeys, HasBlock, BlockOf, BlockKey, HeightKey, TxKey;
    }
  }

  /** In any run of writes, failed ones included, and restarts, what was stored at any point is there
      unchanged at every later one. */
  lemma {:induction false} StoreGrows(env: Env, config: Config, ops: seq<Op>, i: nat)
    requires i <= |ops|
    ensures Extends(StoreAfter(env, config, ops[..i]), StoreAfter(env, config, ops))
  {
    if i < |ops| {
      hide NextStore, HasBlock, BlockOf;
      var n := |ops| - 1;
      StoreGrows(env, config, ops[..n], i);
      assert ops[..n][..i] == ops[..i];
      NextExtends(env, config, StoreAfter(env, config, ops[..n]), ops[n]);
    } else {
      assert ops[..i] == ops;
    }
  }

  /** Operation i of the run is a write that succeeded. */
  ghost predicate Stores(env: Env, config: Config, ops: seq<Op>, i: nat) {
    && i < |ops| && ops[i].Write?
    && WriteError(env, config, StoreAfter(env, config, ops[..i]), ops[i].b, ops[i].merkleRoot, ops[i].stateRoot,
                  ops[i].c).None?
  }

  /** Block h of the store is what operation i wrote. */
  ghost predicate WrittenBy(env: Env, ops: seq<Op>, i: nat, kv: Kv, h: Hash) {
    && i < |ops| && ops[i].Write? && h == env.hashOf(ops[i].b.header) && HasBlock(kv, h)
    && Records(env, BlockOf(kv, h), ops[i].b, ops[i].merkleRoot, ops[i].stateRoot, ops[i].c.now)
  }

  lemma NextWrites(env: Env, config: Config, kv: Kv, op: Op)
    requires op.Write? && WriteError(env, config, kv, op.b, op.merkleRoot, op.stateRoot, op.c).None?
    ensures WrittenBy(env, [op], 0, NextStore(env, config, kv, op), env.hashOf(op.b.header))
  {
    var h, s := env.hashOf(op.b.header), ToStore(env, op.b, op.merkleRoot, op.stateRoot, op.c.now);
    BlockFrame(kv, h, s);
    TxKeysKeepBlocks(WithBlock(kv, h, s), op.b, h, op.c.putOk, |op.b.txs|);
    hide WithBlock, WithTxKeys, HasBlock, BlockOf, BlockKey, HeightKey, TxKey;
  }

  lemma NextSources(env: Env, config: Config, kv: Kv, op: Op, h: Hash)
    requires HasBlock(NextStore(env, config, kv, op), h)
    ensures || (HasBlock(kv, h) && BlockOf(NextStore(env, config, kv, op), h) == BlockOf(kv, h))
            || (&& op.Write? && WriteError(env, config, kv, op.b, op.merkleRoot, op.stateRoot, op.c).None?
                && h == env.hashOf(op.b.header))
  {
    if op.Write? && WriteError(env, config, kv, op.b, op.merkleRoot, op.stateRoot, op.c).None? {
      var x, s := env.hashOf(op.b.header), ToStore(env, op.b, op.merkleRoot, op.stateRoot, op.c.now);
      BlockSources(kv, x, s);
      TxKeysSources(WithBlock(kv, x, s), op.b, x, op.c.putOk, |op.b.txs|);
      hide WithBlock, WithTxKeys, HasBlock, BlockOf, BlockKey, HeightKey, TxKey, WriteError;
    }
  }

  lemma {:induction false} TxKeysSources(kv: Kv, b: Block, h: Hash, putOk: nat -> bool, n: nat)
    requires n <= |b.txs|
    ensures var after := WithTxKeys(kv, b, h, putOk, n);
            forall x: Hash :: HasBlock(after, x) ==> HasBlock(kv, x) && BlockOf(after, x) == BlockOf(kv, x)
  {
    if n > 0 {
      TxKeysSources(kv, b, h, putOk, n - 1);
      TxPutFrame(WithTxKeys(kv, b, h, putOk, n - 1), b.txs[n - 1], Locate(b, h, n - 1));
    }
  }

  /** Every block in the store after a run is what some successful write of the run was given. */
  lemma {:induction false} StoredFromWrite(env: Env, config: Config, ops: seq<Op>, h: Hash) returns (i: nat)
    requires HasBlock(StoreAfter(env, config, ops), h)
    ensures Stores(env, config, ops, i) && WrittenBy(env, ops, i, StoreAfter(env, config, ops), h)
  {
    var n := |ops| - 1;
    var kv := StoreAfter(env, config, ops[..n]);
    NextSources(env, config, kv, ops[n], h);
    hide NextStore, HasBlock, BlockOf, Records, WriteError;
    if HasBlock(kv, h) && BlockOf(StoreAfter(env, config, ops), h) == BlockOf(kv, h) {
      i := StoredFromWrite(env, config, ops[..n], h);
      assert ops[..n][..i] == ops[..i];
    } else {
      i := n;
      NextWrites(env, config, kv, ops[n]);
    }
  }

  /** And every successful write of the run is in the store after it. */
  lemma WriteStays(env: Env, config: Config, ops: seq<Op>, i: nat)
    requires Stores(env, config, ops, i)
    ensures WrittenBy(env, ops, i, StoreAfter(env, config, ops), env.hashOf(ops[i].b.header))
  {
    var h := env.hashOf(ops[i].b.header);
    NextWrites(env, config, StoreAfter(env, config, ops[..i]), ops[i]);
    StoreGrows(env, config, ops, i + 1);
    assert ops[..i + 1][..i] == ops[..i];
    hide NextStore, HasBlock, BlockOf, Records, WriteError;
    assert HasBlock(StoreAfter(env, config, ops[..i + 1]), h);
  }

  /** Every transaction key put of the run succeeds. */
  predicate PutsSucceed(ops: seq<Op>) {
    forall i :: 0 <= i < |ops| && ops[i].Write? ==> forall k: nat :: k < |ops[i].b.txs| ==> ops[i].c.putOk(k)
  }

  /** Every transaction of every stored block has a persisted key. */
  ghost predicate AllLocated(kv: Kv) {
    forall h: Hash, i: nat | HasBlock(kv, h) && i < |BlockOf(kv, h).block.txs| ::
      TxKey(BlockOf(kv, h).block.txs[i]) in kv
  }

  lemma {:induction false} TxKeysAdded(kv: Kv, b: Block, h: Hash, putOk: nat -> bool, n: nat)
    requires n <= |b.txs| && forall k: nat :: k < n ==> putOk(k)
    ensures var after := WithTxKeys(kv, b, h, putOk, n);
            && kv.Keys <= after.Keys
            && (forall k: nat :: k < n ==> TxKey(b.txs[k]) in after)
  {
    if n > 0 {
      TxKeysAdded(kv, b, h, putOk, n - 1);
    }
  }

  lemma NextLocated(env: Env, config: Config, kv: Kv, op: Op)
    requires AllLocated(kv) && config.persistTxIndex && PutsSucceed([op])
    ensures AllLocated(NextStore(env, config, kv, op))
  {
    if op.Write? && WriteError(env, config, kv, op.b, op.merkleRoot, op.stateRoot, op.c).None? {
      var h, s := env.hashOf(op.b.header), ToStore(env, op.b, op.merkleRoot, op.stateRoot, op.c.now);
      assert op == [op][0];
      BlockFrame(kv, h, s);
      BlockSources(kv, h, s);
      var k := WithBlock(kv, h, s);
      TxKeysAdded(k, op.b, h, op.c.putOk, |op.b.txs|);
      TxKeysSources(k, op.b, h, op.c.putOk, |op.b.txs|);
      hide WithBlock, WithTxKeys, HasBlock, BlockOf, BlockKey, HeightKey, TxKey;
      var after := NextStore(env, config, kv, op);
      forall x: Hash, i: nat | HasBlock(after, x) && i < |BlockOf(after, x).block.txs|
        ensures TxKey(BlockOf(after, x).block.txs[i]) in after
      {
        assert x != h ==> HasBlock(kv, x) && BlockOf(kv, x) == BlockOf(after, x);
      }
    }
  }

  lemma BlockSources(kv: Kv, h: Hash, s: StoredBlock)
    ensures kv.Keys <= WithBlock(kv, h, s).Keys
    ensures forall x: Hash :: HasBlock(WithBlock(kv, h, s), x) && x != h ==>
              HasBlock(kv, x) && BlockOf(WithBlock(kv, h, s), x) == BlockOf(kv, x)
  {
    KeysDistinct();
    hide BlockKey, HeightKey, TxKey;
  }

  /** With the transaction index persisted and no failed put, every transaction of every block stored in the run
      can be located after it. */
  lemma {:induction false} RunLocates(env: Env, config: Config, ops: seq<Op>)
    requires config.persistTxIndex && PutsSucceed(ops)
    ensures AllLocated(StoreAfter(env, config, ops))
  {
    if ops != [] {
      hide NextStore, AllLocated;
      var n := |ops| - 1;
      RunLocates(env, config, ops[..n]);
      NextLocated(env, config, StoreAfter(env, config, ops[..n]), ops[n]);
    }
  }

  lemma PutsOf(ops: seq<Op>, i: nat)
    requires i < |ops| && PutsSucceed(ops)
    ensures PutsSucceed([ops[i]])
  {
  }

  method Perform(s: Service, op: Op) returns (t: Service)
    requires s.Valid()
    modifies s
    ensures (t == s || fresh(t)) && t.Valid() && t.env == s.env && t.config == s.config
    ensures t.kv == NextStore(s.env, s.config, old(s.kv), op) && |t.rank| <= |old(s.rank)| + 1
    ensures old(s.txComplete) && PutsSucceed([op]) ==> t.txComplete
  {
    hide Service.Valid, WithTxs, WithTxKeys, WithBlock, HasBlock, BlockOf, WriteError, Records, NewlyLocated;
    assert op == [op][0];
    match op {
      case Write(b, merkleRoot, stateRoot, c) =>
        RankGrows(s.rank, s.env.hashOf(b.header));
        var _ := s.WriteBlock(b, merkleRoot, stateRoot, c);
        t := s;
      case Reopen => t := Restart(s);
    }
  }

  /** The service after a run holds the store of that run, consistently indexed, and every stored block has
      its ancestry down to height 0. Without failed puts its transaction index is the persisted one. */
  method RunOps(env: Env, config: Config, ops: seq<Op>) returns (s: Service)
    ensures fresh(s) && s.Valid() && s.env == env && s.config == config
    ensures s.kv == StoreAfter(env, config, ops)
    ensures forall h: Hash :: HasBlock(s.kv, h) ==> WalksToGenesis(s.kv, h, |ops|)
    ensures config.persistTxIndex && PutsSucceed(ops) ==> TxIndexMatches(s.kv, s.txIndex)
  {
    hide Service.Valid, TxIndexMatches, NextStore, HasBlock, WalksToGenesis, PutsSucceed;
    s := new Service.Empty(env, config);
    for i := 0 to |ops|
      invariant fresh(s) && s.Valid() && s.env == env && s.config == config
      invariant s.kv == StoreAfter(env, config, ops[..i]) && |s.rank| <= i
      invariant config.persistTxIndex && PutsSucceed(ops) ==> s.txComplete
    {
      assert ops[..i + 1][..i] == ops[..i];
      if PutsSucceed(ops) {
        PutsOf(ops, i);
      }
      s := Perform(s, ops[i]);
    }
    assert ops[..|ops|] == ops;
    if s.txComplete {
      s.CompleteTxIndex();
    }
    forall h: Hash | HasBlock(s.kv, h)
      ensures WalksToGenesis(s.kv, h, |ops|)
    {
      s.EveryBlockWalks(h, |ops|);
    }
  }

  lemma RankGrows(rank: map<Hash, nat>, h: Hash)
    ensures |rank[h := |rank|]| <= |rank| + 1
  {
    assert rank[h := |rank|].Keys == rank.Keys + {h};
  }

  lemma NoTxsOk(kv: Kv)
    ensures TxIndexOk(kv, map[])
  {
  }

  lemma LoadedIndex(kv: Kv, index: map<u64, Hash>)
    requires HeightsOk(kv)
    requires forall n: u64 :: n in index <==> HeightKey(n) in kv && kv[HeightKey(n)].HashValue?
    requires forall n: u64 :: n in index ==> kv[HeightKey(n)] == HashValue(index[n])
    ensures IndexMatches(kv, index)
  {
  }

  lemma LoadedTxIndex(kv: Kv, txs: map<Hash, TxLocation>)
    requires TxsOk(kv)
    requires forall t: Hash :: t in txs ==> TxKey(t) in kv && kv[TxKey(t)] == LocationValue(txs[t])
    ensures TxIndexOk(kv, txs)
    ensures forall t: Hash :: TxKey(t) in kv ==> kv[TxKey(t)].LocationValue?
  {
  }

  lemma TxIndexAdd(kv: Kv, txs: map<Hash, TxLocation>, t: Hash, l: TxLocation)
    requires TxIndexOk(kv, txs) && LocationOk(kv, t, l)
    ensures TxIndexOk(kv, txs[t := l])
  {
  }

  lemma TxPutLocations(kv: Kv, t: Hash, l: TxLocation, txs: map<Hash, TxLocation>)
    requires TxIndexOk(kv, txs)
    ensures TxIndexOk(kv[TxKey(t) := LocationValue(l)], txs)
  {
    TxPutFrame(kv, t, l);
  }

  lemma {:induction false} TxKeysKeepBlocks(kv: Kv, b: Block, h: Hash, putOk: nat -> bool, n: nat)
    requires n <= |b.txs|
    ensures var after := WithTxKeys(kv, b, h, putOk, n);
            forall x: Hash :: HasBlock(kv, x) ==> HasBlock(after, x) && BlockOf(after, x) == BlockOf(kv, x)
  {
    if n > 0 {
      TxKeysKeepBlocks(kv, b, h, putOk, n - 1);
      TxPutFrame(WithTxKeys(kv, b, h, putOk, n - 1), b.txs[n - 1], Locate(b, h, n - 1));
    }
  }
}
