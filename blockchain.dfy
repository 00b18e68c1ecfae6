/**
 * The ledger and the chain state machine. The bolt bucket "blocks" is a map from
 * key to entry: each block is stored under its own hash, and the sentinel key "l"
 * holds the hash of the newest block. A Blockchain caches that hash in `tip`.
 */
module Chain {
  import opened Wrappers
  import opened Encoding
  import opened Blocks

  /** What a bucket key holds: an encoded block, or (under "l") a raw tip hash. */
  datatype Entry = BlockEntry(block: Block) | TipEntry(hash: Bytes)

  type Bucket = map<Bytes, Entry>

  /** The sentinel key "l". */
  const TipKey: Bytes := [108]

  /** A 64-character block hash never collides with the one-character sentinel key. */
  lemma HashIsNotTipKey(b: Block, sha: Hasher)
    ensures CalculateHash(b, sha) != TipKey
  {
  }

  /** Key h holds a block that decodes. */
  predicate IsBlockKey(m: Bucket, h: Bytes)
  {
    h != TipKey && h in m && m[h].BlockEntry?
  }

  /** "l", if present, holds a raw hash. */
  predicate TipIsHash(m: Bucket)
  {
    TipKey in m ==> m[TipKey].TipEntry?
  }

  /** b.Get("l"): the stored tip hash, or nil when the key is absent. */
  function StoredTip(m: Bucket): (t: Bytes)
    requires TipIsHash(m)
    ensures TipKey in m ==> m[TipKey] == TipEntry(t)
    ensures TipKey !in m ==> t == []
  {
    if TipKey in m then m[TipKey].hash else []
  }

  /** The reads that lastBlock makes succeed: "l" names a stored block. */
  predicate HasLastBlock(m: Bucket)
  {
    TipKey in m && m[TipKey].TipEntry? && IsBlockKey(m, m[TipKey].hash)
  }

  /** lastBlock: the block stored under the hash that "l" holds, re-read from the bucket. */
  function LastBlockOf(m: Bucket): (b: Block)
    requires HasLastBlock(m)
    ensures m[TipKey].hash in m && m[m[TipKey].hash] == BlockEntry(b)
  {
    m[m[TipKey].hash].block
  }

  /** isBlockValid: checked against the bucket's "l", in the order `isBlockValid` checks. */
  function BlockValidIn(m: Bucket, nb: Block, sha: Hasher): (ok: bool)
    requires HasLastBlock(m)
    ensures ok <==> && LastBlockOf(m).index + 1 == nb.index
                    && LastBlockOf(m).hash == nb.prevHash
                    && CalculateHash(nb, sha) == nb.hash
  {
    var last := LastBlockOf(m);
    if last.index + 1 != nb.index then false
    else if last.hash != nb.prevHash then false
    else if CalculateHash(nb, sha) != nb.hash then false
    else true
  }

  /** Validation depends on the bucket only through the block "l" names, not on a cached tip. */
  lemma ValidityFollowsStoredTip(m1: Bucket, m2: Bucket, nb: Block, sha: Hasher)
    requires HasLastBlock(m1) && HasLastBlock(m2) && LastBlockOf(m1) == LastBlockOf(m2)
    ensures BlockValidIn(m1, nb, sha) == BlockValidIn(m2, nb, sha)
  {
  }

  /** A block's link to its predecessor: index one less, stored under prevHash. */
  predicate LinkedBlock(m: Bucket, b: Block)
  {
    && b.index >= 0
    && (|b.prevHash| == 0 <==> b.index == 0)
    && (|b.prevHash| != 0 ==> IsBlockKey(m, b.prevHash) && m[b.prevHash].block.index + 1 == b.index)
  }

  /** Every key other than "l" holds a block stored under its own hash and linked to its predecessor. */
  predicate WellLinked(m: Bucket)
  {
    forall h :: h in m && h != TipKey ==>
      m[h].BlockEntry? && m[h].block.hash == h && LinkedBlock(m, m[h].block)
  }

  /** Every stored block's hash is the hash of its record. */
  predicate HashesMatch(m: Bucket, sha: Hasher)
  {
    forall h :: h in m && m[h].BlockEntry? ==> m[h].block.hash == CalculateHash(m[h].block, sha)
  }

  /** The chain invariant: "l" holds tip, tip names a block, and the blocks form linked chains. */
  predicate ChainStore(m: Bucket, tip: Bytes, sha: Hasher)
  {
    && TipKey in m && m[TipKey] == TipEntry(tip)
    && IsBlockKey(m, tip)
    && WellLinked(m)
    && HashesMatch(m, sha)
  }

  /** The bucket that NewBlockchain creates around a genesis block. */
  lemma GenesisStoreIsChain(g: Block, sha: Hasher)
    requires g.index == 0 && g.prevHash == [] && g.hash == CalculateHash(g, sha)
    ensures ChainStore(map[g.hash := BlockEntry(g)][TipKey := TipEntry(g.hash)], g.hash, sha)
  {
    HashIsNotTipKey(g, sha);
  }

  /** Adding a fresh key linked to the stored block under tip keeps every link intact. */
  lemma AppendKeepsLinks(m: Bucket, tip: Bytes, nb: Block)
    requires WellLinked(m) && IsBlockKey(m, tip)
    requires nb.hash != TipKey && nb.hash !in m
    requires nb.index == m[tip].block.index + 1 && nb.prevHash == tip && tip != []
    ensures WellLinked(m[nb.hash := BlockEntry(nb)][TipKey := TipEntry(nb.hash)])
  {
    var m' := m[nb.hash := BlockEntry(nb)][TipKey := TipEntry(nb.hash)];
    forall h | h in m' && h != TipKey
      ensures m'[h].BlockEntry? && m'[h].block.hash == h && LinkedBlock(m', m'[h].block)
    {
      if h != nb.hash {
        assert m'[h] == m[h];
        var b := m[h].block;
        assert LinkedBlock(m, b);
        if |b.prevHash| != 0 {
          assert m'[b.prevHash] == m[b.prevHash];
        }
      } else {
        assert m'[tip] == m[tip];
      }
    }
  }

  /**
   * AddBlock keeps the chain invariant when the new block is valid against the stored
   * tip and its hash is not already a key (otherwise the write replaces a stored block).
   */
  lemma AppendKeepsChain(m: Bucket, tip: Bytes, nb: Block, sha: Hasher)
    requires ChainStore(m, tip, sha)
    requires BlockValidIn(m, nb, sha)
    requires nb.hash !in m
    ensures ChainStore(m[nb.hash := BlockEntry(nb)][TipKey := TipEntry(nb.hash)], nb.hash, sha)
  {
    var m' := m[nb.hash := BlockEntry(nb)][TipKey := TipEntry(nb.hash)];
    var last := LastBlockOf(m);
    assert m[tip].block == last;
    HashIsNotTipKey(nb, sha);
    assert |last.hash| == 64;
    AppendKeepsLinks(m, tip, nb);
    assert HashesMatch(m', sha) by {
      forall h | h in m' && m'[h].BlockEntry?
        ensures m'[h].block.hash == CalculateHash(m'[h].block, sha)
      {
        if h != nb.hash {
          assert m'[h] == m[h];
        }
      }
    }
  }

  /**
   * The blocks List returns from key h: newest first, following prevHash until the
   * block with an empty prevHash. It terminates because the index falls by one each step.
   */
  function Walk(m: Bucket, h: Bytes): (r: seq<Block>)
    requires WellLinked(m) && IsBlockKey(m, h)
    ensures |r| >= 1 && r[0] == m[h].block
    decreases m[h].block.index
  {
    var b := m[h].block;
    if |b.prevHash| == 0 then [b] else [b] + Walk(m, b.prevHash)
  }

  /**
   * The walk from h holds index + 1 stored blocks with indices falling by one, each
   * linked to the next by prevHash, and only the last (the genesis block) has none.
   */
  lemma {:induction false} WalkShape(m: Bucket, h: Bytes)
    requires WellLinked(m) && IsBlockKey(m, h)
    ensures var r := Walk(m, h);
            && |r| == m[h].block.index + 1
            && (forall k :: 0 <= k < |r| ==>
                  && r[k].index == m[h].block.index - k
                  && IsBlockKey(m, r[k].hash) && m[r[k].hash].block == r[k])
            && (forall k :: 0 <= k < |r| - 1 ==> r[k].prevHash == r[k + 1].hash)
            && (forall k :: 0 <= k < |r| ==> (|r[k].prevHash| == 0 <==> k == |r| - 1))
    decreases m[h].block.index
  {
    var b := m[h].block;
    if |b.prevHash| != 0 {
      WalkShape(m, b.prevHash);
      var r, rest := Walk(m, h), Walk(m, b.prevHash);
      assert r == [b] + rest;
      forall k | 1 <= k < |r|
        ensures r[k] == rest[k - 1]
      {
      }
    }
  }

  /** The bolt database; `blocks` is the "blocks" bucket, None until it is created. */
  class Db {
    var blocks: Option<Bucket>

    constructor (blocks: Option<Bucket>)
      ensures this.blocks == blocks
    {
      this.blocks := blocks;
    }
  }

  /** The chain: the cached tip hash and the database handle. */
  class Blockchain {
    var tip: Bytes
    const db: Db
    const sha: Hasher

    constructor (tip: Bytes, db: Db, sha: Hasher)
      ensures this.tip == tip && this.db == db && this.sha == sha
    {
      this.tip := tip;
      this.db := db;
      this.sha := sha;
    }

    /** The chain invariant, with the cached tip equal to the stored one. */
    ghost predicate Valid()
      reads this, db
    {
      db.blocks.Some? && ChainStore(db.blocks.value, tip, sha)
    }

    /**
     * AddBlock: rejects an invalid block without writing; otherwise puts the block under
     * its hash, points "l" at it and moves the cached tip.
     */
    method AddBlock(newBlock: Block) returns (ok: bool)
      requires db.blocks.Some? && HasLastBlock(db.blocks.value)
      modifies this, db
      ensures ok == old(BlockValidIn(db.blocks.value, newBlock, sha))
      ensures !ok ==> db.blocks == old(db.blocks) && tip == old(tip)
      ensures ok ==> && newBlock.hash != TipKey
                     && db.blocks == Some(old(db.blocks.value)[newBlock.hash := BlockEntry(newBlock)]
                                                               [TipKey := TipEntry(newBlock.hash)])
                     && db.blocks.value[newBlock.hash] == BlockEntry(newBlock)
                     && db.blocks.value[TipKey] == TipEntry(newBlock.hash)
                     && tip == newBlock.hash
                     && HasLastBlock(db.blocks.value) && LastBlockOf(db.blocks.value) == newBlock
      ensures old(Valid()) && (ok ==> newBlock.hash !in old(db.blocks.value)) ==> Valid()
    {
      ok := BlockValidIn(db.blocks.value, newBlock, sha);
      if !ok {
        return;
      }
      ghost var m := db.blocks.value;
      HashIsNotTipKey(newBlock, sha);
      db.blocks := Some(db.blocks.value[newBlock.hash := BlockEntry(newBlock)]);
      db.blocks := Some(db.blocks.value[TipKey := TipEntry(newBlock.hash)]);
      if old(Valid()) && newBlock.hash !in m {
        AppendKeepsChain(m, old(tip), newBlock, sha);
      }
      tip := newBlock.hash;
    }

    /**
     * GenerateBlock: a block for payload bpm linked to the block "l" names, mined at
     * Difficulty. Nothing is written.
     */
    method GenerateBlock(bpm: int, timestamp: Bytes, maxTries: nat) returns (r: Option<Block>)
      requires db.blocks.Some? && HasLastBlock(db.blocks.value)
      ensures r.Some? ==> MinedFrom(NextCandidate(LastBlockOf(db.blocks.value), bpm, timestamp), r.value, sha)
      ensures r.Some? ==> && r.value.index == LastBlockOf(db.blocks.value).index + 1
                          && r.value.prevHash == LastBlockOf(db.blocks.value).hash
                          && r.value.bpm == bpm && r.value.difficulty == Difficulty
                          && r.value.timestamp == timestamp
                          && IsHashValid(r.value.hash, Difficulty)
      ensures r.Some? ==> BlockValidIn(db.blocks.value, r.value, sha)
      ensures r.None? ==> forall j :: 0 <= j < maxTries ==>
                            !Accepts(NextCandidate(LastBlockOf(db.blocks.value), bpm, timestamp), j, sha)
    {
      var last := LastBlockOf(db.blocks.value);
      var candidate := NextCandidate(last, bpm, timestamp);
      r := ProofOfWork(candidate, sha, maxTries);
    }

    /** Iterator: a cursor at the cached tip. */
    method Iterator() returns (it: BlockchainIterator)
      ensures fresh(it) && it.currentHash == tip && it.db == db
    {
      it := new BlockchainIterator(tip, db);
    }

    /**
     * List: every block from the tip back to the genesis block, newest first; WalkShape
     * gives its length, order and links.
     */
    method List() returns (blocks: seq<Block>)
      requires db.blocks.Some? && WellLinked(db.blocks.value) && IsBlockKey(db.blocks.value, tip)
      ensures blocks == Walk(db.blocks.value, tip)
    {
      ghost var m := db.blocks.value;
      var bci := Iterator();
      blocks := [];
      while true
        invariant bci.db == db && db.blocks == Some(m)
        invariant IsBlockKey(m, bci.currentHash)
        invariant blocks + Walk(m, bci.currentHash) == Walk(m, tip)
        decreases m[bci.currentHash].block.index
      {
        ghost var h := bci.currentHash;
        var block := bci.Next();
        blocks := blocks + [block];
        if |block.prevHash| == 0 {
          break;
        }
        assert Walk(m, h) == [block] + Walk(m, bci.currentHash);
      }
    }
  }

  /** The candidate GenerateBlock hands to the miner: the successor of last, nonce unset. */
  function NextCandidate(last: Block, bpm: int, timestamp: Bytes): (c: Block)
    ensures c.index == last.index + 1 && c.prevHash == last.hash
    ensures c.bpm == bpm && c.timestamp == timestamp && c.difficulty == Difficulty
    ensures c.nonce == [] && c.hash == []
  {
    Block(last.index + 1, timestamp, bpm, Difficulty, [], last.hash, [])
  }

  /** A cursor walking the bucket from a hash towards the genesis block. */
  class BlockchainIterator {
    var currentHash: Bytes
    const db: Db

    constructor (currentHash: Bytes, db: Db)
      ensures this.currentHash == currentHash && this.db == db
    {
      this.currentHash := currentHash;
      this.db := db;
    }

    /** Next: the block at the cursor; the cursor moves to its prevHash. */
    method Next() returns (block: Block)
      requires db.blocks.Some? && IsBlockKey(db.blocks.value, currentHash)
      modifies this
      ensures db.blocks.value[old(currentHash)] == BlockEntry(block)
      ensures currentHash == block.prevHash
    {
      block := db.blocks.value[currentHash].block;
      currentHash := block.prevHash;
    }
  }

  /**
   * NewBlockchain over an opened database. With no bucket it mines a genesis block and
   * stores it with "l" pointing at it (None: the genesis search gave up, nothing was
   * written); with a bucket it writes nothing and resumes from the stored "l".
   */
  method NewBlockchain(db: Db, timestamp: Bytes, sha: Hasher, maxTries: nat) returns (bc: Option<Blockchain>)
    requires db.blocks.Some? ==> TipIsHash(db.blocks.value)
    modifies db
    ensures bc.Some? ==> fresh(bc.value) && bc.value.db == db && bc.value.sha == sha
    ensures old(db.blocks).None? && bc.Some? ==>
              && db.blocks.Some?
              && var m, t := db.blocks.value, bc.value.tip;
                 && m.Keys == {t, TipKey} && m[TipKey] == TipEntry(t)
                 && IsBlockKey(m, t) && m[t].block.hash == t
                 && MinedFrom(GenesisCandidate(timestamp), m[t].block, sha)
                 && bc.value.Valid()
    ensures old(db.blocks).None? && bc.None? ==>
              db.blocks.None? && forall j :: 0 <= j < maxTries ==> !Accepts(GenesisCandidate(timestamp), j, sha)
    ensures old(db.blocks).Some? ==>
              && bc.Some? && db.blocks == old(db.blocks)
              && bc.value.tip == StoredTip(old(db.blocks).value)
    ensures old(db.blocks).Some? && ChainStore(old(db.blocks).value, StoredTip(old(db.blocks).value), sha) ==>
              bc.Some? && bc.value.Valid()
  {
    var tip: Bytes;
    if db.blocks.None? {
      var genesis := GenesisBlock(timestamp, sha, maxTries);
      if genesis.None? {
        return None;
      }
      var g := genesis.value;
      GenesisStoreIsChain(g, sha);
      db.blocks := Some(map[g.hash := BlockEntry(g)]);
      db.blocks := Some(db.blocks.value[TipKey := TipEntry(g.hash)]);
      tip := g.hash;
    } else {
      tip := StoredTip(db.blocks.value);
    }
    var chain := new Blockchain(tip, db, sha);
    bc := Some(chain);
  }
}
