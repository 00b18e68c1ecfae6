# blockchain-go chain core in Dafny

This project models the chain logic of the `bchain` package of blockchain-go. The package keeps
an append-only chain of blocks. Each block carries one integer payload (`BPM`) and is linked to
its predecessor by hash. Every block the package mines has a nonce that gives it a hash with
`difficulty` leading `'0'` hex characters; `AddBlock` does not check this.

The model has three parts. Each is a Dafny module in its own file.

- `encoding.dfy` (`Encoding`): the text formats the hash is built from, all over bytes because
  Go strings are byte sequences. They are `strconv.Itoa`, `fmt.Sprintf("%x", i)` and
  `hex.EncodeToString`. Each one has a parser that inverts it, with the round trip proved.
- `block.dfy` (`Blocks`): the `Block` record and the hash record string. It has `calculateHash`,
  the `isHashValid` prefix test, the miner `proofOfWork` and `GenesisBlock`. SHA-256 is not
  modelled. Every hashing member takes `sha`, which can be any function from bytes to a 32-byte
  `Digest`. So every hash is 64 hex characters, and every result holds for every such function.
- `blockchain.dfy` (`Chain`): the bolt bucket `"blocks"` as a map from key to `Entry`. Each block
  sits under its own hash, and the sentinel key `"l"` holds the newest hash. The file also has
  the `Db` handle and the `Blockchain` class (cached `tip`, `AddBlock`, `GenerateBlock`,
  `Iterator`, `List`). It has the `BlockchainIterator` class (`Next`), the pure checks `lastBlock`
  and `isBlockValid`, and `NewBlockchain`.

The chain invariant is `ChainStore`:
- `"l"` holds the cached tip, and the tip names a stored block.
- Every other key holds a block stored under its own hash.
- That block's hash is the hash of its record.
- A block's index is 0 exactly when its `prevHash` is empty.
- Otherwise its `prevHash` names a stored block whose index is one less.

`NewBlockchain` sets this invariant up when it creates the bucket. When it resumes from an
existing bucket, the invariant holds only if that bucket already meets it. `AddBlock` keeps
the invariant when the new block's hash is not already a key. `List` is proved equal to `Walk`, the walk from the tip along `prevHash`, which
ends because each step lowers the index by one. `WalkShape` proves that the walk returns
`tip.index + 1` blocks. Their indices fall by one at each step, and each block's `prevHash` is
the next block's hash. Only the last block, the genesis block, has an empty `prevHash`.

Three behaviours of the code to note:
- `isBlockValid` checks the index, the link and the recomputed hash. It does not check the
  difficulty, and it gives no rejection reason.
- `AddBlock` validates before its write transaction, not inside it. The model takes
  `AddBlock` as one atomic step.
- Mining of the genesis block happens inside `NewBlockchain`'s update transaction.

## Model

| member | source | states |
|---|---|---|
| `Encoding.Digits` | bchain/blockchain.go:162 | the digits of n are non-empty, all digit characters of the base, and start with '0' only for n = 0 |
| `Encoding.Itoa` | bchain/blockchain.go:162 | strconv.Itoa text is non-empty and starts with '-' exactly for negative numbers |
| `Encoding.ParseDigitsOfDigits` | bchain/blockchain.go:162 | reading back the digits of n gives n, in base 10 and 16 |
| `Encoding.ItoaRoundTrip` | bchain/blockchain.go:162 | Atoi(Itoa(n)) == n for every integer, so each decimal field reads back |
| `Encoding.FormatHex` | bchain/block.go:86 | the `%x` form of a counter is non-empty |
| `Encoding.FormatHexRoundTrip` | bchain/block.go:86-87 | the nonce text reads back to its counter |
| `Encoding.FormatHexInjective` | bchain/block.go:86-87 | distinct counters give distinct nonces |
| `Encoding.HexEncode` | bchain/blockchain.go:167 | hex.EncodeToString gives two hex characters per byte |
| `Encoding.HexRoundTrip` | bchain/blockchain.go:167 | decoding the hex text gives back the bytes |
| `Blocks.Record` | bchain/blockchain.go:162 | the record is as long as its six field texts together, starts with the decimal index and ends with prevHash |
| `Blocks.CalculateHash` | bchain/blockchain.go:161-168 | the hash of a block is 64 characters for every 32-byte SHA-256 |
| `Blocks.CalculateHashDecodes` | bchain/blockchain.go:164-167 | the hash is lower-case hex text of the digest of the record |
| `Blocks.HashIgnoresHashField` | bchain/block.go:68-75 | the record leaves out the hash field, so setting it after the search keeps the hash |
| `Blocks.RecordIsAmbiguous` | bchain/blockchain.go:162 | two distinct blocks (index 1, timestamp "23" and index 12, timestamp "3") share a record and a hash under every SHA-256 |
| `Blocks.Repeat` | bchain/blockchain.go:171 | strings.Repeat gives n copies of the character |
| `Blocks.HasPrefix` | bchain/blockchain.go:172 | strings.HasPrefix holds iff the prefix is no longer than the string and agrees with it at every position |
| `Blocks.IsHashValid` | bchain/blockchain.go:170-173 | isHashValid(h, d) holds iff h is at least d long and its first d characters are '0' |
| `Blocks.IsHashValidMonotone` | bchain/blockchain.go:170-173 | a hash valid at d is valid at every d' <= d |
| `Blocks.IsHashValidAtZero` | bchain/blockchain.go:170-173 | every hash is valid at difficulty 0 |
| `Blocks.Attempt` | bchain/block.go:86-87 | the attempt for counter i differs from the block only in the nonce, which is the hex of i |
| `Blocks.Sealed` | bchain/block.go:87-92 | the sealed attempt has nonce hex(i) and a hash equal to its own recomputed hash, with the other fields kept |
| `Blocks.MinedIsValid` | bchain/block.go:88-92 | a mined block's hash is its recomputed hash and meets the difficulty, with index, timestamp, payload, difficulty and prevHash kept |
| `Blocks.MinedIsUnique` | bchain/block.go:85-94 | a candidate has exactly one mined form, because the search order is fixed |
| `Blocks.MinedAtZeroDifficulty` | bchain/block.go:85-88 | at difficulty 0 the nonce of the mined block is "0" |
| `Blocks.ProofOfWork` | bchain/block.go:83-96 | the result has the hex of the smallest accepted counter as its nonce, every smaller counter was rejected, the hash is recomputed and valid, and only nonce and hash changed; giving up means that no counter below the budget was accepted |
| `Blocks.GenesisCandidate` | bchain/block.go:56 | the genesis candidate has index 0, payload 0, difficulty 4, the given timestamp, empty prevHash and hash, and a nonce that reads as 100 |
| `Blocks.GenesisBlock` | bchain/block.go:54-61 | the genesis block has index 0, payload 0, difficulty 4, an empty prevHash and a valid recomputed hash, mined from its candidate |
| `Chain.HashIsNotTipKey` | bchain/blockchain.go:44-49 | a block hash never equals the sentinel key "l" it shares the bucket with |
| `Chain.StoredTip` | bchain/blockchain.go:96 | the tip read on resume is the value under "l", or empty when the key is absent |
| `Chain.LastBlockOf` | bchain/blockchain.go:175-195 | the last block is the one stored under the hash that "l" holds |
| `Chain.BlockValidIn` | bchain/blockchain.go:197-214 | a block is valid iff its index is the last block's plus one, its prevHash equals the last block's hash, and its hash equals its recomputed hash |
| `Chain.ValidityFollowsStoredTip` | bchain/blockchain.go:197-201 | validity depends only on the block that "l" names, re-read from the bucket |
| `Chain.GenesisStoreIsChain` | bchain/blockchain.go:76-94 | the bucket made around a genesis block satisfies the chain invariant |
| `Chain.AppendKeepsLinks` | bchain/blockchain.go:42-54 | writing a fresh block linked to the tip, then "l", keeps every stored block linked |
| `Chain.AppendKeepsChain` | bchain/blockchain.go:38-57 | a valid block under a fresh key keeps the chain invariant with the new block as tip |
| `Chain.Walk` | bchain/blockchain.go:140-154 | the walk from a stored block is non-empty and starts with that block |
| `Chain.WalkShape` | bchain/blockchain.go:140-154 | the walk holds index + 1 stored blocks with indices falling by one, linked by prevHash, and only the last has an empty prevHash |
| `Chain.Blockchain.AddBlock` | bchain/blockchain.go:34-60 | it accepts iff isBlockValid. On rejection nothing is written and tip is unchanged. On acceptance the bucket gains hash ↦ block and "l" ↦ hash, all other keys are kept, tip becomes the hash, the last block read back is the new block, and the invariant is kept when the hash was a fresh key |
| `Chain.NextCandidate` | bchain/block.go:37-47 | the candidate has index last + 1, prevHash last.hash, the given payload and timestamp, difficulty 4, and an empty nonce and hash |
| `Chain.Blockchain.GenerateBlock` | bchain/block.go:33-51 | the block has index last + 1, prevHash last.hash, the given payload and timestamp, and difficulty 4. It is mined from that candidate and is valid against the same bucket |
| `Chain.Blockchain.Iterator` | bchain/blockchain.go:112-116 | a fresh cursor at the cached tip over the same database |
| `Chain.Blockchain.List` | bchain/blockchain.go:140-154 | it returns exactly the walk from the tip, whose shape WalkShape gives |
| `Chain.BlockchainIterator.Next` | bchain/blockchain.go:119-137 | it returns the block stored at the cursor, and the cursor moves to its prevHash |
| `Chain.NewBlockchain` | bchain/blockchain.go:63-109 | with no bucket, it mines a genesis block and stores it with "l" pointing at it, and the tip is its hash. With a bucket, it writes nothing and the tip is the stored "l". The result satisfies the invariant when it is fresh or resumed from a well-formed store |

## Left out

- SHA-256 internals: every hashing member takes the digest function as the parameter `sha`.
- The gob codec (`Serialize`/`serialize`, `DeserializeBlock`/`deserializeBlock`): the bucket stores `Entry` values directly, so the round trip holds by construction. A decode failure (a `log.Panic`) becomes a precondition: `Next` and `lastBlock` require the key to hold a block.
- Chain.NewBlockchain: requires "l", when present, to hold a raw hash. A stored block under "l" cannot be expressed with `Entry` values.
- bolt file I/O, `bolt.Open`, `Db.Close` and the `Update`/`View` transactions: `Db` is the opened database, and each operation updates it in one atomic step. Storage errors returned by `Update` are not modelled.
- `time.Now`/`t.String()`: the timestamp is a parameter.
- Logging (`log`, `fmt.Println`, `spew.Dump`).
- Termination of `proofOfWork` cannot be proved for an arbitrary hash function. The search takes a budget `maxTries` and returns `None` when the budget runs out. So `GenesisBlock`, `GenerateBlock` and `NewBlockchain` return an `Option`, and nothing is written when the genesis search gives up.
- Blocks.ProofOfWork: mutates `*Block` in place in the source. The model returns the mined value. The block being mined is always freshly built by `GenerateBlock` or `GenesisBlock`, so no alias observes the intermediate nonces.
- Go's 64-bit `int`: indices and payloads are unbounded, so overflow of `Index + 1` is not modelled.
- The panic of `strings.Repeat` on a negative difficulty: the difficulty of `isHashValid` is a `nat`, and `ProofOfWork` requires a non-negative difficulty.
- Chain.Blockchain.AddBlock: keeps the chain invariant only when the new hash is not already a key. SHA-256 is not assumed collision-free, and records are ambiguous (`RecordIsAmbiguous`), so a valid block can overwrite a stored one.
- Chain.Blockchain.List: requires the links of the chain invariant (`WellLinked` and a stored tip), which `Valid()` implies, not the full invariant.
- `AddBlock` returns `bool` (true where the source returns a nil error, false for "Invalid block").
- The duplicate copies of `calculateHash` and `isHashValid` in bchain/block.go:68-80 are the same as those in bchain/blockchain.go:161-173 and are modelled once.
- Concurrency (the mutex of the HTTP layer and concurrent writers of one database file).
- main/main.go is not part of this model: HTTP routing, JSON, configuration and the global chain handle.
