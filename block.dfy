/**
 * The block record, its hash, the proof-of-work predicate, and the miner.
 * SHA-256 is not modelled: every hashing member takes it as a parameter `sha`,
 * any function from bytes to a 32-byte digest, so what is proved here holds for
 * every such function.
 */
module Blocks {
  import opened Wrappers
  import opened Encoding

  type Digest = s: Bytes | |s| == 32 witness seq(32, _ => 0 as byte)
  type Hasher = Bytes -> Digest

  /** The fixed number of leading '0' hex characters every mined block needs. */
  const Difficulty: nat := 4

  datatype Block = Block(
    index: int,
    timestamp: Bytes,
    bpm: int,
    difficulty: int,
    nonce: Bytes,
    prevHash: Bytes,
    hash: Bytes)

  /** The string that is hashed: the six fields other than hash, concatenated without separators. */
  function Record(b: Block): (r: Bytes)
    ensures |r| == |Itoa(b.index)| + |b.timestamp| + |Itoa(b.bpm)| + |Itoa(b.difficulty)|
                   + |b.nonce| + |b.prevHash|
    ensures r[..|Itoa(b.index)|] == Itoa(b.index)
    ensures r[|r| - |b.prevHash|..] == b.prevHash
  {
    var front := Itoa(b.index) + b.timestamp + Itoa(b.bpm) + Itoa(b.difficulty) + b.nonce;
    assert (front + b.prevHash)[|front|..] == b.prevHash;
    front + b.prevHash
  }

  /** calculateHash: the lower-case hex form of the digest of the record, 64 characters. */
  function CalculateHash(b: Block, sha: Hasher): (r: Bytes)
    ensures |r| == 64
  {
    HexEncode(sha(Record(b)))
  }

  /** The hash is hex text that decodes back to the digest of the record. */
  lemma CalculateHashDecodes(b: Block, sha: Hasher)
    ensures var r := CalculateHash(b, sha);
            && (forall k :: 0 <= k < |r| ==> DigitValue(r[k], 16).Some?)
            && HexDecode(r) == Some(sha(Record(b)))
  {
    HexRoundTrip(sha(Record(b)));
  }

  /** The hash field is not part of the record, so setting it never changes the hash. */
  lemma HashIgnoresHashField(b: Block, h: Bytes, sha: Hasher)
    ensures CalculateHash(b.(hash := h), sha) == CalculateHash(b, sha)
  {
  }

  /**
   * The record has no separators, so distinct blocks can share a record and hence a
   * hash under every `sha`: index 1 with timestamp "23" and index 12 with timestamp "3".
   */
  lemma RecordIsAmbiguous(sha: Hasher)
    ensures var b1 := Block(1, [50, 51], 0, 4, [48], [], []);
            var b2 := Block(12, [51], 0, 4, [48], [], []);
            b1 != b2 && Record(b1) == Record(b2) && CalculateHash(b1, sha) == CalculateHash(b2, sha)
  {
    var b1 := Block(1, [50, 51], 0, 4, [48], [], []);
    var b2 := Block(12, [51], 0, 4, [48], [], []);
    assert Itoa(1) == [49];
    assert Itoa(12) == [49, 50];
    assert Record(b1) == [49, 50, 51, 48, 52, 48];
    assert Record(b2) == [49, 50, 51, 48, 52, 48];
  }

  /** strings.Repeat(c, n). */
  function Repeat(c: byte, n: nat): (r: Bytes)
    ensures |r| == n
    ensures forall k :: 0 <= k < n ==> r[k] == c
  {
    if n == 0 then [] else [c] + Repeat(c, n - 1)
  }

  /** strings.HasPrefix(s, prefix). */
  predicate HasPrefix(s: Bytes, prefix: Bytes): (has: bool)
    ensures has <==> |prefix| <= |s| && forall k :: 0 <= k < |prefix| ==> s[k] == prefix[k]
  {
    assert |prefix| <= |s| && (forall k :: 0 <= k < |prefix| ==> s[k] == prefix[k])
           ==> s[..|prefix|] == prefix;
    |prefix| <= |s| && s[..|prefix|] == prefix
  }

  /** isHashValid: the hash starts with `difficulty` '0' characters. */
  predicate IsHashValid(hash: Bytes, difficulty: nat): (valid: bool)
    ensures valid <==> difficulty <= |hash| && forall k :: 0 <= k < difficulty ==> hash[k] == Zero
  {
    HasPrefix(hash, Repeat(Zero, difficulty))
  }

  /** Work at one difficulty is work at every lower difficulty. */
  lemma IsHashValidMonotone(hash: Bytes, d: nat, d': nat)
    requires d' <= d && IsHashValid(hash, d)
    ensures IsHashValid(hash, d')
  {
  }

  lemma IsHashValidAtZero(hash: Bytes)
    ensures IsHashValid(hash, 0)
  {
  }

  /** The block as the miner tries it with counter i. */
  function Attempt(b: Block, i: nat): (a: Block)
    ensures a.nonce == FormatHex(i)
    ensures a.(nonce := b.nonce) == b
  {
    b.(nonce := FormatHex(i))
  }

  /** Counter i meets the block's difficulty. */
  predicate Accepts(b: Block, i: nat, sha: Hasher)
    requires b.difficulty >= 0
  {
    IsHashValid(CalculateHash(Attempt(b, i), sha), b.difficulty)
  }

  /** Counter i is the first one, counting up from 0, that meets the difficulty. */
  predicate FirstAccepted(b: Block, i: nat, sha: Hasher)
    requires b.difficulty >= 0
  {
    Accepts(b, i, sha) && forall j :: 0 <= j < i ==> !Accepts(b, j, sha)
  }

  /** The block with counter i as its nonce and the matching hash. */
  function Sealed(b: Block, i: nat, sha: Hasher): (m: Block)
    ensures m.nonce == FormatHex(i) && m.hash == CalculateHash(m, sha)
    ensures m.(nonce := b.nonce, hash := b.hash) == b
  {
    var a := Attempt(b, i);
    HashIgnoresHashField(a, CalculateHash(a, sha), sha);
    a.(hash := CalculateHash(a, sha))
  }

  /**
   * m is what proofOfWork makes of candidate c: its nonce is the hex form of the
   * first accepted counter and its hash that attempt's hash.
   */
  predicate MinedFrom(c: Block, m: Block, sha: Hasher)
  {
    && c.difficulty >= 0
    && ParseHex(m.nonce).Some?
    && m == Sealed(c, ParseHex(m.nonce).value, sha)
    && FirstAccepted(c, ParseHex(m.nonce).value, sha)
  }

  lemma MinedIsValid(c: Block, m: Block, sha: Hasher)
    requires MinedFrom(c, m, sha)
    ensures m.hash == CalculateHash(m, sha)
    ensures IsHashValid(m.hash, c.difficulty)
    ensures m.index == c.index && m.timestamp == c.timestamp && m.bpm == c.bpm
    ensures m.difficulty == c.difficulty && m.prevHash == c.prevHash
  {
    var i := ParseHex(m.nonce).value;
    HashIgnoresHashField(Attempt(c, i), m.hash, sha);
  }

  /** The search order is fixed, so a candidate has one mined form. */
  lemma MinedIsUnique(c: Block, m1: Block, m2: Block, sha: Hasher)
    requires MinedFrom(c, m1, sha) && MinedFrom(c, m2, sha)
    ensures m1 == m2
  {
    var i1, i2 := ParseHex(m1.nonce).value, ParseHex(m2.nonce).value;
    if i1 < i2 {
      assert Accepts(c, i1, sha);
    } else if i2 < i1 {
      assert Accepts(c, i2, sha);
    }
  }

  /** At difficulty 0 the first counter already passes, so the nonce is "0". */
  lemma MinedAtZeroDifficulty(c: Block, m: Block, sha: Hasher)
    requires c.difficulty == 0 && MinedFrom(c, m, sha)
    ensures m.nonce == [Zero]
  {
    IsHashValidAtZero(CalculateHash(Attempt(c, 0), sha));
    assert Accepts(c, 0, sha);
    var i := ParseHex(m.nonce).value;
    assert i == 0;
    assert FormatHex(0) == [Zero];
  }

  /**
   * proofOfWork: tries the counters 0, 1, 2, ... in order and stops at the first whose
   * hash meets the difficulty. The search gives up (None) after maxTries counters.
   */
  method ProofOfWork(b: Block, sha: Hasher, maxTries: nat) returns (r: Option<Block>)
    requires b.difficulty >= 0
    ensures r.Some? ==> MinedFrom(b, r.value, sha)
    ensures r.Some? ==> r.value.hash == CalculateHash(r.value, sha)
                        && IsHashValid(r.value.hash, b.difficulty)
    ensures r.Some? ==> r.value.(nonce := b.nonce, hash := b.hash) == b
    ensures r.None? ==> forall j :: 0 <= j < maxTries ==> !Accepts(b, j, sha)
    ensures b.difficulty == 0 && maxTries > 0 ==> r.Some? && r.value.nonce == [Zero]
  {
    var i := 0;
    while i < maxTries
      invariant 0 <= i <= maxTries
      invariant forall j :: 0 <= j < i ==> !Accepts(b, j, sha)
      invariant b.difficulty == 0 ==> i == 0
    {
      var attempt := b.(nonce := FormatHex(i));
      var h := CalculateHash(attempt, sha);
      if IsHashValid(h, b.difficulty) {
        r := Some(attempt.(hash := h));
        FormatHexRoundTrip(i);
        assert r.value == Sealed(b, i, sha);
        if b.difficulty == 0 {
          assert FormatHex(0) == [Zero];
        }
        return;
      }
      IsHashValidAtZero(h);
      i := i + 1;
    }
    r := None;
  }

  /** The candidate GenesisBlock hands to the miner (its nonce is fmt.Sprintf("%x", 100)). */
  function GenesisCandidate(timestamp: Bytes): (c: Block)
    ensures c.index == 0 && |c.prevHash| == 0 && c.difficulty == Difficulty
    ensures c.bpm == 0 && c.timestamp == timestamp && c.hash == []
    ensures ParseHex(c.nonce) == Some(100)
  {
    FormatHexRoundTrip(100);
    Block(0, timestamp, 0, Difficulty, FormatHex(100), [], [])
  }

  /** GenesisBlock: index 0, payload 0, empty previous hash, mined at Difficulty. */
  method GenesisBlock(timestamp: Bytes, sha: Hasher, maxTries: nat) returns (r: Option<Block>)
    ensures r.Some? ==> MinedFrom(GenesisCandidate(timestamp), r.value, sha)
    ensures r.Some? ==> && r.value.index == 0 && r.value.bpm == 0
                        && r.value.difficulty == Difficulty && r.value.prevHash == []
                        && r.value.timestamp == timestamp
                        && r.value.hash == CalculateHash(r.value, sha)
                        && IsHashValid(r.value.hash, Difficulty)
    ensures r.None? ==> forall j :: 0 <= j < maxTries ==> !Accepts(GenesisCandidate(timestamp), j, sha)
  {
    var genesis := GenesisCandidate(timestamp);
    r := ProofOfWork(genesis, sha, maxTries);
  }
}
