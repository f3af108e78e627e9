/**
  What the ledger's construction, append path and validator promise, stated
  over the block functions: the shape of genesis and mined blocks, the
  invariant appends keep, the validator's soundness on built ledgers, and
  which kinds of tampering the validator does and does not detect.
 */
module ChainProperties {
  import opened Decimal
  import opened Blocks

  /** The hash covers every field except the stored hash itself. */
  lemma HashIgnoresStoredHash(sha256: Digest, b: Block, stored: string)
    ensures HashBlock(sha256, b.(hash := stored)) == HashBlock(sha256, b)
  {
  }

  /**
    Where each field sits in the hash input: the decimal index, the decimal
    timestamp, the data, the previous hash and the decimal nonce, back to back.
   */
  lemma HashInputLayout(b: Block)
    ensures var input, index, time, nonce := HashInput(b), NatToDecimal(b.index), IntToDecimal(b.timestamp), NatToDecimal(b.nonce);
      var dataAt := |index| + |time|;
      var previousAt := dataAt + |b.data|;
      input[..|index|] == index && input[|index|..dataAt] == time &&
      input[dataAt..previousAt] == b.data &&
      input[previousAt..previousAt + |b.previousHash|] == b.previousHash &&
      input[|input| - |nonce|..] == nonce
  {
  }

  /** Genesis: index 0, the fixed payload and sentinel, nonce 0, sealed with its own hash; alone it is a ledger. */
  lemma GenesisShape(sha256: Digest, timestamp: int)
    ensures var g := GenesisBlock(sha256, timestamp);
      g.index == 0 && g.timestamp == timestamp && g.data == "Genesis Block" &&
      g.previousHash == "0" && g.nonce == 0 && g.hash == HashBlock(sha256, g)
    ensures LedgerInvariant(sha256, [GenesisBlock(sha256, timestamp)])
  {
  }

  /**
    A mined block follows its predecessor: the next index, the caller's data
    and timestamp, the predecessor's hash as link, the first passing nonce
    counted from 0, and a stored hash that is its own recomputed hash and
    starts with "0000".
   */
  lemma MinedBlockShape(sha256: Digest, previous: Block, data: string, timestamp: int)
    requires Mineable(sha256, Candidate(previous, data, timestamp))
    ensures var b := MinedBlock(sha256, previous, data, timestamp);
      b.index == previous.index + 1 && b.timestamp == timestamp && b.data == data &&
      b.previousHash == previous.hash && b.hash == HashBlock(sha256, b) &&
      "0000" <= b.hash && IsLeastValidNonce(sha256, Candidate(previous, data, timestamp), b.nonce) &&
      MinedOn(sha256, previous, b)
  {
    var c := Candidate(previous, data, timestamp);
    var b := MinedBlock(sha256, previous, data, timestamp);
    HashIgnoresStoredHash(sha256, WithNonce(c, b.nonce), b.hash);
  }

  /** Appending a mined block on top of the last one keeps the ledger invariant. */
  lemma MineKeepsLedger(sha256: Digest, chain: seq<Block>, data: string, timestamp: int)
    requires LedgerInvariant(sha256, chain)
    requires Mineable(sha256, Candidate(chain[|chain| - 1], data, timestamp))
    ensures LedgerInvariant(sha256, chain + [MinedBlock(sha256, chain[|chain| - 1], data, timestamp)])
  {
    MinedBlockShape(sha256, chain[|chain| - 1], data, timestamp);
  }

  /** Validation soundness: every ledger built by construction and appends passes the validator. */
  lemma LedgerIsChainValid(sha256: Digest, chain: seq<Block>)
    requires LedgerInvariant(sha256, chain)
    ensures ChainValid(sha256, chain)
  {
  }

  /** In a ledger, every block's index is its position. */
  lemma {:induction false} LedgerIndexAt(sha256: Digest, chain: seq<Block>, i: nat)
    requires LedgerInvariant(sha256, chain) && i < |chain|
    ensures chain[i].index == i
  {
    if i > 0 {
      LedgerIndexAt(sha256, chain, i - 1);
    }
  }

  /** In a ledger, every block after genesis carries the proof-of-work prefix. */
  lemma LedgerMinedHashesHavePrefix(sha256: Digest, chain: seq<Block>, i: nat)
    requires LedgerInvariant(sha256, chain) && 1 <= i < |chain|
    ensures "0000" <= chain[i].hash
  {
    assert MinedOn(sha256, chain[i - 1], chain[i]);
  }

  /** Validating a chain with one more block is validating the shorter chain and the new pair. */
  lemma ChainValidAppend(sha256: Digest, chain: seq<Block>, b: Block)
    ensures ChainValid(sha256, chain + [b]) <==>
      ChainValid(sha256, chain) && (|chain| == 0 || LinkedTo(sha256, chain[|chain| - 1], b))
  {
    var longer := chain + [b];
    if ChainValid(sha256, longer) {
      forall i | 1 <= i < |chain| ensures LinkedTo(sha256, chain[i - 1], chain[i]) {
        assert longer[i - 1] == chain[i - 1] && longer[i] == chain[i];
      }
      if |chain| > 0 {
        assert LinkedTo(sha256, longer[|chain| - 1], longer[|chain|]);
      }
    }
  }

  /** Tamper detection for links: a block after genesis that does not point at its predecessor's hash fails validation. */
  lemma BrokenLinkDetected(sha256: Digest, chain: seq<Block>, i: nat)
    requires 1 <= i < |chain| && chain[i].previousHash != chain[i - 1].hash
    ensures !ChainValid(sha256, chain)
  {
  }

  /** Tamper detection for stored hashes: a block after genesis whose stored hash is not its recomputed hash fails validation. */
  lemma StaleHashDetected(sha256: Digest, chain: seq<Block>, i: nat)
    requires 1 <= i < |chain| && chain[i].hash != HashBlock(sha256, chain[i])
    ensures !ChainValid(sha256, chain)
  {
    assert !LinkedTo(sha256, chain[i - 1], chain[i]);
  }

  /** Two strings that agree around a middle part agree on the middle part. */
  lemma {:induction false} MiddleCancel(p: string, x: string, y: string, q: string)
    requires p + x + q == p + y + q
    ensures x == y
  {
    var s, t := p + x + q, p + y + q;
    assert |x| == |y|;
    assert x == s[|p|..|p| + |x|];
    assert y == t[|p|..|p| + |y|];
  }

  /** Changing only a block's data changes its hash input: the data field is recoverable from it. */
  lemma HashInputDataInjective(b: Block, d: string)
    requires HashInput(b.(data := d)) == HashInput(b)
    ensures d == b.data
  {
    var p := NatToDecimal(b.index) + IntToDecimal(b.timestamp);
    var q := b.previousHash + NatToDecimal(b.nonce);
    assert HashInput(b) == p + b.data + q;
    assert HashInput(b.(data := d)) == p + d + q;
    MiddleCancel(p, d, b.data, q);
  }

  /**
    Tamper detection for data: overwriting the data of a block after genesis,
    without resealing it, fails validation.  This holds only when SHA-256 does
    not collide on the two hash inputs involved, which is stated, not proved.
   */
  lemma DataTamperDetected(sha256: Digest, chain: seq<Block>, i: nat, d: string)
    requires ChainValid(sha256, chain) && 1 <= i < |chain| && d != chain[i].data
    requires HashInput(chain[i].(data := d)) != HashInput(chain[i]) ==>
      sha256(HashInput(chain[i].(data := d))) != sha256(HashInput(chain[i]))
    ensures !ChainValid(sha256, chain[i := chain[i].(data := d)])
  {
    var b := chain[i];
    assert LinkedTo(sha256, chain[i - 1], b);
    if HashInput(b.(data := d)) == HashInput(b) {
      HashInputDataInjective(b, d);
    }
    var tampered := chain[i := b.(data := d)];
    assert !LinkedTo(sha256, tampered[i - 1], tampered[i]);
  }

  /** The validator never re-checks genesis: any change to it that keeps its stored hash passes unnoticed. */
  lemma GenesisTamperUndetected(sha256: Digest, chain: seq<Block>, g: Block)
    requires ChainValid(sha256, chain) && |chain| >= 1 && g.hash == chain[0].hash
    ensures ChainValid(sha256, chain[0 := g])
  {
    var tampered := chain[0 := g];
    forall i | 1 <= i < |tampered| ensures LinkedTo(sha256, tampered[i - 1], tampered[i]) {
      assert LinkedTo(sha256, chain[i - 1], chain[i]);
    }
  }

  /** In particular, rewriting the genesis payload alone is not detected. */
  lemma GenesisDataTamperUndetected(sha256: Digest, chain: seq<Block>, d: string)
    requires ChainValid(sha256, chain) && |chain| >= 1
    ensures ChainValid(sha256, chain[0 := chain[0].(data := d)])
  {
    GenesisTamperUndetected(sha256, chain, chain[0].(data := d));
  }

  /**
    The hash input has no separators, so it is ambiguous: index 1 at time 23
    and index 12 at time 3 give the same input, hence the same hash.
   */
  lemma HashInputAmbiguous(b: Block)
    requires b.index == 1 && b.timestamp == 23
    ensures HashInput(b.(index := 12, timestamp := 3)) == HashInput(b)
  {
    assert NatToDecimal(1) == "1";
    assert NatToDecimal(12) == NatToDecimal(1) + "2" == "12";
    assert NatToDecimal(2) == "2";
    assert IntToDecimal(3) == "3";
    assert IntToDecimal(23) == NatToDecimal(2) + "3" == "23";
    assert NatToDecimal(1) + IntToDecimal(23) == NatToDecimal(12) + IntToDecimal(3);
  }

  /** So the validator misses a change of index 1 / timestamp 23 to index 12 / timestamp 3, though the index no longer follows its predecessor. */
  lemma IndexTimestampTamperUndetected(sha256: Digest, chain: seq<Block>, i: nat)
    requires ChainValid(sha256, chain) && 1 <= i < |chain|
    requires chain[i].index == 1 && chain[i].timestamp == 23
    ensures ChainValid(sha256, chain[i := chain[i].(index := 12, timestamp := 3)])
  {
    var b := chain[i];
    HashInputAmbiguous(b);
    var tampered := chain[i := b.(index := 12, timestamp := 3)];
    forall j | 1 <= j < |tampered| ensures LinkedTo(sha256, tampered[j - 1], tampered[j]) {
      assert LinkedTo(sha256, chain[j - 1], chain[j]);
    }
  }

  /**
    The validator does not re-check the difficulty: a block sealed and linked
    on top of genesis without mining passes validation even when its hash
    lacks the "0000" prefix, although such a chain is not a ledger.
   */
  lemma ValidatorIgnoresDifficulty(sha256: Digest, timestamp: int, data: string)
    requires !IsValidProof(sha256, Candidate(GenesisBlock(sha256, timestamp), data, timestamp))
    ensures var g := GenesisBlock(sha256, timestamp);
      var b := Seal(sha256, Candidate(g, data, timestamp));
      ChainValid(sha256, [g, b]) && !IsValidProof(sha256, b) && !LedgerInvariant(sha256, [g, b])
  {
    var g := GenesisBlock(sha256, timestamp);
    var c := Candidate(g, data, timestamp);
    HashIgnoresStoredHash(sha256, c, HashBlock(sha256, c));
    assert !MinedOn(sha256, [g, Seal(sha256, c)][0], [g, Seal(sha256, c)][1]);
  }
}
