/**
  The ledger object: a chain of blocks owned by one `Blockchain`, created with
  its genesis block, grown only by mining, and checked by the validator.
 */
module Ledger {
  import opened Blocks
  import ChainProperties

  class Blockchain {
    /** The SHA-256 hex digest the ledger hashes with. */
    const sha256: Digest
    var chain: seq<Block>

    /** Every ledger built by the constructor and MineBlock keeps the ledger invariant. */
    ghost predicate Valid()
      reads this
    {
      LedgerInvariant(sha256, chain)
    }

    /** A new ledger holds only its genesis block, stamped with the given time. */
    constructor (sha256: Digest, timestamp: int)
      ensures this.sha256 == sha256
      ensures chain == [GenesisBlock(sha256, timestamp)]
      ensures Valid()
    {
      this.sha256 := sha256;
      chain := [];
      new;
      CreateGenesisBlock(timestamp);
      ChainProperties.GenesisShape(sha256, timestamp);
    }

    /** Appends the genesis block, sealed with its own hash and not mined. */
    method CreateGenesisBlock(timestamp: int)
      modifies this
      ensures chain == old(chain) + [GenesisBlock(sha256, timestamp)]
    {
      var genesis := Block(0, timestamp, GenesisData, GenesisPreviousHash, "", 0);
      var hash := HashBlock(sha256, genesis);
      chain := chain + [genesis.(hash := hash)];
    }

    /**
      Searches nonces upward from the block's own until the block passes the
      difficulty test; nothing but the nonce changes, and the nonce found is the
      first passing one.
     */
    method ProofOfWork(block: Block) returns (mined: Block)
      requires Mineable(sha256, block)
      ensures mined == WithNonce(block, mined.nonce)
      ensures IsLeastValidNonce(sha256, block, mined.nonce)
      ensures IsValidProof(sha256, mined)
    {
      ghost var target :| block.nonce <= target && IsValidProof(sha256, WithNonce(block, target));
      mined := block;
      while !IsValidProof(sha256, mined)
        invariant mined == WithNonce(block, mined.nonce)
        invariant block.nonce <= mined.nonce <= target
        invariant forall k :: block.nonce <= k < mined.nonce ==> !IsValidProof(sha256, WithNonce(block, k))
        decreases target - mined.nonce
      {
        mined := mined.(nonce := mined.nonce + 1);
      }
    }

    /**
      Mines a block holding `data` on top of the last block and appends it:
      the earlier blocks stay as they were, and the ledger invariant is kept.
     */
    method MineBlock(data: string, timestamp: int)
      requires |chain| >= 1
      requires Mineable(sha256, Candidate(chain[|chain| - 1], data, timestamp))
      modifies this
      ensures chain == old(chain) + [MinedBlock(sha256, old(chain[|chain| - 1]), data, timestamp)]
      ensures old(Valid()) ==> Valid()
    {
      var previous := chain[|chain| - 1];
      var block := Candidate(previous, data, timestamp);
      block := ProofOfWork(block);
      var hash := HashBlock(sha256, block);
      block := block.(hash := hash);
      chain := chain + [block];
      if old(Valid()) {
        ChainProperties.MineKeepsLedger(sha256, old(chain), data, timestamp);
      }
    }

    /** Walks the chain from position 1, returning false at the first block that is stale or not linked. */
    method IsChainValid() returns (valid: bool)
      ensures valid == ChainValid(sha256, chain)
      ensures Valid() ==> valid
    {
      var i := 1;
      while i < |chain|
        invariant 1 <= i
        invariant forall k :: 1 <= k < i && k < |chain| ==> LinkedTo(sha256, chain[k - 1], chain[k])
      {
        var current := chain[i];
        var previous := chain[i - 1];
        if current.hash != HashBlock(sha256, current) {
          return false;
        }
        if current.previousHash != previous.hash {
          return false;
        }
        i := i + 1;
      }
      return true;
    }
  }
}
