/**
  Blocks of the ledger and the pure computations over them: the hash input,
  the block hash, the proof-of-work test, the shape of genesis and mined
  blocks, and the two chain predicates (what the validator checks, and the
  stronger invariant every ledger built by the append path keeps).
 */
module Blocks {
  import opened Decimal

  /**
    SHA-256 of the UTF-8 bytes of a string, rendered as lowercase hex.  The
    digest is a foreign library, so it enters the model as a parameter and
    nothing is assumed about it.
   */
  type Digest = string -> string

  /** One ledger record; `hash` is empty while the block is a mining candidate. */
  datatype Block = Block(
    index: nat,
    timestamp: int,
    data: string,
    previousHash: string,
    hash: string,
    nonce: nat)

  /** The difficulty: a mined hash begins with four '0' hex digits. */
  const ProofPrefix: string := "0000"

  const GenesisData: string := "Genesis Block"

  /** The sentinel standing for the predecessor's hash in the genesis block. */
  const GenesisPreviousHash: string := "0"

  /** What is hashed: index, timestamp, data, previous hash and nonce, concatenated with no separator. */
  function HashInput(b: Block): (input: string)
    ensures |input| == |NatToDecimal(b.index)| + |IntToDecimal(b.timestamp)| + |b.data| +
      |b.previousHash| + |NatToDecimal(b.nonce)|
  {
    NatToDecimal(b.index) + IntToDecimal(b.timestamp) + b.data + b.previousHash + NatToDecimal(b.nonce)
  }

  /** The digest of the hash input; the stored hash field plays no part. */
  function HashBlock(sha256: Digest, b: Block): (digest: string)
    ensures digest == sha256(HashInput(b.(hash := "")))
  {
    sha256(HashInput(b))
  }

  /** The difficulty test: the block's recomputed hash starts with the proof prefix. */
  function IsValidProof(sha256: Digest, b: Block): (valid: bool)
    ensures valid <==> |HashBlock(sha256, b)| >= 4 && forall k :: 0 <= k < 4 ==> HashBlock(sha256, b)[k] == '0'
  {
    ProofPrefix <= HashBlock(sha256, b)
  }

  function WithNonce(b: Block, n: nat): Block {
    b.(nonce := n)
  }

  /** The block with its hash field set to the hash of its other fields. */
  function Seal(sha256: Digest, b: Block): Block {
    b.(hash := HashBlock(sha256, b))
  }

  function GenesisBlock(sha256: Digest, timestamp: int): Block {
    Seal(sha256, Block(0, timestamp, GenesisData, GenesisPreviousHash, "", 0))
  }

  /** The unsealed block the append path starts mining from, on top of `previous`. */
  function Candidate(previous: Block, data: string, timestamp: int): Block {
    Block(previous.index + 1, timestamp, data, previous.hash, "", 0)
  }

  /**
    Some nonce at or above the block's current one passes the difficulty test.
    Whether one does depends on SHA-256 outputs, so the append path demands it.
   */
  ghost predicate Mineable(sha256: Digest, b: Block) {
    exists n: nat :: b.nonce <= n && IsValidProof(sha256, WithNonce(b, n))
  }

  /** `n` is where the nonce search starting at `b.nonce` stops: it passes, and no nonce before it does. */
  predicate IsLeastValidNonce(sha256: Digest, b: Block, n: nat) {
    b.nonce <= n && IsValidProof(sha256, WithNonce(b, n)) &&
    forall k :: b.nonce <= k < n ==> !IsValidProof(sha256, WithNonce(b, k))
  }

  /** Whenever some nonce at or above the start passes, a least such nonce exists. */
  lemma {:induction false} LeastValidNonceExists(sha256: Digest, b: Block, n: nat)
    requires b.nonce <= n && IsValidProof(sha256, WithNonce(b, n))
    ensures exists m: nat :: m <= n && IsLeastValidNonce(sha256, b, m)
    decreases n
  {
    if k :| b.nonce <= k < n && IsValidProof(sha256, WithNonce(b, k)) {
      LeastValidNonceExists(sha256, b, k);
    } else {
      assert IsLeastValidNonce(sha256, b, n);
    }
  }

  /** The first nonce, counting up from the block's own, whose hash passes the difficulty test. */
  ghost function LeastValidNonce(sha256: Digest, b: Block): (n: nat)
    requires Mineable(sha256, b)
    ensures IsLeastValidNonce(sha256, b, n)
  {
    var some: nat :| b.nonce <= some && IsValidProof(sha256, WithNonce(b, some));
    LeastValidNonceExists(sha256, b, some);
    var least: nat :| least <= some && IsLeastValidNonce(sha256, b, least);
    least
  }

  /** The block the append path commits on top of `previous`: the candidate at its least valid nonce, sealed. */
  ghost function MinedBlock(sha256: Digest, previous: Block, data: string, timestamp: int): Block
    requires Mineable(sha256, Candidate(previous, data, timestamp))
  {
    var c := Candidate(previous, data, timestamp);
    Seal(sha256, WithNonce(c, LeastValidNonce(sha256, c)))
  }

  /** What the validator asks of one adjacent pair: `cur` hashes to its stored hash and points at `prev`. */
  predicate LinkedTo(sha256: Digest, prev: Block, cur: Block) {
    cur.hash == HashBlock(sha256, cur) && cur.previousHash == prev.hash
  }

  /** The validator's verdict: every adjacent pair from position 1 on is linked. */
  predicate ChainValid(sha256: Digest, chain: seq<Block>) {
    forall i :: 1 <= i < |chain| ==> LinkedTo(sha256, chain[i - 1], chain[i])
  }

  predicate IsGenesis(sha256: Digest, b: Block) {
    b.index == 0 && b.data == GenesisData && b.previousHash == GenesisPreviousHash &&
    b.nonce == 0 && b.hash == HashBlock(sha256, b)
  }

  /** One mined block on top of its predecessor: next index, linked, sealed, and past the difficulty test. */
  predicate MinedOn(sha256: Digest, prev: Block, cur: Block) {
    cur.index == prev.index + 1 && cur.previousHash == prev.hash &&
    cur.hash == HashBlock(sha256, cur) && IsValidProof(sha256, cur)
  }

  /** The invariant of every ledger built by construction and appends. */
  predicate LedgerInvariant(sha256: Digest, chain: seq<Block>) {
    |chain| >= 1 && IsGenesis(sha256, chain[0]) &&
    forall i :: 1 <= i < |chain| ==> MinedOn(sha256, chain[i - 1], chain[i])
  }
}
