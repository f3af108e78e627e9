# rust_blockchain ledger, modelled in Dafny

A model of a minimal proof-of-work ledger: a `Blockchain` owns a sequence of
`Block`s (index, timestamp, data, previous hash, hash, nonce). A new ledger
holds one genesis block. `mine_block` builds a candidate on top of the last
block. It then searches nonces upward from 0 until the block's SHA-256 hex
hash starts with `"0000"`, seals the block with that hash and appends it.
`is_chain_valid` walks the chain from position 1. It checks that each block's
stored hash is its recomputed hash and that each block points at its
predecessor's hash.

Files:

- `decimal.dfy` (module `Decimal`): the decimal rendering of `u64` and `i64`
  that the hash input is built from, with round trips against a reader.
- `blocks.dfy` (module `Blocks`): the `Block` datatype and the pure functions
  `hash_block` and `is_valid_proof`. It also holds the genesis, candidate and
  mined-block shapes, the least passing nonce, the validator's predicate
  `ChainValid` and the stronger `LedgerInvariant`.
- `chain_properties.dfy` (module `ChainProperties`): lemmas about those
  functions. They cover genesis and mined-block shape, preservation of the
  invariant, soundness of the validator, and which tampering it detects and
  which it misses.
- `ledger.dfy` (module `Ledger`): class `Blockchain` with the field `chain`.
  Its methods are the constructor, `CreateGenesisBlock`, `ProofOfWork`,
  `MineBlock` and `IsChainValid`. The mutators state the new `chain` in terms
  of the old one. `Valid()` is the ledger invariant, established by the
  constructor and kept by `MineBlock`.

Modelling choices:

- SHA-256 with lowercase-hex rendering is a foreign library. It is the
  parameter `sha256: Digest` (a total `string -> string`). Nothing is assumed
  about its outputs.
- The Rust struct `Blockchain` holds only `chain`. The `const sha256` of the
  Dafny class is a modelling device: it stands for the fixed library function
  and is not a field of the source struct.
- `hash_block` builds a fresh hasher and never reads `self`; `is_valid_proof`
  uses `self` only to call `hash_block`. Both are module-level functions of
  the digest and the block.
- The clock `chrono::Utc::now()` becomes a `timestamp` parameter of the
  constructor and of `MineBlock`.
- The nonce search ends only if some nonce passes, and that depends on SHA-256
  outputs. `ProofOfWork` and `MineBlock` therefore require `Mineable`: some
  nonce at or above the start passes the test. Under that condition the loop
  is proved to stop at the least such nonce.
- The hash input concatenates the fields with no separator, so it is not
  injective: index 1 at time 23 and index 12 at time 3 hash alike
  (`HashInputAmbiguous`, `IndexTimestampTamperUndetected`).
- The validator never re-checks genesis (`GenesisDataTamperUndetected`). For
  other blocks, data tampering is detected only when SHA-256 does not collide
  on the two inputs (`DataTamperDetected` takes that as a precondition).

## Model

| member | source | states |
|---|---|---|
| `Decimal.NatToDecimal` | src/main.rs:40-43 | the `{}` rendering of an unsigned field is a non-empty digit string without leading zeros; it starts with '0' exactly for 0 and has one digit exactly below 10 |
| `Decimal.IntToDecimal` | src/main.rs:40-43 | the `{}` rendering of the signed timestamp starts with '-' exactly when it is negative, followed by a canonical digit string |
| `Decimal.NatDecimalRoundTrip` | src/main.rs:40-43 | reading back the rendering of n gives n |
| `Decimal.CanonicalDecimalRoundTrip` | src/main.rs:40-43 | every canonical digit string is the rendering of its value |
| `Decimal.NatToDecimalInjective` | src/main.rs:40-43 | distinct unsigned values render differently |
| `Decimal.IntDecimalRoundTrip` | src/main.rs:40-43 | reading back the rendering of a signed timestamp gives it back |
| `Blocks.HashInput` | src/main.rs:40-43 | the hashed string is as long as the decimal index, decimal timestamp, data, previous hash and decimal nonce together: nothing is added between them |
| `ChainProperties.HashInputLayout` | src/main.rs:40-43 | the hashed string is the decimal index, then the decimal timestamp, then the data, then the previous hash, then the decimal nonce, back to back |
| `Blocks.HashBlock` | src/main.rs:38-46 | the block hash is the digest of that input, and the stored hash field plays no part in it |
| `Blocks.IsValidProof` | src/main.rs:70-73 | a block passes the difficulty test exactly when its recomputed hash has at least four characters and the first four are '0' |
| `Blocks.LeastValidNonceExists` | src/main.rs:64-68 | if some nonce at or above the start passes, a least passing nonce exists at or below it |
| `Blocks.LeastValidNonce` | src/main.rs:64-68 | the nonce the search stops at: it passes, and every nonce from the start up to it fails |
| `ChainProperties.HashIgnoresStoredHash` | src/main.rs:38-46 | the block hash depends on index, timestamp, data, previous hash and nonce, not on the stored hash |
| `ChainProperties.GenesisShape` | src/main.rs:24-36 | genesis has index 0, data "Genesis Block", previous hash "0", nonce 0, the given timestamp and its own hash; alone it satisfies the ledger invariant |
| `ChainProperties.MinedBlockShape` | src/main.rs:48-61 | a mined block has the next index, the caller's data and timestamp, the predecessor's hash as link, the least passing nonce from 0, and a stored hash equal to its recomputed hash that starts with "0000" |
| `ChainProperties.MineKeepsLedger` | src/main.rs:48-62 | appending a mined block to a chain that satisfies the ledger invariant keeps the invariant |
| `ChainProperties.LedgerIsChainValid` | src/main.rs:75-89 | every chain that satisfies the ledger invariant passes the validator |
| `ChainProperties.LedgerIndexAt` | src/main.rs:49-51 | in a ledger, the block at position i has index i |
| `ChainProperties.LedgerMinedHashesHavePrefix` | src/main.rs:58-72 | in a ledger, every block after genesis has a stored hash starting with "0000" |
| `ChainProperties.ChainValidAppend` | src/main.rs:75-89 | a chain extended by one block is valid exactly when the shorter chain is valid and the new block is linked to the old tail |
| `ChainProperties.BrokenLinkDetected` | src/main.rs:84-86 | a block after genesis whose previous hash differs from its predecessor's hash makes validation fail |
| `ChainProperties.StaleHashDetected` | src/main.rs:80-82 | a block after genesis whose stored hash differs from its recomputed hash makes validation fail |
| `ChainProperties.HashInputDataInjective` | src/main.rs:40-43 | two blocks that differ only in data have different hash inputs |
| `ChainProperties.DataTamperDetected` | src/main.rs:76-86 | overwriting the data of a block after genesis in a valid chain makes validation fail, provided SHA-256 does not collide on the two inputs |
| `ChainProperties.GenesisTamperUndetected` | src/main.rs:76-78 | any change to genesis that keeps its stored hash leaves a valid chain valid |
| `ChainProperties.GenesisDataTamperUndetected` | src/main.rs:76-86 | rewriting only the genesis data leaves a valid chain valid |
| `ChainProperties.HashInputAmbiguous` | src/main.rs:40-43 | index 1 with timestamp 23 and index 12 with timestamp 3 give the same hash input |
| `ChainProperties.IndexTimestampTamperUndetected` | src/main.rs:75-89 | changing a block's index 1 and timestamp 23 to 12 and 3 leaves a valid chain valid |
| `ChainProperties.ValidatorIgnoresDifficulty` | src/main.rs:75-89 | a block sealed and linked on genesis without passing the difficulty test still passes validation, although the chain breaks the ledger invariant |
| `Ledger.Blockchain.constructor` | src/main.rs:18-22 | a new ledger holds exactly the genesis block for the given time and satisfies the ledger invariant |
| `Ledger.Blockchain.CreateGenesisBlock` | src/main.rs:24-36 | appends the sealed genesis block and leaves the rest of the chain unchanged |
| `Ledger.Blockchain.ProofOfWork` | src/main.rs:64-68 | changes only the nonce, never lowers it, and stops at the first nonce whose block passes the difficulty test |
| `Ledger.Blockchain.MineBlock` | src/main.rs:48-62 | the new chain is the old chain plus exactly the mined block on top of the old tail; a ledger that satisfied the invariant still does |
| `Ledger.Blockchain.IsChainValid` | src/main.rs:75-89 | returns true exactly when every block from position 1 has its recomputed hash as stored hash and points at its predecessor's hash; reads only; returns true on every ledger built by the constructor and MineBlock |

## Left out

- SHA-256 internals (the `sha2` crate) and its hex rendering: the digest is a parameter. The model does not assume 64 lowercase hex characters or freedom from collisions. Where a lemma needs collision freedom, it states it as a precondition.
- The hashed bytes: the source hashes the UTF-8 encoding of the input string. The model applies the digest to the character sequence. That is the same function up to the fixed encoding.
- The clock `chrono::Utc::now()`: replaced by caller-supplied timestamps.
- Ledger.Blockchain.ProofOfWork: termination and attempt count of the nonce search are not modelled. It requires that a passing nonce exists at or above the start, which the source does not demand. Without one, the source loops forever.
- Ledger.Blockchain.MineBlock: requires a non-empty chain, where the source would panic on `unwrap`. It also requires that the candidate is mineable, for the same reason as ProofOfWork.
- Ledger.Blockchain.ProofOfWork: the source updates the candidate's nonce through `&mut` in place. The model returns the updated block value. No other reference to the candidate exists, so nothing observable differs.
- `u64` overflow of `index + 1` and `nonce += 1`, and the `i64` range of the timestamp: indices and nonces are unbounded naturals and timestamps are unbounded integers, so the Rust panic on overflow is not modelled.
- `main`: the fixed demo sequence, its `println!` and the `Debug` output are I/O only.
