/** A block (Block.py): its fields, its digest, and the nonce search that mines it. */
module Blocks {
  import opened Transactions
  import opened Digest

  /** The observable contents of a block at one moment. */
  datatype BlockData = BlockData(
    previousHash: string,
    timestamp: int,
    transactions: seq<Tx>,
    nonce: nat,
    hash: string)

  /** The digest of a block's current fields, ignoring whatever hash it stores. */
  function Recompute(b: BlockData, sha: HashFn): (r: string)
    ensures IsHexDigest(r)
  {
    sha(b.previousHash, b.timestamp, b.transactions, b.nonce)
  }

  /** The digest covers the four hashed fields only: the stored hash plays no part. */
  lemma RecomputeIgnoresStoredHash(b: BlockData, forged: string, sha: HashFn)
    ensures Recompute(b.(hash := forged), sha) == Recompute(b, sha)
  {
  }

  /** A block whose stored hash is the digest of its current fields. */
  predicate Sealed(b: BlockData, sha: HashFn) {
    b.hash == Recompute(b, sha)
  }

  /** The block was mined at difficulty `d` with the search starting at nonce
      `start`: its stored hash meets the target and no nonce from `start` up to
      its own gives a digest that does. */
  predicate FirstSolutionFrom(b: BlockData, sha: HashFn, d: nat, start: nat) {
    && MeetsTarget(b.hash, d)
    && start <= b.nonce
    && forall n: nat :: start <= n < b.nonce ==> !MeetsTarget(sha(b.previousHash, b.timestamp, b.transactions, n), d)
  }

  class Block {
    const sha: HashFn
    var previousHash: string
    var timestamp: int
    var transactions: seq<Tx>
    var nonce: nat
    var hash: string

    function Value(): BlockData
      reads this
    {
      BlockData(previousHash, timestamp, transactions, nonce, hash)
    }

    /** A new, unmined block: nonce 0 and the hash of its fields already stored. */
    constructor (sha: HashFn, timestamp: int, transactions: seq<Tx>, previousHash: string := "")
      ensures this.sha == sha
      ensures Value() == BlockData(previousHash, timestamp, transactions, 0, sha(previousHash, timestamp, transactions, 0))
      ensures Sealed(Value(), sha)
    {
      this.sha := sha;
      this.previousHash := previousHash;
      this.timestamp := timestamp;
      this.transactions := transactions;
      this.nonce := 0;
      new;
      this.hash := CalculateHash();
    }

    /** The digest of the current fields; reads the block and changes nothing. */
    function CalculateHash(): (r: string)
      reads this
      ensures IsHexDigest(r)
      ensures r == Recompute(Value(), sha)
    {
      sha(previousHash, timestamp, transactions, nonce)
    }

    /** Some nonce after the current one gives a digest meeting difficulty `d`. */
    ghost predicate SolvableAfterNonce(d: nat)
      reads this
    {
      exists n: nat :: nonce < n && MeetsTarget(sha(previousHash, timestamp, transactions, n), d)
    }

    /** Proof of work: step the nonce and refresh the stored hash until the first
        `difficulty` characters of the hash are '0'. The search stops only when a
        solution exists, which is what the precondition asks for. */
    method MineBlock(difficulty: nat)
      requires MeetsTarget(hash, difficulty) || SolvableAfterNonce(difficulty)
      modifies this`nonce, this`hash
      ensures MeetsTarget(hash, difficulty)
      ensures previousHash == old(previousHash) && timestamp == old(timestamp) && transactions == old(transactions)
      ensures old(MeetsTarget(hash, difficulty)) ==> nonce == old(nonce) && hash == old(hash)
      ensures !old(MeetsTarget(hash, difficulty)) ==>
                hash == CalculateHash() && FirstSolutionFrom(Value(), sha, difficulty, old(nonce) + 1)
      ensures old(hash == CalculateHash()) ==>
                hash == CalculateHash() && FirstSolutionFrom(Value(), sha, difficulty, old(nonce))
    {
      ghost var start, initial := nonce, hash;
      ghost var goal: nat := nonce;
      if !MeetsTarget(hash, difficulty) {
        goal :| nonce < goal && MeetsTarget(sha(previousHash, timestamp, transactions, goal), difficulty);
      }
      while Prefix(hash, difficulty) != Zeros(difficulty)
        invariant start <= nonce <= goal
        invariant goal != start ==> MeetsTarget(sha(previousHash, timestamp, transactions, goal), difficulty)
        invariant nonce == goal ==> MeetsTarget(hash, difficulty)
        invariant nonce == start ==> hash == initial
        invariant nonce != start ==> hash == CalculateHash()
        invariant forall n :: start < n < nonce ==> !MeetsTarget(sha(previousHash, timestamp, transactions, n), difficulty)
        decreases goal - nonce
      {
        nonce := nonce + 1;
        hash := CalculateHash();
      }
    }
  }
}
