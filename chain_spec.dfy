/** What a chain of blocks means, independent of the objects that hold it:
    the genesis block, the ledger sum behind balances, and chain integrity. */
module ChainSpec {
  import opened Wrappers
  import opened Transactions
  import opened Digest
  import opened Blocks

  /** 2018-06-11 00:00:00, read as UTC seconds since the epoch. */
  const GenesisTimestamp: int := 1528675200
  const DefaultDifficulty: nat := 5
  const DefaultMiningReward: int := 100

  /** The fixed first block: no transactions, empty link, nonce 0, hash of those fields. */
  function GenesisBlock(sha: HashFn): (g: BlockData)
    ensures g.previousHash == "" && g.timestamp == GenesisTimestamp
    ensures g.transactions == [] && g.nonce == 0
    ensures Sealed(g, sha)
  {
    BlockData("", GenesisTimestamp, [], 0, sha("", GenesisTimestamp, [], 0))
  }

  // ---------------------------------------------------------------- balances

  /** What one transaction does to the balance of `a`: debit when `a` sends,
      credit when `a` receives. */
  function TxNet(tx: Tx, a: string): (r: int)
    ensures tx.fromAddress != Some(a) && tx.toAddress != a ==> r == 0
    ensures tx.fromAddress == Some(a) && tx.toAddress == a ==> r == 0
    ensures tx.fromAddress == Some(a) && tx.toAddress != a ==> r == -tx.amount
    ensures tx.fromAddress != Some(a) && tx.toAddress == a ==> r == tx.amount
  {
    (if tx.toAddress == a then tx.amount else 0) - (if tx.fromAddress == Some(a) then tx.amount else 0)
  }

  /** Net effect of a list of transactions on `a`. */
  function TxsNet(txs: seq<Tx>, a: string): int {
    if txs == [] then 0 else TxNet(txs[0], a) + TxsNet(txs[1..], a)
  }

  /** The balance of `a`: the net of every transaction of every block. */
  function Balance(blocks: seq<BlockData>, a: string): int {
    if blocks == [] then 0 else TxsNet(blocks[0].transactions, a) + Balance(blocks[1..], a)
  }

  /** `a` is the sender or the receiver of some transaction in `txs`. */
  predicate MentionedIn(txs: seq<Tx>, a: string) {
    exists i :: 0 <= i < |txs| && (txs[i].fromAddress == Some(a) || txs[i].toAddress == a)
  }

  predicate MentionedInChain(blocks: seq<BlockData>, a: string) {
    exists k :: 0 <= k < |blocks| && MentionedIn(blocks[k].transactions, a)
  }

  lemma {:induction false} TxsNetAppend(txs: seq<Tx>, tx: Tx, a: string)
    ensures TxsNet(txs + [tx], a) == TxsNet(txs, a) + TxNet(tx, a)
  {
    if txs != [] {
      assert (txs + [tx])[1..] == txs[1..] + [tx];
      TxsNetAppend(txs[1..], tx, a);
    }
  }

  /** Appending a block adds exactly that block's net to every balance. */
  lemma {:induction false} BalanceAppend(blocks: seq<BlockData>, b: BlockData, a: string)
    ensures Balance(blocks + [b], a) == Balance(blocks, a) + TxsNet(b.transactions, a)
  {
    if blocks != [] {
      assert (blocks + [b])[1..] == blocks[1..] + [b];
      BalanceAppend(blocks[1..], b, a);
    }
  }

  /** Balances of two stretches of chain add up. */
  lemma {:induction false} BalanceConcat(xs: seq<BlockData>, ys: seq<BlockData>, a: string)
    ensures Balance(xs + ys, a) == Balance(xs, a) + Balance(ys, a)
  {
    if xs == [] {
      assert xs + ys == ys;
    } else {
      assert (xs + ys)[1..] == xs[1..] + ys;
      BalanceConcat(xs[1..], ys, a);
    }
  }

  /** A self-transfer changes no balance at all. */
  lemma SelfTransferNetsZero(from: string, amount: int, a: string)
    ensures TxNet(Tx(Some(from), from, amount), a) == 0
  {
  }

  /** A reward (no sender) never debits anybody. */
  lemma RewardOnlyCredits(to: string, amount: int, a: string)
    requires amount >= 0
    ensures TxNet(Tx(None, to, amount), a) == (if to == a then amount else 0)
    ensures TxNet(Tx(None, to, amount), a) >= 0
  {
  }

  lemma {:induction false} TxsNetUnmentioned(txs: seq<Tx>, a: string)
    requires !MentionedIn(txs, a)
    ensures TxsNet(txs, a) == 0
  {
    if txs != [] {
      assert !MentionedIn(txs[1..], a) by {
        forall i | 0 <= i < |txs[1..]|
          ensures txs[1..][i].fromAddress != Some(a) && txs[1..][i].toAddress != a
        {
          assert txs[1..][i] == txs[i + 1];
        }
      }
      TxsNetUnmentioned(txs[1..], a);
    }
  }

  /** An address that appears in no transaction has balance 0. */
  lemma {:induction false} BalanceUnmentioned(blocks: seq<BlockData>, a: string)
    requires !MentionedInChain(blocks, a)
    ensures Balance(blocks, a) == 0
  {
    if blocks != [] {
      TxsNetUnmentioned(blocks[0].transactions, a);
      assert !MentionedInChain(blocks[1..], a) by {
        forall k | 0 <= k < |blocks[1..]|
          ensures !MentionedIn(blocks[1..][k].transactions, a)
        {
          assert blocks[1..][k] == blocks[k + 1];
        }
      }
      BalanceUnmentioned(blocks[1..], a);
    }
  }

  // ---------------------------------------------------------------- integrity

  /** Block `i` still carries the digest of its fields and still links to the
      recomputed digest of block `i - 1`. */
  predicate LinkHolds(blocks: seq<BlockData>, i: nat, sha: HashFn)
    requires 1 <= i < |blocks|
  {
    Sealed(blocks[i], sha) && blocks[i].previousHash == Recompute(blocks[i - 1], sha)
  }

  /** Every block after the genesis block is sealed and linked. The genesis
      block's own stored hash and the difficulty target are not part of it. */
  predicate Intact(blocks: seq<BlockData>, sha: HashFn) {
    forall i :: 1 <= i < |blocks| ==> LinkHolds(blocks, i, sha)
  }

  /** A chain holding only its genesis block always verifies. */
  lemma SingleBlockIntact(b: BlockData, sha: HashFn)
    ensures Intact([b], sha)
  {
  }

  /** Extending an intact chain whose tip is sealed by a sealed block linked to the
      tip's stored hash gives an intact chain; this is what mining does. */
  lemma IntactExtend(blocks: seq<BlockData>, b: BlockData, sha: HashFn)
    requires |blocks| >= 1 && Intact(blocks, sha)
    requires Sealed(blocks[|blocks| - 1], sha)
    requires b.previousHash == blocks[|blocks| - 1].hash && Sealed(b, sha)
    ensures Intact(blocks + [b], sha)
  {
    var ext := blocks + [b];
    forall i | 1 <= i < |ext| ensures LinkHolds(ext, i, sha) {
      if i < |blocks| {
        assert LinkHolds(blocks, i, sha);
      }
    }
  }

  /** The blocks of an intact chain with at least two blocks are all sealed except
      possibly the genesis block; in particular its tip is. */
  lemma IntactTipSealed(blocks: seq<BlockData>, sha: HashFn)
    requires |blocks| >= 2 && Intact(blocks, sha)
    ensures Sealed(blocks[|blocks| - 1], sha)
  {
    assert LinkHolds(blocks, |blocks| - 1, sha);
  }

  /** Every prefix of an intact chain is intact. */
  lemma IntactPrefix(blocks: seq<BlockData>, n: nat, sha: HashFn)
    requires n <= |blocks| && Intact(blocks, sha)
    ensures Intact(blocks[..n], sha)
  {
    forall i | 1 <= i < n ensures LinkHolds(blocks[..n], i, sha) {
      assert LinkHolds(blocks, i, sha);
    }
  }

  /** Tampering with the fields of any block of a chain of two or more blocks,
      leaving its stored hash as it was, is detected, provided the digest of the
      altered fields differs from the digest of the original ones (no collision). */
  lemma TamperedPayloadDetected(blocks: seq<BlockData>, k: nat, t: BlockData, sha: HashFn)
    requires |blocks| >= 2 && k < |blocks| && Intact(blocks, sha)
    requires t.hash == blocks[k].hash
    requires Recompute(t, sha) != Recompute(blocks[k], sha)
    ensures !Intact(blocks[k := t], sha)
  {
    var bad := blocks[k := t];
    if k >= 1 {
      assert LinkHolds(blocks, k, sha);
      assert !LinkHolds(bad, k, sha);
    } else {
      assert LinkHolds(blocks, 1, sha);
      assert !LinkHolds(bad, 1, sha);
    }
  }

  /** Even re-sealing a tampered block is detected, through the link stored in
      its successor, unless the new digest collides with the old one. */
  lemma ResealedTamperDetected(blocks: seq<BlockData>, k: nat, t: BlockData, sha: HashFn)
    requires k + 1 < |blocks| && Intact(blocks, sha)
    requires Recompute(t, sha) != Recompute(blocks[k], sha)
    ensures !Intact(blocks[k := t], sha)
  {
    assert LinkHolds(blocks, k + 1, sha);
    assert !LinkHolds(blocks[k := t], k + 1, sha);
  }

  /** The stored hash of the genesis block is never compared with anything, so
      overwriting it leaves an intact chain intact. */
  lemma GenesisHashUnchecked(blocks: seq<BlockData>, forged: string, sha: HashFn)
    requires |blocks| >= 1 && Intact(blocks, sha)
    ensures Intact(blocks[0 := blocks[0].(hash := forged)], sha)
  {
    var bad := blocks[0 := blocks[0].(hash := forged)];
    forall i | 1 <= i < |bad| ensures LinkHolds(bad, i, sha) {
      assert LinkHolds(blocks, i, sha);
    }
  }

  /** Verification never looks at the difficulty: with a digest that is all 'f',
      a two-block chain is intact although its second hash has no leading zero. */
  lemma DifficultyNotRechecked()
    ensures var sha: HashFn := (p: string, t: int, x: seq<Tx>, n: nat) => Fs();
            var g := GenesisBlock(sha);
            var b := BlockData(g.hash, 0, [], 0, Fs());
            Intact([g, b], sha) && !MeetsTarget(b.hash, 1)
  {
    var sha: HashFn := (p: string, t: int, x: seq<Tx>, n: nat) => Fs();
    var g := GenesisBlock(sha);
    var b := BlockData(g.hash, 0, [], 0, Fs());
    assert LinkHolds([g, b], 1, sha);
    MeetsTargetIff(Fs(), 1);
  }

  function Fs(): (s: string)
    ensures IsHexDigest(s) && s[0] == 'f'
  {
    seq(DigestLength, _ => 'f')
  }
}
