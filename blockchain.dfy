/** The chain (BlockChain.py): the blocks, the pending-transaction buffer, the
    difficulty and the mining reward, and the operations on them. */
module BlockChains {
  import opened Wrappers
  import opened Transactions
  import opened Digest
  import opened Blocks
  import opened ChainSpec

  class BlockChain {
    const sha: HashFn
    /** The blocks, genesis first. A block is only ever appended after mining and
        is not changed afterwards, so the chain holds the blocks' contents. */
    var chain: seq<BlockData>
    var difficulty: nat
    var pendingTransactions: seq<Tx>
    var miningReward: int

    /** The chain is never empty. */
    ghost predicate Valid()
      reads this
    {
      |chain| >= 1
    }

    /** A chain holding only the genesis block, difficulty 5, no pending
        transactions and a reward of 100. */
    constructor (sha: HashFn)
      ensures Valid() && this.sha == sha
      ensures chain == [GenesisBlock(sha)]
      ensures Intact(chain, sha) && Sealed(chain[0], sha)
      ensures difficulty == DefaultDifficulty && miningReward == DefaultMiningReward
      ensures pendingTransactions == []
    {
      this.sha := sha;
      var genesis := CreateGenesisBlock(sha);
      chain := [genesis.Value()];
      difficulty := DefaultDifficulty;
      pendingTransactions := [];
      miningReward := DefaultMiningReward;
    }

    static method CreateGenesisBlock(sha: HashFn) returns (block: Block)
      ensures fresh(block) && block.sha == sha
      ensures block.Value() == GenesisBlock(sha)
    {
      block := new Block(sha, GenesisTimestamp, [], "");
    }

    /** The newest block; nothing changes. */
    method GetLatestBlock() returns (block: BlockData)
      requires Valid()
      ensures block == chain[|chain| - 1]
    {
      block := chain[|chain| - 1];
    }

    /** Queue a transaction for the next block, with no validation. */
    method AddTransaction(transaction: Tx)
      requires Valid()
      modifies this`pendingTransactions
      ensures Valid()
      ensures pendingTransactions == old(pendingTransactions) + [transaction]
      ensures chain == old(chain)
      ensures difficulty == old(difficulty) && miningReward == old(miningReward)
    {
      pendingTransactions := pendingTransactions + [transaction];
    }

    /** Mine every pending transaction into a new block linked to the tip, append
        it, and leave a single reward transaction for `miningRewardAddress` pending.
        The nonce search stops only if some nonce solves the new block, which is
        what the second precondition asks for. */
    method MinePendingTransaction(miningRewardAddress: string, now: int)
      requires Valid()
      requires Mineable(sha, chain[|chain| - 1].hash, now, pendingTransactions, difficulty)
      modifies this`chain, this`pendingTransactions
      ensures Valid()
      ensures |chain| == old(|chain|) + 1 && chain[..old(|chain|)] == old(chain)
      ensures var b := chain[|chain| - 1];
              && b.previousHash == old(chain[|chain| - 1].hash)
              && b.timestamp == now
              && b.transactions == old(pendingTransactions)
              && Sealed(b, sha)
              && FirstSolutionFrom(b, sha, difficulty, 0)
      ensures pendingTransactions == [Tx(None, miningRewardAddress, miningReward)]
      ensures difficulty == old(difficulty) && miningReward == old(miningReward)
      ensures old(Intact(chain, sha) && Sealed(chain[|chain| - 1], sha)) ==> Intact(chain, sha)
      ensures forall a :: Balance(chain, a) == old(Balance(chain, a)) + TxsNet(old(pendingTransactions), a)
    {
      var block := new Block(sha, now, pendingTransactions, chain[|chain| - 1].hash);
      if !MeetsTarget(block.hash, difficulty) {
        ghost var n: nat :| MeetsTarget(sha(block.previousHash, now, block.transactions, n), difficulty);
        assert n != 0;
      }
      block.MineBlock(difficulty);
      var mined := block.Value();
      ghost var before := chain;
      chain := chain + [mined];
      pendingTransactions := [Tx(None, miningRewardAddress, miningReward)];
      if Intact(before, sha) && Sealed(before[|before| - 1], sha) {
        IntactExtend(before, mined, sha);
      }
      forall a ensures Balance(chain, a) == Balance(before, a) + TxsNet(mined.transactions, a) {
        BalanceAppend(before, mined, a);
      }
    }

    /** The balance of `address`: everything it received minus everything it sent,
        over every transaction of every block. */
    method GetBalanceOfAddress(address: string) returns (balance: int)
      ensures balance == Balance(chain, address)
    {
      balance := 0;
      for i := 0 to |chain|
        invariant balance == Balance(chain[..i], address)
      {
        var txs := chain[i].transactions;
        for j := 0 to |txs|
          invariant balance == Balance(chain[..i], address) + TxsNet(txs[..j], address)
        {
          var trans := txs[j];
          if trans.fromAddress == Some(address) {
            balance := balance - trans.amount;
          }
          if trans.toAddress == address {
            balance := balance + trans.amount;
          }
          assert txs[..j + 1] == txs[..j] + [trans];
          TxsNetAppend(txs[..j], trans, address);
        }
        assert txs[..|txs|] == txs;
        assert chain[..i + 1] == chain[..i] + [chain[i]];
        BalanceAppend(chain[..i], chain[i], address);
      }
      assert chain[..|chain|] == chain;
    }

    /** True exactly when every block after the genesis block still carries the
        digest of its fields and links to the recomputed digest of its predecessor. */
    method VerifyBlockchain() returns (ok: bool)
      ensures ok == Intact(chain, sha)
    {
      var i := 1;
      while i < |chain|
        invariant 1 <= i
        invariant forall k :: 1 <= k < i && k < |chain| ==> LinkHolds(chain, k, sha)
      {
        var currentBlock := chain[i];
        var previousBlock := chain[i - 1];
        if currentBlock.hash != Recompute(currentBlock, sha) {
          assert !LinkHolds(chain, i, sha);
          return false;
        }
        if currentBlock.previousHash != Recompute(previousBlock, sha) {
          assert !LinkHolds(chain, i, sha);
          return false;
        }
        i := i + 1;
      }
      return true;
    }
  }

  /** The demonstration run: two transfers, a round mined for address3, then a
      round mined for address2. The reward of a round reaches the chain only when
      the next round is mined, so address3 still has 0 after its own round and 100
      after the next one. The chain so built verifies. */
  method Demo(sha: HashFn, t1: int, t2: int) returns (first: seq<int>, second: seq<int>, verified: bool)
    requires Mineable(sha, GenesisBlock(sha).hash, t1, DemoTransfers(), DefaultDifficulty)
    requires forall p :: Mineable(sha, p, t2, [Tx(None, "address3", DefaultMiningReward)], DefaultDifficulty)
    ensures first == [-50, 50, 0]
    ensures second == [-50, 50, 100]
    ensures verified
  {
    var blockChain := new BlockChain(sha);
    DemoNets(sha);
    blockChain.AddTransaction(Tx(Some("address1"), "address2", 100));
    blockChain.AddTransaction(Tx(Some("address2"), "address1", 50));
    assert blockChain.pendingTransactions == DemoTransfers();
    blockChain.MinePendingTransaction("address3", t1);
    assert blockChain.pendingTransactions == [Tx(None, "address3", DefaultMiningReward)];
    var b1 := blockChain.GetBalanceOfAddress("address1");
    var b2 := blockChain.GetBalanceOfAddress("address2");
    var b3 := blockChain.GetBalanceOfAddress("address3");
    assert b1 == -50 && b2 == 50 && b3 == 0;
    first := [b1, b2, b3];
    blockChain.MinePendingTransaction("address2", t2);
    b1 := blockChain.GetBalanceOfAddress("address1");
    b2 := blockChain.GetBalanceOfAddress("address2");
    b3 := blockChain.GetBalanceOfAddress("address3");
    assert b1 == -50 && b2 == 50 && b3 == 100;
    second := [b1, b2, b3];
    verified := blockChain.VerifyBlockchain();
  }

  function DemoTransfers(): seq<Tx> {
    [Tx(Some("address1"), "address2", 100), Tx(Some("address2"), "address1", 50)]
  }

  /** What the two demonstration rounds add to each of the three balances. */
  lemma DemoNets(sha: HashFn)
    ensures TxsNet(DemoTransfers(), "address1") == -50
    ensures TxsNet(DemoTransfers(), "address2") == 50
    ensures TxsNet(DemoTransfers(), "address3") == 0
    ensures TxsNet([Tx(None, "address3", DefaultMiningReward)], "address1") == 0
    ensures TxsNet([Tx(None, "address3", DefaultMiningReward)], "address2") == 0
    ensures TxsNet([Tx(None, "address3", DefaultMiningReward)], "address3") == 100
    ensures forall a :: Balance([GenesisBlock(sha)], a) == 0
  {
  }
}
