# Proof-of-work ledger in Dafny

A model of a minimal single-node blockchain. A `Block` holds a previous-block hash,
a timestamp, a list of transactions, a nonce and a stored hash. Mining a block steps
the nonce until the hash starts with `difficulty` zero characters. A `BlockChain`
holds the list of blocks, starting from a fixed genesis block. It also holds a
buffer of pending transactions, a difficulty (5) and a mining reward (100). Its
operations queue transactions, mine the pending ones into a new linked block, sum
balances, and re-derive hashes to check that the chain is intact.

Modules:

- `Wrappers`, `Transactions`: the `Option` type and the transaction record `Tx`.
- `Digest`: the hash function type `HashFn` and the proof-of-work target.
- `Blocks`: the block contents `BlockData`, its digest `Recompute`, and the class
  `Block` with its constructor, `CalculateHash` and `MineBlock`.
- `ChainSpec`: the meaning of a chain as values. It holds the genesis block, the
  ledger sum `Balance` and the integrity predicate `Intact`, with lemmas about each.
- `BlockChains`: the class `BlockChain`, whose methods are proved against
  `ChainSpec`, and the demonstration run `Demo`.

SHA-256 over the block's concatenated fields is not modelled. It is a parameter
`sha: HashFn`: any function of (previous hash, timestamp, transactions, nonce) whose
every result is 64 lowercase hex characters. Where a property needs the hash to be
collision-free on particular inputs, the lemma says so in its `requires`.

Mining terminates only when some nonce works. `MineBlock` and
`MinePendingTransaction` therefore require that a solving nonce exists. Their
postconditions state that the nonce found is the first solution.

Two places where the code's behaviour differs from what one might expect of it:

- The stored hash of the genesis block is never compared with anything. Overwriting
  it leaves an intact chain intact (`ChainSpec.GenesisHashUnchecked`). Tampering with
  any other stored field is detected once the chain has two blocks, barring a hash
  collision.
- The mining reward lags one round. After the first round of the demonstration,
  address3 has 0. After the second round it has 100 (`BlockChains.Demo`).

## Model

| member | source | states |
|---|---|---|
| `Blocks.Block.constructor` | Block.py:11-23 | stores the three given fields, with previous hash defaulting to the empty string; sets nonce to 0; stores the digest of those fields, so the block starts sealed |
| `Blocks.Block.CalculateHash` | Block.py:25-35 | the result is a 64-character hex digest, determined by the previous hash, timestamp, transactions and nonce only; reads the block and changes nothing |
| `Blocks.Recompute` | Block.py:31-35 | the digest of a block's four hashed fields is always a 64-character hex string |
| `Blocks.RecomputeIgnoresStoredHash` | Block.py:31 | the stored hash is not an input of the digest: changing it leaves the recomputed digest unchanged |
| `Blocks.Block.MineBlock` | Block.py:37-48 | on exit the first `difficulty` characters of the hash are '0'; only nonce and hash change; a hash already on target is left alone with the same nonce; otherwise the nonce is the first one after the starting nonce whose digest meets the target and the hash is that digest; `hash == CalculateHash()` is preserved |
| `Digest.MeetsTargetIff` | Block.py:45 | the loop's exit test `hash[0:d] == '0' * d`, with Python's short slice, holds exactly when the hash has at least d characters and the first d are '0' |
| `Digest.UnreachableTarget` | Block.py:45 | no 64-character digest meets a difficulty above 64, so for such a difficulty the mining loop never exits |
| `Digest.MeetsTargetWeaker` | Block.py:45 | a hash meeting difficulty d meets every smaller difficulty |
| `BlockChains.BlockChain.constructor` | BlockChain.py:9-17 | the chain is exactly the genesis block; difficulty 5, reward 100, no pending transactions; the new chain is intact and its genesis block sealed |
| `BlockChains.BlockChain.CreateGenesisBlock` | BlockChain.py:19-27 | a fresh block with empty previous hash, the fixed 2018-06-11 timestamp, no transactions, nonce 0 and the digest of those fields |
| `ChainSpec.GenesisBlock` | BlockChain.py:25-27 | the genesis block has empty link, fixed timestamp, no transactions, nonce 0, and is sealed |
| `BlockChains.BlockChain.GetLatestBlock` | BlockChain.py:29-34 | returns the last block of the chain and changes nothing |
| `BlockChains.BlockChain.AddTransaction` | BlockChain.py:48-57 | pending becomes old pending followed by the transaction; chain, difficulty and reward unchanged |
| `BlockChains.BlockChain.MinePendingTransaction` | BlockChain.py:59-71 | the chain grows by exactly one block and the earlier blocks are unchanged; the new block links to the old tip's stored hash, carries the old pending list and the given timestamp, is sealed, and its nonce is the first that meets the difficulty; pending becomes exactly one reward transaction from nobody to the reward address; difficulty and reward unchanged; an intact chain with a sealed tip stays intact; every balance grows by exactly the net of the old pending list |
| `BlockChains.BlockChain.GetBalanceOfAddress` | BlockChain.py:73-88 | the nested loops return `Balance(chain, address)`, the net of every transaction of every block |
| `ChainSpec.TxNet` | BlockChain.py:82-87 | a transaction debits its sender and credits its receiver; it nets 0 for an uninvolved address and for a self-transfer |
| `ChainSpec.TxsNetAppend` | BlockChain.py:81-87 | appending a transaction adds exactly its net to a list's net |
| `ChainSpec.BalanceAppend` | BlockChain.py:79-88 | appending a block adds exactly that block's net to every balance |
| `ChainSpec.BalanceConcat` | BlockChain.py:79-88 | the balance over two stretches of chain is the sum of their balances |
| `ChainSpec.TxsNetUnmentioned` | BlockChain.py:81-87 | a list of transactions that never mentions an address nets 0 for it |
| `ChainSpec.BalanceUnmentioned` | BlockChain.py:79-88 | an address that appears in no transaction of the chain has balance 0 |
| `ChainSpec.SelfTransferNetsZero` | BlockChain.py:82-87 | a transfer from an address to itself changes no balance |
| `ChainSpec.RewardOnlyCredits` | BlockChain.py:69-71 | a reward transaction, which has no sender, credits only its receiver and debits nobody |
| `BlockChains.BlockChain.VerifyBlockchain` | BlockChain.py:90-104 | returns true exactly when every block after the genesis block is sealed and stores the recomputed digest of its predecessor (`Intact`); an empty chain verifies |
| `ChainSpec.SingleBlockIntact` | BlockChain.py:95 | a chain of one block always verifies, whatever that block holds |
| `ChainSpec.IntactExtend` | BlockChain.py:65-67 | appending a sealed block linked to the stored hash of a sealed tip keeps an intact chain intact |
| `ChainSpec.IntactTipSealed` | BlockChain.py:95-100 | in an intact chain of two or more blocks the tip is sealed, so mining onto it preserves integrity |
| `ChainSpec.IntactPrefix` | BlockChain.py:95-104 | every prefix of an intact chain is intact |
| `ChainSpec.TamperedPayloadDetected` | BlockChain.py:98-103 | in a chain of two or more blocks, changing any block's hashed fields without updating its stored hash makes verification fail, unless the digests collide |
| `ChainSpec.ResealedTamperDetected` | BlockChain.py:101-103 | changing a non-tip block and re-sealing it is still detected, through its successor's link, unless the digests collide |
| `ChainSpec.GenesisHashUnchecked` | BlockChain.py:95-104 | the genesis block's stored hash is never checked: overwriting it keeps an intact chain intact |
| `ChainSpec.DifficultyNotRechecked` | BlockChain.py:95-104 | verification ignores the difficulty: a chain whose second hash has no leading zero can still verify |
| `BlockChains.Demo` | BlockChain.py:107-122 | the demonstration's balances after round one are address1 -50, address2 50, address3 0; after round two they are -50, 50, 100; the resulting chain verifies |
| `BlockChains.DemoNets` | BlockChain.py:110-113 | the net effect of the demonstration's two transfers, and of the reward to address3, on each of the three addresses |

## Left out

- SHA-256, the string concatenation and the JSON encoding of transactions
  (Block.py:31-34, Transaction.py:19-23) are replaced by the parameter `sha`.
  Determinism is all the model relies on. Collision resistance appears only as a
  hypothesis of the tamper lemmas.
- Clock reads: `time.time()` (BlockChain.py:65) is the parameter `now`. The genesis
  timestamp (BlockChain.py:25) is the constant 1528675200, which is 2018-06-11 00:00:00
  read as UTC. The source converts it in the machine's local time zone. The timer and
  the progress message of `mine_block` (Block.py:43, 49) are left out.
- Numbers: timestamps and amounts are integers. Python floats, and their `str`
  formatting inside the hash input, are not modelled.
- Blocks.Block.MineBlock: requires that the stored hash already meets the target or
  that some later nonce does. The source has no such guard and loops forever otherwise.
- BlockChains.BlockChain.MinePendingTransaction: requires that some nonce solves the
  new block, for the same reason.
- The chain holds block contents (`seq<BlockData>`), not references to `Block`
  objects. The class never changes a block once it is appended. Code outside the class
  can mutate a block through a shared reference (the tampering scenario). This model
  expresses that as replacing a value in the sequence, in the tamper lemmas.
  `GetLatestBlock` returns the contents, so aliasing through the returned block is
  not modelled.
- In the source the new block and the old pending buffer share one list object
  (BlockChain.py:65). The buffer is then rebound, not mutated, so sequences capture
  the behaviour exactly.
- BlockChains.BlockChain.GetBalanceOfAddress: the address is a string. Querying with
  `None` would count every reward as a debit in the source; that case is not modelled.
- The commented-out `add_block` (BlockChain.py:36-46) is dead code.
- The demonstration's printing (BlockChain.py:115-122) is left out. `Demo` returns the
  balances instead. The demonstration in Transaction.py:26-30 only prints.
- Concurrency: the source is single-threaded, and so is the model.
