# A verified model of EChain

EChain is a small Bitcoin-style node: full nodes, miners, SPV nodes and a wallet. This project models the parts
of it that must agree with one another and proves that they do. `dafny verify dfyconfig.toml` checks everything.

What is modelled, one module per component:

- `UtxoSpec`, `ChainSpec`, `UtxoSet`, `Spendable`: the index of unspent outputs, kept transaction by transaction or
  rebuilt by a backward walk, against a declarative reading of the chain.
- `Database`, `ChainStore`, `BlockChains`: blocks and headers in a store, and the walks over them.
- `Merkle`, `MerkleAsWritten`, `MerkleBytes`: root, proof and SPV check, on values and on the bytes hashed.
- `Admission`, `Conservation`, `Balances`, `NodeRuns`: the two checks on transactions, conservation of value, what
  single addresses own, and whole runs.
- `SyncSpec`, `RoundGaps`, `Dispatch`: synchronisation rounds, complete or not, and the request workers at lock
  granularity.
- `Gossip`, `GossipReach`, `Mempools`: addresses and transactions passed around a network, that it ends and whom it
  reaches.
- `SpvSpec`, `SpvIndexes`, `SpvRuns`, `HeaderWait`: the filtered index of an SPV node, what messages of any origin can
  do to it, and the wait for headers.
- `FullNodes`, `SpvNodes`, `Miner`, `WalletModel`: the handlers, mining and transfers as methods. `Payments`: who is
  paid. `BalanceReports`: when the wallet's report of insufficient balance is right.
- `Reentry`, `Flooding`, `Redelivery`: transactions that are entered again, messages that are relayed without a memory,
  and what both mean for blocks and merkleblock messages.
- `Examples`: concrete chains and transactions on which conditions of the theorems fail.

Cryptography is a parameter (`Types.Crypto`): every statement holds for all choices of the functions in it. Where a
hash must not collide, only the values that are actually hashed are assumed not to (`Merkle.CollisionFree`). Walks
take the chain they visit as a ghost argument; it stands for the assumption that the walk ends.

## Where the code does not do what it is for

- `nextHashList` is never emptied between levels (blockchain/merkle.go:33, 71), so both Merkle loops run for ever on
  three or more transactions. `MerkleAsWritten` models the loops as they stand and gives the exact condition;
  `Merkle` models them with the list emptied, and the other modules build on that. Where the written loops end, both
  agree.
- `ReIndex` visits a block's transactions oldest first (blockchain/utxoset.go:154) and so misses spends inside one
  block: `ChainSpec.ReIndexAgreesIff`. It also stores empty entries where the update deletes them; agreement is
  therefore stated on what a lookup returns.
- The mempool is never emptied (network/miner.go:79), so confirmed transactions enter later blocks again. That makes the
  index wrong exactly if an output of one of them, spent by then, is not spent again later in the same block:
  `Reentry.ReentryHarmlessIff`, `Examples.ReentryExample`, `Examples.HarmlessReentryExample`. Hashes repeat in any case:
  `Miner.SecondBlockNeedsEmptyMempool`.
- No check compares a coinbase with the reward, or a block's outputs with its inputs (network/fullnode.go:262-279):
  `FullNodes.AnyCoinbaseVerifies`, `Conservation.ValidTotal`, `Examples.InflationExample`.
- An input that names an unknown output crashes the node that verifies it (network/fullnode.go:245):
  `Admission.VerifyCrashIff`, `FullNodes.CrashingBlock`.
- Admission asks the confirmed index, one input at a time, and verification does not ask what is spent. Two payments of
  one output, or one input named twice, are admitted and mined: `Miner.FreshMempoolMinesValidIff`,
  `Admission.WalkImpliesIndexIff`, `Examples.DoubleSpendExample`, `Examples.SameInputTwiceExample`.
- A merkleblock message delivered twice enters its outputs again: `SpvSpec.RedeliveryHarmlessIff`,
  `Examples.RedeliveryExample`. A relay to all SPV peers, without a memory (network/spv.go:160-167), makes that the
  rule: `Redelivery.MessageFloodStopsIff`.
- A new block is relayed without a memory too (network/fullnode.go:301-309). Delivered again it is verified again and
  moves the tip back: `Redelivery.OldBlockIndexIff`, `Redelivery.BlockFloodStopsIff`. Relaying stops only where the
  connections let no message come around: `Flooding.RelayingStopsIff`, `Flooding.PairNeverEnds`.
- An SPV node starts without the genesis output: `SpvSpec.SpvAnswersAgreeIff`, `Examples.GenesisOutputMissing`.
- No check looks at the sign of an output (network/fullnode.go:428-435), so an address can own more than has ever been
  created: `Balances.PartBoundedIff`, `Examples.NegativeOutputExample`. For the same reason a wallet can send more than
  its balance: `BalanceReports.ReportRightIff`, `BalanceReports.NegativeBalanceExample`.
- Sums of values wrap at 64 bits (network/fullnode.go:425-433): `Admission.NoOverspendIff`,
  `Admission.OverspendAdmitted`.
- A signature is cut in the middle although its numbers may differ in length: `WalletModel.TransferAdmittedIff`,
  `WalletModel.ShortSignatureExample`.
- With messages to send and no peer, `handleInvMsg` waits for ever: `Dispatch.DispatchCompletes`. Requests handed to SPV
  peers are not answered; if the last one is, the tip moves beyond a hole that stays: `RoundGaps.GapBehindTip`,
  `RoundGaps.GapStays`.
- An SPV node can wait for headers for ever (network/spv.go:117-130): `HeaderWait.WaitsEndIff`.
- Nothing in the bytes hashed tells an inner node of the Merkle tree from a transaction:
  `MerkleBytes.NodeAsTransaction`.

## What a valid block is

The program never checks in one place that a block extends the tip, that hashes are fresh, that inputs are pairwise
distinct across the block, or that there is one coinbase. `ChainSpec.ValidNext` and `Conservation.MinedNext` state
these as conditions on a step. Everything that admission does guarantee is derived from `Admission.Admit`.

## Model

| member | source | states |
|---|---|---|
| UtxoSpec.ConfirmedMeans | blockchain/utxoset.go:78-176 | the declarative index: an output is listed exactly if a transaction of the chain created it and no input of the chain names it |
| UtxoSpec.ApplyLookup | blockchain/utxoset.go:78-113 | one update, read entry by entry: the new outputs in full unless the transaction names itself, every other entry without what is spent |
| UtxoSpec.IncrementalIsConfirmed | blockchain/utxoset.go:78-119 | entering transactions one at a time, from nothing, gives the declarative index |
| UtxoSpec.RescanEntry | blockchain/utxoset.go:150-176 | the entry a scan leaves for its k-th transaction lacks exactly what the first k spend |
| UtxoSet.UTXOSet.UpdateWithNewTransaction | blockchain/utxoset.go:78-113 | the batch, in any order of the map of spent outputs, turns the old index into the one-step update of it |
| UtxoSet.UTXOSet.UpdateWithNewBlock | blockchain/utxoset.go:115-119 | a block is the fold of its transactions' updates |
| UtxoSet.AddSpends | blockchain/utxoset.go:79-85 | the map built from the inputs records for each transaction exactly the positions spent |
| UtxoSet.UTXOSet.EnterBlock | blockchain/utxoset.go:154-169 | one block of the backward walk, with the spends seen so far |
| UtxoSet.UTXOSet.ReIndex | blockchain/utxoset.go:134-176 | the rebuilt index is the scan of the chain, newest block first, each block from its first transaction |
| UtxoSet.UTXOSet.FindUTXO | blockchain/utxoset.go:59-76 | for each transaction the outputs bound to the address, in order; no empty entries; in any order of iteration |
| UtxoSet.UTXOSet.GetTxOutputFromTxInput | blockchain/utxoset.go:121-132 | the output an input names, or none |
| UtxoSet.FindUTXOMeans | blockchain/utxoset.go:59-76 | on a valid chain either index makes FindUTXO list exactly the address's created and unspent outputs |
| UtxoSet.AgreeOwned | blockchain/utxoset.go:59-76 | indexes equal up to empty entries answer every address alike |
| Spendable.FindSpendableOutput | blockchain/utxoset.go:34-57 | the 64-bit sum of what is returned; below the amount everything owned is returned, else nothing beyond the output that reaches the amount, and at most one entry incomplete |
| ChainSpec.ReIndexEntry | blockchain/utxoset.go:147-175 | the entry at block b, position p holds exactly the outputs spent neither in a block after b nor at a position up to p of block b |
| ChainSpec.ReIndexAgreesIff | blockchain/utxoset.go:134-176 | on a causal chain without double spends the rebuild is right for every transaction if and only if no block spends its own outputs |
| ChainSpec.DisagreeAt | blockchain/utxoset.go:154-165 | each spend inside a block leaves the rebuilt entry wrong |
| Examples.SpendInsideExample | blockchain/utxoset.go:154-165 | a concrete block on which rebuild and update differ |
| ChainSpec.ValidChainFacts | network/fullnode.go:405-426 | validity of every step gives unique hashes, causality, no double spend and no spend inside a block |
| ChainSpec.IndexesAgree | blockchain/utxoset.go:78-176 | on every valid chain the kept index, the rebuilt index and the declarative index agree, up to empty entries |
| NodeRuns.ApplyRespectsAgree | blockchain/utxoset.go:78-113 | an update does not tell apart indexes that differ in empty entries |
| NodeRuns.RunIndexed | network/fullnode.go:229-231 | over every run mixing new blocks and rounds the index is the declarative one of the node's chain |
| NodeRuns.AdmissionPersists | network/fullnode.go:405-426 | an admitted transaction stays admissible while others spend none of its inputs |
| ChainStore.WalkUnique | blockchain/blockchain.go:193-207 | a walk from a tip visits one chain only |
| ChainStore.StoredChain | blockchain/blockchain.go:52-55 | a linked chain found in the store is what the walk visits |
| ChainStore.HashesDistinct | blockchain/blockchain.go:188-210 | hashes along a stored chain are pairwise distinct, with no assumption on the hash |
| ChainStore.AfterTip | blockchain/blockchain.go:196-205 | the hash of a block on the chain is found at that block and nowhere later |
| BlockChains.GenesisFacts | blockchain/block.go:32-51 | the genesis block alone is a linked and valid chain |
| BlockChains.GetHash | blockchain/block.go:25-30 | the header hash after a missing Merkle root is filled in; a present root is kept |
| BlockChains.BlockChain.constructor | blockchain/blockchain.go:25-39 | on any database the tip is the genesis block and the index is rebuilt from it; other blocks stay stored |
| BlockChains.BlockChain.SetBlock | blockchain/blockchain.go:136-138 | the sealed block under its hash, nothing else changed |
| BlockChains.BlockChain.StoreNewBlock | blockchain/blockchain.go:145-152 | tip, store and index after a new block |
| BlockChains.BlockChain.GetHeight | blockchain/blockchain.go:118-130 | the length of the chain visited |
| BlockChains.BlockChain.GetUnmatchedBlocks | blockchain/blockchain.go:188-210 | found exactly if on the chain; the hashes after it, newest first, or all but the first block's |
| BlockChains.BlockChain.GetUnmatchedHeaders | blockchain/blockchain.go:212-234 | the same for headers of blocks |
| BlockChains.BlockChain.GetBlocksFromHashes | blockchain/blockchain.go:236-243 | the stored blocks in the order asked for, a zero block for a missing one |
| BlockChains.BlockChain.GetTransactionMapFromInputs | blockchain/blockchain.go:154-180 | for each hash named, the first transaction met by the backward walk, if any |
| BlockChains.FirstIsOnly | blockchain/blockchain.go:166-171 | on a chain with unique hashes the walk finds the one transaction of that hash |
| BlockChains.BlockChainHeader.constructor | blockchain/blockchain.go:41-50 | on any database the tip is the genesis header; other headers and the index stay |
| BlockChains.BlockChainHeader.GetHeight | blockchain/blockchain.go:57-71 | the length of the header chain visited |
| BlockChains.BlockChainHeader.GetUnmatchedHeaders | blockchain/blockchain.go:82-106 | as for blocks, comparing the keys the walk follows |
| BlockChains.HeaderWalkAgrees | blockchain/blockchain.go:82-106 | walking headers of stored blocks gives the block walk's chain and keys |
| Merkle.HashPairs | blockchain/merkle.go:26-32 | one level appends one digest per pair, an odd last node paired with itself |
| Merkle.SetMerkleRoot | blockchain/merkle.go:10-35 | the root, with the level list emptied per level; a block without transactions is unchanged |
| Merkle.ScanPairs | blockchain/merkle.go:51-70 | one level of the proof loop: both lists and the moving target |
| Merkle.GetMerkleProof | blockchain/merkle.go:37-75 | the proof, which folds to the root for a transaction of the block |
| Merkle.CheckProof | network/spv.go:135-146 | accepts exactly if the fold reaches the header's root |
| Merkle.ScanStays | blockchain/merkle.go:51-70 | the target lies in the unscanned rest of the level or in the next level |
| Merkle.ScanFolds | blockchain/merkle.go:51-70 | the proof nodes of a level fold the old target to the new one |
| Merkle.Completeness | blockchain/merkle.go:37-75 | for every digest function, collisions included, the proof of a transaction in the block folds to the block's root |
| Merkle.Soundness | network/spv.go:135-146 | an accepted proof of any length shows membership, if the values actually hashed do not collide |
| MerkleBytes.SoundnessOnBytes | network/spv.go:135-146 | the same on the bytes hashed, for proofs of digest-long hashes, if no serialised transaction is as long as two digests |
| MerkleBytes.NodeAsTransaction | network/spv.go:135-146 | the length is needed: a transaction with the bytes of an inner node passes with an empty proof |
| Merkle.Binding | blockchain/merkle.go:10-35 | equal roots of lists of equal length force equal lists |
| Merkle.BindingAsSets | blockchain/merkle.go:10-35 | equal roots of any two lists force the same set of transactions |
| Merkle.DuplicatedTail | blockchain/merkle.go:27-28 | a duplicated odd tail keeps the root, so sets are all that can be had |
| Merkle.LevelHeight | blockchain/merkle.go:18-34 | each level lowers the height by one and keeps the root |
| Merkle.ProofLength | blockchain/merkle.go:47-72 | without collisions a proof has exactly ceil(log2 n) nodes |
| MerkleAsWritten.ListGrows | blockchain/merkle.go:33 | as written, the level list grows for good beyond two transactions |
| MerkleAsWritten.RootLoopEndsIff | blockchain/merkle.go:18-34 | as written, the root loop ends if and only if there are at most two transactions |
| MerkleAsWritten.ProofLoopEndsIff | blockchain/merkle.go:47-72 | as written, the proof loop ends if and only if there are one or two transactions |
| MerkleAsWritten.ThreeTransactionsNeverEnd | blockchain/merkle.go:18-34 | a concrete block on which neither loop ends |
| MerkleAsWritten.SetMerkleRootAsWritten | blockchain/merkle.go:10-35 | as written and cut off after some rounds: it finishes only where the emptied version gives the same root |
| MerkleAsWritten.GetMerkleProofAsWritten | blockchain/merkle.go:37-75 | as written and cut off: it finishes only with the emptied version's proof |
| Admission.NoOverspendIff | network/fullnode.go:428-435 | an accepted transaction pays out no more than it takes in exactly if its outputs do not sum beyond 64 bits |
| Admission.OverspendAdmitted | network/fullnode.go:425-435 | a transaction that every node admits although it pays out more than it takes in |
| Admission.VerifyMeans | network/fullnode.go:237-260 | accepted exactly if every input names an output created on the chain, spent or not, with its key and a valid signature |
| Admission.VerifyCrashIff | network/fullnode.go:243-248 | the walk check crashes the node exactly if some input names an output that no transaction of the chain has, and all inputs before it are authorised |
| FullNodes.CrashingBlock | network/fullnode.go:262-279 | a block of a coinbase and an input that names an unknown hash crashes every node it reaches, given its proof of work |
| FullNodes.AnyCoinbaseVerifies | network/fullnode.go:262-279 | a block of one input-free transaction is verified, given its proof of work, whatever it pays out |
| Admission.AdmissionImpliesVerification | network/fullnode.go:405-426 | what the index check accepts the chain walk accepts, without a crash, now and on every extension with unique hashes |
| Admission.VerifiedLater | network/fullnode.go:237-260 | what the walk accepts it accepts on every extension with unique hashes |
| Admission.WalkImpliesIndexIff | network/fullnode.go:237-260 | of what the walk accepts the index accepts exactly what is still unspent |
| FullNodes.AdmittedBlockVerifies | network/fullnode.go:262-279 | a block with proof of work, one leading coinbase and admitted transactions is verified |
| Conservation.ApplyTotal | blockchain/utxoset.go:78-113 | one transaction changes the worth of the index by outputs minus spent inputs |
| Conservation.BlockTotal | blockchain/utxoset.go:115-119 | a block changes it by all outputs minus all spent inputs |
| Conservation.ValueConserved | blockchain/transaction.go:46-55 | over every run of mined blocks the signed total of the index, kept or rebuilt, is 1000 x height minus fees, never more than 1000 x height |
| Conservation.ValidTotal | blockchain/utxoset.go:78-119 | on every valid chain the index is worth 1000 x height plus what the blocks create beyond that; so within 1000 x height exactly if they create no more |
| Examples.InflationExample | network/fullnode.go:262-279 | two verified blocks whose index is worth any amount |
| NodeRuns.RunValue | network/fullnode.go:281-287 | the signed total over every mixture of new blocks and rounds |
| Balances.KeptSplit | blockchain/utxoset.go:59-76 | a part of an index and the rest are worth the whole |
| Balances.PartBoundedIff | network/fullnode.go:428-435 | no part of an index is worth more than the whole exactly if the index holds no negative value |
| Balances.BalanceAndRest | blockchain/utxoset.go:59-76 | what an address owns is worth the total less everybody else's outputs |
| Balances.NonNegativeIff | network/fullnode.go:428-435 | an index holds no negative value exactly if no unspent output of the chain is negative |
| Balances.BalanceBounded | blockchain/transaction.go:46-55 | without negative unspent outputs no address owns more than 1000 x height, by either index |
| NodeRuns.RunBalance | network/fullnode.go:281-287 | the same over every mixture of new blocks and rounds |
| Examples.NegativeOutputExample | network/fullnode.go:428-435 | an admitted negative output makes an address own five times what was ever created, with the total as it should be |
| Examples.SameInputTwiceExample | network/fullnode.go:403-435 | an input named twice counts twice: one reward pays for two |
| FullNodes.FullNode.HandleNewTxn | network/fullnode.go:391-446 | verdict, mempool and relay, with Go's wrap-around in both sums and the order of the checks |
| Mempools.KnownIsDuplicate | network/fullnode.go:397-401 | a hash that is in the mempool is answered with nothing and changes nothing, whatever the index says |
| Mempools.MempoolDistinct | network/fullnode.go:397-437 | over every sequence of messages, while blocks change the index in any way, the hashes in a mempool stay pairwise distinct and entries stay where they are |
| Mempools.RelayedOnce | network/fullnode.go:397-446 | a node accepts and relays each hash at most once, and none that it has |
| Mempools.RelayingEnds | network/fullnode.go:437-446 | in every network, relaying of transactions ends: no more arrivals than messages at the start and, for each node, one to each peer for each hash |
| FullNodes.SelectMeans | network/fullnode.go:302-309 | relays go to exactly the addresses of peers of the types named, once each if the list has no repeats |
| FullNodes.FullNode.CheckAndSum | network/fullnode.go:403-426 | the first failing input decides; otherwise the wrapped sum of the referenced values |
| FullNodes.FullNode.VerifyTransaction | network/fullnode.go:237-260 | valid, invalid or a crash on a missing output, decided at the first failing input |
| FullNodes.FullNode.VerifyBlock | network/fullnode.go:262-279 | target, leading coinbase, then every transaction; a crash on an empty block |
| FullNodes.BlockValidIff | network/fullnode.go:262-279 | a block is verified exactly if it meets the target, begins with a transaction without inputs, and every input of every transaction is authorised by an output of the chain |
| FullNodes.FullNode.StoreNewBlock | network/fullnode.go:281-287 | store, both tips and index |
| FullNodes.FullNode.HandleBlockdata | network/fullnode.go:289-337 | a new block is checked, stored and relayed with its SPV messages; other lists are stored and only the last index moves the tip; a crash or rejection changes nothing |
| FullNodes.AnswerIsNotNew | network/fullnode.go:293 | no answer to a request of a round is taken for a newly mined block |
| FullNodes.MakeMessages | network/fullnode.go:312-328 | one message per transaction and interested SPV peer |
| FullNodes.MessagesCheck | network/fullnode.go:312-328 | every such message passes the receiver's check exactly if the stored root is the root of the transactions |
| FullNodes.FullNode.HandleGetblocks | network/fullnode.go:137-156 | the next at most 500 hashes, silence when level, a question back for an unknown tip |
| FullNodes.FullNode.HandleGetheaders | network/fullnode.go:158-175 | the next at most 2000 headers, or silence |
| FullNodes.FullNode.HandleGetdata | network/fullnode.go:177-183 | the blocks asked for, under the index of the request |
| FullNodes.FullNode.BeginInv | network/fullnode.go:185-212 | the requests, the count that marks the last one, and the peers to ask: the first ones, one for each request |
| FullNodes.FullNode.FinishInv | network/fullnode.go:228-234 | the rebuild, then a getblocks to every peer |
| FullNodes.FullNode.HandleFilterload | network/fullnode.go:448-452 | the filter of the sender is the list sent, and every other filter stays |
| FullNodes.FullNode.HandleVerack | network/fullnode.go:351-361 | a peer is added at most once, and then greeted |
| FullNodes.FullNode.HandleAddr | network/fullnode.go:363-380 | the gossip step on the node's lists |
| FullNodes.FullNode.HandleVersion | network/fullnode.go:339-349 | verack, and version back to a stranger, for the same protocol version only |
| SyncSpec.MakeGetdata | network/fullnode.go:189-199 | the loop cuts the inventory into the specified requests |
| SyncSpec.ChunksLossless | network/fullnode.go:189-199 | requests concatenate to the inventory; all but the last have 10 hashes, the last 1 to 10; each index is its position |
| SyncSpec.TakeOldest | network/fullnode.go:145-150 | from a newest-first list the oldest come first, up to the limit |
| SyncSpec.SenderReply | network/fullnode.go:137-156 | to a receiver with a prefix the sender announces the next min(500, missing) hashes |
| SyncSpec.RoundExtends | network/fullnode.go:331-336 | whatever the order or repetition of answers, the receiver ends with exactly the next blocks and the right tip |
| SyncSpec.OrderDoesNotMatter | network/fullnode.go:331-336 | two complete sets of answers lead to the same state |
| SyncSpec.RoundIndex | network/fullnode.go:230-231 | the index rebuilt after a round is the declarative index of the chain received |
| RoundGaps.RoundCompleteIff | network/fullnode.go:331-336 | when some requests are not answered: the receiver walks the chain announced exactly if all were |
| RoundGaps.LastMissing | network/fullnode.go:334-336 | without the last answer the tip and the walk stay |
| RoundGaps.GapBehindTip | network/fullnode.go:334-336 | with the last answer but not another the tip moves beyond a hole, and the walk sees a zero block and what comes after it |
| RoundGaps.GapStays | network/fullnode.go:137-156 | the sender's next answer begins after the tip, so a hole stays |
| SyncSpec.RoundsConverge | network/fullnode.go:232-234 | after j rounds the receiver holds min(k + 500 j, n) blocks, and ends level and silent |
| SyncSpec.WhoeverAsks | network/fullnode.go:153-155 | the shorter of two nodes is sent the same blocks whether it asks or is asked: a question for an unknown tip is asked back |
| SyncSpec.EitherConverges | network/fullnode.go:137-156 | convergence as above, whichever of the two nodes asks first in each round |
| SyncSpec.HeaderReply | network/fullnode.go:158-175 | to an SPV node with a prefix the full node sends exactly the next min(2000, missing) headers, oldest first |
| SyncSpec.HeaderRound | network/spv.go:182-196 | a getheaders exchange extends the SPV chain by exactly the next min(2000, missing) headers, linked |
| SyncSpec.HeadersConverge | network/spv.go:182-196 | repetition converges, then header walk and block walk have one height |
| Dispatch.StepInv | network/fullnode.go:213-226 | at lock granularity every step keeps: one claimant per message, one sending per message, counter = unfinished messages |
| Dispatch.CounterFacts | network/fullnode.go:207 | the counter stays between zero and the number of messages; at zero all are sent |
| Dispatch.ExitedBlocksNothing | network/fullnode.go:215-218 | a worker that returns with the mutex leaves only workers that need it no more to finish |
| Dispatch.DispatchCompletes | network/fullnode.go:201-228 | every interleaving is bounded, and one that is stuck has passed the wait exactly if there was a peer or nothing to send |
| Dispatch.SideBySide | network/fullnode.go:209-226 | there are runs in which as many requests are being sent at once as there are peers and messages |
| Gossip.StepMeasure | network/fullnode.go:363-380 | each addr delivery lowers a measure that no other step raises |
| Gossip.GossipTerminates | network/fullnode.go:363-380 | in every run addr deliveries are bounded by the initial measure and all lists stay free of repeats |
| Gossip.FreshStartBound | network/fullnode.go:363-380 | the bound from a fresh start |
| Gossip.ForwardedOnce | network/fullnode.go:371-379 | each node passes on each address at most once in every run |
| GossipReach.Spreads | network/fullnode.go:371-379 | in every run without losses, what a node passed on is, for each peer that it had at that moment, still on its way to that peer or passed on by it in turn |
| GossipReach.ReachesAlong | network/fullnode.go:371-379 | when no addr message about an address is on its way any more, it has reached every node to which a path of connections leads |
| GossipReach.BecomePeers | network/fullnode.go:339-361 | when no handshake is on its way any more, sender and receiver of a version message are peers of each other |
| GossipReach.HeardBecomesPeer | network/fullnode.go:363-370 | a node that hears of another becomes its peer, whether or not it has passed the address on before |
| SpvSpec.StepRelated | network/spv.go:148-158 | the filtered update keeps both indexes equal on a monitored address, entry by entry |
| SpvSpec.MonitoredSpendKept | network/utils.go:81-95 | a spend of a monitored output survives both filters |
| SpvIndexes.OfInterestIff | network/utils.go:81-95 | of a verified block, exactly those transactions match a filter that pay a monitored address or spend an output paid to one |
| SpvIndexes.SpvIndexMeans | network/spv.go:148-158 | the filtered index entry by entry, on the chain alone: an output of a matching transaction after the first block, unless an input signed by a monitored address names it |
| SpvSpec.StartRelatedIff | blockchain/blockchain.go:41-50 | the empty start is right for an address exactly if the first block pays it nothing |
| SpvSpec.RunRelated | network/spv.go:148-158 | over every run of verified blocks both indexes hold the same for a monitored address, at every transaction outside the first block |
| SpvSpec.SpvAnswers | network/spv.go:262-269 | over every run of verified blocks the SPV node's answer is the full node's less the outputs of the first block |
| SpvSpec.SpvAnswersAgreeIff | blockchain/blockchain.go:41-50 | the answers are the same exactly if the address has spent whatever the first block paid to it |
| SpvSpec.MinedIsVerified | network/fullnode.go:262-279 | runs of blocks of a coinbase and admitted transactions are runs of verified blocks |
| Examples.GenesisOutputMissing | blockchain/blockchain.go:41-50 | the genesis output: listed by a full node, not by an SPV node that monitors its address |
| Examples.GenesisOutputMissingIff | blockchain/blockchain.go:41-50 | for that address the answers are the same on a chain exactly if the genesis output is spent |
| SpvSpec.RedeliveryHarmlessIff | network/spv.go:148-158 | a second delivery keeps the answers right exactly if none of the address's outputs in it has been spent |
| Examples.RedeliveryExample | network/spv.go:148-158 | three mined blocks, and an SPV node right before a second delivery and wrong after it |
| SpvNodes.SPVNode.constructor | network/spv.go:26-44 | on any database: tip at the genesis header, index as stored, no peers and no addresses |
| SpvNodes.SPVNode.IsTxnInputOfInterest | network/spv.go:95-102 | some monitored address signed the input |
| SpvNodes.SPVNode.AskHeaders | network/spv.go:117-128 | for an unknown header, all full nodes and miners but the sender are asked |
| SpvNodes.OtherHoldersMeans | network/spv.go:121-128 | asked are exactly the addresses of full nodes and miners other than the sender |
| HeaderWait.WaitsEndIff | network/spv.go:117-130 | nobody waits for headers any more exactly if from every point of the run on as many offers were made as waits begun |
| HeaderWait.NoQuestionNoEnd | network/spv.go:121-129 | when the sender is the only full node or miner known no wait ever ends |
| HeaderWait.EarlyAnswerLost | network/spv.go:190-195 | an answer that arrives before the wait is lost |
| HeaderWait.OneAnswerWakesOne | network/spv.go:190-195 | an answer wakes one of several |
| HeaderWait.EnoughAnswers | network/spv.go:190-195 | after a question enough later answers end every wait |
| SpvNodes.SPVNode.HandleMerkleblock | network/spv.go:131-168 | header and proof decide; then the filtered update and the relay |
| SpvRuns.UnknownRefused | network/spv.go:132-134 | a message under a header that is not stored is not believed and changes nothing, whatever its proof |
| SpvRuns.BelievedOnChain | network/spv.go:131-146 | if the stored headers are those of a chain, what is believed is in a block of that chain, without a collision among the values hashed |
| SpvRuns.ForgedIgnored | network/spv.go:131-158 | so a message about a transaction that is on no block of the chain leaves the node as it is |
| SpvRuns.OnlyChainEntered | network/spv.go:131-196 | over every run of headers and messages of any origin the index is what entering transactions of the chain, foreign inputs left out, makes of it |
| SpvRuns.NoForgedOutput | network/spv.go:131-196 | so from an empty index every output held is one that the chain created |
| SpvNodes.SPVNode.HandleHeaders | network/spv.go:182-196 | the headers are stored and the last becomes the tip, in both copies; a value is offered to whoever waits if a question was asked; an empty list crashes and changes nothing |
| SpvNodes.SPVNode.HandleGetheaders | network/spv.go:198-217 | as on a full node, with a question back for an unknown header |
| SpvNodes.SpvHeaderReply | network/spv.go:198-217 | to a node with a prefix exactly the next min(2000, missing) headers, oldest first; to a node with an unknown tip a question that names the own tip |
| SpvNodes.SPVNode.HandleNewAddr | network/spv.go:170-180 | the monitored list and the filter sent to full nodes |
| SpvNodes.SPVNode.HandleNewTxn | network/spv.go:271-279 | a transaction of the wallet goes to all full nodes and miners |
| SpvNodes.SPVNode.HandleVerack | network/spv.go:231-241 | a peer is added at most once |
| SpvNodes.SPVNode.HandleAddr | network/spv.go:243-260 | the gossip step on the node's lists |
| SpvNodes.OneMessage | network/fullnode.go:312-328 | a connected SPV node is sent each matching transaction once, others never |
| SpvNodes.BlockDelivered | network/spv.go:148-158 | handling the messages of a block does to the index exactly what the filtered updates of its transactions do |
| SpvNodes.DeliveredIsFiltered | network/spv.go:148-158 | over a chain, the messages a full node sends build exactly the filtered index |
| SpvNodes.DeliveredAnswers | network/fullnode.go:312-328 | from wire to wallet: filter, proofs and filtered updates together leave `FindUTXO` answering as on the full node less the first block's outputs, and the same exactly if those are spent |
| SpvNodes.BelievedIsInBlock | network/spv.go:131-146 | end to end: honest messages are believed, and what is believed is in the block |
| Miner.MineBlock | network/miner.go:62-74 | within so many passes, the block with the least nonce from 1 that meets the target, or none exactly if no nonce tried does |
| Miner.StartMining | network/miner.go:76-100 | mining on the tip: the block names the old tip, pays the reward to the recipient, holds the mempool in order, carries the root of its transactions and the least nonce; it is stored and relayed, extends the chain walked, and the mempool keeps its entries |
| Miner.CoinbasePays | blockchain/transaction.go:46-55 | a coinbase has no inputs and one output, the reward, bound to the recipient |
| Miner.MiningGrows | network/miner.go:44-50 | over every run of mining, as long as the hashes are new, the chain walked is the old one and the mined blocks in order, one block more each time |
| Miner.MinedExtendsTip | network/miner.go:83-92 | the mined block extends the linked, stored chain |
| Miner.FreshMempoolMinesValidIff | network/miner.go:79-88 | a mempool of fresh, admitted transactions makes a valid block exactly if no two inputs in it name the same output |
| Examples.DoubleSpendExample | network/fullnode.go:403-426 | two payments of one output, both admitted, in a block that is verified: two blocks with three rewards |
| Miner.SecondBlockNeedsEmptyMempool | network/miner.go:79 | as the mempool is never emptied, a second block is valid only if it was empty at the first |
| Reentry.EnterLookup | blockchain/utxoset.go:115-119 | every entry after a list of transactions: outputs entered lack what the rest of the list spends, others what the list spends |
| Reentry.ReentryHarmlessIff | network/miner.go:79-88 | a block of confirmed and fresh transactions leaves the index of its fresh ones alone, exactly if each of its outputs spent by then is spent again later in the block |
| Reentry.ConfirmedReentryIff | network/miner.go:79 | the same with nothing fresh |
| Reentry.OneReentryIff | network/miner.go:79 | a single confirmed transaction: exactly if none of its outputs has been spent |
| Reentry.ReentryValue | network/miner.go:79-88 | how much too much the index is worth after such a block |
| Examples.ReentryExample | network/miner.go:79-88 | a payment mined again by a miner that has not heard of its spender: the index is wrong and worth one reward more |
| Examples.HarmlessReentryExample | network/miner.go:79-88 | the same block with the spender in the mempool too: the index is right |
| Redelivery.BlockReentry | network/fullnode.go:289-300 | entering a block of the chain again puts back all its outputs and changes no other entry |
| Redelivery.OldBlockVerifies | network/fullnode.go:262-279 | a verified block is verified again on every longer chain |
| Redelivery.OldBlockStored | network/fullnode.go:281-287 | stored again, it leaves the store as it is, and the walk is the chain up to it |
| Redelivery.OldBlockIndexIff | network/fullnode.go:281-287 | the index is still that of the chain walked exactly if the block was the newest |
| Flooding.NeverEnds | network/fullnode.go:301-309 | a copy on its way to nodes each of which has a peer among them never dies out |
| Flooding.PairNeverEnds | network/fullnode.go:301-309 | two nodes that relay to each other are enough, whatever others there are |
| Flooding.RunCounts | network/fullnode.go:301-309 | else each run is followed by exactly the deliveries not made yet |
| Flooding.RelayingStopsIff | network/fullnode.go:301-309 | relaying stops in every run exactly if all copies are on their way to nodes from which no chain of relays is as long as there are nodes |
| Redelivery.BlockRunWalks | network/fullnode.go:299-309 | each delivery of a block moves its node's tip to the block, back if need be |
| Redelivery.BlockFloodStopsIff | network/fullnode.go:301-309 | under which condition on the connections a verified block stops being passed around |
| Redelivery.ApplyTwice | blockchain/utxoset.go:78-113 | entering a transaction twice in a row is entering it once |
| Redelivery.MessageRunIndexes | network/spv.go:148-158 | any run of deliveries does to a node's index what one does |
| Redelivery.MessageFloodStopsIff | network/spv.go:160-167 | under the same condition a believed message stops |
| WalletModel.GetBalance | wallet/wallets.go:150-163 | the 64-bit worth of the answer in any order of iteration, zero without an answer |
| WalletModel.PickOutputs | wallet/wallets.go:99-108 | in any order of the keys: a beginning of the listing of held outputs, none twice, stopping as soon as the 64-bit sum reaches the amount, else all |
| WalletModel.Transfer | wallet/wallets.go:86-139 | the transaction from the picks, or the error; not enough balance exactly if no beginning of the listing reaches the amount |
| Payments.TransferPays | wallet/wallets.go:115-118 | a transfer between different parties pays exactly the amount to the recipient, gives the rest of what was picked back to the sender, and pays nobody else |
| Payments.TransferMoves | wallet/wallets.go:95-121 | once a transfer is confirmed the recipient owns the amount more, the sender the amount less, and everybody else what they owned |
| BalanceReports.BeginningsWithinIff | wallet/wallets.go:99-113 | in no order is a transfer ahead of the balance exactly if no tail of an entry has a negative sum, the whole of an only entry excepted |
| BalanceReports.ReportRightIff | wallet/wallets.go:111-113 | with sums within 64 bits not enough balance is reported exactly when `GetBalance` is below the amount, for all amounts and orders, under the same condition on the entries |
| BalanceReports.MagnitudesFit | wallet/wallets.go:99-108 | sums are within 64 bits if the magnitudes of the outputs are |
| BalanceReports.NonNegativeReportRight | wallet/wallets.go:111-113 | so it is right without negative outputs and within 64 bits |
| BalanceReports.NegativeBalanceExample | wallet/wallets.go:99-111 | an answer with balance 0 from which 5 are sent |
| WalletModel.TransferAdmitted | wallet/wallets.go:95-121 | a transfer spends distinct outputs of the sender, takes in exactly what it pays out as long as that is within 64 bits, and is admitted |
| WalletModel.TransferAdmittedIff | network/fullnode.go:417-419 | if a signature verifies only when cut in the right place, a transfer is admitted exactly if in each of them the second number is as long as the first or one byte longer |
| WalletModel.ShortSignatureExample | wallet/wallets.go:141-148 | a transfer that is rejected because the second number is a byte short |
| WalletModel.SpvTransferAdmitted | wallet/wallets.go:165-200 | end to end: a transfer from an SPV node's answer is admitted and verified by every node with the index of the same chain |

## Left out

- Sockets, listeners, timeouts, sleeps and printing. A handler is one step and its messages are its result; the pause
  before `ReIndex` is taken to be long enough for all answers to arrive.
- LevelDB and gob. Each kind of record has a map of its own, and decoding undoes encoding; the re-wrapping of a
  relayed transaction in another message type is not modelled.
- SHA-256, RIPEMD-160, ECDSA, Base58 and checksums: parameters. Addresses and public keys are taken to be long enough
  for the slices that cut them, and signature numbers are byte strings, so leading zeros are not identified.
- Block.MerkleRoot is filled in on a value that is returned, not in place; sharing of one block between pointers is
  not modelled. A root that is present is not recomputed, as in the program.
- WalletModel.Transfer: the polling of nodes for an answer is a parameter, and the broadcast is not modelled.
- Miner.MineBlock: looked at for a given number of passes; without a nonce that meets the target the program searches
  for ever.
- Conservation.ValueConserved: for blocks whose transactions have sums within 64 bits; the total is a mathematical
  integer.
- SpvNodes.SPVNode.HandleMerkleblock: starts after the wait for headers, which is a model of its own (`HeaderWait`).
- SpvSpec.SpvAnswers: for in-order delivery, once, with a monitored list fixed from the start; changes of the list
  during a run are not modelled.
- SyncSpec.RoundExtends: for one round at a time on one branch, with answers from peers that hold the blocks. There is
  no fork choice, and overlapping rounds overwrite the shared message count.
- FullNodes.FullNode.HandleBlockdata: for a new block that meets the target, requires that the walk from the present tip
  ends.
- Redelivery.BlockFloodStopsIff: follows one block, with no other new block in between, and nodes that know its
  predecessors.
- BalanceReports.ReportRightIff: for sums within 64 bits.
- The version and verack exchange may go on for long; only its effect on connections and addr messages is bounded.
- The Bloom filter is an exact address list, as in the program. Key generation, wallet files and message padding.
