# Wallet kit: verified models

This project models the parts of the wallet kit that carry real logic and proves what they are for. Each module follows
one source component:

- **Transaction hashing** (`ByteStrings`, `Hex`, `Numbers`, `Values`, `Reading`, `Nodes`, `NodeReading`, `NodeGraphs`,
  `Transactions`, `TransactionReading`, `Binding`, `Invariance`): the V2 hash of a prepared Canton transaction, a tagged,
  length-prefixed encoding of Daml values and transaction nodes in which children are looked up by id and replaced by their
  digests. SHA-256 is a parameter of which only the output length is used, so binding reads "the same content, or two
  different byte strings, one hashed in each run, with the same digest". An encoder is a function to `Option<Bytes>`; `None` is a rejected promise.
  The three reading modules say what the bytes mean, numeral by numeral and without calling an encoder; that reading undoes
  encoding is what unique decodability and binding are derived from.
- **Topology multi-hash** (`Topology`): two independent implementations of one hash, proved equal.
- **Coin selection and merging** (`Holdings`, `CoinSelection`, `Merging`): which holdings pay for a transfer, and how
  holdings are merged into self-transfers. Amounts are exact reals.
- **Wallet stores** (`Wallets`, `WalletInvariants`, `WalletTables`, `WalletSimulation`, `InMemoryStore`, `SqlStore`): the in-memory and the
  SQL implementation of the store interface. Each is a class whose methods change their fields and are proved against a step
  function on values; invariants of runs and the simulation between the stores are proved about the step functions.
- **Message generator** (`MessageGenerator`): socket handlers and a consumer that sleeps on a wake-up slot, as interleaved
  steps.
- **Paged readers** (`OffsetLogs`, `LedgerUpdates`, `Completions`, `Fireblocks`): loops that read a history page by page,
  proved to give what one big query would give. A server is a pure function of an ordered log.
- **Caches** (`RoundCache`, `SingleFlight`): the validity window of the mining-round cache, and requests shared by
  concurrent callers.
- **Back-off switch** (`BackOff`): the switch between WebSocket and polling, over whole runs with a monotone clock.

`Wrappers` and `Sequences` are helpers. Recursion over nodes is bounded by a ghost rank along the children the encoder goes on
to: those of a rollback, and those of an exercise of which no other field is rejected. `Invariance.TerminatesIffNoCycleReached`
shows that a rank exists exactly when chains of nested calls are bounded, which is when the roots reach no cycle along such
children.

Some properties that one might expect hold only under a condition. Each has an input on which it fails and the exact condition:

- A 64-bit integer passes through `parseInt`, which rounds to a double, so some integers share an encoding
  (`Values.Int64NotInjective`, `Values.Int64AloneIff`).
- Contract ids that are not lower-case hexadecimal of even length share their bytes with ones that are (`Hex.CanonicalIff`).
- A socket error that arrives while the consumer holds a message is never thrown (`MessageGenerator.ErrorThrownIffAsleep`).
- The grouping key of the merge does not identify the instrument when a separator can start inside an id or admin
  (`Merging.KeysCanCollide`, `Merging.SharesKeyIff`); a transfer then takes inputs of another instrument exactly when two such
  utxos are merged (`Merging.MixesInstrumentsIff`).
- The two stores differ on adding a wallet to a network that does not exist (`WalletSimulation.UnknownNetworkDiverges`) and, in
  some cases, to a network other than the current one: `WalletSimulation.AddAgrees` is the guard under which they agree, and
  `WalletSimulation.AddDiverges` shows that they differ whenever it fails.
- A removal can leave a network with wallets but no primary one (`WalletInvariants.RemovalCanLeaveNoPrimary`), exactly when it
  takes the primary one from among others (`WalletInvariants.RemovalKeepsPrimaryIff`).
- Completion polling repeats one request for ever behind a hundred checkpoints (`Completions.StuckBehindCheckpoints`), and gets
  to the wanted completion exactly when no hundred checkpoints in a row lie in front of it (`Completions.PollingEndsIff`).
- Reading the transaction history loses transactions when a response ends between two of the same creation time
  (`Fireblocks.TiesAreLost`), and only then (`Fireblocks.NothingLostIff`); it restarts for ever behind a transaction created at
  time 1 (`Fireblocks.TimeOneNeverEnds`), and otherwise ends (`Fireblocks.ReadingEndsIff`).
- Invalidating a cache lets some later run have two requests outstanding exactly when it forgets a request that is not yet
  finished (`SingleFlight.InvalidationBreaksIff`; `SingleFlight.SettledForgottenBreaks` is an input on which the forgotten
  request is settled, and deletes the entry of its successor). A value requested before it can be served after it exactly
  when a request is outstanding (`SingleFlight.ServesFreshIff`).
- The SQL store can leave a network without a primary wallet by a removal or by adding a first wallet to another network
  (`WalletTables.StepKeepsPrimaryIff` says exactly when).

## Model

| member | source | states |
|---|---|---|
| `Reading.ValueReads` | core/tx-visualizer/src/hashing_scheme_v2.ts:271-397 | a reader that goes by the bytes alone (tags 0x00 unit, 0x01 bool, 0x02 integer, 0x03 numeric, 0x04 timestamp, 0x05 date, 0x06 party, 0x07 text, 0x08 contract id, 0x09 optional, 0x0a list, 0x0b text map, 0x0c record, 0x0d variant, 0x0e enum, 0x0f map) gets every well-formed value back from its encoding, whatever bytes follow |
| `Reading.IdentifierReads` | core/tx-visualizer/src/hashing_scheme_v2.ts:127-133 | package id, then module and entity name, each as a counted list of pieces without a dot, are read back |
| `Reading.OptionalReads` | core/tx-visualizer/src/hashing_scheme_v2.ts:82-105 | the presence byte 0 is read as absent, 1 as present with the content behind it |
| `Reading.RepeatedReads` | core/tx-visualizer/src/hashing_scheme_v2.ts:107-114 | a four-byte count and then that many elements are read back whenever the elements are |
| `Reading.ValueUniquelyDecodable` | core/tx-visualizer/src/hashing_scheme_v2.ts:271-397 | the encoding of a value can be read off the front of any byte string in one way only |
| `Reading.ValueApart` | core/tx-visualizer/src/hashing_scheme_v2.ts:271-376 | no encoding is a proper prefix of another, and equal encodings come from equal values |
| `Values.KnownEncodes` | core/tx-visualizer/src/hashing_scheme_v2.ts:271-376 | a value is rejected exactly when some value inside it is of no known kind |
| `Values.JoinSplitDots` | core/tx-visualizer/src/hashing_scheme_v2.ts:127-133 | joining the dot-separated pieces of a name gives the name back |
| `Values.Int64NotInjective` | core/tx-visualizer/src/hashing_scheme_v2.ts:281-286 | 2^53 and 2^53 + 1 have the same encoding |
| `Values.Int64AloneIff` | core/tx-visualizer/src/hashing_scheme_v2.ts:281-286 | exactly which signed 64-bit integers share their encoding with no other |
| `Numbers.NearestDouble` | core/tx-visualizer/src/hashing_scheme_v2.ts:281-286 | a 64-bit magnitude is rounded to a double to which no double is nearer, and of two equally near ones to the even one |
| `Numbers.UndisturbedIsAlone` | core/tx-visualizer/src/hashing_scheme_v2.ts:281-286 | below 2^53, and at twice an odd number between 2^53 and 2^54, no other 64-bit magnitude rounds to the same double |
| `Numbers.DisturbedHasTwin` | core/tx-visualizer/src/hashing_scheme_v2.ts:281-286 | every other 64-bit magnitude shares its double with another one |
| `Hex.HexBytesToHex` | core/tx-visualizer/src/utils.ts:26-42 | reading hexadecimal text undoes writing it |
| `Hex.ToHexLowers` | core/tx-visualizer/src/utils.ts:26-42 | hexadecimal digits of either case are read alike: writing gives them back in lower case |
| `Hex.ToHexHexBytes` | core/tx-visualizer/src/utils.ts:26-42 | writing undoes reading on lower-case text of even length |
| `Hex.HexBytesInjective` | core/tx-visualizer/src/hashing_scheme_v2.ts:72-79 | different contract ids in lower-case hexadecimal stand for different bytes |
| `Hex.CanonicalIff` | core/tx-visualizer/src/hashing_scheme_v2.ts:72-79 | exactly lower-case text of even length is what its bytes are written as, and any other text shares its bytes with such a text |
| `Hex.ParseHex` | core/tx-visualizer/src/hashing_scheme_v2.ts:72-79 | the loop fills the buffer with the byte of each pair of characters, dropping an odd last one |
| `ByteStrings.MkByteArray` | core/tx-visualizer/src/utils.ts:58-83 | the buffer written with a running offset is the concatenation of the parts |
| `ByteStrings.Int32Value` | core/tx-visualizer/src/hashing_scheme_v2.ts:41-46 | four bytes, most significant first, whose value is the integer modulo 2^32 |
| `ByteStrings.Int64Value` | core/tx-visualizer/src/hashing_scheme_v2.ts:48-56 | eight bytes, most significant first, whose value is the integer modulo 2^64 |
| `ByteStrings.Int32Injective` | core/tx-visualizer/src/hashing_scheme_v2.ts:41-46 | equal four-byte encodings come from integers equal modulo 2^32 |
| `ByteStrings.Int64Injective` | core/tx-visualizer/src/hashing_scheme_v2.ts:48-56 | equal eight-byte encodings come from integers equal modulo 2^64 |
| `NodeReading.NodeReads` | core/tx-visualizer/src/hashing_scheme_v2.ts:160-254 | a reader that goes by the bytes alone gets every field of a node back from its encoding, and of each child the hash of its encoding, in order; equal encodings therefore come from nodes equal in all of that |
| `NodeReading.CreateReads` | core/tx-visualizer/src/hashing_scheme_v2.ts:160-179 | seed, contract id, package name, template id, argument, signatories, stakeholders are read back in this order |
| `NodeReading.ExerciseReads` | core/tx-visualizer/src/hashing_scheme_v2.ts:181-219 | seed, contract id, package name, template id, signatories, stakeholders, acting parties, interface id, choice id, chosen value, consuming, result, choice observers, child digests are read back in this order |
| `NodeReading.FetchReads` | core/tx-visualizer/src/hashing_scheme_v2.ts:221-239 | contract id, package name, template id, signatories, stakeholders, interface id, acting parties are read back in this order |
| `NodeReading.RollbackReads` | core/tx-visualizer/src/hashing_scheme_v2.ts:241-254 | the bytes 1 and 3 and the child digests are read back as a rollback |
| `NodeReading.HeaderReads` | core/tx-visualizer/src/hashing_scheme_v2.ts:160-239 | behind the byte 1 and an LF version shorter than 3 times 2^24 bytes the tags 0, 1 and 2 are read as create, exercise and fetch, never as a rollback |
| `NodeReading.SameEncoding` | core/tx-visualizer/src/hashing_scheme_v2.ts:160-254 | equal encodings come from nodes of one kind that agree in every field and in the digests of their children |
| `Nodes.VersionedIsJoin` | core/tx-visualizer/src/hashing_scheme_v2.ts:160-239 | a create, exercise or fetch node is the concatenation of version, LF version, tag and fields, rejected if a field is |
| `NodeGraphs.CreateNodesDict` | core/tx-visualizer/src/hashing_scheme_v2.ts:449-458 | the loop builds the dictionary in which a later node replaces an earlier one with its id |
| `NodeGraphs.DictEntry` | core/tx-visualizer/src/hashing_scheme_v2.ts:449-458 | in that dictionary an id stands for the node of its last entry in the list |
| `NodeGraphs.FirstSeed` | core/tx-visualizer/src/hashing_scheme_v2.ts:116-125 | the seed found for an id is that of its first entry, and none is found exactly when there is no entry |
| `NodeGraphs.AcyclicHasRank` | core/tx-visualizer/src/hashing_scheme_v2.ts:399-447 | a closed region of the dictionary without a cycle has ranks that fall along every edge |
| `NodeGraphs.RankedIsAcyclic` | core/tx-visualizer/src/hashing_scheme_v2.ts:399-447 | and a ranked region has no cycle |
| `Invariance.TerminatesIffNoCycleReached` | core/tx-visualizer/src/hashing_scheme_v2.ts:181-254 | chains of nested calls are bounded exactly when the roots reach no cycle along the children that are encoded, and exactly then there are ranks; an exercise with another rejected field never gets to its children |
| `Invariance.RejectedCycleTerminates` | core/tx-visualizer/src/hashing_scheme_v2.ts:181-219 | an exercise without a template id that is its own child is rejected without a second call |
| `Transactions.DictEncodesTree` | core/tx-visualizer/src/hashing_scheme_v2.ts:399-447 | looking nodes up by id computes the digest of the tree the id unfolds to |
| `Transactions.UnfoldsUnique` | core/tx-visualizer/src/hashing_scheme_v2.ts:399-447 | an id unfolds to at most one tree |
| `Transactions.EncodedUnfolds` | core/tx-visualizer/src/hashing_scheme_v2.ts:399-447 | an id that is encoded unfolds to a tree |
| `Transactions.EncodesIffReachableSupported` | core/tx-visualizer/src/hashing_scheme_v2.ts:399-447 | an id is encoded exactly when every id reachable from it resolves to a supported node, with a seed if it is an exercise |
| `Invariance.SucceedsIff` | core/tx-visualizer/src/hashing_scheme_v2.ts:460-525 | the whole computation succeeds exactly when both halves are present and every reached id and every input contract is supported |
| `Invariance.EmptyTransactionIsHashed` | core/tx-visualizer/src/hashing_scheme_v2.ts:521-525 | a transaction without nodes is well-formed and has a digest, so binding is not about nothing |
| `Invariance.ReorderingKeepsResult` | core/tx-visualizer/src/hashing_scheme_v2.ts:449-472 | the order of nodes and of seeds does not matter when ids are distinct |
| `Invariance.UnreachableNodesKeepResult` | core/tx-visualizer/src/hashing_scheme_v2.ts:449-472 | nodes and seeds no root leads to may be added or removed anywhere: the encoder still terminates, with the same result |
| `Invariance.RenamingKeepsResult` | core/tx-visualizer/src/hashing_scheme_v2.ts:116-125 | after renaming node ids without identifying two of them the encoder still terminates, with the same result |
| `Invariance.AgreeingResult` | core/tx-visualizer/src/hashing_scheme_v2.ts:399-472 | dictionaries and seeds that agree wherever the roots lead give the same result |
| `TransactionReading.MetadataReads` | core/tx-visualizer/src/hashing_scheme_v2.ts:135-158 | behind the purpose and the version byte 1: acting parties, command id, transaction id, mediator group, synchronizer, earliest and latest time, preparation time, and of each input contract time and digest, are read back in this order |
| `TransactionReading.ContractReads` | core/tx-visualizer/src/hashing_scheme_v2.ts:256-269 | an input contract is eight bytes of time and the hash of its create node, encoded without a seed |
| `TransactionReading.TransactionReads` | core/tx-visualizer/src/hashing_scheme_v2.ts:460-489 | behind the purpose the version and the digests of the roots are read back |
| `TransactionReading.FinalReads` | core/tx-visualizer/src/hashing_scheme_v2.ts:502-519 | behind the purpose and the byte 2 the transaction hash and then the metadata hash are read back |
| `TransactionReading.PreparedReads` | core/tx-visualizer/src/hashing_scheme_v2.ts:460-525 | the digest of a prepared transaction is the hash of bytes that say: purpose 00000030, scheme version 2, the hash of the bytes that say its version and the hashes of its encoded root trees, and the hash of the bytes that say its metadata |
| `Binding.TreeBinding` | core/tx-visualizer/src/hashing_scheme_v2.ts:399-447 | trees with equal digests are equal, or two different byte strings hashed for them have the same digest |
| `Binding.MetadataBinding` | core/tx-visualizer/src/hashing_scheme_v2.ts:135-158 | metadata with equal encodings agree in every hashed field, absent submitter information counting as empty, or input contracts collide |
| `Binding.EqualDigestsBind` | core/tx-visualizer/src/hashing_scheme_v2.ts:460-525 | well-formed prepared transactions with equal digests have the same version, the same unfolded trees and the same hashed metadata, or two different byte strings, one hashed in each run, collide |
| `Binding.SameContentSameDigest` | core/tx-visualizer/src/hashing_scheme_v2.ts:460-525 | the converse: the same trees and metadata give the same digest, however the nodes are listed |
| `Topology.HexOrderIsByteOrder` | core/tx-visualizer/src/hashing_scheme_v2.ts:539-554 | comparing hexadecimal text is comparing bytes |
| `Topology.SortedUnique` | core/tx-visualizer/src/hashing_scheme_v2.ts:539-554 | a list of hashes has one sorted arrangement, so any correct sort gives it |
| `Topology.ComputeMultiHashForTopology` | core/tx-visualizer/src/hashing_scheme_v2.ts:539-554 | the list of parts it builds concatenates to the count and the length-prefixed sorted hashes |
| `Topology.AnySortIsTheSort` | sdk/wallet-sdk/src/topologyWriteService.ts:158-162 | whatever a sort by hexadecimal text returns, if sorted and a permutation, is the same list |
| `Topology.CombineHashes` | sdk/wallet-sdk/src/topologyWriteService.ts:158-188 | sorts its argument in place and returns the base64 text of the bytes 0x12, 0x20 and the hash of the four-byte purpose 55 and the preimage |
| `Topology.BothAgree` | sdk/wallet-sdk/src/topologyController.ts:154-168 | both implementations give the same such text for every list of hashes |
| `Topology.CantonHashesAgreeIff` | sdk/wallet-sdk/src/topologyWriteService.ts:44-71 | the two hash functions with a purpose agree exactly on purposes that fit in 32 bits |
| `Topology.MultiHashReads` | core/tx-visualizer/src/hashing_scheme_v2.ts:539-554 | the preimage is read back as the sorted hashes: their number in four bytes, then each behind its length |
| `Topology.MultiHashPermutation` | core/tx-visualizer/src/hashing_scheme_v2.ts:539-554 | the order of the hashes does not matter |
| `Topology.MultiHashInjective` | core/tx-visualizer/src/hashing_scheme_v2.ts:539-554 | equal preimages come from the same hashes, each as often |
| `CoinSelection.UnlockedInOrder` | core/ledger-client/src/token-standard-service.ts:117-126 | the filter keeps exactly the holdings that isHoldingLocked calls unlocked, each once and in their order |
| `CoinSelection.GetInputHoldingsCidsForAmount` | core/ledger-client/src/token-standard-service.ts:143-199 | the loop returns the exact match, or the largest holding and the smallest others until covered, or the right error |
| `CoinSelection.GetInputHoldingsCids` | core/ledger-client/src/token-standard-service.ts:98-141 | given inputs win, no holdings at all and no unlocked ones are different errors, each with its exact condition, an absent or zero amount takes everything unlocked, otherwise the selection over the unlocked holdings |
| `CoinSelection.SortIsStable` | core/ledger-client/src/token-standard-service.ts:157-162 | holdings are sorted by amount, those of equal amount in the order in which they were given |
| `CoinSelection.SelectedPlaces` | core/ledger-client/src/token-standard-service.ts:143-199 | which ids are chosen: the first exact match alone, or else the last of the sorted list and then its first ones |
| `CoinSelection.InsufficientIff` | core/ledger-client/src/token-standard-service.ts:186-190 | insufficient funds are reported exactly when there are holdings and all together fall short, with the missing amount |
| `CoinSelection.TooManyIff` | core/ledger-client/src/token-standard-service.ts:192-196 | too many inputs are reported exactly when all together cover the amount and the largest with the 99 smallest others does not |
| `CoinSelection.SelectedCovers` | core/ledger-client/src/token-standard-service.ts:143-199 | a selection is 1 to 100 of the given holdings, covers the amount, falls short without its last pick, and is the exact match alone if there is one |
| `CoinSelection.ChosenIdsDistinct` | core/ledger-client/src/token-standard-service.ts:172-184 | the chosen contract ids are distinct when the given ones are |
| `CoinSelection.SuccessIsSound` | core/ledger-client/src/token-standard-service.ts:98-199 | from the list of holdings to the ids: a success with an amount is 1 to 100 distinct ids of unlocked holdings of the list that cover the amount |
| `CoinSelection.FirstKAreLeast` | core/ledger-client/src/token-standard-service.ts:157-162 | exchange argument: no choice of k holdings totals less than the first k of the sorted list |
| `CoinSelection.CoveredIffSmallest` | core/ledger-client/src/token-standard-service.ts:164-184 | every choice of k holdings with the largest covers the amount exactly when the largest and the k - 1 smallest others do |
| `CoinSelection.SelectionIsOptimal` | core/ledger-client/src/token-standard-service.ts:157-198 | without an exact match the number of inputs is the least k such that every choice of k holdings with the largest covers the amount |
| `Merging.SharesKeyIff` | sdk/wallet-sdk/src/tokenStandardController.ts:392-399 | another instrument has the same grouping key exactly when a separator starts in the id and colon, or in the colon and admin |
| `Merging.KeyIdentifies` | sdk/wallet-sdk/src/tokenStandardController.ts:392-399 | among instruments in whose id no separator can start, the key identifies the instrument |
| `Merging.NoColonNoSeparator` | sdk/wallet-sdk/src/tokenStandardController.ts:392-399 | ids without a colon are such |
| `Merging.KeysCanCollide` | sdk/wallet-sdk/src/tokenStandardController.ts:392-399 | two different instruments with the same key |
| `Merging.GroupByGroups` | sdk/wallet-sdk/src/tokenStandardController.ts:392-399 | every group holds exactly the utxos with its key, in order, keys are distinct and none is missing |
| `Merging.WithKeyInOrder` | sdk/wallet-sdk/src/tokenStandardController.ts:392-399 | the utxos of a key are exactly those, each once and in their order |
| `Merging.GroupsInOrder` | sdk/wallet-sdk/src/tokenStandardController.ts:392-399 | groups stand in the order in which their keys first appear |
| `Merging.FlattenChunks` | sdk/wallet-sdk/src/tokenStandardController.ts:411-424 | the chunks of a group put together are the group, and all but the last hold a hundred |
| `Merging.MergeHoldingUtxos` | sdk/wallet-sdk/src/tokenStandardController.ts:404-441 | the loop over the groups requests the transfers of every group in turn |
| `Merging.TransfersAreSound` | sdk/wallet-sdk/src/tokenStandardController.ts:411-437 | each transfer takes 1 to 100 inputs of one instrument, its own, and moves exactly what they hold |
| `Merging.MixesInstrumentsIff` | sdk/wallet-sdk/src/tokenStandardController.ts:392-437 | some transfer takes an input that is not of its own instrument exactly when two of the utxos have the same key and different instruments |
| `Merging.MergingConserves` | sdk/wallet-sdk/src/tokenStandardController.ts:404-441 | every utxo is an input of exactly one transfer and all transfers together move exactly what the utxos hold |
| `Merging.TransfersCounted` | sdk/wallet-sdk/src/tokenStandardController.ts:409-411 | the number of transfers is the sum over the keys of a hundredth of their utxos, rounded up |
| `WalletInvariants.StepKeeps` | core/wallet-store-inmemory/src/StoreInternal.ts:217-305 | every operation keeps (party, network) unique and primaries single, and keeps a primary one in every network exactly unless it removes the primary one from among others |
| `WalletInvariants.SyncKeeps` | core/wallet-store-inmemory/src/StoreInternal.ts:100-182 | after a synchronisation a current network with wallets has exactly one primary, every party has its wallet, and keys are unique exactly when no new party is listed twice |
| `WalletInvariants.SyncStores` | core/wallet-store-inmemory/src/StoreInternal.ts:133-178 | what is stored: the old wallets with every field but the flag as before, behind them an allocated wallet without transaction id for each listed party that had none, in the order of the list; a flag changes only if the network had no primary wallet, and then that of its first one |
| `WalletInvariants.RunKeeps` | core/wallet-store-inmemory/src/StoreInternal.ts:100-322 | every run of operations and synchronisations keeps the invariants, and if no primary wallet is removed from among others every network with a wallet has a primary one |
| `WalletInvariants.RemovalKeepsPrimaryIff` | core/wallet-store-inmemory/src/StoreInternal.ts:296-305 | a removal leaves every network with a primary wallet exactly when the wallet is absent, not primary or the only one of its network |
| `WalletInvariants.RemovalCanLeaveNoPrimary` | core/wallet-store-inmemory/src/StoreInternal.ts:296-305 | an input on which a removal leaves a network with a wallet but no primary one |
| `WalletTables.StepKeepsOk` | core/wallet-store-sql/src/store-sql.ts:121-289 | every SQL operation keeps the unique index on primary wallets, the reference of wallets to existing networks, and one session per user |
| `WalletTables.StepKeepsPrimaryIff` | core/wallet-store-sql/src/store-sql.ts:121-289 | an operation leaves a network of the user with wallets but no primary one exactly when it removes the primary one from among others, or adds a first, non-primary one to another network while the current one has wallets |
| `WalletTables.NewSession` | core/wallet-store-sql/src/store-sql.ts:267-281 | after the old rows of a user are deleted and one is inserted, the first row found for the user is the new one and those of others are as before |
| `WalletTables.LoginMakesCurrent` | core/wallet-store-sql/src/store-sql.ts:373-408 | after a login to a network it is the current one exactly when it is global or belongs to the user, and after a logout there is none |
| `WalletSimulation.StepSimulates` | core/wallet-store-sql/src/store-sql.ts:121-289 | under the guard on additions one operation fails in both stores or in neither, and afterwards they hold the same wallets |
| `WalletSimulation.RunSimulates` | core/wallet-store-sql/src/store-sql.ts:121-289 | every run gives the same successes and failures and matching states, keeps what the tables promise, and leaves other users alone |
| `WalletSimulation.StepLeavesOthers` | core/wallet-store-sql/src/store-sql.ts:121-289 | no operation touches wallets or sessions of other users |
| `WalletSimulation.AddToCurrentAgrees` | core/wallet-store-sql/src/store-sql.ts:164-206 | adding to the current network is a case on which the stores agree |
| `WalletSimulation.AddDiverges` | core/wallet-store-sql/src/store-sql.ts:164-206 | wherever the guard of agreement fails, one store fails and the other does not, or the new wallets differ |
| `WalletSimulation.UnknownNetworkDiverges` | core/wallet-store-sql/src/migrations/006-change-wallet-primary-key-to-composite.ts:111-113 | a wallet for a network that does not exist is taken by the in-memory store and refused by the reference of the table |
| `WalletSimulation.SetPrimarySimulates` | core/wallet-store-sql/src/store-sql.ts:121-162 | clearing the one primary row found and setting another has the effect of the in-memory loop over the whole network |
| `WalletSimulation.WalletRoundTrip` | core/wallet-store-sql/src/schema.ts:164-205 | a row holds the key, the flag as 0 or 1 and the status as text, and reading it back gives the wallet, an absent transaction id being read as empty |
| `WalletSimulation.EmptyStoresMatch` | core/wallet-store-sql/src/store-sql.ts:61-104 | new stores match |
| `InMemoryStore.UserStorage.SetPrimaryWallet` | core/wallet-store-inmemory/src/StoreInternal.ts:217-242 | flips flags in place to the state the specification gives, or fails and changes nothing |
| `InMemoryStore.UserStorage.AddWallet` | core/wallet-store-inmemory/src/StoreInternal.ts:244-274 | demotes in place and appends, as specified, or fails and changes nothing |
| `InMemoryStore.UserStorage.UpdateWallet` | core/wallet-store-inmemory/src/StoreInternal.ts:276-294 | replaces the object of the wallet and keeps the others, as specified |
| `InMemoryStore.UserStorage.RemoveWallet` | core/wallet-store-inmemory/src/StoreInternal.ts:296-305 | keeps the other objects, as specified |
| `InMemoryStore.UserStorage.SyncWallets` | core/wallet-store-inmemory/src/StoreInternal.ts:100-182 | reaches the state of which `WalletInvariants.SyncStores` says what is in it |
| `InMemoryStore.KeepOthersViews` | core/wallet-store-inmemory/src/StoreInternal.ts:296-305 | the objects kept by a removal show the list with the wallet deleted |
| `SqlStore.StoreSql.SetPrimaryWallet` | core/wallet-store-sql/src/store-sql.ts:121-162 | two row updates give the table the specification gives, or it fails and changes nothing |
| `SqlStore.StoreSql.AddWallet` | core/wallet-store-sql/src/store-sql.ts:164-206 | demotes rows and inserts one as specified; a refused key or network rolls everything back |
| `SqlStore.StoreSql.UpdateWallet` | core/wallet-store-sql/src/store-sql.ts:208-233 | gives exactly the row of the user, party and target network the new status and transaction id, and changes no other |
| `SqlStore.StoreSql.RemoveWallet` | core/wallet-store-sql/src/store-sql.ts:235-254 | takes exactly the row of the user, party and current network away |
| `SqlStore.StoreSql.SetSession` | core/wallet-store-sql/src/store-sql.ts:267-281 | the session found for the user is the new one, and others stay, although the table has no key |
| `SqlStore.StoreSql.RemoveSession` | core/wallet-store-sql/src/store-sql.ts:283-289 | no session is found for the user any more, and others stay |
| `MessageGenerator.StepKeepsInv` | core/asyncapi-client/src/websocket-client.ts:81-118 | each handler and each resumption keeps received equal to yielded followed by the queue, and never leaves a consumer asleep with something to do |
| `MessageGenerator.RunsKeepInv` | core/asyncapi-client/src/websocket-client.ts:81-118 | the same for every run, and a normal end means everything received was yielded in order |
| `MessageGenerator.RunsFromStart` | core/asyncapi-client/src/websocket-client.ts:72-118 | in every run from the start the messages yielded, followed by those still queued, are the messages that arrived; a normal end comes only after a close or an error and has yielded all of them; an error is thrown only if one was reported |
| `MessageGenerator.EndsAfterClose` | core/asyncapi-client/src/websocket-client.ts:101-118 | once closed, the generator ends after at most one resumption per queued message and one more, and a normal end yields the whole queue |
| `MessageGenerator.ErrorThrownIffAsleep` | core/asyncapi-client/src/websocket-client.ts:88-113 | an error is thrown exactly when the consumer is asleep as it is reported; otherwise the generator ends normally |
| `MessageGenerator.ReturnEnds` | core/asyncapi-client/src/websocket-client.ts:103-121 | a consumer that returns gets nothing more, whatever still arrives |
| `MessageGenerator.Generator.OnMessage` | core/asyncapi-client/src/websocket-client.ts:81-87 | the handler appends the message to the queue and wakes a consumer that is asleep, which is the step of a message |
| `MessageGenerator.Generator.OnError` | core/asyncapi-client/src/websocket-client.ts:88-93 | the handler records error and end and wakes a consumer that is asleep, which is the step of an error |
| `MessageGenerator.Generator.OnClose` | core/asyncapi-client/src/websocket-client.ts:94-100 | the handler records the end and wakes a consumer that is asleep, which is the step of a close |
| `MessageGenerator.Generator.Next` | core/asyncapi-client/src/websocket-client.ts:101-118 | one resumption runs to the next suspension; it hands out the oldest queued message exactly when there is one, the consumer is not asleep and no error is to be thrown |
| `LedgerUpdates.ReadPage` | core/ledger-client/src/ledger-client.ts:645-688 | a page gives the listing of its transactions, of which `LedgerUpdates.ListingDescribes` says what is in it, and the offset that follows them |
| `LedgerUpdates.ListingDescribes` | core/ledger-client/src/ledger-client.ts:655-685 | the k-th element of a listing has the workflow id, the synchronizer id and the offset of the k-th transaction of the log, and the contract of its first created event |
| `LedgerUpdates.PageAccounts` | core/ledger-client/src/ledger-client.ts:643-689 | reading one page moves forward and loses no transaction, even behind pages without one |
| `LedgerUpdates.FetchActiveContractsUntilComplete` | core/ledger-client/src/ledger-client.ts:628-691 | the loop ends and returns the listing of everything in (0, ledgerEnd], or its error |
| `LedgerUpdates.ListedIff` | core/ledger-client/src/ledger-client.ts:660-672 | a log is listed in full exactly when each of its transactions creates something |
| `OffsetLogs.BetweenAfterEntry` | core/ledger-client/src/ledger-client.ts:643-644 | restarting behind an entry asks for exactly the entries that follow it |
| `OffsetLogs.BetweenNext` | core/ledger-client/src/ledger-client.ts:689 | moving the start up by one drops at most the first entry |
| `Completions.NothingSkipped` | core/ledger-client/src/ledger-api-utils.ts:209-224 | the part of the log that the next poll no longer asks for holds no wanted completion |
| `Completions.FindsFirst` | core/ledger-client/src/ledger-api-utils.ts:161-226 | what is returned is a completion of status 0 and what is thrown is a status other than 0, each of the first completion of this user with this command or submission id behind the start offset in the whole log, however much each poll sees |
| `Completions.PollingEndsIff` | core/ledger-client/src/ledger-api-utils.ts:161-226 | with the log written and more polls than completions in front of the first wanted one, polling ends exactly when no hundred checkpoints in a row lie in front of it |
| `Completions.FindsInTime` | core/ledger-client/src/ledger-api-utils.ts:161-226 | then that completion is returned if its status is 0 and its status is thrown otherwise |
| `Completions.StuckBehindCheckpoints` | core/ledger-client/src/ledger-api-utils.ts:209-224 | behind a page full of checkpoints polling never gets further |
| `Completions.BlockedNeverEnds` | core/ledger-client/src/ledger-api-utils.ts:161-226 | with a hundred checkpoints in a row in front of the first wanted completion polling never ends, whatever part of the log each poll sees |
| `Fireblocks.YieldPage` | core/signing-fireblocks/src/fireblocks.ts:289-303 | the loop over a response yields its formattable transactions and sets the next query below its last one |
| `Fireblocks.GetTransactions` | core/signing-fireblocks/src/fireblocks.ts:268-311 | reading ends and yields what can be formatted of what it fetches, newest first; with distinct times that is every formattable transaction at or before the start, once |
| `Fireblocks.NothingLostIff` | core/signing-fireblocks/src/fireblocks.ts:282-306 | everything at or before the start is fetched exactly when no full response ends between two transactions created at the same time |
| `Fireblocks.PageLoses` | core/signing-fireblocks/src/fireblocks.ts:290-292 | what a response leaves out for good are exactly the transactions behind it created when its last one was |
| `Fireblocks.DistinctTimesLoseNothing` | core/signing-fireblocks/src/fireblocks.ts:282-306 | with distinct times everything at or before the start is fetched |
| `Fireblocks.TimeOneNeverEnds` | core/signing-fireblocks/src/fireblocks.ts:286 | with a last transaction created at time 1, every request fetches something, for ever |
| `Fireblocks.ReadingEndsIff` | core/signing-fireblocks/src/fireblocks.ts:282-306 | with positive creation times, reading ends exactly when nothing is asked for or the oldest transaction was not created at time 1 |
| `Fireblocks.TiesAreLost` | core/signing-fireblocks/src/fireblocks.ts:290-292 | an input: of two transactions created at the same time the second is never fetched one at a time |
| `Fireblocks.FormattedKeeps` | core/signing-fireblocks/src/fireblocks.ts:289-303 | what is yielded for a part of the history are its transactions that can be formatted, in order |
| `Fireblocks.FilterKeeps` | core/signing-fireblocks/src/index.ts:138-148 | the filter keeps, in order, exactly the transactions with a wanted id or a wanted public key, a missing key counting as empty |
| `Fireblocks.FilterTransactions` | core/signing-fireblocks/src/index.ts:128-168 | the loop with its early stop returns what filtering the whole history returns, or the error for missing arguments |
| `Fireblocks.AllFound` | core/signing-fireblocks/src/index.ts:151-158 | once as many transactions as ids have been found, no later one can match |
| `RoundCache.ComputeNextChangeAt` | core/splice-client/src/scan-proxy-client.ts:187-208 | returns the earliest boundary after now, or now if there is none |
| `RoundCache.ActiveKeeps` | core/splice-client/src/scan-proxy-client.ts:262-275 | the active rounds of a time are, in order, those with both times known that have opened by then and close only later |
| `RoundCache.WindowIsValid` | core/splice-client/src/scan-proxy-client.ts:242-253 | until the next change the active rounds are those that were active when it was computed |
| `RoundCache.WindowIsTight` | core/splice-client/src/scan-proxy-client.ts:187-208 | at the next change they differ exactly if a round that is ever active opens or closes there |
| `RoundCache.ServedRoundsAreCurrent` | core/splice-client/src/scan-proxy-client.ts:210-275 | in every interleaving a caller served from the cache gets rounds of which the same are active as when they were fetched |
| `SingleFlight.AtMostOneOutstanding` | core/splice-client/src/scan-proxy-client.ts:162-240 | in every interleaving in which no invalidation forgets a request at most one is outstanding |
| `SingleFlight.UnfinishedBounded` | core/splice-client/src/scan-proxy-client.ts:152-240 | in every interleaving at most one more request is under way than invalidations have forgotten one |
| `SingleFlight.CallersAnswered` | sdk/wallet-sdk/src/authController.ts:126-203 | in every interleaving, also with invalidations, a caller gets a cached value usable when checked, or the result of the request it started or joined |
| `SingleFlight.AtMostOneSuccess` | core/splice-client/src/scan-proxy-client.ts:152-179 | values that never expire are fetched successfully at most once |
| `SingleFlight.NoRequestWhileUsable` | core/splice-client/src/scan-proxy-client.ts:210-253 | as long as the cached value has not expired every caller gets it and no request is started |
| `SingleFlight.InvalidationBreaksIff` | core/splice-client/src/scan-proxy-client.ts:172-185 | after any run, an invalidation lets some further run have two requests outstanding exactly when it forgets a request that is not yet finished |
| `SingleFlight.SettledForgottenBreaks` | core/splice-client/src/scan-proxy-client.ts:172-175 | an input: a settled request that was forgotten deletes the entry of its successor, and a third one starts beside it |
| `SingleFlight.ServesFreshIff` | core/splice-client/src/scan-proxy-client.ts:152-185 | after an invalidation the cache serves only values requested later exactly when no request was outstanding |
| `SingleFlight.Source.Get` | sdk/wallet-sdk/src/authController.ts:132-154 | the synchronous part of a call keeps the invariant; it serves exactly a cached value that has not expired, else joins the request under way, else starts one |
| `SingleFlight.Source.OnFinish` | sdk/wallet-sdk/src/authController.ts:156-163 | storing the value and removing the entry keeps the invariant |
| `BackOff.WSSupportWithBackOffSwitch.Enabled` | core/ledger-client/src/acs/ws-support.ts:36-46 | answers whether the window is over and forgets a window that is |
| `BackOff.WSSupportWithBackOffSwitch.ReportError` | core/ledger-client/src/acs/ws-support.ts:48-60 | counts an error not too close to a window, opens a window and lengthens the next |
| `BackOff.DurationAt` | core/ledger-client/src/acs/ws-support.ts:55-59 | after k counted errors since the last success the duration is 1000 times 1.6^k, at most 600000 |
| `BackOff.EnabledIff` | core/ledger-client/src/acs/ws-support.ts:34-63 | at any time of a run the switch is on exactly outside of the windows of errors counted since the last success |
| `BackOff.DisabledThroughoutWindow` | core/ledger-client/src/acs/ws-support.ts:36-54 | throughout the window of a counted error the switch is off and no error is counted |
| `BackOff.CountedErrorsApart` | core/ledger-client/src/acs/ws-support.ts:48-60 | two counted errors are at least the earlier one's window apart |
| `BackOff.UnaskedErrorsApart` | core/ledger-client/src/acs/ws-support.ts:48-54 | as long as nobody asks whether the switch is enabled they are half a second further apart |
| `BackOff.ErrorsNoSoonerThanWindows` | core/ledger-client/src/acs/ws-support.ts:48-60 | a later counted error comes no sooner than the windows of all counted errors before it together |

## Left out

Transaction hashing:
- SHA-256, UTF-8 and base64: the hash is a parameter, text is its UTF-8 bytes, contract ids are character sequences.
- Which error is thrown: an encoder only says that it rejects.
- Binding.EqualDigestsBind: asks for well-formed inputs (lengths below 2^31, versions of nodes shorter than 3 times 2^24 bytes, 32-byte seeds, lower-case hexadecimal contract ids of even length, 64-bit integers that survive `parseInt`). These conditions are sufficient; `Values.Int64AloneIff` and `Hex.CanonicalIff` show what goes wrong for integers and contract ids outside of them.
- Reading.ValueReads: asks for the same of values, and so do `NodeReading.NodeReads` and `TransactionReading.MetadataReads` of nodes and metadata.
- Cycles along children that are encoded: the original then goes on calling itself without end, also where a sibling was rejected meanwhile; `Invariance.TerminatesIffNoCycleReached` says exactly when, and the encoder is modelled on the other inputs.
- Fields of the metadata that are not hashed (global key mapping, maximal record time, event blobs).
- Node ids that are names of built-in object properties, and the decimal text of seed numbers.

Topology multi-hash:
- Topology.CombineHashes: `localeCompare` is taken to order lower-case hexadecimal text by characters, and base64 is a parameter.

Coin selection and merging:
- Rounding of amounts by `parseFloat` and precision of `Decimal`: amounts are exact reals.
- The transfer request itself (`createTransfer`) and the removal of repeated disclosed contracts by contract id.
- CoinSelection.InsufficientIff: amounts are non-negative, as token amounts are.

Wallet stores:
- Failures for lack of a login, and the fields hint, public key, namespace, signing provider, topology transactions, disabled and reason, which the operations only carry along.
- Maintenance of networks and identity providers (networks stay as they are during a run), session ids, and `setTransaction`.
- Interleavings inside a store method: each method is one step.
- WalletInvariants.RunKeeps: parties are listed once per synchronisation; `WalletInvariants.SyncKeeps` says exactly what a repeated new party breaks.

Message generator:
- The start of the socket and the clean-up at the end; an early return by the consumer is a step but promises nothing about what was not yet yielded.

Paged readers:
- HTTP, retries and errors of the services; a server answers from an ordered log. Failing key look-ups are left out.
- LedgerUpdates.FetchActiveContractsUntilComplete: archived contracts are not subtracted and later creates of a transaction are not collected, as in the source.
- Fireblocks.GetTransactions: needs that no creation time is 1, as it does not end otherwise; `Fireblocks.ReadingEndsIff` says exactly when.
- Fireblocks.FilterTransactions: transaction ids in the history are distinct.

Caches:
- The choice of the latest active round, which subtracts raw payload fields.
- SingleFlight.AtMostOneSuccess: runs are without invalidation, which drops the value. Tokens of the user and of the administrator, rules and rounds, and different URLs are separate instances of the same machine.

Back-off:
- The factor 1.6 and all times are exact reals.

Elsewhere in the repository: generated clients, the user interface, signing, key storage and everything that is I/O.
