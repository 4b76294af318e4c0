# Verified model of the blockchain simulator

A Dafny model of a single-node ledger with peer consensus: signed transfers and mints are checked, queued, mined into
Merkle-stamped blocks and applied to wallet balances; nodes adopt the longest valid chain; users pass a KYC review.
The classes keep the program's own objects and update them in place; each call is proved to be one step of a state
machine, and the results below are about every run of that machine.

| module | models |
|---|---|
| `Decimals`, `Messages` | amount values, their plain-notation text, the text a transfer signs |
| `Models`, `Merkle`, `Chain` | transactions, blocks, the Merkle root, proof of work, chain validation |
| `Wallets`, `Balances` | the wallet store, the deltas of a block, supply |
| `Conversion`, `Currencies`, `Pricing` | fixed-point conversion, the exchange-rate log, what credits are worth |
| `Ledger`, `LedgerInvariants`, `LedgerNode`, `LedgerResults` | the ledger's steps, what all runs keep, the node's objects, joint results |
| `LedgerLaws` | what each ledger step stores, field by field, and what then stays |
| `TableLedger` | the node over tables: the mempool table, every run of the ledger over it |
| `LedgerExamples`, `TableExamples` | concrete runs that reach the exceptional cases |
| `Consensus` | `resolve` and a network of ledgers |
| `Rows` | the two block tables: columns, joined rows, regrouping |
| `RateLimit` | the sliding-window limiter |
| `Users`, `UserRuns`, `UserStore` | the user store, its indexes and the KYC workflow |
| `UserLaws` | what each call of it stores, field by field, and how a user climbs the levels |

Assumptions, all explicit in the text:

- SHA-256 is a free constructor of its preimage (`Models.Digest`). Leaf, inner-node, empty and header preimages have
  different shapes, so their digests never meet. A leaf's preimage is the `to_dict` payload, in which amounts went
  through `float`, a function of the exact value; equal roots therefore speak about payloads.
- The curve check, the difficulty test on an integer, `float` and its shortest text are parameters
  (`Models.Primitives`). Where a result needs more of them it asks by name: `LedgerResults.Binding` (no signature covers
  two texts under one key) and `TableLedger.FloatsFaithful` (a float's text reads back as it, and has no more decimals
  than the number the float was made from). That a signature must be hexadecimal before the curve is asked is modelled:
  it is what keeps the mint marker out.
- Timestamps, random wallet tokens, prices of the rate feed, file contents and the chains peers return are inputs of the
  steps. Each node of a network has its own primitives, difficulty included, and its own wallets.
- Proof-of-work search ends because some proof exists: callers hand in one as a ghost argument.
- Amounts are exact decimals, balances and rates exact reals.
- `State.applied` and the limiter's `admitted` are histories the program does not store.

Where the code and its description part, the code is modelled:

- An admitted transfer is checked against the confirmed balance alone, and a block stays on the chain when one of its
  deltas raises. "Every confirmed transaction moves its balances" holds exactly when each one fits
  (`Balances.DeltasCompleteIff`); `LedgerResults.JointOverspendIsConfirmedAndStops` is the failing family.
- `_fetch_chain` drops Merkle roots and transactions, so the validator rejects every non-empty chain it delivers,
  `resolve` never adopts one (`Consensus.ResolveOverStrippedFetchKeepsLocal`), and a network over it is a set of nodes
  that never influence one another (`Consensus.StrippedNetworkIsolates`). The convergence results are for fetches that
  deliver chains whole, which is what the repository's tests put in its place.
- A transfer may carry any number of decimals, while the tables keep eight. A node over tables checks a transfer as it
  was sent and mines it as its mempool table gives it back, through `float` and an eight-decimal column. What it mines
  is whole units of 10^-8 and its stored chain rereads unchanged, but the chain validates exactly when every transfer
  was signed for an amount of at most eight decimals whose float writes out as the amount
  (`TableLedger.TableChainValidIff`). A transfer signed for 0.123456789 is admitted, mined as 0.12345679, and the chain
  is invalid from then on (`TableExamples.MiningBreaksChain`).
- For chains that reach the block tables past that mempool, as where a caller injects an in-memory one, the columns
  round: such a chain rereads equal exactly when its amounts are whole units in range (`Rows.ReloadSameIff`) and
  validates exactly as `LedgerResults.RereadVerdictIff` says. `LedgerExamples.NineDigitsBreakReload` is one that does
  not.
- The admin route checks a rate, the feed does not. Credits are priced correctly all the same, because fees are always
  fractions and a conversion that is not positive is refused (`Pricing.CreditsArePriced`).
- `Decimal("-0")` prints as "-0": equal values print alike except for the sign of zero (`Decimals.FormatCanonical`).
- An `update_user` that changes the email and is then refused for its username has already rewritten the email index
  (`UserRuns.RefusedUnchangedIff`, `UserRuns.TornBreaksIndexes`; `UserRuns.TornIsReachable` is a run that gets there).
- A signed transfer whose display names the mempool refuses has already used up its nonce
  (`LedgerResults.SubmitQueuedIff`); a transfer between two wallets of one user always ends so
  (`LedgerResults.OwnTransferSpendsNonce`).

## Model

| member | source | states |
|---|---|---|
| Decimals.FormatParsesBack | domain/crypto.py:102-111 | The printed amount parses back to the amount's unique normal form: same sign, same value. |
| Decimals.FormatCanonical | domain/crypto.py:102-111 | Two amounts print alike iff their values are equal and, at zero, their signs are. |
| Decimals.FormatCanonicalNonNegative | domain/crypto.py:95-111 | For non-negative amounts: two texts are equal iff the values are. |
| Decimals.NegativeZeroPrintsItsSign | domain/crypto.py:106-111 | The exception: -0 and 0 are equal and print differently. |
| Decimals.FormatNormal | domain/crypto.py:108-111 | Trailing zeros and the coefficient/exponent split never show in the text. |
| Decimals.FormatHasNoColon | domain/crypto.py:98-99 | A printed amount cannot contain the message separator. |
| Decimals.FormatShape | domain/crypto.py:102-111 | The text is a whole part without needless zeros, then a fraction not ending in zero; its digits give the magnitude. |
| Decimals.IntTextShape | domain/crypto.py:98-99 | A nonce is written in decimal: its digits read back as it, no zeros in front, a minus sign when negative. |
| Decimals.DigitVector | domain/crypto.py:98-99 | Every digit stands for itself. |
| Messages.MessageDeterminesTransfer | domain/crypto.py:81-99 | With colon-free ids two messages are equal iff sender, receiver, nonce and signed amount value are. |
| Messages.ColonsMakeMessagesAmbiguous | domain/crypto.py:98-99 | Without that condition a colon can move from one id to the other unnoticed. |
| Messages.MessageVectors | tests/test_crypto.py:53-66 | Field order and plain notation on the repository's two test vectors. |
| Models.MintMarkerNeverVerifies | domain/crypto.py:119-126 | No key and message verify the text "MINT", so a signed transfer never poses as a mint. |
| Models.StripCuts | api/schemas.py:74-76 | Stripping removes blank text at both ends and nothing else. |
| Models.LeafFields | domain/models.py:27-37 | Two leaves are equal iff sender, receiver, both wallet ids, nonce, signature and the floats of both amounts are. |
| Models.BlockHashFields | domain/blockchain.py:135-147 | Two block hashes are equal iff index, timestamp, proof, previous hash and Merkle root are. |
| Merkle.ComputeMerkleRoot | domain/blockchain.py:19-41 | The level loop terminates and computes the halved-from-the-top tree over the level-duplicated leaves. |
| Merkle.RootsEqualIffPaddingsEqual | domain/blockchain.py:28-41 | Two lists have one root iff their level-duplicated paddings are equal. |
| Merkle.SameLengthRootsInjective | domain/blockchain.py:28-41 | Lists of one length with one root agree leaf for leaf. |
| Merkle.EmptyRootIffEmpty | domain/blockchain.py:14-29 | Only the empty list has the empty root. |
| Merkle.OddListSharesRoot | domain/blockchain.py:35-36 | Length matters: an odd list of three or more shares its root with the list repeating its last leaf. |
| Chain.BlockchainService.constructor | domain/blockchain.py:84-98 | Over an empty repository: one block, index 1, proof 1, previous hash "0", no transactions; any other is left alone. |
| Chain.BlockchainService.CreateBlock | domain/blockchain.py:104-120 | Appends one block with the next index, the given time, proof, hash and transactions, and their root. |
| Chain.BlockchainService.ProofOfWork | domain/blockchain.py:125-133 | The search terminates with the least positive proof that meets the difficulty. |
| Chain.BlockchainService.ValidateTransactions | domain/blockchain.py:172-190 | Accepts iff each transaction is a mint or names a known wallet and carries a signature its key verifies over the message. |
| Chain.BlockchainService.ValidateBlocks | domain/blockchain.py:149-201 | Accepts iff non-empty and every block shows its root, its signatures, its predecessor's hash and a proof for the pair. |
| Chain.ValidChainShows | domain/blockchain.py:149-201 | Validity, written out on the fields of blocks and transactions. |
| Chain.LeastProofIs | domain/blockchain.py:125-133 | The search's answer is the first positive number q such that (q - p) * (q + p) meets the difficulty. |
| Chain.InMemoryBlockRepository.ReplaceAll | domain/blockchain.py:61-63 | The repository holds exactly the given blocks. |
| Chain.ExtendValid | domain/blockchain.py:191-201 | A valid block built on the tip keeps a chain valid. |
| Chain.TipCommitsToHeaders | domain/blockchain.py:135-147 | Equal tip hashes of link-valid chains: the shorter one's header fields are the end of the longer one's. |
| Chain.TipCommitsFromGenesis | domain/blockchain.py:97-98 | For chains grown from a genesis block the tip hash fixes all header fields of all blocks, and the length. |
| Chain.TipCommitsToTransactions | domain/blockchain.py:135-201 | Valid chains of one length, tip hash and per-block counts agree in every field of every transaction. |
| Chain.TipCommitsToPaddings | domain/blockchain.py:19-201 | Valid chains of one length share a tip hash iff header fields agree and transactions do, field by field, up to level duplication. |
| Chain.TamperedTransactionRejected | domain/blockchain.py:165-171 | Changing any field of one transaction of a valid chain makes it invalid under every wallet store. |
| Chain.TamperedHeaderRejected | domain/blockchain.py:191-195 | Changing any header field of a block before the tip makes it invalid. |
| Chain.RepeatedTransactionSharesTip | domain/blockchain.py:35-36 | Counts matter: repeating the last of an odd three or more gives a second valid chain with the same tip hash. |
| Wallets.InMemoryWalletStore.CreateWallet | domain/wallet_repository.py:148-167 | Refused iff the id exists; else adds one empty, unfrozen wallet and nothing more. |
| Wallets.InMemoryWalletStore.SetFrozen | domain/wallet_repository.py:175-187 | Changes one flag of one existing wallet. |
| Wallets.InMemoryWalletStore.ReserveNonce | domain/wallet_repository.py:189-195 | Succeeds iff the nonce exceeds the stored one, which it then replaces. |
| Wallets.InMemoryWalletStore.ApplyTransfer | domain/wallet_repository.py:197-236 | Refuses without effect, or debits and credits as `Transfer` says. |
| Wallets.InMemoryWalletStore.CreditWallet | domain/wallet_repository.py:238-252 | Refuses a missing or frozen wallet without effect, or adds the amount. |
| Wallets.TransferFields | domain/wallet_repository.py:197-236 | Debits one balance, credits the other, nothing else; or the first guard's refusal. |
| Wallets.CreditFields | domain/wallet_repository.py:238-252 | Adds to one balance, nothing else; or the refusal. |
| Wallets.ApplyTxFields | domain/wallet.py:286-296 | A mint credits, a transfer debits its amount and credits the converted one if any, anything else moves nothing. |
| Wallets.InMemoryWalletStore.TotalSupply | domain/wallet_repository.py:254-255 | The sum over all wallets' balances. |
| Wallets.ApplyBlockDeltas | domain/wallet.py:271-296 | Ends with the effects of the transactions before the first that raises, and raises iff there is one. |
| Wallets.DeltasContinue | domain/wallet.py:286-296 | Deltas that did not raise continue from where they stand. |
| Balances.DeltasMoveTotals | domain/wallet.py:286-296 | Each balance moves by the credits less the debits of the applied prefix; frozen wallets do not move. |
| Balances.DeltasStopAtFirstMisfit | domain/wallet.py:286-296 | Deltas stop exactly at the first transaction that does not fit the starting balances. |
| Balances.DeltasCompleteIff | domain/wallet.py:286-296 | A block's deltas complete iff every transaction fits. |
| Balances.SolventBlockCompletes | domain/wallet_repository.py:205-236 | Nobody missing or frozen and every sender good for its total: the deltas complete with start + credits - debits. |
| Balances.SolventBlockOrderIrrelevant | domain/wallet.py:286-296 | Every permutation of a solvent block completes with the same wallets. |
| Balances.JointOverspendStopsBlock | domain/wallet_repository.py:215-216 | Two payments covered singly but not jointly: the second raises after the first took effect. |
| Balances.TransferConservesIffDistinct | domain/wallet_repository.py:217-236 | A transfer conserves what its two wallets hold iff they are two. |
| Balances.SumFlowIsSupplyChanges | domain/wallet_repository.py:254-255 | Summing credits less debits wallet by wallet equals summing transaction by transaction. |
| Balances.SupplyIsMintsAndConversions | domain/wallet.py:191-209 | Supply changes of a currency are its mints and conversions; same-currency transfers cancel. |
| Balances.SupplyIsMints | tests/test_supply_conservation.py:1-9 | In a single currency supply changes are the mints. |
| Conversion.ConversionExact | domain/wallet.py:202-209 | 0 <= fee <= gross, net = gross - fee exactly, each rounded down once. |
| Conversion.NetWithinOneUnit | domain/wallet.py:203-206 | Net lies within one 10^-8 unit of product * (1 - fee rate). |
| Conversion.NetMonotone | domain/wallet.py:204-206 | A larger amount never credits less. |
| Conversion.NetAdditiveWithinOneUnit | domain/wallet.py:204-206 | Splitting a transfer moves the total credit by at most one unit. |
| Conversion.NetAmountNearExact | domain/wallet.py:203-209 | For every product and fee fraction: the credit is positive and within one unit of product * (1 - fee), or refused below one unit. |
| Conversion.UnitsDecimalValue | domain/wallet.py:203-209 | The decimal handed on has the value of its units. |
| Conversion.ConversionVector | tests/test_wallet_services.py:488-524 | 100 at 0.92 less 2% credits 90.16. |
| Currencies.InMemoryCurrencyStore.SetExchangeRate | domain/currency_repository.py:109-129 | Appends one record with the next id. |
| Currencies.LatestRateFirst | domain/currency_repository.py:95-107 | With limit 1 the listing is the last record from the one currency to the other, and empty iff there is none. |
| Currencies.ListingNewestFirst | domain/currency_repository.py:95-107 | Strictly newest first, the newest records agreeing with the codes given; an absent or empty code leaves its field free. |
| Pricing.ReceiverAmountPriced | domain/wallet.py:191-209 | None within a currency, refused iff the pair has no rate, else within one unit of the exact credit at the last rate set. |
| Pricing.OppositeRateIgnored | tests/test_wallet_services.py:488-524 | With a later rate for the opposite direction 100 still credits 90.16, and with that one alone there is no rate. |
| Pricing.QueuedAtLatestRate | domain/wallet.py:191-209 | After any run, a transfer that is queued carries such a credit at the last rate set for its pair by then, and none within a currency. |
| Pricing.CreditsArePriced | infrastructure/exchange_rate_sync.py:101-128 | In every run every converted credit, queued or mined, was priced so, whatever prices the feed delivered. |
| LedgerInvariants.RunKeepsInv | basic-blockchain.py:115-138 | Every run keeps the ledger invariant. |
| LedgerInvariants.StepKeepsInv | api/wallet_routes.py:218-316 | Every step keeps it: wallet, rate, freeze, transfer, mint and mine. |
| LedgerInvariants.StepGrows | domain/wallet_repository.py:148-252 | No step removes a wallet or changes its key or currency. |
| LedgerInvariants.BalancesAreFold | domain/wallet.py:271-296 | In every run balances are the fold from zero over the applied transactions, and never negative. |
| LedgerInvariants.SupplyConserved | domain/wallet_repository.py:122-125 | In every run a currency's supply is its mints plus converted credits less converted amounts. |
| LedgerInvariants.SingleCurrencySupplyIsMinted | tests/test_supply_conservation.py:1-9 | In every single-currency run total supply is what was minted. |
| LedgerInvariants.ChainAlwaysValid | domain/blockchain.py:203-204 | In every run the node's chain is valid, also after a mine whose deltas raised. |
| LedgerInvariants.NoTransferTwice | domain/wallet_repository.py:189-195 | Along chain and mempool a wallet's nonces strictly increase, up to its stored one. |
| LedgerInvariants.MineLeavesFrozenAlone | domain/wallet_repository.py:211-214 | No mine step changes a wallet frozen at that step. |
| LedgerInvariants.MineAppliesFittingPrefix | basic-blockchain.py:128-138 | The block records all pending transactions; exactly the fitting prefix is applied; it raises iff that is not all. |
| LedgerInvariants.CoveredMineCompletes | domain/wallet.py:271-296 | After any run, with nobody pending frozen and each wallet good for its total, a mine applies everything and does not raise. |
| LedgerInvariants.BuiltTransactionOk | domain/wallet.py:167-233 | What `build_transaction` returns is signed, positive, between two wallets, converted iff currencies differ. |
| LedgerLaws.WalletCreated | domain/wallet_repository.py:148-167 | A new wallet holds the owner, key, currency and type asked for, nothing and unfrozen; a taken id is refused. |
| LedgerLaws.WalletsAsCreated | domain/wallet.py:111-127 | In every run each wallet still has the owner, key, currency and type some step created it with. |
| LedgerLaws.FreezeStored | domain/wallet_repository.py:175-187 | Freezing stores the flag it is given and changes nothing else. |
| LedgerLaws.FreezeHolds | domain/wallet.py:135-136 | From a freeze until an unfreeze no step changes the wallet, and transfers from or to it and mints into it are refused without a trace. |
| LedgerLaws.RateStored | api/admin_routes.py:765-790 | A rate step appends one record with its own codes, rate and fee, or is refused without effect. |
| LedgerLaws.TransferUsesRate | domain/wallet.py:191-209 | A rate, once set and not set again, prices every transfer of its own pair and direction, within one unit. |
| LedgerLaws.SubmitRefusal | api/wallet_routes.py:220-272 | Which error a submission gets: the first that applies, in the source's order. |
| LedgerLaws.MintRefusal | api/wallet_routes.py:286-312 | Which error a mint gets: the first that applies, in the source's order. |
| LedgerLaws.MintQueues | domain/wallet.py:258-268 | What a mint queues, field by field. |
| LedgerLaws.MinedBlock | basic-blockchain.py:115-128 | The mined block, field by field, and the state it leaves alone. |
| LedgerLaws.FirstBlock | domain/blockchain.py:97-98 | The genesis block, field by field. |
| LedgerNode.ValidateTransaction | domain/validation.py:6-16 | Passes iff amounts are positive and names non-blank and different. |
| LedgerNode.MempoolService.Add | domain/mempool.py:12-14 | Queues iff the transaction validates, at the end. |
| LedgerNode.InMemoryMempoolRepository.Flush | domain/mempool_repository.py:22-25 | Returns all pending transactions in order and empties the queue. |
| LedgerNode.TransferService.ConvertAmount | domain/wallet.py:191-209 | Answers as `Priced` says: unset pair, last rate, within one unit of the exact credit, refused below one. |
| LedgerNode.TransferService.BuildTransaction | domain/wallet.py:167-233 | All checks in order; the nonce is reserved iff all pass. |
| LedgerNode.Node.constructor | basic-blockchain.py:180-194 | A new node is the initial state, with its services sharing one set of stores. |
| LedgerNode.Node.CreateWallet | domain/wallet.py:111-127 | One CreateWallet step: a wallet under "w_" and the token with the fields asked for. |
| LedgerNode.Node.SetExchangeRate | api/admin_routes.py:765-790 | One SetRate step: refused unless codes differ, the rate is positive and the fee a fraction; else stored so. |
| LedgerNode.Node.SyncExchangeRate | infrastructure/exchange_rate_sync.py:119-125 | The call is one SyncRate step: one pair of the feed stored without a fee, unchecked. |
| LedgerNode.Node.SetWalletFrozen | domain/wallet.py:135-136 | One SetFrozen step: the wallet's flag is the argument, its balance and all other wallets stay. |
| LedgerNode.Node.SubmitSigned | api/wallet_routes.py:218-276 | The call is one Submit step under the names the user store has for the owners, with its exact error. |
| LedgerNode.Node.AdminMint | api/wallet_routes.py:280-316 | The call is one Mint step under the names the user store has for owner and admin. |
| LedgerNode.Node.MineBlock | basic-blockchain.py:115-138 | One Mine step with the least proof: the next index, the tip's hash, all pending transactions; its exception leaves the block there. |
| LedgerNode.Node.IsChainValid | domain/blockchain.py:203-204 | Answers true on every node driven by these calls. |
| LedgerNode.Node.TotalSupply | domain/wallet_repository.py:254-255 | Equals the supply changes of the applied transactions. |
| LedgerResults.SubmitQueuedIff | api/wallet_routes.py:220-272 | Queued iff authorised and named, as requested; unauthorised changes nothing; authorised always uses its nonce up. |
| LedgerResults.OwnTransferSpendsNonce | api/wallet_routes.py:241-272 | A transfer between two wallets of one user is never queued; if authorised its nonce is spent all the same. |
| LedgerResults.MintQueuedIff | domain/wallet.py:245-268 | Queued iff the wallet exists unfrozen, the amount is positive and the names pass; refused without effect. |
| LedgerResults.JointOverspendIsConfirmedAndStops | domain/wallet.py:188-189 | Two transfers each covered alone are both queued and confirmed, and only the first is applied. |
| LedgerExamples.OverspendIsReachable | domain/wallet.py:188-189 | A run from an empty node that gets there: fund, two payments of the whole balance, mine. |
| LedgerResults.MessageSurvivesIff | migrations/versions/V004__create_transactions.sql:15 | A positive amount's signed text survives its column iff it is a whole number of 10^-8 units. |
| LedgerResults.RereadRootsIff | migrations/versions/V004__create_transactions.sql:15 | A reread chain's roots and links validate iff every amount and its rounding have one float. |
| LedgerResults.VerdictSurvives | domain/blockchain.py:149-201 | A chain its columns hold exactly keeps its verdict, signatures included, under every wallet store. |
| LedgerResults.RereadVerdictIff | domain/blockchain.py:149-201 | A validator with wallets accepts a reread chain iff every amount keeps its float and every signature also covers the reread text. |
| LedgerResults.RereadVerdictBinding | domain/blockchain.py:149-201 | With binding signatures: iff all amounts keep their floats and transfers' amounts are whole units. |
| LedgerResults.ReloadKeepsChainValid | infrastructure/postgres_repository.py:32-128 | Any run's chain, stored and reread in any row order: equal iff the columns hold it, then valid; its verdict in every case, with and without wallets. |
| LedgerExamples.FloatKeptSignatureLost | domain/models.py:27-37 | 1000000000.000000001 keeps its float, so its root, and loses its signature: floats alone do not decide. |
| LedgerExamples.NineDigitsChangeMessage | migrations/versions/V004__create_transactions.sql:15 | 0.123456789 is reread as 0.12345679: the signature covers another text. |
| LedgerExamples.NineDigitsBreakReload | migrations/versions/V004__create_transactions.sql:15 | A valid in-memory chain handed to `append` past the mempool table: stored without error, invalid when read back. |
| TableLedger.PostgresMempoolRepository.Add | infrastructure/postgres_mempool_repository.py:15-33 | Queues the amounts as float and column leave them, or raises on a value the column refuses and adds nothing. |
| TableLedger.PostgresMempoolRepository.Flush | infrastructure/postgres_mempool_repository.py:35-57 | Returns all rows in order, amounts through `float` again, and empties the table. |
| TableLedger.QueuedIsWhole | migrations/versions/V003__create_mempool.sql:11 | What leaves the mempool table is a whole number of 10^-8 units, whatever entered it. |
| TableLedger.QueuedSameIff | infrastructure/postgres_mempool_repository.py:26-50 | An amount survives the mempool table iff it has at most eight decimals and its float writes out as the amount. |
| TableLedger.QueuedFields | infrastructure/postgres_mempool_repository.py:23-57 | Only the amounts change on the way through the table, each to its own float, column and float again. |
| TableLedger.AdmitStored | infrastructure/postgres_mempool_repository.py:15-33 | What an accepted submission or mint comes to: queued, or refused by a column with the nonce spent, or by the nonce's own width. |
| TableLedger.MineStoresOrLoses | basic-blockchain.py:115-128 | A mine always empties the table: the block is stored with all of it, or its INSERT raises and the transactions are lost. |
| TableLedger.TableRunKeepsInv | basic-blockchain.py:170-178 | Every run over tables keeps roots and links right, its blocks stored, and each mined amount the admitted one through the table. |
| TableLedger.TableChainValidIff | basic-blockchain.py:115-138 | In every run over tables the stored chain rereads unchanged; it validates iff every transfer's signature covers its mined text, that is its amount survived. |
| TableExamples.MiningBreaksChain | infrastructure/postgres_mempool_repository.py:15-57 | A run over tables: valid until a transfer signed for 0.123456789 is mined, invalid from then on. |
| LedgerResults.SameTipSameRecord | domain/blockchain.py:135-201 | Two nodes' runs with one tip hash share all header fields, and with equal counts every field of every transaction. |
| Consensus.ConsensusService.Resolve | domain/consensus.py:46-65 | Adopts per `Adopt`; reports true iff the chain grew, which then is valid; else leaves it unchanged. |
| Consensus.AdoptTakesLongest | domain/consensus.py:47-60 | The result is local or a longer valid fetched chain, no shorter than any valid fetched one. |
| Consensus.AdoptsIff | domain/consensus.py:54-65 | The chain is replaced iff some fetched chain is valid and longer. |
| Consensus.AdoptTakesFirstOfLongest | domain/consensus.py:54-60 | Of equally long valid chains the first fetched wins. |
| Consensus.StrippedNeverValid | domain/consensus.py:33-41 | A chain rebuilt without roots and transactions never validates. |
| Consensus.ResolveOverStrippedFetchKeepsLocal | domain/consensus.py:25-65 | Over that fetch `resolve` always keeps the local chain. |
| Consensus.RunNodeOk | basic-blockchain.py:180-194 | Every reachable ledger, a new one included, can be such a network's node. |
| Consensus.MineNodeOk | basic-blockchain.py:115-138 | What a node mines is valid on its chain, adopted or not, without being validated: root, link, proof and signatures. |
| Consensus.NetworkSafe | domain/blockchain.py:206-213 | Over any interleaving of ledger steps and resolves, each chain stays valid under its node's own wallets; heights never fall. |
| Consensus.StrippedNetworkIsolates | domain/consensus.py:25-65 | Over the fetch as it is every node ends where its own ledger steps take it. |
| Consensus.SharedWalletsAccepted | domain/blockchain.py:172-190 | Equally configured nodes with the same wallet keys accept each other's chains. |
| Consensus.HeightsSpread | domain/consensus.py:46-65 | Whole chains delivered and mutually accepted: after k complete rounds a node is as high as any node within k hops was. |
| Consensus.NetworkConverges | domain/consensus.py:46-65 | Likewise, with all nodes within k hops, k rounds bring every chain to the greatest height, accepted by all. |
| Consensus.ReachedWithinNodes | domain/consensus.py:54-57 | In a network of n nodes whatever is reachable is reached within n - 1 hops. |
| Consensus.StronglyConnectedConverges | domain/consensus.py:46-65 | Likewise, a strongly connected network of n nodes reaches the greatest height everywhere within n - 1 rounds and stays. |
| Rows.RowsToBlocks | infrastructure/postgres_repository.py:32-74 | Groups as `Regroup` says: first-row headers, transactions by row id, blocks by index. |
| Rows.RegroupInvertsFlatten | infrastructure/postgres_repository.py:32-128 | Every permutation of a stored chain's rows regroups to the chain with its amounts as the columns keep them, empty blocks included. |
| Rows.StoredIsNear | migrations/versions/V004__create_transactions.sql:15 | A stored amount is within half of 10^-8 of the original, and storing it again changes nothing. |
| Rows.ColumnLimits | migrations/versions/V004__create_transactions.sql:9-16 | The limits of the columns: 10^12 and 10^20 for amounts, 32 and 64 bits for integers. |
| Rows.RereadSameIff | migrations/versions/V017__transactions_receiver_amount.sql:8-12 | A transaction can be inserted and comes back equal iff its amounts are whole units in range. |
| Rows.ReloadSameIff | migrations/versions/V004__create_transactions.sql:9-16 | A chain can be stored and comes back equal iff every amount is whole 10^-8 units in range and the integers fit. |
| Rows.SortOfPermutation | infrastructure/postgres_repository.py:71-74 | Sorting by distinct keys undoes any permutation. |
| RateLimit.RateLimiter.Handle | api/rate_limit.py:21-41 | Refuses iff the preceding closed period holds `maxCalls` admissions; admissions are logged. |
| RateLimit.WindowNeverExceeded | api/rate_limit.py:17-41 | In every run no closed interval of one period holds more than `max` admissions. |
| RateLimit.RefusedIffWindowFull | api/rate_limit.py:25-38 | In every run a call is refused iff the preceding period holds exactly `max`. |
| RateLimit.RetryAfterIsEnough | api/rate_limit.py:28-38 | 1 <= retry <= period + 1; whatever calls were refused meanwhile, a call whole seconds later is admitted iff it waits at least that. |
| UserStore.InMemoryUserStore.CreateUser | domain/user_repository.py:190-213 | After a clean history: refused iff some record has the name or the non-empty email; indexes stay exact. |
| UserStore.InMemoryUserStore.TouchLastActive | domain/user_repository.py:215-219 | Changes one record's activity time to the argument, nothing else. |
| UserStore.InMemoryUserStore.SetBanned | domain/user_repository.py:296-314 | The flag is the argument; every other field of every record stays. |
| UserStore.InMemoryUserStore.SoftDeleteUser | domain/user_repository.py:318-336 | The deletion time is the argument; every other field of every record stays. |
| UserStore.InMemoryUserStore.RestoreUser | domain/user_repository.py:338-356 | The deletion time is cleared; every other field of every record stays. |
| UserStore.InMemoryUserStore.UpdateUser | domain/user_repository.py:358-404 | One UpdateUser step; a clean history stays clean, its indexes exact, iff the call succeeds or changes nothing. |
| UserStore.InMemoryUserStore.GetUserById | domain/user_repository.py:221-222 | The record; after any run with fresh ids its review is in order, its level counts the promotions, verified content was approved. |
| UserStore.InMemoryUserStore.GetUserByUsername | domain/user_repository.py:224-226 | After a clean history the one record with that name, and none iff no record has it. |
| UserStore.KycService.UploadDocument | api/kyc_routes.py:104-150 | Stores the document as uploaded with the given content and no review marks, nothing else; succeeds iff no review is pending and key and data are there. |
| UserStore.KycService.SubmitForReview | api/kyc_routes.py:163-215 | For the next level with its papers in order: pending, dated, uploaded papers under review; nothing else changes. |
| UserStore.KycService.ApproveDocument | api/kyc_admin_routes.py:84-113 | The document is verified, its content kept, its reason cleared; nothing else changes; succeeds iff a review is pending and the document there. |
| UserStore.KycService.RejectDocument | api/kyc_admin_routes.py:128-172 | The document is rejected with the reason, its content kept, and the review ends; nothing else changes. |
| UserStore.KycService.PromoteLevel | api/kyc_admin_routes.py:190-215 | Succeeds iff a review is pending and its papers are all verified; grants that level and ends the review; a success was earned. |
| UserStore.MissingForSubmit | api/kyc_routes.py:193-198 | Exactly the required documents not uploaded, under review or verified. |
| UserStore.StartReview | api/kyc_routes.py:206-211 | Exactly the required uploaded documents move to review. |
| UserRuns.RunKeepsIndexes | domain/user_repository.py:190-404 | With fresh ids and no torn update both indexes stay exact inverses, refused calls included. |
| UserRuns.LookupIsLinearSearch | domain/user_repository.py:224-226 | Index lookup equals linear search, and at most one record matches. |
| UserRuns.IndexDeletesNeverMiss | domain/user_repository.py:385-389 | The deletion of a renamed user's old entry never fails. |
| UserRuns.RefusedUnchangedIff | domain/user_repository.py:366-387 | A refused call leaves the store unchanged iff it is not a torn update. |
| UserRuns.TornIff | domain/user_repository.py:366-387 | After a clean run the torn updates are exactly the refused ones that leave a change. |
| UserRuns.TornIsReachable | domain/user_repository.py:374-387 | Two registrations, then one refused update, and the email index is wrong. |
| UserRuns.CreateRefusedIff | domain/user_repository.py:199-202 | After a clean run a registration is refused iff some record has the name, or the email if there is one. |
| UserRuns.TornBreaksIndexes | domain/user_repository.py:374-387 | A torn update does break the email index. |
| UserRuns.RunKeepsReviews | api/kyc_routes.py:184-215 | A pending target is the next level, its required documents under review or verified. |
| UserRuns.LevelMovesOnlyByPromotion | api/kyc_admin_routes.py:194-215 | Levels move only by promotion, by one, with every required document verified. |
| UserRuns.LevelCountsPromotions | api/kyc_routes.py:34-46 | The level counts the promotions; a run has at most three per user. |
| UserRuns.VerifiedContentWasApproved | api/kyc_admin_routes.py:94-113 | Verified content is what some approval saw, with no upload of that document since. |
| UserRuns.PromotionEarned | api/kyc_admin_routes.py:190-215 | In every run with fresh ids a promotion rests on required documents verified and approved with their present content. |
| UserLaws.Registered | domain/user_repository.py:190-213 | A registration stores the given fields, unbanned, at L0, without documents; its refusals change nothing. |
| UserLaws.Updated | domain/user_repository.py:358-404 | An update stores the fields it is given and keeps every other. |
| UserLaws.UpdateRefusal | domain/user_repository.py:366-387 | Which error an update gets: the first that applies. |
| UserLaws.FlagsStored | domain/user_repository.py:215-356 | Flag, deletion time or activity time equals the argument; every other field of every record stays. |
| UserLaws.UploadStored | api/kyc_routes.py:104-150 | An upload's effect on the record, or the first refusal that applies. |
| UserLaws.SubmissionStored | api/kyc_routes.py:163-215 | A submission's effect on the record and its documents, or the first refusal that applies. |
| UserLaws.ApprovalStored | api/kyc_admin_routes.py:84-113 | An approval's effect on the record, or the first refusal that applies. |
| UserLaws.RejectionStored | api/kyc_admin_routes.py:128-172 | A rejection's effect on the record, or the first refusal that applies. |
| UserLaws.PromotionStored | api/kyc_admin_routes.py:190-215 | A promotion's effect on the record, or the first refusal that applies. |
| UserLaws.StageReaches | api/kyc_routes.py:34-46 | From any reachable store: upload the next level's papers, submit, approve each, promote, and the user is there. |
| UserLaws.ClimbsToTop | api/kyc_routes.py:34-46 | ID and selfie give L1, an address L2, the origin of funds L3. |

## Left out

- Quart routing, JSON envelopes, permissions, audit entries, websockets and logging: plumbing around the calls modelled.
- `parse_signed_transaction` and currency codes on untyped JSON: fields arrive typed, codes upper-case,
  alphanumeric and known, or absent.
- NaN and infinite `Decimal` amounts, and Decimal's 28-digit context rounding: amounts are finite and exact.
- Decimals.FormatParsesBack: the parser reads plain notation only, not exponents, which the printer never writes.
- Base64, file-name and reason parsing in the KYC handlers: fields arrive typed, a rejection's reason stripped.
- UTF-8 encoding of the signed message: the model compares texts.
- The legacy unsigned transaction path: it moves no balances and its blocks fail validation beside a wallet store.
- Balances after chain replacement: `replace_chain` does not touch wallets, so the balance and nonce
  results are for nodes that adopt nothing.
- Consensus.HeightsSpread: for fetches that deliver chains whole; over the fetch as it is no node influences another.
- Consensus.NetworkConverges: likewise; and for nodes that accept each other's chains, as those with equal keys do.
- Consensus.StronglyConnectedConverges: likewise.
- UserStore.InMemoryUserStore.CreateUser: the store does not check that the id is new; the run results ask for it.
- RateLimit.RateLimiter.Handle: asks for `maxCalls` >= 1, a non-negative period and the clock's monotonicity.
- Aliasing of `UserRecord` objects: records are values here; each KYC handler is one atomic step.
- Credentials, roles, permission overrides, wallet drafts, currency records, node URLs: independent of these results.
- The PostgreSQL adapters beyond the mempool, `_rows_to_blocks` and the rows `append` writes: the wallet and rate stores
  over tables act as the in-memory ones, with no limit on a balance and no rounding of a rate. Text columns have no
  width: wallet ids are tokens of fixed length.
- NaN and infinite floats of huge amounts: a float is a real number, and the columns refuse what exceeds them.
