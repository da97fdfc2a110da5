# breadwallet-core in Dafny

breadwallet-core is the C library under the wallet app: an SPV client that keeps a wallet without a server. This project
models the parts of it that make promises, and proves them: which coins the wallet believes it owns, which transaction it
builds, which chain of blocks it follows, and that what it encodes it can decode.

The model keeps the form of the C code. A struct that its functions change is a class with the same fields, an array
that is changed in place is an array, and loops are loops; each method is proved against a function or a predicate, and
lemmas say what that function means. Hash functions and key derivation are parameters: a theorem that needs siblings to
differ or a derivation to be injective says so in its `requires`. Clocks, random numbers, verdicts of code that is not
modelled and memory addresses are parameters too. Each public function is one atomic step.

| module | models | main results |
|---|---|---|
| `HashSet` | `BRSet.c` | the probed table is a set under the caller's equality; deletion without tombstones keeps every probe path; in-place intersection misses nothing; when a set minus itself is empty |
| `Ledger`, `LedgerLaws`, `Wallet` | `BRWallet.c` | the caches are a replay of the transaction list; closed forms for UTXOs, spent, invalid and pending sets, balance and history; no double spend; order independence; what a balance made before some addresses were known misses |
| `TxOrder`, `Wallet` | `BRWallet.c` | register, update, reorganise and remove keep the list sorted and unique, so that the suffix scans are full scans; when parents stay before their children and when a removal leaves nothing that spends what is gone; address gap limits |
| `CoinSelection`, `Shuffle` | `BRWallet.c`, `BRTransaction.c` | what is built is paid for; when it is built; when the advertised maximum can be sent; when the retry for a transaction that is too large ends; the shuffle reaches every order in exactly one way |
| `BlockTree` | `BRPeerManager.c` | over any run of relayed blocks each block gets exactly the outcome that is due to it, and the tip is the highest block of a tree that only grows; a fork is joined at the highest common ancestor and the wallet follows the new branch |
| `Merkle`, `MerkleEncoding` | `BRMerkleBlock.c` | the two decoders agree; decoding the BIP37 encoding gives the true root and exactly the matched ids |
| `Difficulty` | `BRMerkleBlock.c` | 64-bit retargeting loses no precision; the byte-wise proof-of-work test compares numbers |
| `Poly1305` | `BRCrypto.c` | limb arithmetic without overflow computes the tag of section 2.5 of RFC 7539 |
| `Aes256` | `BRBIP38Key.c` | the in-place key schedule is the one of section 5.2 of FIPS 197, forwards and backwards; decryption undoes encryption |
| `Base58`, `Bech32`, `Bech32Example`, `Bip39`, `TxCodec` | `BRBase58.c`, `BRBech32.c`, `BRBIP39Mnemonic.c`, `BRTransaction.c`, `BRAddress.c` | round trips in both directions, each with the exact condition; estimated buffers that suffice; what exactly the decoders of text accept |

`Prelude`, `Arith` and `Bytes` hold shared definitions.

## Where the code and its documentation differ

The model follows the code. Each point is a lemma with an input, or the exact condition under which the promise holds.

- A set made for 30593 items grows while they are added, against the comment at `BRSet.c:60` (`HashSet.OddCapacity`).
- A set minus itself can keep items, because the scan runs over the buckets that it rearranges (`HashSet.BRSet.Minus`,
  `HashSet.TwoInOneHome`).
- The UTXO list and the balance can count an output that a pending transaction spends
  (`LedgerLaws.UtxosOverlapSpentExactly`, `LedgerLaws.PendingSpendStaysListed`).
- After a transaction is registered new addresses are generated, but the balance is not computed again. It lacks the
  outputs that pay a new address (`LedgerLaws.MissedExactly`, `LedgerLaws.NextAddressMissed`).
- Within one block the transaction list can hold a parent behind its child (`TxOrder.ParentsFirstExactly`,
  `TxOrder.ParentAfterChild`).
- A removal is said to take "any tx that depend on its outputs" (`BRWallet.c:756`), but the scan stops at the height of
  what is removed, so that a spender below it stays (`TxOrder.RemovesAllExactly`, `TxOrder.SpenderStays`).
- The advertised maximum cannot always be sent to a script longer than 25 bytes (`CoinSelection.MaxSentExactly`,
  `CoinSelection.LongScriptFails`).
- With change and exactly 252 requested outputs, the fee can be below the one for the final size
  (`CoinSelection.FinalFeeExactly`, `CoinSelection.OnlyOneCountGrows`, `CoinSelection.ManyOutputsUnderpay`).
- A wallet whose inputs do not all fit one transaction is tried again with a smaller amount. The fee is rounded again each
  time, and if every input is worth 100 more than its fee the retries end only when what the wallet holds beyond the inputs
  that fit is a multiple of 100 (`CoinSelection.RetryEndsExactly`, `CoinSelection.RetryNeverEnds`).
- The defence against duplicated Merkle siblings only works on the left spine (`Merkle.RejectedExactly`,
  `Merkle.RightDuplicateAccepted`).
- Serializing into a buffer that is too small can return a nonzero length (`TxCodec.ReportedExactly`,
  `TxCodec.TooSmallNotRefused`).
- The length test of the Bech32 encoder counts bytes where five-bit groups are written, so that with a long prefix they do
  not all fit its buffer (`Bech32.GuardHoldsExactly`). It also makes addresses with an empty prefix, which the decoder
  refuses (`Bech32.DecodeUndoesEncode`).
- The Bech32 decoder does not look at padding or a surplus group, so that several addresses say the same
  (`Bech32.EncodeUndoesDecode`, `Bech32.PaddingIgnored`).
- The mnemonic encoder makes phrases for more than 32 bytes that the decoder refuses (`Bip39.DecodeUndoesEncode`), and
  from 972 bytes on it reads past its buffer (`Bip39.ReadsInsideExactly`).
- The Base58 decoder ignores everything from the first character on that is no letter (`Base58.SameBytesExactly`).

## Model

| member | source | states |
|---|---|---|
| HashSet.BRSet.constructor | app/src/main/jni/breadwallet-core/BRSet.c:49-69 | a new set is empty; up to the last but one table size its table is longer than the capacity and takes that many items without growing, except for the capacity 30593, whose next table size is one item short of what the comment promises; beyond that it has no table |
| HashSet.TableSizeGrows | app/src/main/jni/breadwallet-core/BRSet.c:30-37 | one growth step always makes room for the item that caused it, and a table within its load bound keeps an empty bucket |
| HashSet.OddCapacity | app/src/main/jni/breadwallet-core/BRSet.c:56-64 | the next larger table size holds the capacity below the 2/3 load bound for every capacity but 30593 |
| HashSet.SizeFits | app/src/main/jni/breadwallet-core/BRSet.c:49-69 | the table size after the first that reaches the capacity is longer than the capacity, holds it below the load bound but for 30593, and gives a table that grows room for another item |
| HashSet.EmptyBucketExists | app/src/main/jni/breadwallet-core/BRSet.c:115-115 | a table that is not full has an empty bucket, so every probe ends |
| HashSet.BRSet.Probe | app/src/main/jni/breadwallet-core/BRSet.c:104-111 | the probe loop ends, at the first bucket from the item's home that is empty or holds an equivalent item |
| HashSet.StopFinds | app/src/main/jni/breadwallet-core/BRSet.c:193-208 | if no empty bucket lies between an item and its home, the probe finds the stored equivalent item whenever there is one, and only there |
| HashSet.PutAtStop | app/src/main/jni/breadwallet-core/BRSet.c:104-116 | writing an item where its probe stops keeps every probe path free of gaps and changes the set of items by exactly that item, which replaces its equivalent |
| HashSet.AddEffect | app/src/main/jni/breadwallet-core/BRSet.c:113-116 | the same for the item count: it grows by one exactly when the bucket was empty |
| HashSet.BRSet.Add | app/src/main/jni/breadwallet-core/BRSet.c:98-117 | the set becomes the old set without the equivalent of the item plus the item; what was replaced is returned; below the load bound the table is not rebuilt and the write is at the probe's stop; adding a stored item again changes nothing |
| HashSet.BRSet.Grow | app/src/main/jni/breadwallet-core/BRSet.c:85-96 | rebuilding the table one size up keeps the contents, the count and the probe invariant |
| HashSet.BRSet.Union | app/src/main/jni/breadwallet-core/BRSet.c:269-281 | the set becomes its own items without those equivalent to an item of the other set, plus all items of the other set, which may be the set itself; growth on the way loses nothing |
| HashSet.PutAllStep | app/src/main/jni/breadwallet-core/BRSet.c:269-281 | what one bucket of the other table adds to the union |
| HashSet.CleaningStart | app/src/main/jni/breadwallet-core/BRSet.c:134-138 | after emptying the bucket, the state of the cleanup loop: the contents lost exactly the removed item |
| HashSet.RemoveStart | app/src/main/jni/breadwallet-core/BRSet.c:125-138 | the removed item's cluster ends at an empty bucket, which is where the cleanup will stop |
| HashSet.CleaningTarget | app/src/main/jni/breadwallet-core/BRSet.c:140-146 | an item taken out of the cluster goes back no later than where it was, into a bucket the cleanup has emptied |
| HashSet.CleaningStep | app/src/main/jni/breadwallet-core/BRSet.c:140-146 | one turn of the cleanup keeps the contents, and every item already put back has a probe path without gaps |
| HashSet.CleaningBehind | app/src/main/jni/breadwallet-core/BRSet.c:140-146 | no turn of the cleanup moves an item from behind the removed bucket to one ahead of it |
| HashSet.CleaningPaths | app/src/main/jni/breadwallet-core/BRSet.c:140-146 | the paths of the items put back stay free of gaps when the next one is moved |
| HashSet.CleaningEnd | app/src/main/jni/breadwallet-core/BRSet.c:140-146 | when the cleanup meets the empty bucket that ended the cluster, no probe path in the whole table has a gap |
| HashSet.HoleStep | app/src/main/jni/breadwallet-core/BRSet.c:140-146 | one turn of the cleanup fills the removed bucket exactly if the item was probed past it and it is still empty, and else puts the item back where it was |
| HashSet.HoleEnd | app/src/main/jni/breadwallet-core/BRSet.c:140-146 | after the cleanup the removed bucket is full exactly if some item was probed past it |
| HashSet.BRSet.Reinsert | app/src/main/jni/breadwallet-core/BRSet.c:140-146 | the body of the cleanup loop: taking out and adding again never grows the table and keeps the contents and the count |
| HashSet.BRSet.Cleanup | app/src/main/jni/breadwallet-core/BRSet.c:137-146 | the cleanup loop ends with the probe invariant restored, the table in place and the contents unchanged |
| HashSet.BRSet.Remove | app/src/main/jni/breadwallet-core/BRSet.c:119-150 | the set loses exactly the item equivalent to the given one, which is returned; the table is never rebuilt; no item moves from behind the removed bucket to a bucket ahead of it; the removed bucket is filled again exactly if some item was probed past it, and otherwise nothing moves |
| HashSet.BRSet.Get | app/src/main/jni/breadwallet-core/BRSet.c:192-208 | returns the stored item equivalent to the given one, and none exactly when there is none |
| HashSet.BRSet.Contains | app/src/main/jni/breadwallet-core/BRSet.c:170-173 | true exactly when an equivalent item is stored |
| HashSet.CountIsItems | app/src/main/jni/breadwallet-core/BRSet.c:162-167 | the number of occupied buckets is the number of items |
| HashSet.BRSet.Count | app/src/main/jni/breadwallet-core/BRSet.c:162-167 | the item count is the size of the set of items |
| HashSet.BRSet.Clear | app/src/main/jni/breadwallet-core/BRSet.c:153-159 | leaves the same table, empty |
| HashSet.BRSet.Intersects | app/src/main/jni/breadwallet-core/BRSet.c:176-190 | true exactly when some item of the other set is represented here |
| HashSet.BRSet.Minus | app/src/main/jni/breadwallet-core/BRSet.c:284-296 | what stays is exactly what the other set holds no equivalent of, although every removal rearranges a cluster; a set minus itself is empty exactly if every item is in its home bucket, but for the one in bucket 0 |
| HashSet.ScannedStep | app/src/main/jni/breadwallet-core/BRSet.c:284-296 | one step of a set minus itself: all before it is emptied and no straying item was passed yet, or something stays behind for good |
| HashSet.ScannedEnd | app/src/main/jni/breadwallet-core/BRSet.c:284-296 | at the end nothing is left exactly if no item strayed from its home bucket at the start |
| HashSet.TwoInOneHome | app/src/main/jni/breadwallet-core/BRSet.c:284-296 | an example: of two items that share a home bucket one is left when the set is subtracted from itself |
| HashSet.BRSet.Intersect | app/src/main/jni/breadwallet-core/BRSet.c:299-315 | the in-place scan that does not step on after a removal visits every item: what stays is exactly what the other set represents; the other set may be the set itself |
| Wallet.BRWallet.CheckInputs | app/src/main/jni/breadwallet-core/BRWallet.c:171-176 | says exactly whether some input is in the spent set or spends an invalid transaction |
| Wallet.BRWallet.SpendInputs | app/src/main/jni/breadwallet-core/BRWallet.c:185-188 | the spent set grows by exactly the inputs |
| Wallet.BRWallet.CheckPending | app/src/main/jni/breadwallet-core/BRWallet.c:190-205 | the loops decide whether a transaction is held back, which `LedgerLaws.PendingExactly` writes out |
| Wallet.BRWallet.AddOutputs | app/src/main/jni/breadwallet-core/BRWallet.c:214-227 | appends exactly the outputs that pay the wallet, in order, marks every output address used and adds their value |
| Wallet.BRWallet.Sweep | app/src/main/jni/breadwallet-core/BRWallet.c:229-235 | the backward scan with removal leaves exactly the unspent entries in order, and the balance is their sum: no subtraction goes below zero |
| Wallet.BRWallet.ApplyTx | app/src/main/jni/breadwallet-core/BRWallet.c:214-240 | an applied transaction changes the caches as the replay function says |
| Wallet.BRWallet.ReplayTx | app/src/main/jni/breadwallet-core/BRWallet.c:168-241 | one turn of the loop over the list is one step of the replay: invalid, pending or applied |
| Wallet.BRWallet.UpdateBalance | app/src/main/jni/breadwallet-core/BRWallet.c:151-245 | all caches become the replay of the transaction list from nothing, whatever they held before |
| Ledger.ReplayResolves | app/src/main/jni/breadwallet-core/BRWallet.c:232-233 | every UTXO in the cache can be looked up again, which the sweep relies on |
| Ledger.ReplayStep | app/src/main/jni/breadwallet-core/BRWallet.c:168-241 | the replay of one more transaction is one step from the replay of the list before it |
| Ledger.BalanceIsTotal | app/src/main/jni/breadwallet-core/BRWallet.c:224-244 | the running balance is always the sum of the UTXO list |
| Ledger.NewUtxosExactly | app/src/main/jni/breadwallet-core/BRWallet.c:218-227 | an outpoint is added for exactly the outputs with an address of the wallet |
| Ledger.UnspentExactly | app/src/main/jni/breadwallet-core/BRWallet.c:230-235 | the sweep keeps exactly the entries not in the spent set |
| LedgerLaws.SpentClosedForm | app/src/main/jni/breadwallet-core/BRWallet.c:185-188 | after the replay an outpoint is in the spent set exactly if a listed transaction that was not found invalid spends it |
| LedgerLaws.MarkedClosedForm | app/src/main/jni/breadwallet-core/BRWallet.c:178-181 | the invalid and pending sets hold exactly the transactions classified so |
| LedgerLaws.InvalidExactly | app/src/main/jni/breadwallet-core/BRWallet.c:171-183 | a listed transaction is invalid exactly if it is unconfirmed and an earlier listed one either spends one of its inputs or is an invalid parent |
| LedgerLaws.PendingExactly | app/src/main/jni/breadwallet-core/BRWallet.c:190-211 | a listed transaction is pending exactly if it is unconfirmed, not invalid, and above 100000 bytes, or with an output below 546, or with an input whose sequence is at most 0xfffffffd, or one below 0xffffffff while the lock time, as a height or as a time, is not reached, or with an input that spends an earlier pending one |
| LedgerLaws.NoDoubleSpend | app/src/main/jni/breadwallet-core/BRWallet.c:171-188 | no accepted unconfirmed transaction spends an output that an earlier accepted one spends, or depends on an invalid one |
| LedgerLaws.UtxoClosedForm | app/src/main/jni/breadwallet-core/BRWallet.c:186-235 | an outpoint is in the UTXO list exactly if it is a wallet output of an applied transaction and was not in the spent set when the last applied transaction was processed |
| LedgerLaws.UsedClosedForm | app/src/main/jni/breadwallet-core/BRWallet.c:214-217 | the used addresses are exactly those that applied transactions pay |
| LedgerLaws.UtxosDistinct | app/src/main/jni/breadwallet-core/BRWallet.c:218-235 | the UTXO list holds no outpoint twice |
| LedgerLaws.BalanceAndTotals | app/src/main/jni/breadwallet-core/BRWallet.c:224-244 | the balance is the sum of the UTXOs and equals total received less total sent; nothing accumulated exceeds what the list paid the wallet, so no 64-bit word wraps if that fits one |
| LedgerLaws.TotalsAreMoves | app/src/main/jni/breadwallet-core/BRWallet.c:237-239 | received is the sum of all rises of the balance over the history and sent the sum of all falls |
| LedgerLaws.HistoryIsPrefixBalance | app/src/main/jni/breadwallet-core/BRWallet.c:180-239 | entry k of the balance history is the balance of the list that ends with transaction k |
| LedgerLaws.ConfirmedUtxo | app/src/main/jni/breadwallet-core/BRWallet.c:229-235 | for a confirmed list the UTXOs are exactly the wallet outputs that no listed transaction spends |
| LedgerLaws.ConfirmedOrderIrrelevant | app/src/main/jni/breadwallet-core/BRWallet.c:229-235 | for confirmed lists the UTXO set and the balance do not depend on the order of the list |
| LedgerLaws.UtxosOverlapSpentExactly | app/src/main/jni/breadwallet-core/BRWallet.c:186-211 | the UTXO list and the spent set overlap exactly if a pending transaction after the last applied one spends an output of an applied one |
| LedgerLaws.PendingSpendStaysListed | app/src/main/jni/breadwallet-core/BRWallet.c:186-211 | an example: the output that a replaceable transaction spends stays in the UTXO list and in the balance |
| LedgerLaws.AddrsDecideNothing | app/src/main/jni/breadwallet-core/BRWallet.c:168-212 | which transactions are invalid, pending or applied, and what is spent or used, does not depend on the addresses of the wallet |
| LedgerLaws.UtxosAdd | app/src/main/jni/breadwallet-core/BRWallet.c:214-235 | for disjoint sets of addresses the UTXOs under both together are those under the one and those under the other |
| LedgerLaws.BalancesAdd | app/src/main/jni/breadwallet-core/BRWallet.c:224-244 | and so are the balances |
| LedgerLaws.MissedExactly | app/src/main/jni/breadwallet-core/BRWallet.c:740-748 | a replay made before some addresses were known has the same UTXOs as one made after exactly if no applied transaction pays a missing address an output that is unspent as of the last applied one; the balances differ by what a wallet of the missing addresses alone would have |
| LedgerLaws.MissedIs | app/src/main/jni/breadwallet-core/BRWallet.c:740-748 | the UTXOs of the missing addresses are exactly those outputs |
| LedgerLaws.NextAddressMissed | app/src/main/jni/breadwallet-core/BRWallet.c:740-748 | an example: a confirmed transaction that also pays the address just past the end of a chain |
| Wallet.BRWallet.TxIsAscending | app/src/main/jni/breadwallet-core/BRWallet.c:72-91 | the recursion over known parents ends for an acyclic spend graph and decides the order by height, then by dependency |
| Wallet.BRWallet.TxChainIndex | app/src/main/jni/breadwallet-core/BRWallet.c:60-70 | the last chain position that an output of the transaction pays to, or none |
| Wallet.BRWallet.TxCompare | app/src/main/jni/breadwallet-core/BRWallet.c:93-104 | decides between two transactions as the comparison function does, chain positions included |
| TxOrder.CompareByHeight | app/src/main/jni/breadwallet-core/BRWallet.c:75-76 | the comparison never contradicts the block heights |
| TxOrder.AscendingExactly | app/src/main/jni/breadwallet-core/BRWallet.c:72-91 | a transaction counts as above another exactly if a chain of spends within its block leads to one that is higher or spends the other |
| TxOrder.ChainIndexExactly | app/src/main/jni/breadwallet-core/BRWallet.c:60-70 | the chain position is that of the last chain address an output pays |
| TxOrder.CompareExactly | app/src/main/jni/breadwallet-core/BRWallet.c:93-104 | the sign of a comparison, from spends, heights and the last addresses that both pay on the internal chain or else the external one |
| Wallet.BRWallet.ShiftIn | app/src/main/jni/breadwallet-core/BRWallet.c:109-118 | the in-place insertion puts the transaction directly after the last listed one that does not compare above it |
| Wallet.BRWallet.InsertTx | app/src/main/jni/breadwallet-core/BRWallet.c:106-119 | the list gains exactly the transaction, directly after the last listed one that does not compare above it, and stays unique and sorted by height; parents stay in front of their children of the same block exactly if everything from each listed child on compares above the transaction |
| TxOrder.InsertKeepsSorted | app/src/main/jni/breadwallet-core/BRWallet.c:113-118 | where the insertion sort stops the heights are in order |
| TxOrder.Inserted | app/src/main/jni/breadwallet-core/BRWallet.c:106-119 | the list after the insertion sort is sorted, unique and holds exactly one more transaction |
| TxOrder.CompareParent | app/src/main/jni/breadwallet-core/BRWallet.c:72-104 | a transaction never compares above one of its block that spends it |
| TxOrder.BehindParents | app/src/main/jni/breadwallet-core/BRWallet.c:106-119 | the insertion sort puts a transaction behind all its listed parents that are not above it |
| TxOrder.ParentsFirstExactly | app/src/main/jni/breadwallet-core/BRWallet.c:106-119 | a list in which no transaction stands before one of its block that it spends stays so exactly if everything from each listed child of the new transaction on compares above it |
| TxOrder.ParentAfterChild | app/src/main/jni/breadwallet-core/BRWallet.c:106-119 | an example: in one block a parent ends up behind its child, because an unrelated transaction that pays an earlier address stops the insertion |
| TxOrder.SuffixExactly | app/src/main/jni/breadwallet-core/BRWallet.c:434-434 | in a sorted list the scan from the end has seen exactly the transactions at or above the height when it stops |
| TxOrder.SuffixIsScan | app/src/main/jni/breadwallet-core/BRWallet.c:433-439 | the suffix is what a scan over the whole list would collect, in list order |
| Wallet.BRWallet.FirstAtLeast | app/src/main/jni/breadwallet-core/BRWallet.c:433-434 | the scan from the end stops where the transactions at or above the height begin |
| Wallet.BRWallet.TxUnconfirmedBefore | app/src/main/jni/breadwallet-core/BRWallet.c:424-443 | writes what a scan over the whole list for transactions at or above the height finds, as far as there is room, or only counts it when there is no array |
| Wallet.BRWallet.Unconfirm | app/src/main/jni/breadwallet-core/BRWallet.c:983-988 | the transactions from a position on, and no others, become unconfirmed |
| Wallet.BRWallet.SetTxUnconfirmedAfter | app/src/main/jni/breadwallet-core/BRWallet.c:971-993 | exactly the listed transactions above the height become unconfirmed and change in nothing else, the list stays in order without being sorted again, and the caches are rebuilt if anything changed |
| Wallet.UnconfirmedOrder | app/src/main/jni/breadwallet-core/BRWallet.c:980-988 | raising everything above a height to the unconfirmed height leaves the list sorted |
| Wallet.BRWallet.ContainsTx | app/src/main/jni/breadwallet-core/BRWallet.c:121-138 | true exactly when an output pays, or a known previous output belongs to, an address of the wallet |
| TxOrder.HeightsDoNotInvolve | app/src/main/jni/breadwallet-core/BRWallet.c:121-138 | changing heights never changes which transactions involve the wallet |
| TxOrder.ForgetKeepsInvolved | app/src/main/jni/breadwallet-core/BRWallet.c:960-963 | forgetting a transaction that does not involve the wallet does not make another one stop involving it |
| TxOrder.RemoveKeepsSorted | app/src/main/jni/breadwallet-core/BRWallet.c:949-955 | taking out the one transaction whose height was changed leaves the rest sorted |
| Wallet.BRWallet.Resort | app/src/main/jni/breadwallet-core/BRWallet.c:950-955 | removing and re-inserting leaves a sorted permutation of the list |
| Wallet.BRWallet.UpdateTransaction | app/src/main/jni/breadwallet-core/BRWallet.c:943-964 | one named transaction gets its height and time, and is reported exactly if they changed and it involves the wallet; the list stays a sorted permutation of itself; a stranger is forgotten exactly if it is now confirmed |
| Wallet.UpdatedOne | app/src/main/jni/breadwallet-core/BRWallet.c:943-964 | what one name does to the table: dated if it is known, and forgotten if it is then a confirmed stranger |
| Wallet.UpdatedMore | app/src/main/jni/breadwallet-core/BRWallet.c:943-964 | one more name does to the table what it does alone, however the names before it changed it |
| Wallet.ForgottenExactly | app/src/main/jni/breadwallet-core/BRWallet.c:943-967 | an update forgets exactly the named transactions that it would confirm, that had another height or time, and that neither pay nor spend from the wallet; those left change in height and time only |
| Wallet.BRWallet.UpdateAll | app/src/main/jni/breadwallet-core/BRWallet.c:943-964 | after the loop exactly the named known transactions carry the height and time, exactly the confirmed strangers among them are forgotten, exactly those of the wallet whose height or time changed are reported, and the flag says whether one of these was pending or invalid |
| Wallet.BRWallet.UpdateTransactions | app/src/main/jni/breadwallet-core/BRWallet.c:928-969 | the list is a sorted permutation of itself; the transaction table is the old one with exactly the named transactions dated and exactly the confirmed strangers among them forgotten; exactly the wallet's changed ones are reported; the caches are the replay of the new list if one of these was pending or invalid and untouched otherwise |
| Wallet.BRWallet.Dependants | app/src/main/jni/breadwallet-core/BRWallet.c:771-781 | finds exactly the listed transactions at or above its height that spend the transaction |
| Wallet.BRWallet.Unlist | app/src/main/jni/breadwallet-core/BRWallet.c:793-797 | takes exactly the transaction out of the list, which stays in order |
| Wallet.BRWallet.RemoveTransaction | app/src/main/jni/breadwallet-core/BRWallet.c:756-821 | what leaves the list is the transaction and exactly the descendants that the scan finds, each listed at or above the height of what it spends; the transaction table is unchanged; the caches are the replay of what is left; the recursion ends for an acyclic spend graph |
| TxOrder.DescendantsClosed | app/src/main/jni/breadwallet-core/BRWallet.c:783-790 | nothing that stays is a dependant, as the scan finds them at or above the height, of something that was removed |
| TxOrder.RemovesAllExactly | app/src/main/jni/breadwallet-core/BRWallet.c:756-821 | a removal takes every listed transaction that depends on the outputs, whatever the heights, and equally leaves nothing that spends what is gone, exactly if no dependant stands below everything it depends on |
| TxOrder.SpenderStays | app/src/main/jni/breadwallet-core/BRWallet.c:771-781 | an example: a confirmed transaction that spends an unconfirmed one stays when that is removed |
| TxOrder.PathStays | app/src/main/jni/breadwallet-core/BRWallet.c:783-790 | removing a closed set of descendants does not disturb the spend paths among what stays |
| TxOrder.RemoveBoth | app/src/main/jni/breadwallet-core/BRWallet.c:786-790 | removing the descendants of some transactions and then those of another one removes exactly the descendants of all of them |
| TxOrder.DependantsSuffice | app/src/main/jni/breadwallet-core/BRWallet.c:771-790 | removing a transaction's direct dependants first and then the transaction removes exactly its descendants |
| TxOrder.NoDependants | app/src/main/jni/breadwallet-core/BRWallet.c:792-797 | a transaction nothing depends on is its own only descendant |
| Wallet.BRWallet.ExtendChain | app/src/main/jni/breadwallet-core/BRWallet.c:333-349 | the generation loop ends for every finite set of used addresses and leaves the chain extended by derived addresses only, with the gap directly after the last used one unless derivation fails |
| Wallet.FreshAddress | app/src/main/jni/breadwallet-core/BRWallet.c:338-348 | a newly derived address is not in the chain yet, and using up a used one brings the loop closer to its end |
| Wallet.BRWallet.UnusedAddrs | app/src/main/jni/breadwallet-core/BRWallet.c:323-379 | returns gapLimit consecutive unused addresses directly after the last used one, extends only that chain and leaves the address set equal to the union of both chains, whether or not the chain was moved in memory |
| Wallet.BRWallet.AddAll | app/src/main/jni/breadwallet-core/BRWallet.c:359-374 | the address set gains exactly the given part of the chain |
| Wallet.BRWallet.TopUpChains | app/src/main/jni/breadwallet-core/BRWallet.c:745-748 | both chains are extended so that 10 external and 5 internal addresses follow the last used one, unless none can be derived; nothing else of the wallet changes |
| Wallet.BRWallet.RegisterTransaction | app/src/main/jni/breadwallet-core/BRWallet.c:713-754 | a new signed transaction that involves the wallet is listed once in its place and the caches are replayed with the addresses known before it, which may lag behind the addresses known afterwards by exactly what `LedgerLaws.MissedExactly` says; any other one leaves list and caches alone; the list stays in order |
| Wallet.BRWallet.Store | app/src/main/jni/breadwallet-core/BRWallet.c:724-738 | a new transaction is stored, and if it is the wallet's it is listed in its place and the caches become the replay; otherwise list and caches stay |
| CoinSelection.TxFeeExactly | app/src/main/jni/breadwallet-core/BRWallet.c:52-58 | a fee reaches the computed one exactly if it is a satoshi per byte and its whole hundreds cover the wallet's fee rate |
| CoinSelection.MinOutputExactly | app/src/main/jni/breadwallet-core/BRWallet.c:1119-1129 | an amount reaches the minimum exactly if it is at least the dust limit and at least the dust limit scaled to the fee rate, exactly and not rounded |
| CoinSelection.UnsignedSize | app/src/main/jni/breadwallet-core/BRTransaction.c:491-514 | the size coin selection reckons with is the transaction size function on the transaction before it is signed |
| CoinSelection.TxFeeMonotone | app/src/main/jni/breadwallet-core/BRWallet.c:52-58 | a larger transaction never has a smaller fee |
| CoinSelection.SelectInputs | app/src/main/jni/breadwallet-core/BRWallet.c:591-638 | the walk over the UTXO list ends at the first number of usable inputs whose value meets the target with its fee exactly or leaves room for change, at the end of the list, or with a transaction that has become too large |
| CoinSelection.StopsExactly | app/src/main/jni/breadwallet-core/BRWallet.c:637-637 | the walk stops exactly where outputs and fee leave nothing, or at least 546 satoshis and the minimum at the wallet's fee rate |
| CoinSelection.FitsExactly | app/src/main/jni/breadwallet-core/BRWallet.c:598-598 | inputs and outputs fit exactly if the unsigned transaction with a change output has at most 100000 bytes |
| CoinSelection.FeeExactly | app/src/main/jni/breadwallet-core/BRWallet.c:632-635 | the fee is the least one from the fee for the size with change on that leaves the wallet a multiple of 100 above what is spent, when the wallet has more than that |
| CoinSelection.CreateTxForOutputs | app/src/main/jni/breadwallet-core/BRWallet.c:566-656 | the inputs are the usable UTXOs the walk settles on, the outputs are the requested ones and the change in some order; insufficient funds are told apart; a transaction that outgrows the limit is tried again with a smaller last output or without it, as deep as the recursion may go |
| CoinSelection.Smaller | app/src/main/jni/breadwallet-core/BRWallet.c:598-622 | what is tried after an input made the transaction too large: nothing without funds for the fee of all inputs, otherwise the last output less what is lacking, or the outputs before it |
| CoinSelection.RetriedExactly | app/src/main/jni/breadwallet-core/BRWallet.c:598-619 | when a transaction is tried again the last output takes what the inputs that fit leave after the fee and the other outputs, if that is above the minimum, and is dropped otherwise |
| CoinSelection.RetryFeeExactly | app/src/main/jni/breadwallet-core/BRWallet.c:603-604 | the fee asked for before a retry is that of all inputs, those outputs and change while there are less than 253 of each, and never more |
| CoinSelection.LackBounded | app/src/main/jni/breadwallet-core/BRWallet.c:607-614 | the difference that is computed without a sign never goes below zero |
| CoinSelection.EndsOnce | app/src/main/jni/breadwallet-core/BRWallet.c:591-638 | the walk has one outcome only |
| CoinSelection.UsableExactly | app/src/main/jni/breadwallet-core/BRWallet.c:592-594 | the coins considered are exactly the UTXOs that can be looked up, each once if the list has no duplicate |
| CoinSelection.Sound | app/src/main/jni/breadwallet-core/BRWallet.c:583-653 | inputs less outputs is at least the computed fee, at most that fee plus the smallest output, and exactly that fee with change; the size is the size without change plus that of the change; change is worth more than the smallest output |
| CoinSelection.FinalFeeExactly | app/src/main/jni/breadwallet-core/BRWallet.c:583-653 | the fee covers the fee of the final size exactly if no change was added, or the change does not lengthen the count of outputs, or the computed fee covers the longer count as well |
| CoinSelection.OnlyOneCountGrows | app/src/main/jni/breadwallet-core/BRWallet.c:583-653 | of the counts that one more output lengthens, a transaction within the size limit has room for 252 only |
| CoinSelection.BuiltExactly | app/src/main/jni/breadwallet-core/BRWallet.c:591-645 | when all inputs fit one transaction, one is built exactly if there is an output and some number of inputs meets the stopping rule or all of them cover amount and fee |
| CoinSelection.Complete | app/src/main/jni/breadwallet-core/BRWallet.c:591-645 | if the wallet balance is the sum of its usable UTXOs and covers the amount and the fee at the all-inputs size, a transaction is built |
| CoinSelection.RoundingFits | app/src/main/jni/breadwallet-core/BRWallet.c:634-635 | raising the fee to round off the remaining balance never asks for more than the balance |
| CoinSelection.RetrySound | app/src/main/jni/breadwallet-core/BRWallet.c:598-656 | however often it is tried again, what is built pays for the outputs it is left with: the requested ones but for some at the end and the amount of the last one |
| CoinSelection.RetrySpendsAll | app/src/main/jni/breadwallet-core/BRWallet.c:607-615 | a retry that changes the last output makes the outputs and the fee just computed take exactly what the inputs that fit are worth |
| CoinSelection.NearStopsExactly | app/src/main/jni/breadwallet-core/BRWallet.c:632-637 | the walk then stops at those inputs exactly if the rest of the wallet is a multiple of 100, because the fee is rounded again; otherwise it misses by less than 100 |
| CoinSelection.NeverSettles | app/src/main/jni/breadwallet-core/BRWallet.c:598-637 | in such a wallet, while the rest is no multiple of 100, every retry asks for another one, at any depth |
| CoinSelection.RetryEndsExactly | app/src/main/jni/breadwallet-core/BRWallet.c:595-656 | in a wallet with more inputs than fit one transaction, each worth 100 more than its fee, and a last output that can take the changes, the recursion ends exactly if what the wallet holds beyond the inputs that fit is a multiple of 100; what is built then spends those inputs whole and leaves no change |
| CoinSelection.RetryNeverEnds | app/src/main/jni/breadwallet-core/BRWallet.c:598-622 | an example: a wallet of 676 equal coins for which it does not end |
| CoinSelection.MaxOutputAmount | app/src/main/jni/breadwallet-core/BRWallet.c:1131-1160 | the sum of the usable UTXOs less the fee for two outputs of 34 bytes, or zero |
| CoinSelection.MaxSentExactly | app/src/main/jni/breadwallet-core/BRWallet.c:1131-1160 | for a script of any length the maximum can be sent exactly if the fee with that script does not exceed the fee the maximum leaves, or some part of the inputs already suffices |
| CoinSelection.MaxIsMost | app/src/main/jni/breadwallet-core/BRWallet.c:1131-1160 | when all inputs fit, an amount goes to a script of 25 bytes exactly if it is at most the maximum or some of the inputs alone stop the walk; where leaving inputs out never saves more in fees than they are worth, the maximum is the most that can be sent |
| CoinSelection.MaxCanBeSent | app/src/main/jni/breadwallet-core/BRWallet.c:1131-1160 | a wallet whose caches were just rebuilt can send any positive amount up to the maximum to a script of at most 25 bytes, with distinct inputs, if all inputs fit one transaction |
| CoinSelection.LongScriptFails | app/src/main/jni/breadwallet-core/BRWallet.c:1155-1156 | an example: the maximum cannot be sent to a 34-byte script |
| CoinSelection.ManyOutputsUnderpay | app/src/main/jni/breadwallet-core/BRWallet.c:585-632 | an example: with exactly 252 requested outputs and change, the fee is below the one for the final size |
| Shuffle.ShuffleOutputs | app/src/main/jni/breadwallet-core/BRTransaction.c:475-489 | swapping each output with a drawn one from there on, in place, gives the shuffled outputs, which are a permutation of them |
| Shuffle.EveryOrderDrawn | app/src/main/jni/breadwallet-core/BRTransaction.c:475-489 | any order of the outputs comes out of some draws |
| Shuffle.DrawnOnce | app/src/main/jni/breadwallet-core/BRTransaction.c:475-489 | different draws give different orders of distinct outputs, so that with fair draws every order is equally likely |
| CoinSelection.SumByPermutation | app/src/main/jni/breadwallet-core/BRTransaction.c:474-489 | sums and counts over the outputs do not depend on the order the shuffle leaves |
| Merkle.DepthIsLeast | app/src/main/jni/breadwallet-core/BRMerkleBlock.c:39-45 | the depth is the least d with n <= 2^d |
| Merkle.AndPredecessor | app/src/main/jni/breadwallet-core/BRMerkleBlock.c:41-41 | x & (x - 1) vanishes exactly when the floor of the logarithm need not be rounded up |
| Merkle.CeilLog2 | app/src/main/jni/breadwallet-core/BRMerkleBlock.c:39-45 | the shift loop computes the least d with n <= 2^d |
| Merkle.RootR | app/src/main/jni/breadwallet-core/BRMerkleBlock.c:241-264 | the recursive traversal with cursors advanced in place computes the root function and leaves the cursors where it does |
| Merkle.Emit | app/src/main/jni/breadwallet-core/BRMerkleBlock.c:194-200 | a matched leaf is written when there is room, counted when there is no array, and nothing else changes |
| Merkle.TxHashesR | app/src/main/jni/breadwallet-core/BRMerkleBlock.c:185-209 | writes exactly the matched ids of the tree it reads, in order, as far as there is room, and leaves the cursors behind that tree |
| Merkle.TxHashes | app/src/main/jni/breadwallet-core/BRMerkleBlock.c:211-220 | the output starts with the matched ids in order; a null output gives their number |
| Merkle.MatchesAreTransactions | app/src/main/jni/breadwallet-core/BRMerkleBlock.c:194-200 | only hashes at depth ceil(log2(totalTx)) are reported as matched transactions |
| Merkle.TraversalsAgree | app/src/main/jni/breadwallet-core/BRMerkleBlock.c:185-264 | where the duplicate guard does not fire, both traversals consume the same flags and hashes, and the root is the hash fold of the tree the matched ids come from |
| Merkle.RejectedExactly | app/src/main/jni/breadwallet-core/BRMerkleBlock.c:250-259 | the root is zero exactly if the guard fires or a hash is missing on the way down the left branches: a failure in a right branch looks like a missing one |
| Merkle.RightDuplicateAccepted | app/src/main/jni/breadwallet-core/BRMerkleBlock.c:250-259 | an example: equal siblings in the right half are not noticed |
| MerkleEncoding.TopRow | app/src/main/jni/breadwallet-core/BRMerkleBlock.c:47-55 | ceil(log2 n) rows above the transactions there is one hash, the Merkle root |
| MerkleEncoding.RowAbove | app/src/main/jni/breadwallet-core/BRMerkleBlock.c:47-55 | a node is the hash of its two children, or of its only child twice |
| MerkleEncoding.ParsesTree | app/src/main/jni/breadwallet-core/BRMerkleBlock.c:57-61 | from the cursors where a node's encoding starts, the decoder reads back that node's tree and stops behind it |
| MerkleEncoding.TreeFolds | app/src/main/jni/breadwallet-core/BRMerkleBlock.c:250-257 | if no node is zero and no two siblings are equal, the tree passes the guard and folds to the node's hash |
| MerkleEncoding.TreeMatches | app/src/main/jni/breadwallet-core/BRMerkleBlock.c:57-61 | the matched leaves of a node's tree are the matched transactions below it, in order |
| MerkleEncoding.DecodeUndoesEncode | app/src/main/jni/breadwallet-core/BRMerkleBlock.c:57-73 | decoding the BIP37 encoding of any nonempty list with any matches yields the true Merkle root and exactly the matched ids in order, and consumes all hashes |
| MerkleEncoding.BitsOfPacked | app/src/main/jni/breadwallet-core/BRMerkleBlock.c:57-73 | flag bit i of the packed bytes is bit i of the encoding, counted from the lowest of each byte |
| MerkleEncoding.MessageDecodes | app/src/main/jni/breadwallet-core/BRMerkleBlock.c:57-73 | the message made of the packed bits and the hashes decodes to the true root and the matched ids |
| Difficulty.CompactOrder | app/src/main/jni/breadwallet-core/BRMerkleBlock.c:273-274 | compact targets compare as size first, mantissa second |
| Difficulty.CompactUnique | app/src/main/jni/breadwallet-core/BRMerkleBlock.c:273-274 | a number has at most one canonical compact form |
| Difficulty.NextTarget | app/src/main/jni/breadwallet-core/BRMerkleBlock.c:337-359 | the transition code, 32-bit timespan included, yields the retargeted mantissa and size, and its product never leaves 64 bits |
| Difficulty.NormalizeCuts | app/src/main/jni/breadwallet-core/BRMerkleBlock.c:354-354 | normalizing shifts whole bytes out of the mantissa and counts them in the size |
| Difficulty.RetargetExactly | app/src/main/jni/breadwallet-core/BRMerkleBlock.c:348-354 | before the limit the result is the canonical compact form of the exact new target if and only if the product keeps sixteen significant bits |
| Difficulty.RetargetLosesNothing | app/src/main/jni/breadwallet-core/BRMerkleBlock.c:348-357 | for every canonical previous target of size 4 to 0x1d the result is the canonical compact form of min(floor(target * timespan / TARGET_TIMESPAN), maximum) over unbounded integers |
| Difficulty.LimitIsMin | app/src/main/jni/breadwallet-core/BRMerkleBlock.c:356-357 | limiting the compact form limits the number |
| Difficulty.VerifyDifficulty | app/src/main/jni/breadwallet-core/BRMerkleBlock.c:327-364 | true exactly when the block follows the previous one and carries its target, or at a multiple of 2016 the retargeted one, for which a transition time must be known |
| Difficulty.AcceptedTransition | app/src/main/jni/breadwallet-core/BRMerkleBlock.c:337-359 | at a transition after a canonical target, and for any two 32-bit timestamps, the accepted target is the canonical form of the old number times the seconds between them, no less than 302400 and no more than 4838400, over two weeks, limited to the maximum; no other target is accepted |
| Difficulty.TimespanExactly | app/src/main/jni/breadwallet-core/BRMerkleBlock.c:341-346 | the 32-bit difference gives the true timespan exactly for timestamps less than 2^31 apart, or so far apart below zero that they wrap to less than a quarter of two weeks |
| Difficulty.TargetValue | app/src/main/jni/breadwallet-core/BRMerkleBlock.c:290-291 | the 32 bytes laid out for comparison are the number the compact target stands for |
| Difficulty.InRangeExactly | app/src/main/jni/breadwallet-core/BRMerkleBlock.c:287-288 | a canonical target is in range exactly if its number does not exceed the maximum |
| Difficulty.MeetsTarget | app/src/main/jni/breadwallet-core/BRMerkleBlock.c:287-296 | accepts exactly when the target is in range and the block hash, as a 256-bit number, does not exceed it |
| Poly1305.MaskedIsClamped | app/src/main/jni/breadwallet-core/BRCrypto.c:680-684 | masking the five limbs of the key is clamping the 128-bit number |
| Poly1305.SplitValue | app/src/main/jni/breadwallet-core/BRCrypto.c:695-697 | the five pieces cut from four words are the same number, each below 2^26 |
| Poly1305.LoadValue | app/src/main/jni/breadwallet-core/BRCrypto.c:686-698 | a block loads as its little-endian number with a one bit beyond its last byte, also when it is short |
| Poly1305.AddExact | app/src/main/jni/breadwallet-core/BRCrypto.c:694-698 | adding a block never wraps a 32-bit word |
| Poly1305.MultiplyExact | app/src/main/jni/breadwallet-core/BRCrypto.c:700-705 | no 64-bit column sum wraps |
| Poly1305.ColumnsValue | app/src/main/jni/breadwallet-core/BRCrypto.c:700-705 | the columns are the product, up to multiples of 2^130 - 5 |
| Poly1305.CarryFits | app/src/main/jni/breadwallet-core/BRCrypto.c:707-710 | no carry is cut off by its 32-bit cast, and the limbs come out below 2^26 but for a few bits in the second |
| Poly1305.StepIsField | app/src/main/jni/breadwallet-core/BRCrypto.c:694-710 | one block replaces the accumulator a by (a + block) * r in the field |
| Poly1305.FullCarryExact | app/src/main/jni/breadwallet-core/BRCrypto.c:713-716 | the final carry leaves every limb below 2^26 and keeps the value modulo the prime |
| Poly1305.SelectExact | app/src/main/jni/breadwallet-core/BRCrypto.c:718-724 | the sign bit of h - p selects the fully reduced value |
| Poly1305.RepackExact | app/src/main/jni/breadwallet-core/BRCrypto.c:726-728 | repacking into four words keeps the value modulo 2^128 |
| Poly1305.AddPadExact | app/src/main/jni/breadwallet-core/BRCrypto.c:730-734 | the carry chain adds the pad modulo 2^128 |
| Poly1305.FinishIsTag | app/src/main/jni/breadwallet-core/BRCrypto.c:712-735 | the tag of an accumulator h is ((h mod 2^130 - 5) + s) mod 2^128 |
| Poly1305.FoldAccumulates | app/src/main/jni/breadwallet-core/BRCrypto.c:686-711 | for a message of any length the limbs hold the accumulator of RFC 7539 |
| Poly1305.FoldSplits | app/src/main/jni/breadwallet-core/BRCrypto.c:686-711 | feeding a message in two calls cut at a 16-byte boundary leaves the same limbs as one call |
| Poly1305.AccumulatorIsPolynomial | app/src/main/jni/breadwallet-core/BRCrypto.c:686-711 | the accumulator is the sum of block times power of r, reduced modulo the prime |
| Poly1305.Compress | app/src/main/jni/breadwallet-core/BRCrypto.c:675-740 | folds the data into h block by block; the final call leaves the words of the tag |
| Poly1305.Authenticate | app/src/main/jni/breadwallet-core/BRCrypto.c:744-755 | for every key and message the tag is ((sum of block * r^k mod 2^130 - 5) + s) mod 2^128, where r is the clamped first half of the key and s its second half, as numbers |
| Poly1305.KeyNumbers | app/src/main/jni/breadwallet-core/BRCrypto.c:679-684 | the limbs of the key hold the first sixteen bytes with their top four bits of bytes 3, 7, 11, 15 and low two bits of bytes 4, 8, 12 cleared, and the pad the last sixteen |
| Aes256.SubIsFieldInverse | app/src/main/jni/breadwallet-core/BRBIP38Key.c:50-67 | the substitution table is the inverse in the field followed by the affine map of FIPS 197 |
| Aes256.UnsubSub | app/src/main/jni/breadwallet-core/BRBIP38Key.c:50-86 | the second table inverts the first |
| Aes256.MixIsMatrix | app/src/main/jni/breadwallet-core/BRBIP38Key.c:108-151 | the mixing shortcuts are multiplication by the matrices of FIPS 197, in both directions |
| Aes256.UnmixMix | app/src/main/jni/breadwallet-core/BRBIP38Key.c:147-151 | unmixing a mixed column gives the column back |
| Aes256.UnexpandExpand | app/src/main/jni/breadwallet-core/BRBIP38Key.c:159-165 | running the key expansion backwards in place undoes it |
| Aes256.KeysAreSchedule | app/src/main/jni/breadwallet-core/BRBIP38Key.c:113-118 | the 32 bytes after n expansions are bytes 32n to 32n + 31 of the key schedule of FIPS 197 |
| Aes256.RoundKeysAreSchedule | app/src/main/jni/breadwallet-core/BRBIP38Key.c:99-100 | round n uses bytes 16n to 16n + 15 of that schedule |
| Aes256.RowsRotate | app/src/main/jni/breadwallet-core/BRBIP38Key.c:104-106 | the byte swaps move row r of the state r columns to the left |
| Aes256.LayersInvert | app/src/main/jni/breadwallet-core/BRBIP38Key.c:145-157 | adding the key twice, substituting and shifting are undone by their inverses |
| Aes256.UnmixMixColumns | app/src/main/jni/breadwallet-core/BRBIP38Key.c:147-151 | the same for all four columns of the block |
| Aes256.StepBack | app/src/main/jni/breadwallet-core/BRBIP38Key.c:159-165 | one un-expansion turns the key after n expansions, and its round constant, into those after n - 1 |
| Aes256.RoundsUndone | app/src/main/jni/breadwallet-core/BRBIP38Key.c:144-166 | after n rounds of decryption the block is where encryption was n rounds before its end |
| Aes256.RoundBytes | app/src/main/jni/breadwallet-core/BRBIP38Key.c:99-112 | byte by byte, a round substitutes the sum of a byte and its schedule byte, brings it from r columns to the right in row r, and but for the last round combines each column by 2, 3, 1, 1 |
| Aes256.EncryptedBytes | app/src/main/jni/breadwallet-core/BRBIP38Key.c:99-123 | what is left after fourteen rounds is added byte by byte to the last sixteen schedule bytes |
| Aes256.RoundConstants | app/src/main/jni/breadwallet-core/BRBIP38Key.c:94-115 | the seven round constants |
| Aes256.DecryptUndoesEncrypt | app/src/main/jni/breadwallet-core/BRBIP38Key.c:90-173 | decryption undoes encryption for every key and block |
| Aes256.ExpandKey | app/src/main/jni/breadwallet-core/BRBIP38Key.c:113-118 | the in-place expansion computes the next 32 bytes of the schedule |
| Aes256.UnexpandKey | app/src/main/jni/breadwallet-core/BRBIP38Key.c:159-165 | the in-place un-expansion computes the previous 32 bytes |
| Aes256.AddRoundKey | app/src/main/jni/breadwallet-core/BRBIP38Key.c:100-100 | adds the half of the key the round is due |
| Aes256.Substitute | app/src/main/jni/breadwallet-core/BRBIP38Key.c:102-102 | every byte is replaced by its table entry |
| Aes256.Unsubstitute | app/src/main/jni/breadwallet-core/BRBIP38Key.c:157-157 | every byte is replaced by its entry in the inverse table |
| Aes256.Shift | app/src/main/jni/breadwallet-core/BRBIP38Key.c:104-106 | the swaps through one temporary shift the rows |
| Aes256.Unshift | app/src/main/jni/breadwallet-core/BRBIP38Key.c:153-155 | the swaps through one temporary shift the rows back |
| Aes256.MixAll | app/src/main/jni/breadwallet-core/BRBIP38Key.c:108-111 | all four columns are mixed in place |
| Aes256.UnmixAll | app/src/main/jni/breadwallet-core/BRBIP38Key.c:147-151 | all four columns are unmixed in place |
| Aes256.Encrypt | app/src/main/jni/breadwallet-core/BRBIP38Key.c:90-126 | the buffer becomes its encryption under the schedule of the key, which is expanded on the odd rounds only |
| Aes256.EncryptRound | app/src/main/jni/breadwallet-core/BRBIP38Key.c:99-112 | round i of encryption with the key in place |
| Aes256.ExpandSeven | app/src/main/jni/breadwallet-core/BRBIP38Key.c:137-142 | seven expansions in place give the last 32 bytes of the schedule and the seventh round constant |
| Aes256.DecryptRound | app/src/main/jni/breadwallet-core/BRBIP38Key.c:144-157 | round i undoes round 13 - i of encryption with the key bytes then in place |
| Aes256.Decrypt | app/src/main/jni/breadwallet-core/BRBIP38Key.c:128-173 | the buffer becomes its decryption: expanding seven times and un-expanding on the even rounds replays the round keys in reverse |
| BlockTree.AncestorStep | app/src/main/jni/breadwallet-core/BRPeerManager.c:1260-1260 | one step back along stored blocks goes from an ancestor to the one a height below |
| BlockTree.RootIsLowest | app/src/main/jni/breadwallet-core/BRPeerManager.c:1154-1159 | the root is the only stored block at its height and none is lower |
| BlockTree.FindJoin | app/src/main/jni/breadwallet-core/BRPeerManager.c:1292-1298 | the walk back from both blocks ends at the highest common ancestor of the new block and the old tip |
| BlockTree.StepBack | app/src/main/jni/breadwallet-core/BRPeerManager.c:252-254 | walking back step blocks gives the ancestor that far below, or nothing past the root |
| BlockTree.BlockLocators | app/src/main/jni/breadwallet-core/BRPeerManager.c:241-259 | the locators are the ten highest blocks of the main chain, then blocks at doubling distances, as far as they are stored, then genesis; as many as there is room for are written and all are counted |
| BlockTree.LocatorDistance | app/src/main/jni/breadwallet-core/BRPeerManager.c:241-259 | locator k lies k blocks below the tip for k up to 9, and 2^(k - 8) + 7 below it from then on |
| BlockTree.StoreKeepsTree | app/src/main/jni/breadwallet-core/BRPeerManager.c:1237-1237 | storing a block whose parent is stored keeps the tree, also when it was stored before |
| BlockTree.Confirm | app/src/main/jni/breadwallet-core/BRPeerManager.c:1239-1239 | the listed transactions that the block names get its height and time, the others keep all they have; the wallet's height rises to the block's only if it names any |
| BlockTree.Reorganise | app/src/main/jni/breadwallet-core/BRPeerManager.c:1291-1321 | after a reorganisation every listed wallet transaction has the height and time of the lowest new-branch block that lists it; one that none lists is unconfirmed if it stood above the join and untouched otherwise |
| BlockTree.ConfirmNext | app/src/main/jni/breadwallet-core/BRPeerManager.c:1307-1319 | one block of the walk down the new branch gives its transactions its height and time and leaves the heights above as they were reached |
| BlockTree.WalkOn | app/src/main/jni/breadwallet-core/BRPeerManager.c:1307-1319 | walking one block further down replaces what higher blocks gave a transaction by what this one gives it |
| BlockTree.HalfWay | app/src/main/jni/breadwallet-core/BRPeerManager.c:1156-1160 | the time a block gives its transactions is the mean of its own and its parent's, but for the halves that are dropped |
| BlockTree.PeerManager.constructor | app/src/main/jni/breadwallet-core/BRPeerManager.c:1455-1517 | starts from one checkpoint as root and tip |
| BlockTree.PeerManager.OnMainChain | app/src/main/jni/breadwallet-core/BRPeerManager.c:1259-1262 | the walk from the tip decides exactly whether a stored block is on the main chain |
| BlockTree.PeerManager.PlaceKnown | app/src/main/jni/breadwallet-core/BRPeerManager.c:1254-1273 | a block that is stored already takes the place of the stored one and confirms its transactions exactly when it is on the main chain; the tip stays |
| BlockTree.PeerManager.PlaceFork | app/src/main/jni/breadwallet-core/BRPeerManager.c:1281-1330 | a fork block is ignored exactly at or below the last checkpoint, stored when it is not higher than the tip, and otherwise becomes the tip after a reorganisation |
| BlockTree.PeerManager.Place | app/src/main/jni/breadwallet-core/BRPeerManager.c:1232-1330 | which of the outcomes is due to a verified block, and what it does to the stored blocks, the tip, and heights and times in the wallet |
| BlockTree.PeerManager.RelayBlock | app/src/main/jni/breadwallet-core/BRPeerManager.c:1151-1330 | which outcome a block gets follows from the block, the tree, filter, time and verdict, case by case and exactly; its effect on blocks, tip, orphans and the wallet's heights and times is given whole, the estimated height is the highest kept one, and the tree, the tip as its highest block and the wallet's order are kept |
| BlockTree.AllDue | app/src/main/jni/breadwallet-core/BRPeerManager.c:1151-1330 | the branches of the code, in their order, give a block exactly the outcome that is due: each outcome holds if and only if its own condition on the inputs does |
| BlockTree.DueOnce | app/src/main/jni/breadwallet-core/BRPeerManager.c:1151-1330 | no two outcomes are due to a block |
| BlockTree.PeerManager.PeerRelayedBlock | app/src/main/jni/breadwallet-core/BRPeerManager.c:1140-1363 | with the orphans that follow it, each the child of the one before, a relayed block gets the outcome due to it and so do they; what each did to blocks, tip and wallet is a chain of events; afterwards no orphan waits for a stored block; no stored block moves or is dropped, the tip only gives way to a strictly higher one, and the estimated height is the highest kept block |
| BlockTree.OnlyItsChild | app/src/main/jni/breadwallet-core/BRPeerManager.c:1335-1363 | when no orphan waited for a stored block, storing one more leaves at most its own child waiting for a stored block |
| BlockTree.PeerManager.RelayWaiting | app/src/main/jni/breadwallet-core/BRPeerManager.c:1335-1363 | the orphan that waits for a block is taken out and relayed |
| BlockTree.PeerManager.RelayNext | app/src/main/jni/breadwallet-core/BRPeerManager.c:1140-1363 | one more block continues a run |
| BlockTree.PeerManager.RelayAll | app/src/main/jni/breadwallet-core/BRPeerManager.c:1140-1363 | any run of relayed blocks keeps the tree, the tip as its highest block and the wallet's order; it is one chain of events, among them one for every block, each with the outcome that is due under the filter and time of its relay and with what that outcome does to tree, tip and wallet; all blocks keep their places |
| BlockTree.RunsJoin | app/src/main/jni/breadwallet-core/BRPeerManager.c:1140-1363 | two runs of which the second takes up where the first left off are one run |
| BlockTree.MovesAreSteps | app/src/main/jni/breadwallet-core/BRPeerManager.c:1232-1330 | whatever the outcome, at most the block itself is stored, hanging from a stored one, and the tip changes only to it and only upwards |
| BlockTree.TreeGrows | app/src/main/jni/breadwallet-core/BRPeerManager.c:1232-1330 | every step keeps all blocks in place and raises the tip by at most one |
| Base58.EncodeFits | app/src/main/jni/breadwallet-core/BRBase58.c:44-44 | n * 138 / 100 + 1 digits of base 58 hold every number of n bytes |
| Base58.DecodeFits | app/src/main/jni/breadwallet-core/BRBase58.c:82-82 | n * 733 / 1000 + 1 bytes hold every number of n digits of base 58 |
| Base58.PowersCompare | app/src/main/jni/breadwallet-core/BRBase58.c:44-44 | from a^p <= b^q and q * n < p * d follows a^n < b^d: how the two estimates are proved from one comparison each |
| Base58.CarryDigit | app/src/main/jni/breadwallet-core/BRBase58.c:51-55 | a digit times the old base plus the carry splits into digit and carry without leaving 32 bits |
| Base58.MultiplyAdd | app/src/main/jni/breadwallet-core/BRBase58.c:48-55 | the inner loop multiplies the number in the buffer and adds a digit, up to a carry that is left over |
| Base58.NoCarry | app/src/main/jni/breadwallet-core/BRBase58.c:51-55 | in a buffer of the estimated length the carry left over is always zero |
| Base58.TableAgrees | app/src/main/jni/breadwallet-core/BRBase58.c:38-38 | the letters of the encoder are the ranges of the decoder |
| Base58.AlphabetExactly | app/src/main/jni/breadwallet-core/BRBase58.c:38-38 | the letters are the digits and letters of both cases in ASCII order, without 0, I, O and l |
| Base58.DigitsOfValue | app/src/main/jni/breadwallet-core/BRBase58.c:60-61 | skipping zeros in front leaves the one shortest numeral |
| Base58.SkipZeros | app/src/main/jni/breadwallet-core/BRBase58.c:60-61 | what is left after the leading zeros is the shortest numeral of the buffer's value |
| Base58.Encode | app/src/main/jni/breadwallet-core/BRBase58.c:36-72 | returns the length with the terminator, or 0 when there is no room, and writes one 1 per leading zero and the shortest base-58 numeral of the rest |
| Base58.Decode | app/src/main/jni/breadwallet-core/BRBase58.c:75-142 | the same backwards; a character that is no letter ends the input without an error |
| Base58.DecodeUndoesEncode | app/src/main/jni/breadwallet-core/BRBase58.c:36-142 | every byte string comes back, leading zeros included |
| Base58.EncodeUndoesDecode | app/src/main/jni/breadwallet-core/BRBase58.c:36-142 | every string of base-58 letters comes back |
| Base58.DecodesPrefix | app/src/main/jni/breadwallet-core/BRBase58.c:86-121 | only the letters before the first other character matter |
| Base58.SameBytesExactly | app/src/main/jni/breadwallet-core/BRBase58.c:86-121 | two strings decode to the same bytes exactly when they agree up to their first character that is no letter |
| Base58.DecodedShorter | app/src/main/jni/breadwallet-core/BRBase58.c:167-172 | the decoded bytes are never more than the characters, so the buffer of the check decoder suffices |
| Base58.CheckEncode | app/src/main/jni/breadwallet-core/BRBase58.c:145-162 | the encoding of the data followed by four bytes of its double hash |
| Base58.CheckDecode | app/src/main/jni/breadwallet-core/BRBase58.c:165-185 | gives the payload when the checksum is right and length 0 otherwise |
| Base58.CheckedExactly | app/src/main/jni/breadwallet-core/BRBase58.c:145-185 | a nonempty payload comes out of a string exactly when its letters are the Base58Check form of that payload |
| Bech32.PolymodAdds | app/src/main/jni/breadwallet-core/BRBech32.c:37-39 | the checksum step is linear over bits |
| Bech32.PolymodIsGenerator | app/src/main/jni/breadwallet-core/BRBech32.c:37-39 | on six coefficients in GF(32), one step shifts them up and adds the highest times 29, 22, 20, 21, 29, 18, the generator of BIP 173 |
| Bech32.FeedSlices | app/src/main/jni/breadwallet-core/BRBech32.c:138-140 | feeding the six values cut from a word adds that word to what six empty steps leave |
| Bech32.ChecksumClosesTo1 | app/src/main/jni/breadwallet-core/BRBech32.c:138-140 | the six appended values drive any state to 1 |
| Bech32.ChecksumAccepted | app/src/main/jni/breadwallet-core/BRBech32.c:79-88 | an address with its checksum appended passes the test of the decoder |
| Bech32.RunInjective | app/src/main/jni/breadwallet-core/BRBech32.c:79-79 | equal values fed to different states leave different states |
| Bech32.SingleErrorDetected | app/src/main/jni/breadwallet-core/BRBech32.c:79-88 | changing any one value of the checked sequence always changes the result of the checksum |
| Bech32.BytesOfGroups | app/src/main/jni/breadwallet-core/BRBech32.c:81-84 | joining the five-bit groups of a byte string gives the bytes back |
| Bech32.OrStep | app/src/main/jni/breadwallet-core/BRBech32.c:81-84 | one more value changes exactly the bytes of its block, by or-ing in its bits |
| Bech32.TablesAgree | app/src/main/jni/breadwallet-core/BRBech32.c:67-77 | the decoder's switch inverts the encoder's table |
| Bech32.PrefixChecksum | app/src/main/jni/breadwallet-core/BRBech32.c:113-120 | feeds the high bits, a zero and the low bits of the prefix |
| Bech32.EmitGroups | app/src/main/jni/breadwallet-core/BRBech32.c:129-136 | the regrouping loop writes exactly the characters of the five-bit groups, the padded last one included, and feeds each to the checksum |
| Bech32.Encode | app/src/main/jni/breadwallet-core/BRBech32.c:101-144 | refuses a bad prefix, version, length or total, and otherwise writes prefix, separator, version, groups and checksum, which overrun the buffer of 91 characters exactly if they are more than 90 |
| Bech32.GuardHoldsExactly | app/src/main/jni/breadwallet-core/BRBech32.c:125-125 | the length test, which counts program bytes and not groups, keeps every program inside the buffer exactly if the prefix has at most 18 or more than 80 characters; with 42 characters it lets an address of 114 pass |
| Bech32.WriteProgram | app/src/main/jni/breadwallet-core/BRBech32.c:127-144 | what is written behind the prefix is the text of the address and its terminator |
| Bech32.Emit | app/src/main/jni/breadwallet-core/BRBech32.c:133-136 | one value is written as its character and fed to the checksum |
| Bech32.OrInto | app/src/main/jni/breadwallet-core/BRBech32.c:81-84 | the two or-assignments into the buffer add one value to the bytes held there and stay inside it |
| Bech32.ReadValues | app/src/main/jni/breadwallet-core/BRBech32.c:66-85 | reads the version and the values, refusing an unknown character, and leaves the joined bytes in the buffer and the checksum of everything |
| Bech32.Decode | app/src/main/jni/breadwallet-core/BRBech32.c:42-97 | accepts by the character range, the case, the separator, the lengths, the checksum, the version and the program length, and returns lower-case prefix and program |
| Bech32Example.ExampleAddress | app/src/main/jni/breadwallet-core/BRBech32.c:101-144 | an example: the address of BIP 173 for its key hash, letter by letter |
| Bech32.Conclude | app/src/main/jni/breadwallet-core/BRBech32.c:87-97 | the last tests, and the program put together from version, length and bytes |
| Bech32.DecodeUndoesEncode | app/src/main/jni/breadwallet-core/BRBech32.c:42-144 | an address the encoder returns is read back as its prefix and program exactly when the prefix is not empty; otherwise it is refused |
| Bech32.GroupBack | app/src/main/jni/breadwallet-core/BRBech32.c:81-136 | cutting the bytes that values make gives each value back, but for the bits of the last one that made no byte |
| Bech32.GroupsOfBytes | app/src/main/jni/breadwallet-core/BRBech32.c:81-136 | values come back from the bytes they make exactly if none is surplus and the padding is empty |
| Bech32.ChecksumUnique | app/src/main/jni/breadwallet-core/BRBech32.c:79-140 | six values that drive a state to 1 are its checksum |
| Bech32.EncodeUndoesDecode | app/src/main/jni/breadwallet-core/BRBech32.c:42-144 | what was decoded can be encoded again, and gives the address back in lower case exactly if it had no surplus value and empty padding |
| Bech32.CaseIgnored | app/src/main/jni/breadwallet-core/BRBech32.c:48-62 | letters of both cases are refused together; otherwise the case does not matter |
| Bech32.ValuesReadBack | app/src/main/jni/breadwallet-core/BRBech32.c:42-97 | any version and values of the right length are accepted with their checksum |
| Bech32.AcceptedExactly | app/src/main/jni/breadwallet-core/BRBech32.c:42-97 | exactly the strings of one case are accepted that are, in lower case, a prefix with a version, values and their checksum |
| Bech32.PaddingIgnored | app/src/main/jni/breadwallet-core/BRBech32.c:81-84 | an example: values that differ only in the padding of the last one give the same program |
| Bip39.BytesComeBack | app/src/main/jni/breadwallet-core/BRBIP39Mnemonic.c:47-49 | cutting bytes into 11-bit indices and the indices into bytes gives every byte the indices cover |
| Bip39.IndexComesBack | app/src/main/jni/breadwallet-core/BRBIP39Mnemonic.c:90-95 | cutting indices into bytes and the bytes into indices gives every index the bytes cover |
| Bip39.ChecksumReadBack | app/src/main/jni/breadwallet-core/BRBIP39Mnemonic.c:99-99 | the checksum bits cut into the last index are read back from it |
| Bip39.LastComesBack | app/src/main/jni/breadwallet-core/BRBIP39Mnemonic.c:99-99 | and the last index comes back when the checksum bits are its own |
| Bip39.IndexBits | app/src/main/jni/breadwallet-core/BRBIP39Mnemonic.c:47-49 | bit j of index i is bit 11i + j of the data, counted from the top |
| Bip39.ParseJoin | app/src/main/jni/breadwallet-core/BRBIP39Mnemonic.c:73-87 | reading the words joined by spaces gives their indices, for at most 24 words, also with a space at the end |
| Bip39.JoinParse | app/src/main/jni/breadwallet-core/BRBIP39Mnemonic.c:73-87 | nothing but such a phrase is read |
| Bip39.FindWordOf | app/src/main/jni/breadwallet-core/BRBIP39Mnemonic.c:74-79 | finds the first listed word the phrase starts with, up to a space or the end |
| Bip39.ReadWords | app/src/main/jni/breadwallet-core/BRBIP39Mnemonic.c:73-85 | reads words until one is unknown, 24 are read or the phrase ends; what is left over tells which |
| Bip39.Encode | app/src/main/jni/breadwallet-core/BRBIP39Mnemonic.c:32-60 | the phrase of data and checksum, or nothing for a length that is no multiple of four; its length with the terminator, or 0 when there is no room; it reads past its buffer exactly for data of 972 bytes or more |
| Bip39.ReadsInsideExactly | app/src/main/jni/breadwallet-core/BRBIP39Mnemonic.c:47-48 | all four-byte reads stay inside the data and its hash exactly if the data is shorter than 972 bytes |
| Bip39.Decode | app/src/main/jni/breadwallet-core/BRBIP39Mnemonic.c:63-111 | the data of an accepted phrase, length 0 for a refused one |
| Bip39.DecodeUndoesEncode | app/src/main/jni/breadwallet-core/BRBIP39Mnemonic.c:32-111 | for data of whole four-byte groups and any list of 2048 distinct words without spaces, decoding the phrase gives the data back exactly when it is at most 32 bytes long |
| Bip39.AcceptedExactly | app/src/main/jni/breadwallet-core/BRBIP39Mnemonic.c:63-111 | a phrase gives nonempty data exactly when it is the phrase of that data, or that phrase followed by a space |
| TxCodec.ReadVarIntAt | app/src/main/jni/breadwallet-core/BRAddress.c:37-104 | a variable-length integer is read back with its length wherever it stands |
| TxCodec.VarIntExactly | app/src/main/jni/breadwallet-core/BRAddress.c:69-104 | the length, the marker and every byte that is written for an integer |
| TxCodec.LEByte | app/src/main/jni/breadwallet-core/BRAddress.c:69-104 | byte k of a little-endian integer is its digit k to base 256 |
| TxCodec.PutVarInt | app/src/main/jni/breadwallet-core/BRAddress.c:69-104 | writes the integer when it fits and counts nothing when it does not |
| TxCodec.InputReadsBack | app/src/main/jni/breadwallet-core/BRTransaction.c:112-132 | a signed or unsigned input is read back as the fields the wire carries, ending where it was written |
| TxCodec.OutputReadsBack | app/src/main/jni/breadwallet-core/BRTransaction.c:168-183 | an output is read back, ending where it was written |
| TxCodec.InputLayout | app/src/main/jni/breadwallet-core/BRTransaction.c:112-132 | where hash, index, script length, script, amount and sequence of an input lie |
| TxCodec.OutputLayout | app/src/main/jni/breadwallet-core/BRTransaction.c:173-180 | where amount, script length and script of an output lie |
| TxCodec.TransactionLayout | app/src/main/jni/breadwallet-core/BRTransaction.c:255-322 | where version, counts, inputs, outputs and lock time lie |
| TxCodec.InputsReadBack | app/src/main/jni/breadwallet-core/BRTransaction.c:383-403 | so is any number of inputs |
| TxCodec.OutputsReadBack | app/src/main/jni/breadwallet-core/BRTransaction.c:409-417 | and any number of outputs |
| TxCodec.ParseUndoesSerialize | app/src/main/jni/breadwallet-core/BRTransaction.c:255-429 | parsing a serialized transaction, whatever follows it, gives the same wire fields if each input is signed with something not taken for a scriptPubKey or unsigned with a recognised script and an amount; without inputs it is refused |
| TxCodec.VarIntRewritten | app/src/main/jni/breadwallet-core/BRAddress.c:37-104 | an integer is never written longer than it was read, and comes out the same if it was shortest |
| TxCodec.InputRewritten | app/src/main/jni/breadwallet-core/BRTransaction.c:112-403 | an input is never written longer than it was read; it comes out the same exactly if its length was shortest and a recognised script came with an amount |
| TxCodec.InputsRewritten | app/src/main/jni/breadwallet-core/BRTransaction.c:112-403 | and so for any number of inputs |
| TxCodec.OutputRewritten | app/src/main/jni/breadwallet-core/BRTransaction.c:168-417 | an output comes out the same exactly if its length was shortest |
| TxCodec.OutputsRewritten | app/src/main/jni/breadwallet-core/BRTransaction.c:168-417 | and so for any number of outputs |
| TxCodec.SerializeUndoesParse | app/src/main/jni/breadwallet-core/BRTransaction.c:255-429 | serializing what was parsed gives back exactly the bytes that were read if and only if every length and count was shortest and every recognised script came with an amount; otherwise it gets shorter |
| TxCodec.PutInput | app/src/main/jni/breadwallet-core/BRTransaction.c:112-132 | writes the input's bytes when all of them fit, and counts nothing otherwise |
| TxCodec.PutInputs | app/src/main/jni/breadwallet-core/BRTransaction.c:269-285 | appends the inputs; those that do not fit are skipped |
| TxCodec.PutOutput | app/src/main/jni/breadwallet-core/BRTransaction.c:173-180 | appends an output and counts what it leaves out but for its script length |
| TxCodec.PutOutputs | app/src/main/jni/breadwallet-core/BRTransaction.c:168-183 | appends the outputs, or counts none when they overrun the buffer |
| TxCodec.Serialize | app/src/main/jni/breadwallet-core/BRTransaction.c:431-437 | the size query gives the serialized length, a large enough buffer gets exactly the serialized bytes and that length, a smaller one the length with what did not fit left out |
| TxCodec.ReportedExactly | app/src/main/jni/breadwallet-core/BRTransaction.c:255-322 | the returned length is the serialized length exactly when the transaction fits the buffer |
| TxCodec.TooSmallNotRefused | app/src/main/jni/breadwallet-core/BRTransaction.c:255-322 | an example: a buffer too small for the input gets a transaction without it and a nonzero length |
| TxCodec.Size | app/src/main/jni/breadwallet-core/BRTransaction.c:491-514 | adds the exact size of signed inputs, 148 bytes for each unsigned one, and the outputs |
| TxCodec.SizeExact | app/src/main/jni/breadwallet-core/BRTransaction.c:491-514 | for a signed transaction the computed size is the serialized length |
| TxCodec.ParseInput | app/src/main/jni/breadwallet-core/BRTransaction.c:383-403 | reads one input, an overrun giving zeros, and says where it ends |
| TxCodec.ParseOutput | app/src/main/jni/breadwallet-core/BRTransaction.c:409-417 | reads one output and says where it ends |
| TxCodec.Parse | app/src/main/jni/breadwallet-core/BRTransaction.c:366-429 | reads counts, inputs and outputs until the buffer is overrun, and refuses a transaction without inputs or beyond the buffer |

## Left out

- HashSet.BRSet.Add: requires that the set holds fewer items than the load bound of the largest table (2609407362) or an equivalent item, because otherwise the code rebuilds into a table it never allocates.
- HashSet.BRSet.Union: requires that both item counts together stay within that bound, unless the set is united with itself.
- Wallet.BRWallet.UpdateBalance: amounts are unbounded; `LedgerLaws.BalanceAndTotals` bounds every accumulated amount by what the list paid the wallet, so 64-bit words do not wrap when that fits one. The size of a transaction is a field, which `TxCodec` computes.
- Wallet.BRWallet.TxIsAscending: needs an acyclic spend graph, which transaction hashes provide; so do the operations built on it.
- Wallet.BRWallet.RegisterTransaction: whether the transaction is signed is a parameter; callbacks are left out.
- Wallet.BRWallet.RemoveTransaction: the notifications that follow a removal are left out, and so is freeing memory.
- Wallet.BRWallet.UnusedAddrs: key derivation is a parameter that may fail and never yields an address twice; whether the chain was moved in memory is a parameter, for both cases.
- CoinSelection.CreateTxForOutputs: the function reads the wallet, so the wallet is a value here, and nothing changes it between two retries. The depth to which the retry may go is a parameter, because it need not end (`CoinSelection.RetryEndsExactly`); when it does for wallets in which an earlier input is worth less than its fee is not stated. An input that outgrows the limit when no output is left makes the code read outside its array, which is the outcome Astray. 64-bit wrap-around of the requested sum is not modelled.
- CoinSelection.MaxOutputAmount: reads the wallet as a value.
- Merkle.CeilLog2: the argument is unbounded where the code has an int, so transaction counts from 2^31 on are not modelled.
- Merkle.RootR: the double SHA-256 is any function of two hashes; theorems that need it say that it never yields zero or that siblings differ.
- Difficulty.MeetsTarget: for a size byte beyond 31 the code writes past the 32 bytes it compares, which the model does not; it refuses such targets as the code does. The timestamp and Merkle root checks of the same function are left out.
- Poly1305.Authenticate: clearing secrets from memory and constant running time are not modelled.
- Aes256.AddRoundKey: the code works on four 32-bit words, the model on sixteen bytes, which is the same exclusive or.
- BlockTree.PeerManager.RelayBlock: the verdict on difficulty and checkpoints is a parameter; freeing old blocks at a difficulty transition, rescans, saving blocks, the false-positive rate, mempool requests and disconnects are left out. The branch for a block found during a rescan (`BRPeerManager.c:1275-1280`) cannot be reached when the tip is the highest block.
- BlockTree.PeerManager.constructor: starts from one checkpoint; the tree below the others and loading saved blocks are left out, so that no block above the tip is stored.
- BlockTree.PeerManager.PeerRelayedBlock: requires that the height that the tip can reach with the waiting orphans stays below the value that marks an unknown height.
- BlockTree.PeerManager.PlaceKnown: the code also forgets the replaced block as an orphan; a stored block is never one.
- BlockTree.BlockLocators: the step doubles without bound where the code has 32 bits.
- Base58.Encode: lengths are unbounded; a product with 138 that overflows a machine word is not modelled. The same holds for `Base58.Decode` and 733.
- Base58.CheckEncode: the double SHA-256 is a parameter, also for `Base58.CheckDecode`.
- Bech32.Encode: what lies beyond the buffer is not modelled; a write there is lost and the outcome is Overrun.
- Bip39.Encode: where the code would read past its buffer it stops; the part of a phrase that is written when there is too little room is not described.
- Bip39.Decode: the word list is a parameter; Unicode normalisation and the derivation of a seed from a phrase are left out.
- TxCodec.Serialize: only whole signed or unsigned transactions; the variants that are hashed for signing are left out. What a buffer that is too small holds afterwards is not described.
- TxCodec.Parse: which scripts are taken for a scriptPubKey is a parameter; the transaction hash and 64-bit wrap-around of an offset plus a script length are left out.
- Sockets, threads, locks, timeouts and callbacks: input and output.
- SHA, RIPEMD, Keccak, MD5, scrypt, PBKDF2, ChaCha20 and the AEAD built from it: standards with no property beyond equality with the standard.
- secp256k1, ECDSA, ECIES and BIP32: wrappers around a library that is not part of this model.
- Bloom filters, amounts in local currency and sync progress: floating point.
- Iteration over a set, scripts and their pushes, parsing and serializing Merkle blocks, the payment protocol, the rest of BIP38: would only add easier members.
- The Android application: user interface, geolocation and HTTP.
