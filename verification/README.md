# Verified models of the PS4 Linux tooling

Dafny models of the parts of this repository that carry real invariants, with proofs. `dafny verify dfyconfig.toml`
checks the whole project; each component has a module of its own.

- **The blind key scan** of `EAPDumper/main.c`: `WindowEntropy` (integer entropy of a window and the candidate gate),
  `Kernel` (reading memory, reversing 16-byte blocks, the key at a known offset), `Bitmap` (the candidate bitmap as an
  array of bytes, clusters and runs), `Score` (the fixed-point score and the same score in 32-bit arithmetic), `Ranking`
  (the seven-field order and the streaming top list) and `Scanner` (the passes over memory up to the discovered offset).
  Memory is a partial map from addresses to bytes that does not change during a scan; the number of slots and the length
  of the top list are parameters.
- **Data transforms** of `pkg_pfs_tool/src/crypto.c`: `Cbc` (CBC with a residual block), on the byte blocks of `Blocks`,
  `OffsetStream` (the offset-keyed stream transform), `SectorDevice` (the encrypted sector device) and `Pkcs1` (the
  branch-free unpadder). A block cipher is any pair of inverse functions on 16-byte blocks; the unit operation of the
  sector device is a family of such pairs indexed by sector and block number. Whether a key could be set up is a parameter.
- **The Ethernet driver** `drivers_mts/mts.c`: `RxRing` (descriptor ring shared with the hardware, against a bounded
  queue) and `StormGuard` (the interrupt storm guard over whole runs of interrupt times). OWN set means an empty buffer,
  as the code of `mts_rx_clean` has it; the comment at lines 497-502 of the driver says the opposite for receive.
- **The configuration reader** of `pkg_pfs_tool/src/config.c`: `Config` (what a line and a file mean), `ConfigText` (the
  same stated on the characters of a line) and `ConfigFile` (the line buffer cut in place, proved to compute exactly that).
- **Analysis scripts**: `CallGraph` (two depth-bounded breadth-first walks), `CrossRef` (the header one script writes and
  another one reads back) and `CrossRefText` (what the writer prints and which lines the reader takes).

Code that changes arrays or fields is a method or a class here, proved against a specification function; the lemmas are
about those functions. In classes, `Valid()` ties the fields to the abstract value.

Four properties one might expect do not hold of the code as written; each is settled exactly:

- A comment put after white space at the end of a line is dropped if and only if the line is not an entry with an empty
  value; such an entry takes the comment as its value (`Config.TrailingCommentDropped`, for every line; `Config.CommentBecomesValue` is the shortest case).
- The sector device recovers all data for every cipher if and only if the size is a multiple of 16
  (`SectorDevice.RecoversExactly`, with a cipher that swaps two bytes of a block as the counterexample).
- The upward walk expands a function twice if and only if the seed list repeats one and at least one round is run
  (`CallGraph.TraceCallers`, `CallGraph.RepeatedSeed`); the walk that starts from a dictionary never does.
- A poll that returns less than its budget has seen the head empty if and only if receiving is enabled or no frame was
  waiting anyway; with receiving disabled it returns 0 and leaves the ring alone (`RxRing.Receiver.Poll`, and a frame it
  misses in `RxRing.PollMissesFrame`).

## Model

| member | source | states |
|---|---|---|
| WindowEntropy.TermRate | tools/ps4_hdd_tools/EAPDumper/main.c:354-386 | The table term per occurrence never rises with the count, the fact behind subadditivity of the floored terms |
| WindowEntropy.TermSubadditive | tools/ps4_hdd_tools/EAPDumper/main.c:378-383 | Merging two histogram bins never raises the sum of their floored table terms, for all counts |
| WindowEntropy.HistogramCounts | tools/ps4_hdd_tools/EAPDumper/main.c:372-376 | Bin b of the histogram is the multiplicity of byte b in the window |
| WindowEntropy.TableAnchors | tools/ps4_hdd_tools/EAPDumper/main.c:360-366 | On powers of two the table is 256 times the binary logarithm |
| WindowEntropy.TermValue | tools/ps4_hdd_tools/EAPDumper/main.c:360-383 | What a byte that occurs f times contributes, as a literal number for each f up to 32 |
| WindowEntropy.EntropyStep | tools/ps4_hdd_tools/EAPDumper/main.c:372-383 | One more byte b takes away the contribution of the old multiplicity of b and adds that of the new one; with EntropyOfNothing this determines the entropy |
| WindowEntropy.EntropyOfNothing | tools/ps4_hdd_tools/EAPDumper/main.c:372-385 | The entropy of no bytes is 0 |
| WindowEntropy.EntropyPermutation | tools/ps4_hdd_tools/EAPDumper/main.c:354-386 | Windows with the same multiset of bytes have the same entropy |
| WindowEntropy.DataProcessing | tools/ps4_hdd_tools/EAPDumper/main.c:354-386 | Recoding the bytes of any window through any byte-to-byte function never raises its integer entropy |
| WindowEntropy.EntropyExtremes | tools/ps4_hdd_tools/EAPDumper/main.c:337-386 | On 32 bytes the entropy is 0 iff all bytes are equal, 1280 iff all differ, and lies between |
| WindowEntropy.AllBytesEqual | tools/ps4_hdd_tools/EAPDumper/main.c:337-352 | The loop decides whether all bytes are equal; an empty range counts as equal |
| WindowEntropy.EntropyQ8 | tools/ps4_hdd_tools/EAPDumper/main.c:354-386 | The two loops over the in-place histogram compute the entropy, at most 1280 |
| WindowEntropy.CandidateGate | tools/ps4_hdd_tools/EAPDumper/main.c:388-410 | The gate reduces to the entropy threshold: the equal-bytes test rejects nothing the threshold would accept |
| Kernel.CopyOut | tools/ps4_hdd_tools/EAPDumper/main.c:472-481 | A read succeeds iff every byte of the range is readable and then returns exactly those bytes |
| Kernel.ReverseBlocksInvolution | tools/ps4_hdd_tools/EAPDumper/main.c:925-941 | Reversing the 16-byte blocks twice gives the input back, for every length |
| Kernel.ReverseBlocksMultiset | tools/ps4_hdd_tools/EAPDumper/main.c:925-941 | The reversal is a permutation of the bytes, for every length |
| Kernel.ReverseBlocksAt | tools/ps4_hdd_tools/EAPDumper/main.c:925-941 | Byte i comes from the mirror position in its own 16-byte block, the last block being as long as it is |
| Kernel.ReverseBlocksKeeps | tools/ps4_hdd_tools/EAPDumper/main.c:925-941 | The reversal keeps the entropy and whether all bytes are equal |
| Kernel.ReverseSixteenByteBlocks | tools/ps4_hdd_tools/EAPDumper/main.c:925-941 | The loops write the blockwise reversal of the first len bytes and touch nothing else |
| Kernel.ReadKernelKey | tools/ps4_hdd_tools/EAPDumper/main.c:963-998 | Each return code with its condition; -5 is unreachable; a stored key reverses back to the bytes read and has their entropy |
| Score.StructureFactorShape | tools/ps4_hdd_tools/EAPDumper/main.c:570-585 | The factor is positive exactly inside (128, 1280), full exactly on [384, 1024], and moves by at most one per step |
| Score.EntropyScoreInNumbers | tools/ps4_hdd_tools/EAPDumper/main.c:603-606 | The share s of entropy e is 0 up to 1152 and above it 128 s <= 1000 (e - 1152) < 128 s + 128 |
| Score.DropBonusInNumbers | tools/ps4_hdd_tools/EAPDumper/main.c:613-634 | A bonus is 0 for a neighbourhood that is not flatter, and else the floor of drop * weight * factor / 327680 |
| Score.ScoreInNumbers | tools/ps4_hdd_tools/EAPDumper/main.c:587-644 | The score is the entropy share, the bonuses of weight 300 and 500, and 200 for an isolated candidate, -60 for each further neighbour, -80 for each further slot of the run |
| Score.FlatEarnsNothing | tools/ps4_hdd_tools/EAPDumper/main.c:667-683 | A neighbourhood counted with the candidate's own entropy, as an unreadable one is, earns the least there is |
| Score.DropBonusCeiling | tools/ps4_hdd_tools/EAPDumper/main.c:613-634 | The bonuses are at most 210 and 350, both attained |
| Score.DropBonusMonotone | tools/ps4_hdd_tools/EAPDumper/main.c:613-634 | More candidate entropy never lowers a bonus |
| Score.ScoreRange | tools/ps4_hdd_tools/EAPDumper/main.c:587-644 | Scores lie between -(960 + 80(N-1)) and 1760 and both ends are attained |
| Score.ScoreMonotone | tools/ps4_hdd_tools/EAPDumper/main.c:587-644 | The score never falls when the entropy rises and the rest is fixed |
| Score.DenseAndIsolatedScores | tools/ps4_hdd_tools/EAPDumper/main.c:613-643 | 9 neighbours in a run of 12 score at most 200, an isolated candidate at least 200 |
| Score.MachineBonusExact | tools/ps4_hdd_tools/EAPDumper/main.c:613-634 | The 32-bit bonus with wrap-around at every step equals the mathematical one |
| Score.NothingOverflows | tools/ps4_hdd_tools/EAPDumper/main.c:587-644 | With every operation checked, no intermediate result of compute_score leaves its 32-bit type, and the result is the mathematical score |
| Score.CheckedIsMachine | tools/ps4_hdd_tools/EAPDumper/main.c:587-644 | On all inputs, arithmetic that overflows nowhere gives the value of wrapping 32-bit arithmetic |
| Score.MachineScoreExact | tools/ps4_hdd_tools/EAPDumper/main.c:587-644 | With wrap-around at every step of compute_score the result is the mathematical score |
| Score.LinkedBonuses | tools/ps4_hdd_tools/EAPDumper/main.c:483-484 | When the window before reaches the threshold, both bonuses are at most 480 in all, since one window enters the mean and the post-key bonus |
| Score.BonusesBesideHigh | tools/ps4_hdd_tools/EAPDumper/main.c:613-634 | When either neighbouring window reaches the threshold, both bonuses are at most 480 in all, unreadable windows included |
| Bitmap.SetBit | tools/ps4_hdd_tools/EAPDumper/main.c:317-322 | Or-ing the mask of bit k sets bit k and no other |
| Bitmap.MaskValue | tools/ps4_hdd_tools/EAPDumper/main.c:320-330 | Slot k of a byte is the bit of value 2^k |
| Bitmap.CandidateBitmap.ClearAll | tools/ps4_hdd_tools/EAPDumper/main.c:312-315 | Afterwards the bytes represent the empty set of slots |
| Bitmap.CandidateBitmap.SetSlot | tools/ps4_hdd_tools/EAPDumper/main.c:317-322 | The represented set gains exactly the slot; a slot out of range changes nothing |
| Bitmap.CandidateBitmap.GetSlot | tools/ps4_hdd_tools/EAPDumper/main.c:324-331 | The bit read is membership in the represented set, false out of range |
| Bitmap.RunLengthIsMaximalRun | tools/ps4_hdd_tools/EAPDumper/main.c:541-559 | Any maximal run that contains the slot has exactly the counted length |
| Bitmap.ClusterSeesRun | tools/ps4_hdd_tools/EAPDumper/main.c:520-559 | A set slot's cluster is at most 17 and at least min(run, 9), and a cluster of 1 means a run of 1 |
| Bitmap.CandidateBitmap.CountCluster | tools/ps4_hdd_tools/EAPDumper/main.c:520-539 | The clipped loop returns the number of set slots at distance 8 or less |
| Bitmap.CandidateBitmap.CountRunLength | tools/ps4_hdd_tools/EAPDumper/main.c:541-559 | The two scans return the length of the run around the slot, at least 1 |
| Ranking.BetterIsStrictOrder | tools/ps4_hdd_tools/EAPDumper/main.c:695-725 | The relation is irreflexive and transitive, and total on valid candidates with different offsets |
| Ranking.BetterIsLexicographic | tools/ps4_hdd_tools/EAPDumper/main.c:695-725 | On valid candidates the order is the lexicographic one of [-score, cluster, run, -entropy, neighbor, post, offset]; an invalid candidate is never better and every valid one is better than it |
| Ranking.SortedUnique | tools/ps4_hdd_tools/EAPDumper/main.c:695-725 | Only one arrangement of a collection of candidates is sorted by that order |
| Ranking.RankSorts | tools/ps4_hdd_tools/EAPDumper/main.c:727-746 | Inserting a stream one by one yields a sorted permutation of it |
| Ranking.InsertPadded | tools/ps4_hdd_tools/EAPDumper/main.c:727-746 | Inserting into the cut and padded list is cutting and padding the list with the insertion: nothing dropped matters later |
| Ranking.TopInsert | tools/ps4_hdd_tools/EAPDumper/main.c:727-746 | The in-place shift leaves the first K of the list with the candidate inserted, places behind the list holding the zero entry |
| Ranking.RankMatchesPosition | tools/ps4_hdd_tools/EAPDumper/main.c:817-843 | A candidate's number of betters is its index in the list, or it is absent when that is K or more |
| Scanner.StreamMembers | tools/ps4_hdd_tools/EAPDumper/main.c:804-824 | The scored stream is exactly the scored slots, all valid, at distinct offsets |
| Scanner.SlotsTile | tools/ps4_hdd_tools/EAPDumper/main.c:307-310 | The slots are exactly the 16-aligned offsets from 0x2600000 on, in rising order |
| Scanner.ScoredRecord | tools/ps4_hdd_tools/EAPDumper/main.c:646-693 | A slot has a record iff it is marked, its 32 bytes are readable and their entropy is at least 1152; every field of the record in terms of the 32 bytes before, at and after the slot |
| Scanner.EverySetSlotScored | tools/ps4_hdd_tools/EAPDumper/main.c:646-665 | On the bitmap the scan built, a slot is scored iff it is set, and it is set iff it passes the gate |
| Scanner.DenseNeverAboveIsolated | tools/ps4_hdd_tools/EAPDumper/main.c:587-725 | A candidate in a run of 12 or more set slots is ranked below every isolated one |
| Scanner.RawIsGate | tools/ps4_hdd_tools/EAPDumper/main.c:771-799 | The slots counted as raw candidates are exactly those that pass the gate |
| Scanner.Survey | tools/ps4_hdd_tools/EAPDumper/main.c:752-802 | The counters are the sizes of the four classes of slots, their sums come out, and the maximum is the largest window entropy |
| Scanner.ClassMeaning | tools/ps4_hdd_tools/EAPDumper/main.c:774-799 | The four classes of slots in terms of memory: unreadable, constant, entropy from 1 to 1151, entropy from 1152 to 1280 |
| Scanner.SurveyCounts | tools/ps4_hdd_tools/EAPDumper/main.c:752-802 | Each counter after the pass is the number of slots of its own class |
| Scanner.SurveyMaximum | tools/ps4_hdd_tools/EAPDumper/main.c:787-790 | The maximum bounds the entropy of every readable window and is attained when it is positive |
| Scanner.OffsetScanner.ExamineSlot | tools/ps4_hdd_tools/EAPDumper/main.c:774-799 | One slot is put in its class and the accepted ones are those that pass the gate |
| Scanner.OffsetScanner.BuildCandidateBitmap | tools/ps4_hdd_tools/EAPDumper/main.c:752-802 | The bitmap represents exactly the slots that pass the gate and the statistics are the survey |
| Scanner.OffsetScanner.ComputeNeighborEntropy | tools/ps4_hdd_tools/EAPDumper/main.c:447-485 | The mean entropy of the windows before and after, or nothing when one is missing |
| Scanner.OffsetScanner.ComputePostEntropy | tools/ps4_hdd_tools/EAPDumper/main.c:493-518 | The entropy of the window after the key, or nothing |
| Scanner.ScoredByMachine | tools/ps4_hdd_tools/EAPDumper/main.c:646-693 | For readable candidates of any memory the 32-bit arithmetic yields the specified candidate record |
| Scanner.OffsetScanner.ScoreSlot | tools/ps4_hdd_tools/EAPDumper/main.c:646-693 | The candidate record of a slot, with the fallbacks for unreadable neighbours, or nothing |
| Scanner.OffsetScanner.RankCandidates | tools/ps4_hdd_tools/EAPDumper/main.c:804-845 | For any bitmap and memory, top is the first K of all scored candidates in order, then invalid entries; the known rank is 1 plus the betters |
| Scanner.KnownRankIsPosition | tools/ps4_hdd_tools/EAPDumper/main.c:817-844 | The known rank of a scored slot is its place in top; a rank beyond K means it is absent |
| Scanner.BetterElsewhereMeaning | tools/ps4_hdd_tools/EAPDumper/main.c:826-843 | The count behind the known rank is the number of scored candidates at another offset that are better |
| Scanner.FirstWins | tools/ps4_hdd_tools/EAPDumper/main.c:864-918 | The ranked stream is empty iff no slot passes the gate, and the key of its head comes before that of every other gated slot |
| Scanner.LowestOffsetWins | tools/ps4_hdd_tools/EAPDumper/main.c:695-725 | Among gated slots whose records are equal but for the offset, the lowest offset is discovered |
| Scanner.OffsetScanner.DiscoverEapOffset | tools/ps4_hdd_tools/EAPDumper/main.c:852-919 | With a base, 0 iff no readable window reaches the threshold, otherwise the offset of the gated slot whose key comes lexicographically first |
| Scanner.DenseInScanNeverAboveIsolated | tools/ps4_hdd_tools/EAPDumper/main.c:587-725 | On the bitmap the scan builds, a run of 11 is enough to rank below every isolated candidate |
| Scanner.WinnerIsNotDense | tools/ps4_hdd_tools/EAPDumper/main.c:852-919 | If any isolated candidate exists, the discovered offset is not inside a run of 11 or more |
| Pkcs1.PaddingUnique | tools/ps4_hdd_tools/pkg_pfs_tool/src/crypto.c:154-192 | A block has at most one decomposition into padding and message (sections 7.2.2 and 9.2 of RFC 8017) |
| Pkcs1.UnpadExact | tools/ps4_hdd_tools/pkg_pfs_tool/src/crypto.c:154-192 | A block is accepted iff it is 00, type, at least 8 proper padding bytes, 00, message; the result is that message |
| Pkcs1.UnpadPadded | tools/ps4_hdd_tools/pkg_pfs_tool/src/crypto.c:154-192 | Unpadding any padded message, also an empty one, gives it back |
| Pkcs1.CryptBytes | tools/ps4_hdd_tools/pkg_pfs_tool/src/crypto.c:154-192 | 00 02, at least 8 bytes that are not zero, 00, M unpads to M for encryption |
| Pkcs1.SignBytes | tools/ps4_hdd_tools/pkg_pfs_tool/src/crypto.c:154-192 | 00 01, at least 8 bytes FF, 00, M unpads to M for signatures |
| Pkcs1.AcceptedBytes | tools/ps4_hdd_tools/pkg_pfs_tool/src/crypto.c:154-192 | An accepted block consists of exactly those bytes |
| Pkcs1.WrongTypeRejected | tools/ps4_hdd_tools/pkg_pfs_tool/src/crypto.c:154-176 | A block whose first byte is not 0, or whose second is not 2 (for signatures 1), is rejected |
| Pkcs1.IsZeroMeaning | tools/ps4_hdd_tools/pkg_pfs_tool/src/crypto.c:163-164 | The shift expression is 1 for zero and 0 for every other byte |
| Pkcs1.CountCryptPadding | tools/ps4_hdd_tools/pkg_pfs_tool/src/crypto.c:159-165 | The branch-free loop counts the bytes before the first zero |
| Pkcs1.CountSignPadding | tools/ps4_hdd_tools/pkg_pfs_tool/src/crypto.c:166-173 | The loop counts the bytes before the first that is not FF |
| Pkcs1.Examine | tools/ps4_hdd_tools/pkg_pfs_tool/src/crypto.c:154-183 | The accumulated error is zero iff the block is accepted, and the pointer then stands at the message |
| Pkcs1.Decrypt | tools/ps4_hdd_tools/pkg_pfs_tool/src/crypto.c:135-196 | Each status with its exact condition, the padding mode and a failed RSA operation included; the message written on success, the output untouched otherwise |
| Cbc.CbcEncryptBlocks | tools/ps4_hdd_tools/pkg_pfs_tool/src/crypto.c:532-542 | Ciphertext block j is E(P_j + C_{j-1}) with the IV before the first (section 6.2 of NIST SP 800-38A) |
| Cbc.CtsBlocks | tools/ps4_hdd_tools/pkg_pfs_tool/src/crypto.c:532-542 | With a residual block too, each full ciphertext block j is E(P_j + C_{j-1}) |
| Cbc.CtsResidual | tools/ps4_hdd_tools/pkg_pfs_tool/src/crypto.c:543-560 | Residual byte i is the plaintext byte plus byte i of the encrypted last ciphertext block; the value used last is carried out as the next IV |
| Cbc.CbcEncryptCarries | tools/ps4_hdd_tools/pkg_pfs_tool/src/crypto.c:527-561 | On full blocks the carried-out IV is the last ciphertext block |
| Cbc.CtsRoundTrip | tools/ps4_hdd_tools/pkg_pfs_tool/src/crypto.c:500-654 | Decryption undoes encryption and the reverse, for every length, with the same carried-out IV |
| Cbc.CtsEncryptChunks | tools/ps4_hdd_tools/pkg_pfs_tool/src/crypto.c:527-561 | Encrypting in two calls cut at a multiple of 16 with the IV carried gives the bytes and IV of one call |
| Cbc.CtsDecryptChunks | tools/ps4_hdd_tools/pkg_pfs_tool/src/crypto.c:595-645 | The same for decryption |
| Cbc.XorTail | tools/ps4_hdd_tools/pkg_pfs_tool/src/crypto.c:553-557 | The byte loop adds the encrypted chaining block to the residual bytes, also in place |
| Cbc.AesEncryptCbcCts | tools/ps4_hdd_tools/pkg_pfs_tool/src/crypto.c:500-572 | Bytes and IV written for every length, in place or not; empty data or a bad key fail and change nothing |
| Cbc.AesDecryptCbcCts | tools/ps4_hdd_tools/pkg_pfs_tool/src/crypto.c:574-654 | The same for decryption |
| OffsetStream.OexByte | tools/ps4_hdd_tools/pkg_pfs_tool/src/crypto.c:682-699 | Output byte i is input byte i plus byte i mod 16 of the encrypted 64-bit offset of its group |
| OffsetStream.CounterBlockBytes | tools/ps4_hdd_tools/pkg_pfs_tool/src/crypto.c:684-687 | The counter block holds the offset in its first eight bytes, byte i counting 256^i, and zero in the other eight |
| OffsetStream.CounterBlocksDiffer | tools/ps4_hdd_tools/pkg_pfs_tool/src/crypto.c:684-687 | Different offsets have different counter blocks |
| OffsetStream.OexResult | tools/ps4_hdd_tools/pkg_pfs_tool/src/crypto.c:682-699 | Byte i of the result is byte i of the data plus byte i mod 16 of the encrypted block that holds offset + 16 (i / 16) mod 2^64 in that form |
| OffsetStream.OexInvolution | tools/ps4_hdd_tools/pkg_pfs_tool/src/crypto.c:682-699 | At a fixed offset the transform is its own inverse |
| OffsetStream.WrapIsModulo | tools/ps4_hdd_tools/pkg_pfs_tool/src/crypto.c:656-699 | The offset wraps modulo 2^64 |
| OffsetStream.OexChunks | tools/ps4_hdd_tools/pkg_pfs_tool/src/crypto.c:682-699 | Cutting at a multiple of 16 and passing on the advanced 64-bit offset changes nothing |
| OffsetStream.OexLoop | tools/ps4_hdd_tools/pkg_pfs_tool/src/crypto.c:682-699 | The loop writes the transform of the input, in place or not, and nothing behind it |
| OffsetStream.AesDecryptOex | tools/ps4_hdd_tools/pkg_pfs_tool/src/crypto.c:656-710 | Succeeds iff there is data and a key; each byte written is that of OexResult, stated on the bytes of the counter block; otherwise nothing is written |
| SectorDevice.SectorBlocks | tools/ps4_hdd_tools/pkg_pfs_tool/src/crypto.c:806-829 | The whole blocks of a partial sector are mapped block by block whatever padding follows (section 5.3 of IEEE Std 1619-2007) |
| SectorDevice.SectorBlockAt | tools/ps4_hdd_tools/pkg_pfs_tool/src/crypto.c:814-829 | Block j of a sector, partial or not, is encrypted with its sector number and j |
| SectorDevice.SectorTail | tools/ps4_hdd_tools/pkg_pfs_tool/src/crypto.c:818-829 | The bytes after the whole blocks go through the map of their block with zeros behind them |
| SectorDevice.DeviceBlock | tools/ps4_hdd_tools/pkg_pfs_tool/src/crypto.c:792-833 | Block j of sector k of the data is encrypted with the numbers start + k and j |
| SectorDevice.DeviceRoundTrip | tools/ps4_hdd_tools/pkg_pfs_tool/src/crypto.c:792-833 | Decryption recovers all but the last size mod 16 bytes, with a partial last sector too |
| SectorDevice.SwapLoses | tools/ps4_hdd_tools/pkg_pfs_tool/src/crypto.c:818-829 | Under a concrete cipher the byte after the whole blocks is lost for every size that is not a multiple of 16 |
| SectorDevice.RecoversExactly | tools/ps4_hdd_tools/pkg_pfs_tool/src/crypto.c:792-833 | All data comes back for every cipher iff the size is a multiple of 16 |
| SectorDevice.FullSectorsIsQuotient | tools/ps4_hdd_tools/pkg_pfs_tool/src/crypto.c:798-804 | The number of full sectors is the quotient and alignment is divisibility |
| SectorDevice.DeviceChunks | tools/ps4_hdd_tools/pkg_pfs_tool/src/crypto.c:798-832 | Cutting at whole sectors and going on at the returned sector gives the same bytes |
| SectorDevice.ProcessFull | tools/ps4_hdd_tools/pkg_pfs_tool/src/crypto.c:814-820 | After the loop over the full sectors, what is written followed by the map of what is left is the map of all the data; behind the data nothing changes |
| SectorDevice.EncdecDevice.Process | tools/ps4_hdd_tools/pkg_pfs_tool/src/crypto.c:792-833 | Writes the device's map of the data, in place or not, returns the next sector, touches nothing else |
| RxRing.AccountCounts | drivers_mts/mts.c:1654-1671 | Packets, drops and errors add up to the retired descriptors and the bytes to the delivered frames |
| RxRing.CountersByKind | drivers_mts/mts.c:1654-1671 | Packets are the frames of 1 to 1536 bytes that got a buffer, drops those that got none, errors the frames of any other length |
| RxRing.DeliverablePositions | drivers_mts/mts.c:1654-1671 | The delivery positions are increasing and are exactly the retired descriptors of 1 to 1536 bytes that got a buffer |
| RxRing.DeliveredInOrder | drivers_mts/mts.c:1654-1671 | The delivered frames are the payloads at those positions, cut to their length, in that order |
| RxRing.FillRefines | drivers_mts/mts.c:515-530 | A hardware fill of the ring is an enqueue of the bounded queue, refused exactly when 256 wait |
| RxRing.CleanRefines | drivers_mts/mts.c:1631-1681 | An iteration is a dequeue; the head has OWN set iff the queue is empty |
| RxRing.RingRefinesFifo | drivers_mts/mts.c:1608-1686 | Under every interleaving of fills and iterations the ring refines the bounded queue |
| RxRing.ReceiveOverRuns | drivers_mts/mts.c:1608-1686 | From reset: retirement in fill order and once, in-order delivery, each counter the number of its kind, WRAP of empty descriptors exactly at index 255 |
| RxRing.Receiver.constructor | drivers_mts/mts.c:503-532 | The set-up ring represents the empty queue |
| RxRing.Receiver.Fill | drivers_mts/mts.c:515-530 | The hardware side: one step of the queue and of the ring |
| RxRing.LoopIsRun | drivers_mts/mts.c:1631-1681 | The loop with given fills and allocation outcomes is one of the interleavings of fills and iterations |
| RxRing.LoopFollowsAllocations | drivers_mts/mts.c:1654-1668 | A loop that has retired n descriptors has given the i-th one the outcome of its i-th allocation |
| RxRing.Receiver.Deliver | drivers_mts/mts.c:1652-1671 | The frame at the head is passed up, dropped or counted as an error, and the counters follow |
| RxRing.Receiver.CleanHead | drivers_mts/mts.c:1649-1681 | The body of the loop performs one dequeue step of the queue and of the ring |
| RxRing.Receiver.Iterate | drivers_mts/mts.c:1631-1681 | After some fills, one look at the head: a dequeue with the given allocation outcome, or nothing when the queue is empty |
| RxRing.Receiver.RxClean | drivers_mts/mts.c:1608-1686 | The queue becomes exactly what the given fills and allocation outcomes make of it; the number cleaned is the number retired, within the budget; less means the head was empty |
| RxRing.Receiver.Poll | drivers_mts/mts.c:1692-1711 | Completion iff less than the budget was done; a completed poll has seen the head empty iff receiving is enabled or nothing was waiting; disabled, it does 0 and leaves the queue alone |
| RxRing.PollMissesFrame | drivers_mts/mts.c:1700-1710 | With receiving disabled, a waiting frame is still waiting after a completed poll, for every frame and budget |
| StormGuard.QuietWindows | drivers_mts/mts.c:2594-2614 | While the guard is quiet, two adjacent windows hold at most the maximum each and everything older lies before them |
| StormGuard.QuietCounts | drivers_mts/mts.c:2579-2618 | While quiet every interrupt is counted once in the total, at most all in the window, and link checks are on |
| StormGuard.CurrentWindow | drivers_mts/mts.c:2594-2606 | The open window begins at the first interrupt more than W after the one before it began, and the count is that of the interrupts since |
| StormGuard.FiresExactly | drivers_mts/mts.c:2594-2614 | The next interrupt disables the line iff it comes within W of the opening of the window and the count has reached the maximum |
| StormGuard.FiredState | drivers_mts/mts.c:2606-2614 | Once it has fired, the total is the number of interrupts before the firing one, the window's count is above the maximum, link checks are off, and nothing changes any more |
| StormGuard.FiresOnlyInStorm | drivers_mts/mts.c:2594-2614 | If the guard fires at t, more than the maximum of interrupts fell in [t-W, t] |
| StormGuard.QuietIntervals | drivers_mts/mts.c:2594-2614 | While it has not fired, every interval of length W holds at most two windows' worth of interrupts |
| StormGuard.QuietMeansAtMostTwiceMax | drivers_mts/mts.c:2594-2614 | With a maximum of at least 1 that is twice the maximum |
| StormGuard.StormAlwaysCaught | drivers_mts/mts.c:2594-2614 | More than twice the maximum within an interval of length W always disables the line |
| StormGuard.TwiceMaxAttained | drivers_mts/mts.c:2594-2614 | Twice the maximum can pass, so the bound is tight |
| StormGuard.OffNeverFires | drivers_mts/mts.c:2594-2618 | With threshold 0 every interrupt is counted and none disables the line |
| StormGuard.InterruptHandler.Interrupt | drivers_mts/mts.c:2579-2618 | The handler's fields after a call are one step of the guard, and the line is disabled exactly then |
| Config.ResultIsFirstBadLine | tools/ps4_hdd_tools/pkg_pfs_tool/src/config.c:65-112 | The result is 0 iff no line is malformed and no callback fails, otherwise the first such line's number |
| Chars.SpaceCodes | tools/ps4_hdd_tools/pkg_pfs_tool/src/config.c:18-43 | White space is exactly the codes 9 to 13 and 32 |
| ConfigText.EveryLineTrimmed | tools/ps4_hdd_tools/pkg_pfs_tool/src/config.c:18-34 | Every line is white space, a trimmed text and white space |
| ConfigText.MalformedExactly | tools/ps4_hdd_tools/pkg_pfs_tool/src/config.c:71-107 | A line is malformed iff its trimmed text is not empty, does not start with ; and has no ] (for a section), or neither = nor :, before a comment |
| ConfigText.MalformedReported | tools/ps4_hdd_tools/pkg_pfs_tool/src/config.c:45-113 | A file with a malformed line gets a result between 1 and that line's number |
| ConfigText.SkippedExactly | tools/ps4_hdd_tools/pkg_pfs_tool/src/config.c:71-75 | A line is skipped iff its trimmed text is empty or starts with ; |
| ConfigText.SectionExactly | tools/ps4_hdd_tools/pkg_pfs_tool/src/config.c:76-84 | A section line names what stands between the brackets, cut to 127 characters |
| ConfigText.PairExactly | tools/ps4_hdd_tools/pkg_pfs_tool/src/config.c:85-98 | An entry has as its name the text before the separator without white space at its end, and as its value the text behind it without comment and white space around |
| ConfigText.CallsExactly | tools/ps4_hdd_tools/pkg_pfs_tool/src/config.c:71-107 | There is one callback for each entry line |
| ConfigText.CallAt | tools/ps4_hdd_tools/pkg_pfs_tool/src/config.c:71-107 | The callback of an entry line has its name and value and the last section opened before, in the order of the lines |
| Config.LongLineInPieces | tools/ps4_hdd_tools/pkg_pfs_tool/src/config.c:68 | A line longer than the buffer is read in pieces of 1023 characters |
| Config.FormParses | tools/ps4_hdd_tools/pkg_pfs_tool/src/config.c:71-107 | Every well-formed way to write a section, an entry with = or :, a commented entry, a comment or a blank line is read as what it means |
| Config.DocumentRoundTrip | tools/ps4_hdd_tools/pkg_pfs_tool/src/config.c:45-113 | Parsing a printed document makes exactly its callbacks in order and returns 0 unless one fails |
| Config.NoiseChangesNothing | tools/ps4_hdd_tools/pkg_pfs_tool/src/config.c:68-107 | A document makes the same callbacks with and without blank lines, comments and padding |
| Config.NoiseLineInserted | tools/ps4_hdd_tools/pkg_pfs_tool/src/config.c:68-112 | In any file, well-formed or not, a further blank or comment line keeps section and callbacks and shifts the result only behind it |
| Config.TrailingCommentDropped | tools/ps4_hdd_tools/pkg_pfs_tool/src/config.c:71-107 | On every line without NUL, a comment after white space changes nothing iff the line is not an entry with an empty value, that is iff the trimmed line does not end at its separator |
| Config.EmptyPairGuard | tools/ps4_hdd_tools/pkg_pfs_tool/src/config.c:85-97 | A line is an entry with an empty value iff, trimmed, it starts with neither ; nor [ and its separator is its last character |
| Config.CommentBecomesValue | tools/ps4_hdd_tools/pkg_pfs_tool/src/config.c:93-97 | The line "a=" with a comment after white space gets the comment as its value |
| Config.CommentAppended | tools/ps4_hdd_tools/pkg_pfs_tool/src/config.c:68-112 | In any file, such a comment behind any such line changes neither callbacks nor result |
| ConfigFile.RStrip | tools/ps4_hdd_tools/pkg_pfs_tool/src/config.c:18-28 | The string in the buffer becomes its trimmed form and no byte behind it changes |
| ConfigFile.LSkip | tools/ps4_hdd_tools/pkg_pfs_tool/src/config.c:30-34 | The returned position holds the string without its leading white space |
| ConfigFile.FindCharOrComment | tools/ps4_hdd_tools/pkg_pfs_tool/src/config.c:36-43 | The returned position is the first match, comment or end |
| ConfigFile.SectionInPlace | tools/ps4_hdd_tools/pkg_pfs_tool/src/config.c:76-84 | The section name is cut out at the bracket and to the size of its buffer, or the line has no bracket |
| ConfigFile.FindSeparator | tools/ps4_hdd_tools/pkg_pfs_tool/src/config.c:85-90 | The separator is the first = outside a comment, else the first : |
| ConfigFile.SplitPair | tools/ps4_hdd_tools/pkg_pfs_tool/src/config.c:90-98 | Cutting in place yields the trimmed name and the value without comment |
| ConfigFile.ValueInPlace | tools/ps4_hdd_tools/pkg_pfs_tool/src/config.c:93-97 | The value loses its comment and surrounding white space |
| ConfigFile.Parser.OnSection | tools/ps4_hdd_tools/pkg_pfs_tool/src/config.c:76-84 | A section line is one step of the specification |
| ConfigFile.Parser.OnPair | tools/ps4_hdd_tools/pkg_pfs_tool/src/config.c:85-107 | An entry line is one step of the specification, callback and first error line included |
| ConfigFile.Parser.OnLine | tools/ps4_hdd_tools/pkg_pfs_tool/src/config.c:69-107 | Any line, cut in place in the shared buffer, is one step of the specification |
| ConfigFile.Gets | tools/ps4_hdd_tools/pkg_pfs_tool/src/config.c:68 | The buffer then holds the characters read as a C string, up to the first NUL among them |
| ConfigFile.Parser.ParseConfigFile | tools/ps4_hdd_tools/pkg_pfs_tool/src/config.c:45-113 | For any characters of the file, with NUL and over-long lines too, section, callbacks and result are those the specification gives |
| Config.PrintedLines | tools/ps4_hdd_tools/pkg_pfs_tool/src/config.c:68-69 | Lines that fit the buffer, written one after the other, are read as those lines |
| Config.FileRoundTrip | tools/ps4_hdd_tools/pkg_pfs_tool/src/config.c:45-113 | A document written to a file and read back makes exactly its callbacks in order |
| CallGraph.NextBall | consolidado/tools/trace_partition_flag_origin.py:115-132 | The unvisited neighbours of the rim are exactly the nodes one step further out |
| CallGraph.EmptyRimIsFinal | consolidado/tools/trace_partition_flag_origin.py:119-132 | When the frontier is empty no deeper round would find anything |
| CallGraph.ReportsGrow | consolidado/tools/trace_partition_flag_origin.py:127-131 | A round keeps the reports exact: each new node once, at its shortest distance |
| CallGraph.Round | consolidado/tools/trace_partition_flag_origin.py:121-132 | One round asks each function of the frontier once, in order, and finds each unvisited caller once |
| CallGraph.TraceCallers | consolidado/tools/trace_partition_flag_origin.py:115-132 | Collected are the nodes within the bound, reported at shortest distance, expanded those within the bound less one; twice iff a seed repeats and a round runs |
| CallGraph.RepeatedSeed | consolidado/tools/trace_partition_flag_origin.py:115-132 | A seed given twice is expanded twice |
| CallGraph.TreeRound | consolidado/tools/ghidra_scripts/ExtractGeomCryptPipeline.py:375-397 | One round over a set in any order adds the unvisited callers and callees |
| CallGraph.BothLists | consolidado/tools/ghidra_scripts/ExtractGeomCryptPipeline.py:379-396 | A step leads to any caller and to any callee, and nowhere else |
| CallGraph.WalkCallTree | consolidado/tools/ghidra_scripts/ExtractGeomCryptPipeline.py:371-400 | Collected are the nodes within the bound along both kinds of edge, expanded once each those within the bound less one |
| CrossRef.Hex16RoundTrip | consolidado/tools/consolidate_decompiled_lacunas.py:141-146 | Reading the printed 16-column hexadecimal of any integer, negative too, gives it back |
| CrossRefText.DecimalRoundTrip | consolidado/tools/consolidate_decompiled_lacunas.py:139-148 | A printed count has the decimal value of the number |
| CrossRefText.AddressText | consolidado/tools/consolidate_decompiled_lacunas.py:137 | The second title line has the offset of the function in hexadecimal, its name and its size |
| CrossRefText.SectionText | consolidado/tools/consolidate_decompiled_lacunas.py:139-144 | A section begins with its word and the number of all its references |
| CrossRefText.RefText | consolidado/tools/consolidate_decompiled_lacunas.py:140-146 | Then comes each of the first 20 references with its name and its offset in hexadecimal |
| CrossRefText.OverflowText | consolidado/tools/consolidate_decompiled_lacunas.py:142-148 | A section of more than 20 ends with a line that counts the rest; there are no other lines |
| CrossRefText.SectionLineExactly | consolidado/tools/gen_crossref.py:20-21 | A line opens a section iff it is "// ", its word and a number in parentheses with a colon |
| CrossRefText.ReferenceExactly | consolidado/tools/gen_crossref.py:22 | A line is a reference iff it is "//", white space, a name without any, " @ 0x" and hexadecimal digits or minus signs |
| CrossRefText.ClassifyExactly | consolidado/tools/gen_crossref.py:33-60 | What a line is to the reader: the opening of a section, an entry, the end of a section, or nothing |
| CrossRefText.OpenSection | consolidado/tools/gen_crossref.py:29-60 | A section is open after a line that opens it, up to the next one that opens or closes one |
| CrossRefText.ListsExactly | consolidado/tools/gen_crossref.py:24-61 | Each list has one entry for each reference line in a section of its own |
| CrossRefText.EntryAt | consolidado/tools/gen_crossref.py:24-61 | The entries stand in the order of the lines |
| CrossRef.AddressOf | consolidado/tools/gen_crossref.py:46-53 | The address read lies in [0, 2^64) and differs from the printed integer by a multiple of 2^64, for the 0x-... form too |
| CrossRef.RefLineRead | consolidado/tools/gen_crossref.py:22-58 | A printed reference line is read as its name and unsigned address iff the name is not empty and free of white space |
| CrossRef.OverflowIgnored | consolidado/tools/gen_crossref.py:41-43 | The overflow line adds no entry |
| CrossRef.SectionOpens | consolidado/tools/gen_crossref.py:20-40 | A printed section line of any count opens its own section |
| CrossRef.SectionKinds | consolidado/tools/gen_crossref.py:20-58 | A printed section whose first 20 names are not empty and free of white space opens, lists these references and nothing else |
| CrossRef.QuietAddsNothing | consolidado/tools/gen_crossref.py:31-60 | From no section on, lines add nothing iff no reference line among them stands behind an open section |
| CrossRef.HeaderRoundTrip | consolidado/tools/gen_crossref.py:24-61 | For such names, parsing what the extractor writes and any code behind it returns the first 20 callers and callees in order iff no reference line of that code stands behind an open section |
| CrossRef.WriteSection | consolidado/tools/consolidate_decompiled_lacunas.py:139-148 | The successive writes of a section are the section's lines |
| CrossRef.WriteHeader | consolidado/tools/consolidate_decompiled_lacunas.py:135-149 | The successive writes are the header |
| CrossRef.ParseCallersCallees | consolidado/tools/gen_crossref.py:24-61 | The line loop returns the two lists the specification gives, for any file |

## Left out

- Transmit half of `drivers_mts/mts.c`: submission and reclaim disagree on the meaning of OWN, so buffer conservation is
  not decided by the code.
- PHY calibration, MDIO, sysfs triggers, probe and remove of the driver: register scripts for undocumented hardware. The
  ring pointer write and the debug messages of the receive path, and callers of `mts_rx_clean` beside the poll, are left out.
- Control words: OWN, WRAP and length are fields of a record, not bits of one word. What the hardware does with an empty
  descriptor (fills it, follows WRAP, leaves any WRAP bit behind) is an assumption about the device. It acts between
  loop iterations, which loses nothing because it never touches a filled descriptor. The fills before each look at the
  head and the outcomes of the allocations are arguments of the methods.
- StormGuard.InterruptHandler.Interrupt: time is not cut to the width of jiffies, and the parameters do not change during
  a run.
- mbedtls: RSA arithmetic, key schedules, hashing, HMAC, CMAC and the tweak arithmetic of XTS. A library call on a key
  that was set up does not fail.
- SectorDevice.EncdecDevice.Process: sector numbers do not wrap at 2^64, and any positive sector size is allowed where
  the code demands a power of two and shifts by its logarithm.
- Overlapping buffers other than identical ones, and null pointer arguments.
- Kernel.ReadKernelKey: the table of offsets per firmware is a parameter, and so is the image base.
- Memory that changes while it is scanned, and wrap-around of addresses.
- Notifications, report and key files, hexadecimal dumps and the dm-setup text of the dumper; `eap_scanner.c`, a copy of it.
- ConfigFile.Parser.ParseConfigFile: a file that cannot be opened, a null callback and the previous-name buffer, which is
  written but never read, are not modelled. Characters are compared as the C locale does.
- CrossRef.ParseCallersCallees: white space is the six characters of C's isspace and digits are the ASCII ones, where the
  regular expressions take more; a missing file is not modelled.
- The call-graph walks take the lists of callers and callees as functions of a node and a node as its entry offset; a
  failing query is an empty list. Creating functions and decompiling are left out.
- `dict.c`, `keys.c`, the telnet scripts, the database scripts, the decompiler output and the save mounter: plumbing without a
  property that spans operations.
