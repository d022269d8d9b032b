# Verification of the Spark wrapper and the OpenSSL applications

A Dafny 4.11 model of the parts of this repository that compute something of their own: the FFI
wrapper around the Spark library (`src/flutter_libsparkmobile.cpp`) and the vendored OpenSSL
applications `rehash`, `ca`, `ocsp`, `passwd`, the shared `apps.c`, and the line prefixer
`bf_prefix.c`. `dafny verify dfyconfig.toml` checks everything.

Routines that work step by step are methods on arrays, classes and loops, as in C; each is proved
against a specification function or a property, and lemmas say what the specification means.

| file | what it models |
|---|---|
| `RehashTable.dfy`, `RehashCalls.dfy`, `RehashNumbers.dfy`, `RehashLinks.dfy`, `RehashResult.dfy`, `RehashDir.dfy`, `RehashPass.dfy` | `rehash`: the hash table, what its calls record, the link numbers, the pass over a bucket, what it does to the links, the whole run, and the pass told step by step |
| `SparkHeap.dfy`, `SparkCoin.dfy`, `SparkRecipients.dfy`, `SparkSpend.dfy` | the C heap, and the nested results built on it while any allocation may fail |
| `FieldPrime.dfy` | the two checks against the secp256k1 field prime |
| `CaPolicy.dfy`, `CaSerial.dfy`, `CaDatabase.dfy`, `CaOutcome.dfy`, `Revocation.dfy`, `RevocationText.dfy` | the subject policy, the serial fields, the certificate database and the outcome of each step on it, and the revocation text of `ca` |
| `Rotate.dfy` | replacing the database and serial files by renames, with rollback |
| `NextProtos.dfy`, `ParseName.dfy`, `UrlDecode.dfy` | three parsers that write through moving positions |
| `PasswdFeed.dfy`, `PasswdEncode.dfy`, `PasswdCrypt.dfy`, `PasswdSteps.dfy`, `PasswdText.dfy` | `md5crypt` and `shacrypt` over arbitrary digest functions, what they digest at each step, and their text at each position |
| `PrefixStream.dfy`, `PrefixCourse.dfy`, `PrefixWanted.dfy`, `PrefixFilter.dfy` | the output filter that prefixes lines: what comes out, the writes it makes to the BIO below, what is wanted of a run, and the routine |
| `SpawnLoop.dfy` | the child slots of the OCSP responder |
| `Common.dfy` | options, bytes, hexadecimal digits and numbers |

What the outside world decides is a parameter or an arbitrary choice of the model: whether an
allocation, a rename, a link or a write succeeds, what the Spark library returns or throws, what the
object table, the date parser and the clock say, when signals and child exits arrive, and the digest
functions.

## Where the code does less than it seems to promise

Each of these is proved as an exact condition, with an input that shows the failure.

- `rehash`, bound: over every run a bucket stays within 256 needed files exactly when no call promotes
  a link's entry of a full bucket (`RehashTable.RunKeepsBound`). A run of 258 calls, a link and 257
  files, reaches 257 (`RehashTable.CrowdExceedsBound`), and `do_dir` then clears 33 bytes of a mask that
  has 32.
- `rehash`, mask: the pass over a bucket stays within the mask exactly when the numbers that the mask
  shows as used and the entries that wait for one are together at most 256 (`RehashLinks.PlaceLinks`,
  `RehashNumbers.EnoughExactly`). Otherwise some entry meets a mask without a clear bit, and the search
  goes on behind its end (`RehashNumbers.MaskRunsOut`). The first 257 calls of the same run get there
  without breaking the bound, whatever the mask shows at first (`RehashDir.CrowdLeavesMask`).
- `rehash`, numbers: the needed files own the numbers below their count exactly when the old numbers
  are good (`RehashNumbers.GapFreeExactly`); with a link of a file that needs none they do not, although
  no number is missing (`RehashNumbers.OwnedByAnother`). A lookup that counts up from 0 reaches all of
  them exactly when their kept numbers differ, kept and new numbers together are at most 256, and no
  bit that an earlier bucket left in the mask is in the way of the first so many numbers
  (`RehashNumbers.LookupExactly`, with the input `RehashNumbers.StrayBitMakesGap`).
- `rehash`, removal: a stale link may be removed after its number was given to a new link, which goes
  with it; after a pass without errors the needed files are all linked exactly when this does not
  happen (`RehashResult.AllLinkedExactly`, with the input `RehashResult.StaleRemovesNew`).
- `rotate_index` and `rotate_serial`: for every pattern of refused renames, the files are put back
  exactly under the condition of `Rotate.IndexOutcome` (`Rotate.IndexStepsView` with
  `Rotate.IndexAfterMeaning`); without a live file an old backup comes back as the live one
  (`Rotate.OldBackupComesBack`). The new index file is lost exactly when `Rotate.NewFileLost` holds
  (`Rotate.RefusedUndoLosesNewFile`); the previous files and the new attribute file never are. With one
  suffix for both, the call succeeds and the live file stays what it was (`Rotate.OneSuffix`).
- `bf_prefix.c`: what the next BIO does not take of a prefix is never written again. Which writes are
  made, what is taken of each and what comes out follows from the operations and from what that BIO does
  at each write. A run that does not fail puts out what is wanted exactly when each of its writes of a
  prefix is taken whole (`PrefixCourse.OutputExactly`, with the run `PrefixFilter.ShortWrites`), so in
  every run over a BIO that takes every prefix in force whole; over one that never fails every run
  succeeds (`PrefixCourse.RunWanted`). Without a prefix the line state is that of the bytes taken exactly
  when `PrefixFilter.RequestFits` holds (`PrefixFilter.PrefixBio.PrefixWrite`, with the run
  `PrefixFilter.RequestDecides`).
- `ca`, loading: a run from a database that loads ends in one that loads exactly when every step brings
  in dates that can be read (`CaDatabase.RunKeepsChecks`). Inputs: an unreadable expiry date, an unreadable
  clock, and a loaded row with an empty type field (`CaDatabase.UnreadableExpiry`,
  `CaDatabase.UnreadableClock`, `CaDatabase.EmptyTypeFieldInput`).
- `ca`, serial numbers: the index compares texts. Over every run from rows with different serial texts
  the serial numbers stay different exactly when every field of the first rows is plain, that is, has no
  lower-case digit and no zero byte behind a minus sign (`CaDatabase.RunKeepsNumbers`,
  `CaSerial.PlainExactly`). After a row `0a`, serial number 10 is certified once more
  (`CaDatabase.LowerCaseRepeats`).
- `shacrypt`: an empty password or salt yields no hash, because the zero-length block is refused
  (`PasswdCrypt.ShaCrypt`), although SHA-crypt defines a hash for them.
- `cCreateSparkSpendTransaction`: counts go through `int`. Each count in a returned transaction is the
  true one exactly below 2^31; coins or scripts whose `int` is negative are refused, and 2^32 + 1 coins
  are cut to one (`SparkSpend.CountsExactly`, `SparkSpend.ManyCoins`). The library is not part of this
  model; one that selects from the coins it is given, at most an `int` of them, does not get there.
- `cCreateSparkMintRecipients`: here nothing is refused. A returned list shows every recipient exactly
  below 2^31; of 2^31 recipients it shows none and its length is negative
  (`SparkRecipients.CountExactly`, `SparkRecipients.ManyRecipients`).

## Model

| member | source | states |
|---|---|---|
| RehashDir.Rehash | src/deps/openssl-cmake/apps/rehash.c:328-454 | from the calls to the links: for every run of calls, every mask at the start and every pattern of refused calls, the result, all links and the error count are those of the pass over the table that the calls make; after a good run the pass stays within the mask, no link that a call reports under a number below the count of its bucket is lost, whatever is refused, and without an error in every bucket the links 0 to n-1 lead to needed files and every needed file is linked |
| RehashDir.PlaceAll | src/deps/openssl-cmake/apps/rehash.c:384-448 | the pass over every chain and bucket with one mask gives exactly the specified links, error count and final mask, each bucket working with the bits that the buckets before it left; it leaves the mask if and only if some bucket does; otherwise the table is empty at the end |
| RehashDir.RunReady | src/deps/openssl-cmake/apps/rehash.c:124-187 | what the pass needs of a bucket follows from the run of calls: exact count, bound, different numbers, kept links that lead to their files |
| RehashDir.DoneMeans | src/deps/openssl-cmake/apps/rehash.c:384-448 | a clean pass over such a bucket leaves its links 0 to n-1 to its needed files |
| RehashDir.GoodRunLinked | src/deps/openssl-cmake/apps/rehash.c:384-448 | if no call promotes an entry of a full bucket, no idle link is in the way and link names tell the truth, the pass stays within the mask, whatever that shows at first, and without an error all needed files are linked under the numbers 0 to n-1 |
| RehashDir.OwnChain | src/deps/openssl-cmake/apps/rehash.c:384-448 | the links of a type and hash change in the turn of their own chain only |
| RehashDir.OwnTurn | src/deps/openssl-cmake/apps/rehash.c:384-448 | and there in the turn of their own bucket only, with the mask that the buckets before it left |
| RehashDir.TableDone | src/deps/openssl-cmake/apps/rehash.c:384-448 | so the pass over the whole table does to each part of the directory what the pass over its bucket does |
| RehashDir.CrowdLeavesMask | src/deps/openssl-cmake/apps/rehash.c:388-405 | a run that keeps the bound of 256, for which the pass leaves the mask, whatever that shows at first |
| RehashDir.ReportedLinkStays | src/deps/openssl-cmake/apps/rehash.c:124-401 | after a good run, a link that a call reports under a number below the count is not lost: the file is reached, with that number or a smaller one, by a link that was there, also when calls of the pass are refused |
| RehashDir.KeptLinkStays | src/deps/openssl-cmake/apps/rehash.c:395-401 | in every bucket that the pass has done the link of an entry whose number is below the count is the one that was there |
| RehashPass.TablePasses | src/deps/openssl-cmake/apps/rehash.c:384-448 | the pass takes the buckets chain by chain from the head, each with the links, the mask and the errors that the one before it left |
| RehashPass.ChainOrder | src/deps/openssl-cmake/apps/rehash.c:130-144 | in every chain the buckets of the calls of that slot, (type + hash) modulo 2^32 modulo 257, the one whose first call came last at the head |
| RehashPass.BucketExactly | src/deps/openssl-cmake/apps/rehash.c:387-444 | one bucket entry by entry: the mask is the kept numbers and what earlier buckets left in bytes beyond those cleared; each waiting entry gets the least number not shown and not yet taken; what happens to its link and to the error count; and the mask at the end |
| RehashPass.StepExactly | src/deps/openssl-cmake/apps/rehash.c:393-441 | one entry, for every combination of refused calls: which link leads where, which is gone, which stays, and the errors |
| RehashPass.NumbersLeastFree | src/deps/openssl-cmake/apps/rehash.c:402-426 | each new number is the least that no kept link, left bit or earlier new link has |
| RehashPass.MaskExactly | src/deps/openssl-cmake/apps/rehash.c:387-391 | which bits are set when the numbers are given out |
| RehashPass.FitsExactly | src/deps/openssl-cmake/apps/rehash.c:388-405 | a bucket stays within the mask if and only if it has at most 256 needed files, and bits in use and waiting entries are together at most 256 |
| RehashPass.CleanExactly | src/deps/openssl-cmake/apps/rehash.c:393-444 | the pass counts no error if and only if none of its calls is refused |
| RehashNumbers.LookupExactly | src/deps/openssl-cmake/apps/rehash.c:388-426 | a lookup that counts up from 0 reaches every needed file if and only if their kept numbers differ, kept and new numbers are at most 256, and the mask shows nothing else among the first so many numbers |
| RehashNumbers.EnoughExactly | src/deps/openssl-cmake/apps/rehash.c:388-405 | the mask offers enough numbers if and only if the used ones and the waiting entries are together at most 256 |
| RehashNumbers.MaskRunsOut | src/deps/openssl-cmake/apps/rehash.c:404-405 | if it does not, some entry waits for a number while every bit of the mask is set |
| RehashNumbers.CrowdFillsMask | src/deps/openssl-cmake/apps/rehash.c:388-405 | a run within the bound of 256 whose bucket asks for one number more than the mask has, whatever earlier buckets left |
| RehashNumbers.GapFreeExactly | src/deps/openssl-cmake/apps/rehash.c:384-448 | the needed entries are mapped one to one onto the numbers 0..n-1 if and only if needed kept numbers differ and no unneeded entry alone holds a number below n |
| RehashNumbers.OwnedByAnother | src/deps/openssl-cmake/apps/rehash.c:395-426 | an input where another file owns number 0: not one to one, yet no number is missing |
| RehashNumbers.StrayBitMakesGap | src/deps/openssl-cmake/apps/rehash.c:388-405 | an input where a bit left by an earlier bucket makes a gap |
| RehashNumbers.SupplyMeetsDemand | src/deps/openssl-cmake/apps/rehash.c:388-426 | pigeonhole: with good old numbers as many numbers below n are free as entries wait for one |
| RehashNumbers.DifferentNumbers | src/deps/openssl-cmake/apps/rehash.c:393-426 | no two needed entries share a number |
| RehashNumbers.PlacedBelow | src/deps/openssl-cmake/apps/rehash.c:402-426 | with good old numbers, new numbers are below n |
| RehashNumbers.FreeBelowComplete | src/deps/openssl-cmake/apps/rehash.c:404-405 | no free number is skipped |
| RehashLinks.PlaceLinks | src/deps/openssl-cmake/apps/rehash.c:387-444 | for every bucket and mask: leaves the mask if and only if the bucket has more than 256 needed files or the mask offers too few numbers; otherwise makes exactly the specified links, counts the refused calls, and the mask at the end shows the numbers used and given |
| RehashLinks.PassAll | src/deps/openssl-cmake/apps/rehash.c:393-444 | the loop over all entries ends within the mask if and only if the mask offers a number to each entry that waits |
| RehashLinks.PassOne | src/deps/openssl-cmake/apps/rehash.c:393-444 | one entry advances the mask, the number cursor, the links and the errors by exactly its share, or finds no clear bit left exactly when its rank exceeds the free numbers |
| RehashLinks.NextFree | src/deps/openssl-cmake/apps/rehash.c:404-405 | the search stops at the next free number in order, or finds that no bit of the mask is clear |
| RehashLinks.TakeNumber | src/deps/openssl-cmake/apps/rehash.c:404-426 | the number taken is the next free one and the mask shows it as used; none exactly when all are taken |
| RehashLinks.MarkKept | src/deps/openssl-cmake/apps/rehash.c:388-391 | the mask then shows exactly the kept numbers and what was left in the bytes that are not cleared |
| RehashLinks.BitSet | src/deps/openssl-cmake/apps/rehash.c:110-118 | setting a bit makes it read as set and changes no other, so the byte array is a set of numbers |
| RehashLinks.ReplaceLink | src/deps/openssl-cmake/apps/rehash.c:413-425 | the links and errors for every combination of refused calls |
| RehashResult.AllLinkedExactly | src/deps/openssl-cmake/apps/rehash.c:393-444 | after a pass without errors every needed file is linked if and only if no later stale entry had the number of a new link |
| RehashResult.LinkSurvives | src/deps/openssl-cmake/apps/rehash.c:393-444 | the same for one new link, up to any entry of the pass |
| RehashResult.GoodIdsRemoveNothing | src/deps/openssl-cmake/apps/rehash.c:427-441 | with good old numbers, removing stale links takes no kept or new link away |
| RehashResult.StaleRemovesNew | src/deps/openssl-cmake/apps/rehash.c:393-441 | an input where the pass removes the link it has just made |
| RehashResult.KeptStays | src/deps/openssl-cmake/apps/rehash.c:395-401 | kept links stay as they were, whatever is refused |
| RehashResult.OthersStay | src/deps/openssl-cmake/apps/rehash.c:393-444 | so do links that no entry is about |
| RehashTable.RunKeepsBound | src/deps/openssl-cmake/apps/rehash.c:124-187 | over every run there are never more than 256 needed files if and only if no call promotes a link's entry of a full bucket |
| RehashTable.AddKeepsBound | src/deps/openssl-cmake/apps/rehash.c:161-185 | the same for one call |
| RehashTable.CrowdExceedsBound | src/deps/openssl-cmake/apps/rehash.c:161-185 | a run of 258 calls with file names that the program itself passes on, which reaches 257, more than the mask has room for |
| RehashTable.CrowdExists | src/deps/openssl-cmake/apps/rehash.c:193-247 | there is such a run, and the program can make each of its calls |
| RehashTable.CountExact | src/deps/openssl-cmake/apps/rehash.c:181-185 | while the bound is kept the 16-bit counter is the number of needed files |
| RehashTable.AddKeepsBucket | src/deps/openssl-cmake/apps/rehash.c:124-187 | a call keeps: distinct filenames, different digests of needed entries, the count of needed entries |
| RehashTable.RunKeepsBucket | src/deps/openssl-cmake/apps/rehash.c:124-187 | that invariant after every run of calls |
| RehashTable.RunKeepsIds | src/deps/openssl-cmake/apps/rehash.c:179-180 | after every run an entry's old number is the least one recorded for its file, or 65535; which calls are recorded is told by `RehashCalls.OutcomeExactly` and `RehashCalls.CallRecorded` |
| RehashTable.LeastRecordedMeaning | src/deps/openssl-cmake/apps/rehash.c:170-180 | that number is a lower bound of the recorded ones, and one of them |
| RehashCalls.OutcomeExactly | src/deps/openssl-cmake/apps/rehash.c:146-168 | a call is skipped exactly when an entry has its digest, refused exactly when its file is unknown and 256 files need links, and recorded in every other case |
| RehashCalls.AddExactly | src/deps/openssl-cmake/apps/rehash.c:146-187 | a call that is not recorded changes nothing; a recorded one changes the number, the need and the digest of the entry of its file as told there, or appends one, and leaves the others |
| RehashCalls.CallRecorded | src/deps/openssl-cmake/apps/rehash.c:146-187 | over every run: a call whose digest, if any, is new, and whose file is known or finds room, leaves at the end an entry of its file with at most its number, and a needed one if it needs a link |
| RehashCalls.EntriesComeFromCalls | src/deps/openssl-cmake/apps/rehash.c:146-187 | over every run nothing stands in a bucket that a call about it did not say: name, number and digest |
| RehashCalls.OverflowsCounted | src/deps/openssl-cmake/apps/rehash.c:161-166 | one error for each call of an unknown file and digest that meets 256 needed files, and for no other |
| RehashTable.HashTable.AddEntry | src/deps/openssl-cmake/apps/rehash.c:124-187 | on the chained table one call changes the chain of its bucket as specified and no other; an error is an overflow; `RehashCalls.OutcomeExactly` and `RehashCalls.AddExactly` tell what is specified |
| RehashTable.HashTable.AddAll | src/deps/openssl-cmake/apps/rehash.c:124-187 | a whole run leaves the table as specified chain by chain, and counts the overflows |
| RehashTable.TableBuckets | src/deps/openssl-cmake/apps/rehash.c:124-187 | after every run each bucket of the table stands alone in the right chain and holds the run of its calls |
| RehashTable.ChainAddMeans | src/deps/openssl-cmake/apps/rehash.c:132-187 | one call changes its own bucket and no other of its chain |
| RehashTable.HashTable.Search | src/deps/openssl-cmake/apps/rehash.c:146-159 | finds a duplicate digest if there is one, and else the entry of the file |
| RehashTable.HashTable.OpenBucket | src/deps/openssl-cmake/apps/rehash.c:132-144 | finds the bucket of a type and hash, or opens it at the head of its chain |
| SparkSpend.CreateSpend | src/flutter_libsparkmobile.cpp:627-677 | null leaves the heap as it was and records the reason; otherwise the new blocks are exactly those reachable from the result, which holds the transaction, or the exception text byte by byte and then only if the library threw or memory ran out; a count whose `int` is negative is refused |
| SparkSpend.CountsExactly | src/flutter_libsparkmobile.cpp:632-658 | each count in a returned transaction is the true one if and only if it is below 2^31 |
| SparkSpend.ManyCoins | src/flutter_libsparkmobile.cpp:632-633 | inputs: 2^31 coins are never returned, 2^32 + 1 coins are cut to one |
| SparkSpend.BuildSpend | src/flutter_libsparkmobile.cpp:627-660 | wherever an allocation fails, everything is released again; without a failure coins, contexts, scripts and data equal their sources element by element |
| SparkSpend.FreeSpendResult | src/flutter_libsparkmobile.cpp:145-163 | releases exactly the blocks of a tree, finished or not, each once, and reads no released block |
| SparkSpend.AllRepresented | src/flutter_libsparkmobile.cpp:630-660 | once every block is in place, the tree represents the transaction, pointer by pointer |
| SparkSpend.Attached | src/flutter_libsparkmobile.cpp:630-660 | storing a new block's address keeps the tree: every pointer leads to its own block, no block hangs twice |
| SparkSpend.Rescaled | src/flutter_libsparkmobile.cpp:630-660 | changing lengths and numbers keeps the tree and its contents |
| SparkSpend.AddStream | src/flutter_libsparkmobile.cpp:640-647 | a stream and its bytes, or the tree so far with the failure noted |
| SparkSpend.AddCoins | src/flutter_libsparkmobile.cpp:632-648 | the coin array and all coins in order; a length that turned negative fails |
| SparkSpend.AddScripts | src/flutter_libsparkmobile.cpp:650-655 | the script array and all scripts in order |
| SparkSpend.ReleasedNext | src/flutter_libsparkmobile.cpp:147-162 | the block released next is still live, and only it goes |
| SparkSpend.BuildError | src/flutter_libsparkmobile.cpp:661-673 | the error result holds the text byte by byte: as many bytes as characters, each the code of its character modulo 256; or nothing stays allocated |
| SparkRecipients.CreateRecipients | src/flutter_libsparkmobile.cpp:480-496 | null leaves the heap as it was and records the reason; otherwise the new blocks are exactly the list's, and its entries equal the recipients as far as its `int` length goes |
| SparkRecipients.CountExactly | src/flutter_libsparkmobile.cpp:482-493 | a returned list has the true length and shows every recipient if and only if there are fewer than 2^31 |
| SparkRecipients.ManyRecipients | src/flutter_libsparkmobile.cpp:482-493 | inputs: the length for 2^31 recipients is -2^31 and no key is filled in; 2^32 + 1 recipients are cut to one |
| SparkRecipients.BuildList | src/flutter_libsparkmobile.cpp:482-493 | the same for the building part, at whichever allocation it fails |
| SparkRecipients.FreeRecipients | src/flutter_libsparkmobile.cpp:136-143 | releases exactly the blocks of a list, finished or not, each once |
| SparkRecipients.FillEntries | src/flutter_libsparkmobile.cpp:486-492 | fills the entries in order, or stops with a list that can be released |
| SparkRecipients.PlaceKey | src/flutter_libsparkmobile.cpp:490-491 | a copied key takes its own place, and the earlier entries stay right |
| SparkCoin.IdAndRecoverCoin | src/flutter_libsparkmobile.cpp:396-443 | a coin that is not ours gives null and clears the error, a failure gives null and its reason, neither leaves a block; otherwise all six blocks and all scalars are the recovered ones |
| SparkCoin.BuildCoin | src/flutter_libsparkmobile.cpp:414-440 | wherever an allocation fails, everything is released again |
| SparkCoin.FreeCoinData | src/flutter_libsparkmobile.cpp:125-134 | releases exactly the structure and its non-null blocks, each once |
| SparkCoin.PlaceText | src/flutter_libsparkmobile.cpp:421-438 | storing one copied text keeps all other pointers and texts |
| SparkCoin.TextsReadBack | src/flutter_libsparkmobile.cpp:421-438 | a C reader sees the address, tag hash, nonce and memo exactly when they have no NUL, and by its length the whole memo |
| SparkCoin.FieldsHold | src/flutter_libsparkmobile.cpp:414-440 | which field of the structure leads to which text or bytes, with or without a NUL behind them |
| SparkCoin.ErrorTexts | src/flutter_libsparkmobile.cpp:396-443 | the text of the last error after each failure, written out |
| SparkHeap.Heap.Allocate | src/flutter_libsparkmobile.cpp:48-53 | a new block at an unused address, or null and no change |
| SparkHeap.Heap.Free | src/flutter_libsparkmobile.cpp:125-163 | only null or a live block may be released, and exactly it goes |
| SparkHeap.CopiedStringReadsBack | src/flutter_libsparkmobile.cpp:62-68 | a copied string reads back up to its NUL as the value, if and only if the value has none |
| SparkHeap.Heap.SetLastError | src/flutter_libsparkmobile.cpp:24-28 | at most 511 characters of the message, or the default text for an empty one |
| SparkHeap.FailWithException | src/flutter_libsparkmobile.cpp:37-46 | records the text of the exception, or the default text for any other |
| SparkHeap.ReasonText | src/flutter_libsparkmobile.cpp:24-46 | the recorded text: the message of the exception or of the failed allocation, cut behind 511 characters, or "Unknown native exception" |
| SparkHeap.ReleaseRestores | src/flutter_libsparkmobile.cpp:125-163 | releasing what a call added restores the heap from before it |
| FieldPrime.IsHexCoordinate | src/flutter_libsparkmobile.cpp:82-95 | accepts a text exactly when it is non-empty hexadecimal with a value below the secp256k1 prime, for any length and letter case |
| FieldPrime.CanonicalTagIsNumeric | src/flutter_libsparkmobile.cpp:77-80 | the byte comparison is the big-endian integer comparison with the prime |
| FieldPrime.ChecksAgree | src/flutter_libsparkmobile.cpp:70-95 | both checks agree on every 32-byte x and its hexadecimal form with any number of leading zeros |
| FieldPrime.LexIsNumeric | src/flutter_libsparkmobile.cpp:79-93 | lexicographic order of equally long digit strings is numeric order, in any radix |
| FieldPrime.PrimeBytes | src/flutter_libsparkmobile.cpp:70-75 | the byte table is the prime of section 2.4.1 of SEC 2, which is 2^256 - 2^32 - 977 |
| FieldPrime.PrimeText | src/flutter_libsparkmobile.cpp:88-89 | so is the text |
| FieldPrime.OtherLengths | src/flutter_libsparkmobile.cpp:87 | without leading zeros the length alone decides, unless it is 64 |
| FieldPrime.StrippedValue | src/flutter_libsparkmobile.cpp:85 | stripping zeros keeps the value |
| FieldPrime.FoldedLess | src/flutter_libsparkmobile.cpp:90-94 | the folded comparison of 64 digits decides by value |
| FieldPrime.SpelledValue | src/flutter_libsparkmobile.cpp:82-95 | the hexadecimal form has the value of the bytes |
| FieldPrime.TextNumber | src/flutter_libsparkmobile.cpp:82-95 | the number of a text is that of its digit values |
| CaDatabase.RunKeepsChecks | src/deps/openssl-cmake/apps/ca.c:631-667 | from a database that loads, a run ends in one that loads if and only if every step brings in readable dates at the rows it meets |
| CaDatabase.StepKeepsChecks | src/deps/openssl-cmake/apps/ca.c:2053-2157 | one step keeps the load checks if and only if the dates it brings in can be read |
| CaDatabase.StepBreaks | src/deps/openssl-cmake/apps/ca.c:2053-2157 | a step with an unreadable date leaves a row that no later step repairs |
| CaDatabase.RunKeepsBroken | src/deps/openssl-cmake/apps/ca.c:2053-2274 | over every run such a row stays, and the database does not load |
| CaDatabase.RunKeepsSerials | src/deps/openssl-cmake/apps/apps.c:1338-1356 | serials stay unique up to leading zeros over every run |
| CaDatabase.RunKeepsNumbers | src/deps/openssl-cmake/apps/apps.c:1338-1356 | over every run the serial numbers stay different if and only if the fields of the first rows are plain |
| CaDatabase.LowerCaseRepeats | src/deps/openssl-cmake/apps/apps.c:1338-1356 | an input: a loaded row `0a` and a later certificate with serial 10, in a database that loads |
| CaDatabase.StepKeepsDates | src/deps/openssl-cmake/apps/ca.c:2053-2274 | one step keeps the rule that exactly the revoked rows have a revocation date |
| CaDatabase.RunEvolves | src/deps/openssl-cmake/apps/ca.c:2053-2274 | over every run no row is lost, valid rows only expire or are revoked, expired rows are only revoked, revoked rows stay |
| CaDatabase.RevocationDateExactly | src/deps/openssl-cmake/apps/ca.c:631-643 | over every run from a database that loads, whether its dates can be read or not, a revocation date is present exactly on revoked rows, if the clock never shows an empty text |
| CaDatabase.EmptyTypeField | src/deps/openssl-cmake/apps/ca.c:2142-2151 | revoking a loaded row with an empty type field destroys its expiry date, and the database no longer loads |
| CaDatabase.EmptyTypeFieldInput | src/deps/openssl-cmake/apps/ca.c:2142-2151 | such a database and step |
| CaDatabase.UnreadableExpiry | src/deps/openssl-cmake/apps/ca.c:1860-1883 | an input with an unreadable expiry date |
| CaDatabase.UnreadableClock | src/deps/openssl-cmake/apps/ca.c:2142-2151 | an input with an unreadable clock |
| CaSerial.SerialFieldKey | src/deps/openssl-cmake/apps/apps.c:1348-1356 | two serial numbers clash in the index exactly when they are equal |
| CaSerial.PlainExactly | src/deps/openssl-cmake/apps/apps.c:1348-1356 | the index takes a loaded field for the one written for its number if and only if the field is plain |
| CaSerial.PlainFieldsKey | src/deps/openssl-cmake/apps/apps.c:1348-1356 | plain fields clash exactly when their numbers are equal |
| CaSerial.SameKeySameNumber | src/deps/openssl-cmake/apps/apps.c:1348-1356 | fields that clash always have the same number |
| CaSerial.SerialFieldOk | src/deps/openssl-cmake/apps/ca.c:650-667 | every serial field that the program writes passes the load check, negative and zero serials included |
| CaDatabase.RevokedRowOk | src/deps/openssl-cmake/apps/ca.c:2142-2152 | when a revoked row still passes the checks |
| CaDatabase.CaDb.CheckLoad | src/deps/openssl-cmake/apps/ca.c:631-676 | accepts exactly the databases whose rows are all in order and whose serials differ |
| CaDatabase.CaDb.CheckRow | src/deps/openssl-cmake/apps/ca.c:632-667 | the checks of one row |
| CaDatabase.CaDb.BuildSerialIndex | src/deps/openssl-cmake/crypto/txt_db/txt_db.c:148-186 | the index is built exactly when no two serials clash |
| CaDatabase.CaDb.InsertRow | src/deps/openssl-cmake/crypto/txt_db/txt_db.c:235-278 | a row is appended, or refused without a change |
| CaDatabase.CaDb.Certify | src/deps/openssl-cmake/apps/ca.c:1731-1883 | adds the row exactly when the operator agrees and no serial or subject clashes |
| CaDatabase.CaDb.DoRevoke | src/deps/openssl-cmake/apps/ca.c:2053-2157 | the whole outcome of a revocation, as `CaOutcome.RevokePresent` and `CaOutcome.RevokeAbsent` tell it; a certificate not in the database is inserted first, and the routine calls itself at most once |
| CaDatabase.CaDb.DoUpdateDb | src/deps/openssl-cmake/apps/ca.c:2226-2274 | marks exactly the due rows before the first unreadable date, and counts them |
| CaOutcome.RevokePresent | src/deps/openssl-cmake/apps/ca.c:2086-2157 | for a serial that is in the database: succeeds if and only if the name is that of the certificate, the row is not revoked, a kind of revocation is asked for, its argument is accepted and the clock is read; then that row alone becomes revoked with the text made, otherwise nothing changes |
| CaOutcome.RevokeAbsent | src/deps/openssl-cmake/apps/ca.c:2086-2128 | for a serial that is not: the row is added unless its name is taken, and revoked if and only if a kind is asked for, its argument accepted and the clock read |
| CaOutcome.CertifyExactly | src/deps/openssl-cmake/apps/ca.c:1860-1883 | a new row at the end with the fields of the certificate, unless the name is taken or the serial present; else no change |
| CaOutcome.ExpireExactly | src/deps/openssl-cmake/apps/ca.c:2226-2274 | row by row: a valid row that has expired and stands before the first unreadable date of a valid row becomes E; every other row stays |
| CaOutcome.CountExactly | src/deps/openssl-cmake/apps/ca.c:2226-2274 | the count is the number of these rows |
| CaOutcome.ReadableExactly | src/deps/openssl-cmake/apps/ca.c:2245-2259 | the update reaches every row if and only if each valid row has a date that can be read |
| CaOutcome.RowShape | src/deps/openssl-cmake/apps/ca.c:631-667 | the tests of the load check, one by one |
| CaOutcome.SerialShape | src/deps/openssl-cmake/apps/ca.c:651-667 | a serial field is an even number of hexadecimal digits, at least two, behind a minus sign or not |
| CaOutcome.KeyShape | src/deps/openssl-cmake/apps/apps.c:1338-1356 | the index compares the fields behind their leading zeros |
| CaPolicy.ApplyPolicy | src/deps/openssl-cmake/apps/ca.c:1489-1580 | succeeds if and only if every item is satisfied; the subject is then, item by item, all request attributes of that type in request order |
| CaPolicy.ApplyItem | src/deps/openssl-cmake/apps/ca.c:1490-1579 | one item, with its two nested loops and the jump back; both end |
| CaPolicy.MatchInCa | src/deps/openssl-cmake/apps/ca.c:1537-1563 | a value is let through exactly when the CA name has it under that type |
| CaPolicy.OfTypeMembers | src/deps/openssl-cmake/apps/ca.c:1499-1513 | the selected entries are those of the type: none missed, none foreign |
| CaPolicy.OfTypePositions | src/deps/openssl-cmake/apps/ca.c:1499-1513 | they stand in request order |
| CaPolicy.SubjectFromRequest | src/deps/openssl-cmake/apps/ca.c:1489-1580 | the subject has nothing that the request and the policy do not both name |
| CaPolicy.SubjectSegment | src/deps/openssl-cmake/apps/ca.c:1489-1580 | the subject is a segment for each item in policy order, without a gap: all request attributes of the type of the item |
| CaPolicy.SatisfiedExactly | src/deps/openssl-cmake/apps/ca.c:1515-1566 | what optional, supplied and match ask of the request, and that no other rule is satisfied |
| CaPolicy.IndexByObj | src/deps/openssl-cmake/crypto/x509/x509name.c:67-85 | the next entry of a type after a position, skipping none |
| CaPolicy.DeleteAll | src/deps/openssl-cmake/apps/ca.c:1704-1729 | deleting by position while stepping back removes every e-mail entry and keeps the others |
| CaPolicy.WithoutPositions | src/deps/openssl-cmake/apps/ca.c:1704-1729 | what stays are the entries of other types at their increasing positions, none missing |
| Revocation.UnpackMake | src/deps/openssl-cmake/apps/ca.c:2301-2383 | unpacking what was made recovers time, reason code and extra argument, commas included, for every kind of revocation |
| Revocation.MakeRevocationStr | src/deps/openssl-cmake/apps/ca.c:2301-2383 | the text exactly fills the buffer of the computed size |
| Revocation.UnpackRevinfo | src/deps/openssl-cmake/apps/ca.c:2488-2597 | cutting a copy at its commas reads the same fields as the specification |
| Revocation.CutMeaning | src/deps/openssl-cmake/apps/ca.c:2505-2518 | the C strings seen after overwriting two commas are the fields of the text |
| Revocation.ReasonFound | src/deps/openssl-cmake/apps/ca.c:2276-2292 | no two reasons are spelled alike |
| Revocation.SplitWritten | src/deps/openssl-cmake/apps/ca.c:2364-2380 | the written text splits into what was written |
| RevocationText.WrittenTexts | src/deps/openssl-cmake/apps/ca.c:2301-2383 | the text of each kind with an argument written out: the time, then nothing, or holdInstruction, keyTime or CAkeyTime and the argument; none without an accepted argument or without a time |
| RevocationText.WrittenReason | src/deps/openssl-cmake/apps/ca.c:2314-2325 | a reason is written in the spelling of the table, whichever letters it was given in; other names are refused |
| RevocationText.AnyField | src/deps/openssl-cmake/apps/ca.c:2505-2518 | every text is a time, perhaps a reason, perhaps an argument, cut at the first two commas |
| RevocationText.ReadReason | src/deps/openssl-cmake/apps/ca.c:2520-2597 | the code of each reason, with removeFromCRL as 8, and -1 for none |
| RevocationText.ReadExtra | src/deps/openssl-cmake/apps/ca.c:2545-2579 | the three pseudo reasons give the codes 6, 1 and 2 and their argument, if the library accepts it, and fail otherwise |
| RevocationText.ReadNothing | src/deps/openssl-cmake/apps/ca.c:2520-2597 | an unreadable time or a name that is none of the eleven fails |
| Rotate.RotateIndex | src/deps/openssl-cmake/apps/apps.c:1689-1753 | for every choice of suffixes and every pattern of missing files and refused renames: the result, the directory after each rename, and the directory at the end; on success `dbfile` and `dbfile.attr` hold what was under `.new`, and what they held is under `.old`, when the names do not clash |
| Rotate.IndexStepsView | src/deps/openssl-cmake/apps/apps.c:1689-1753 | for six different names the files at the end are the specified ones, and at every step the previous contents, and if undoing works the new ones, still have a name |
| Rotate.IndexAfterMeaning | src/deps/openssl-cmake/apps/apps.c:1689-1753 | succeeds exactly when nothing fails, and then both files are installed and the previous ones backed up; otherwise they are back, and the new index is lost, exactly under the stated conditions |
| Rotate.RotateSerial | src/deps/openssl-cmake/apps/apps.c:1485-1526 | the same for one file, for every two different suffixes |
| Rotate.SerialStepsView | src/deps/openssl-cmake/apps/apps.c:1485-1526 | for three different names the files at the end are the specified ones, and at every step no contents are lost |
| Rotate.OneSuffix | src/deps/openssl-cmake/apps/apps.c:1485-1526 | with one suffix for both a live file covers the new one, and the call succeeds |
| Rotate.SerialAfterMeaning | src/deps/openssl-cmake/apps/apps.c:1485-1526 | installed, or back exactly under the stated condition; nothing is ever lost |
| Rotate.IndexNamesApart | src/deps/openssl-cmake/apps/apps.c:1692-1713 | the six names differ, except for five odd choices of suffixes |
| Rotate.ViewAfter | src/deps/openssl-cmake/apps/apps.c:1689-1753 | a rename moves one slot and touches no other name |
| Rotate.OldBackupComesBack | src/deps/openssl-cmake/apps/apps.c:1716-1730 | a run after which an old backup is the live index |
| Rotate.OldSerialComesBack | src/deps/openssl-cmake/apps/apps.c:1485-1526 | the same for a serial file |
| Rotate.RefusedUndoLosesNewFile | src/deps/openssl-cmake/apps/apps.c:1742-1749 | a run after which the new index is under no name |
| Rotate.SerialInstalls | src/deps/openssl-cmake/apps/apps.c:1485-1526 | with the names written out: for different suffixes it succeeds if and only if the names fit, `file.new` is there and no rename is refused, and then `file` holds what `file.new` held and `file.old` what `file` held |
| Rotate.IndexInstalls | src/deps/openssl-cmake/apps/apps.c:1689-1753 | the same for the database file and its `.attr` file together, when none of the five clashes occurs |
| Rotate.OtherFilesStay | src/deps/openssl-cmake/apps/apps.c:1689-1753 | whatever happens, files under other names keep their contents |
| NextProtos.NextProtosParse | src/deps/openssl-cmake/apps/apps.c:1977-2023 | returns the length-prefixed non-empty fields in order with the exact length and all writes in bounds, and decoding the output gives the fields; null exactly for an empty or too long input, a field over 255 bytes, or no non-empty field |
| NextProtos.WireDecodes | src/deps/openssl-cmake/apps/apps.c:1977-2023 | for every accepted input the protocol name list of section 3.1 of RFC 7301, without its outer length, reads back as the non-empty fields |
| NextProtos.DecodeEncode | src/deps/openssl-cmake/apps/apps.c:1989-2014 | reading such a list gives the names it was written from |
| NextProtos.SplitMeaning | src/deps/openssl-cmake/apps/apps.c:1989-2014 | the fields are comma-free and join to the input |
| NextProtos.SplitJoin | src/deps/openssl-cmake/apps/apps.c:1989-2014 | and are the only such fields |
| NextProtos.Finish | src/deps/openssl-cmake/apps/apps.c:2016-2022 | the final test on the number of skipped bytes decides rejection |
| NextProtos.StepLength | src/deps/openssl-cmake/apps/apps.c:2005-2010 | the length byte goes into the gap left before its field, behind the cursor |
| NextProtos.WireAt | src/deps/openssl-cmake/apps/apps.c:1989-2022 | byte by byte: the stretches of the input between commas, in order, each as its length and its bytes and without a gap, and nothing for an empty one |
| NextProtos.RejectedExactly | src/deps/openssl-cmake/apps/apps.c:1984-2019 | null if and only if the input is empty or has 65535 bytes or more, has 256 bytes in a row without a comma, or has commas only |
| ParseName.ParsePrint | src/deps/openssl-cmake/apps/apps.c:1789-1877 | parsing a printed list of known, non-empty attributes gives one entry each, in order, with type, value and joining |
| ParseName.ParseListed | src/deps/openssl-cmake/apps/apps.c:1789-1877 | for every printed list, with attributes of unknown type or without a value among the others: refused if and only if one of the rest cannot be stored; otherwise one entry for each of the rest, in order, and none for those |
| ParseName.WrittenOut | src/deps/openssl-cmake/apps/apps.c:1811-1868 | a slash ends an attribute, a plus sign joins the next, a backslash quotes one character |
| ParseName.PlainPlus | src/deps/openssl-cmake/apps/apps.c:1831-1845 | where multiple values are not read, a plus sign is an ordinary character |
| ParseName.PrintAttributes | src/deps/openssl-cmake/apps/apps.c:1789-1877 | reading inverts printing |
| ParseName.AttributesRender | src/deps/openssl-cmake/apps/apps.c:1811-1868 | the same for every choice of which characters to escape |
| ParseName.AttributesFailExactly | src/deps/openssl-cmake/apps/apps.c:1811-1845 | a text is malformed exactly when, after some attributes, one has no equals sign or ends in a backslash |
| ParseName.ParseName | src/deps/openssl-cmake/apps/apps.c:1789-1877 | the routine computes the specified name, always advances and never writes past its copy of the input |
| ParseName.ReadItem | src/deps/openssl-cmake/apps/apps.c:1812-1849 | one attribute through the buffer |
| ParseName.CopyValue | src/deps/openssl-cmake/apps/apps.c:1831-1845 | a value with its escapes undone, within the buffer |
| UrlDecode.UrlDecode | src/deps/openssl-cmake/apps/ocsp.c:1329-1348 | in place: the decoded bytes, a NUL and their number, nothing behind them touched; -1 exactly when decoding fails |
| UrlDecode.DecodeRender | src/deps/openssl-cmake/apps/ocsp.c:1329-1348 | every percent-encoding (section 2.1 of RFC 3986) of every byte string decodes to it |
| UrlDecode.DecodeFailsExactly | src/deps/openssl-cmake/apps/ocsp.c:1334-1345 | fails exactly when a percent sign met on the way is not followed by two hexadecimal digits |
| UrlDecode.Scan | src/deps/openssl-cmake/apps/ocsp.c:1329-1348 | every text is tokens followed by nothing or a bad escape |
| UrlDecode.DecodeShrinks | src/deps/openssl-cmake/apps/ocsp.c:1329-1348 | the result is never longer, so writing never overtakes reading |
| UrlDecode.DecodeEncoded | src/deps/openssl-cmake/apps/ocsp.c:1329-1348 | every encoder that writes a byte as it is or as a percent sign and the digits of b / 16 and b % 16, in either case, is inverted |
| PasswdCrypt.ShaCrypt | src/deps/openssl-cmake/apps/passwd.c:493-772 | null exactly for a wrong magic, malformed rounds or an empty password or salt; otherwise the text of steps 1 to 22 of SHA-crypt and a NUL, within 124 bytes |
| PasswdCrypt.Md5Crypt | src/deps/openssl-cmake/apps/passwd.c:311-485 | null exactly for a magic over four characters; otherwise the text and a NUL, within 41 bytes |
| PasswdCrypt.HashRepeats | src/deps/openssl-cmake/apps/passwd.c:544-601 | the setting shown in a result, used as the salt, gives the same hash |
| PasswdCrypt.SettingReadsBack | src/deps/openssl-cmake/apps/passwd.c:544-601 | the rounds and salt written are the rounds and salt read |
| PasswdCrypt.StrtoulPrinted | src/deps/openssl-cmake/apps/passwd.c:547-549 | `strtoul` reads a printed number up to the dollar sign |
| PasswdCrypt.PrintedFits | src/deps/openssl-cmake/apps/passwd.c:588-601 | the rounds take at most nine digits |
| PasswdCrypt.EqualHashesEqualDigests | src/deps/openssl-cmake/apps/passwd.c:703-756 | equal hash texts under one setting come from equal digests |
| PasswdSteps.Md5Run | src/deps/openssl-cmake/apps/passwd.c:373-437 | what is digested, by position: password, `$magic$`, salt, alternate digest cyclically, a NUL or the first character for each bit of the length; and then a thousand rounds, each fed the last digest, the password and the salt where its number modulo 2, 3 and 7 puts them |
| PasswdSteps.ShaRun | src/deps/openssl-cmake/apps/passwd.c:603-693 | the same for SHA-crypt, with the whole alternate digest or password for each bit, P from as many copies of the password as it has bytes and S from 16 copies of the salt and one for each unit of the first byte |
| PasswdSteps.RoundIsFed | src/deps/openssl-cmake/apps/passwd.c:672-693 | the input of round i, by position |
| PasswdSteps.BitsAt | src/deps/openssl-cmake/apps/passwd.c:403-408 | bit i says whether the length over 2^i is odd, up to the highest one set |
| PasswdText.ShaTextWritten | src/deps/openssl-cmake/apps/passwd.c:583-601 | the text: `$`, the magic, `$`, for given rounds `rounds=`, their number without leading zeros and `$`, the salt, `$`, the encoded digest |
| PasswdText.Md5TextWritten | src/deps/openssl-cmake/apps/passwd.c:350-360 | for `md5crypt`: `$magic$`, salt and `$`, or salt and `$` without a magic |
| PasswdText.RoundsGiven | src/deps/openssl-cmake/apps/passwd.c:544-562 | behind `rounds=`: spaces, a sign, digits; ended by `$` they give between 1000 and 999999999 rounds, modulo 2^64 behind a minus sign, and at most 16 bytes of salt; ended otherwise nothing |
| PasswdText.RoundsAbsent | src/deps/openssl-cmake/apps/passwd.c:496-523 | without the word there are 5000 rounds |
| PasswdText.RoundsEmpty | src/deps/openssl-cmake/apps/passwd.c:544-562 | without digits the `$` must follow at once, and there are 1000 |
| PasswdText.StrtoulReads | src/deps/openssl-cmake/apps/passwd.c:547-549 | the number read and where reading stops |
| PasswdEncode.EncodingsDecode | src/deps/openssl-cmake/apps/passwd.c:703-756 | the 22, 43 or 86 characters decode to the whole digest |
| PasswdEncode.EncodingInjective | src/deps/openssl-cmake/apps/passwd.c:703-756 | different digests have different texts |
| PasswdEncode.EncodingLengths | src/deps/openssl-cmake/apps/passwd.c:703-756 | the three lengths |
| PasswdEncode.Sha256Arranges | src/deps/openssl-cmake/apps/passwd.c:718-730 | the table uses every byte of the digest exactly once |
| PasswdEncode.Sha512Arranges | src/deps/openssl-cmake/apps/passwd.c:731-753 | the table uses every byte of the digest exactly once |
| PasswdEncode.Md5Arranges | src/deps/openssl-cmake/apps/passwd.c:445-471 | the permutation and the groups use every byte exactly once |
| PasswdEncode.Md5Permutes | src/deps/openssl-cmake/apps/passwd.c:445-450 | the steps of 6 modulo 17 reach every byte, 5 and 11 last |
| PasswdEncode.Packed | src/deps/openssl-cmake/apps/passwd.c:462-467 | the shifts and masks are the four six-bit digits of 24 bits |
| PasswdText.Sha256Text | src/deps/openssl-cmake/apps/passwd.c:718-729 | the four characters of row k of the table, from the bytes k, k + 10 and k + 20 turned by two at each row |
| PasswdText.Sha512Text | src/deps/openssl-cmake/apps/passwd.c:731-752 | row k from the bytes k, k + 21 and k + 42, turned by one |
| PasswdText.Md5Text | src/deps/openssl-cmake/apps/passwd.c:445-468 | group k from the bytes k, k + 6 and k + 12, with byte 5 at the end of the fifth |
| PasswdText.LastBytes | src/deps/openssl-cmake/apps/passwd.c:470-471 | the characters of the bytes left over, for the three digests |
| PasswdText.CharShows | src/deps/openssl-cmake/apps/passwd.c:25-36 | the character for each six bits: `./`, the figures, the capitals, the small letters |
| PasswdEncode.WriteMd5 | src/deps/openssl-cmake/apps/passwd.c:445-473 | the loop writes the encoding behind what was written before |
| PasswdEncode.WriteRows | src/deps/openssl-cmake/apps/passwd.c:706-756 | the table lines write the encoding behind what was written before |
| PasswdEncode.B64From24Bit | src/deps/openssl-cmake/apps/passwd.c:706-715 | n six-bit characters, lowest first |
| PasswdFeed.FeedCyclic | src/deps/openssl-cmake/apps/passwd.c:396-401 | feeds exactly as many bytes as asked, cyclically |
| PasswdFeed.CyclicAt | src/deps/openssl-cmake/apps/passwd.c:649-670 | byte i of a sequence is byte i modulo the digest size |
| PasswdFeed.FillCyclic | src/deps/openssl-cmake/apps/passwd.c:649-670 | the P and S blocks hold the digest cyclically; a block of length 0 is refused |
| PasswdFeed.FeedBits | src/deps/openssl-cmake/apps/passwd.c:627-634 | feeds one item per bit of the length, low bit first |
| PasswdFeed.BitsMeaning | src/deps/openssl-cmake/apps/passwd.c:403-408 | the bits have the value of the length and no leading zero |
| PasswdFeed.BitsUnique | src/deps/openssl-cmake/apps/passwd.c:403-408 | and are the only such bits |
| PasswdFeed.Stretch | src/deps/openssl-cmake/apps/passwd.c:672-693 | the rounds, each digesting its input |
| PrefixFilter.PrefixBio.Run | src/deps/openssl-cmake/apps/bf_prefix.c:53-162 | over every run of writes and prefix changes, whatever the BIO below takes or refuses: success, the writes made, and output and line state are those that the operations and the answers of that BIO determine; if it takes every prefix in force whole, each line comes out once with the prefix in force before it, as `PrefixWanted.PrefixInForce` and `PrefixWanted.WritesAdd` tell it |
| PrefixCourse.OutputExactly | src/deps/openssl-cmake/apps/bf_prefix.c:81-137 | a run that does not fail puts out what is wanted if and only if the BIO below takes each of the writes of a prefix whole; which writes these are depends on the operations and its answers only |
| PrefixCourse.RunWanted | src/deps/openssl-cmake/apps/bf_prefix.c:81-137 | before the run: a BIO below that never fails lets it succeed, and one that takes every prefix in force whole makes its output the wanted one |
| PrefixCourse.LinesFit | src/deps/openssl-cmake/apps/bf_prefix.c:99-134 | a request that is taken whole has one write of the prefix for each line that it starts |
| PrefixCourse.LinesAnswered | src/deps/openssl-cmake/apps/bf_prefix.c:103-111 | none of these writes failed |
| PrefixFilter.PrefixBio.PrefixWrite | src/deps/openssl-cmake/apps/bf_prefix.c:81-137 | one call, taken whole or in part: result, writes made, output and line state follow from what the BIO below answers to each; without a prefix, exactly when the line state is that of the bytes taken |
| PrefixFilter.PrefixBio.WriteFully | src/deps/openssl-cmake/apps/bf_prefix.c:81-137 | resubmitting what was not taken completes the output, with the part of each prefix that the BIO below took |
| PrefixFilter.PrefixBio.PrefixLine | src/deps/openssl-cmake/apps/bf_prefix.c:99-134 | one line, wherever a write below fails: the write of its prefix, the writes of its bytes, and what comes out |
| PrefixStream.PartsSplit | src/deps/openssl-cmake/apps/bf_prefix.c:81-137 | cutting the stream cuts the parts and changes nothing else |
| PrefixFilter.ShortWrites | src/deps/openssl-cmake/apps/bf_prefix.c:103-111 | a run in which a BIO that takes one byte at a time cuts a prefix |
| PrefixFilter.RequestDecides | src/deps/openssl-cmake/apps/bf_prefix.c:89-95 | a run in which a prefix comes out in the middle of a line |
| PrefixStream.EmitSplit | src/deps/openssl-cmake/apps/bf_prefix.c:81-137 | cutting the stream changes nothing |
| PrefixStream.EmitLines | src/deps/openssl-cmake/apps/bf_prefix.c:99-134 | each line comes out once, the prefix before it |
| PrefixStream.EmitNothing | src/deps/openssl-cmake/apps/bf_prefix.c:89-95 | without a prefix the stream passes unchanged |
| PrefixStream.ResumeAfterFailure | src/deps/openssl-cmake/apps/bf_prefix.c:99-134 | going on after a failed write writes each prefix once, whatever was taken of it |
| PrefixCourse.TwoWritesAreOne | src/deps/openssl-cmake/apps/bf_prefix.c:81-137 | two writes are as good as one |
| PrefixWanted.StreamWritten | src/deps/openssl-cmake/apps/bf_prefix.c:81-162 | what counts as the stream is the concatenation of all bytes written |
| PrefixWanted.PrefixInForce | src/deps/openssl-cmake/apps/bf_prefix.c:141-154 | the prefix in force is the one set last, or empty |
| PrefixWanted.InForceIsOne | src/deps/openssl-cmake/apps/bf_prefix.c:141-154 | and there is only one such |
| PrefixWanted.WritesAdd | src/deps/openssl-cmake/apps/bf_prefix.c:81-137 | what writes add to the wanted output, whatever was set and written before: their bytes with the prefix in force before each line that starts in them |
| PrefixWanted.PrefixAddsNothing | src/deps/openssl-cmake/apps/bf_prefix.c:141-154 | setting a prefix puts nothing out |
| PrefixWanted.OnePrefix | src/deps/openssl-cmake/apps/bf_prefix.c:81-162 | one prefix and then writes: the output of all bytes with that prefix |
| PrefixWanted.StreamHasLines | src/deps/openssl-cmake/apps/bf_prefix.c:99-134 | every stream is made of lines, so `EmitLines` tells the output of each |
| PrefixWanted.TwoPrefixes | src/deps/openssl-cmake/apps/bf_prefix.c:81-162 | the output of a prefix, a line, another prefix and a line, written out |
| SpawnLoop.SpawnLoop | src/deps/openssl-cmake/apps/ocsp.c:910-1010 | in every run neither internal error is reached, there are never more than `multi` children, and a parent that ends signals exactly the live ones; every call is a fork if fewer children live and a wait if not; a refused fork and an interrupted wait let it go on; the first call that brings a signal, fails to wait or answers in a child is the last, and decides the outcome |
| SpawnLoop.AwaitRoom | src/deps/openssl-cmake/apps/ocsp.c:938-971 | the slots stay the live children, and there is room unless a signal came or a wait failed; only waits are made, each with all slots taken |
| SpawnLoop.Spawn | src/deps/openssl-cmake/apps/ocsp.c:973-1004 | one fork with a free slot; a child leaves, unless a signal came to it or it finds no random numbers |
| SpawnLoop.Reap | src/deps/openssl-cmake/apps/ocsp.c:939-952 | the exited child is found among the first `procs` slots |
| SpawnLoop.Enter | src/deps/openssl-cmake/apps/ocsp.c:992-1003 | a new child finds an empty slot |
| SpawnLoop.ClearSlot | src/deps/openssl-cmake/apps/ocsp.c:940-946 | clearing a slot keeps slots, count and children in step |
| SpawnLoop.FillSlot | src/deps/openssl-cmake/apps/ocsp.c:992-998 | so does filling one |
| SpawnLoop.Full | src/deps/openssl-cmake/apps/ocsp.c:938-999 | the count says when all slots are occupied |
| SpawnLoop.KillAll | src/deps/openssl-cmake/apps/ocsp.c:886-896 | signals the processes of the occupied slots, no other |

## Left out

- RehashLinks.PlaceLinks: where the source clears or searches beyond its mask, the result is none; what it does there is not defined, and nothing is said about the links.
- RehashDir.Rehash: that every needed file is linked is promised for a good run, in which no bucket meets one of the exceptions above and the link names tell the truth (`DirectoryMatches`): a name such as `hash.65536`, `hash.00` or one with upper-case digits is not the name that the pass makes from the hash and number collected for it, so the pass then works on a different link. Reading the directory and the files is not modelled.
- RehashTable.HashTable.AddEntry: file names and digests are values, not copies on the heap; printing of warnings is not modelled.
- Rotate.IndexStepsView: speaks of six different names; `IndexNamesApart` says for which suffixes they are, and the callers pass `new` and `old`. For the other suffixes `RotateIndex` states each rename, but no lemma says what they amount to.
- PasswdCrypt.Md5Crypt: a password of 2^31 bytes or more, whose length does not fit the `int` of the loop, is not modelled; neither are the EBCDIC variants, failing digest calls and allocations other than the empty block.
- PasswdCrypt.StrtoulPrinted: `unsigned long` has 64 bits.
- SpawnLoop.SpawnLoop: a signal shows at the end of the call in which it comes; pauses, the change of process group and log messages are not modelled.
- SparkSpend.CreateSpend: checking the arguments and converting the inputs before the library call are not modelled; what they throw counts as thrown by the library.
- CaDatabase.CaDb.InsertRow: the clash in the name index is a yes or no of the environment.
- CaDatabase.CaDb.Certify: the name index is a yes or no of the environment, as its refresh after rows change in place is not part of this model; signing and printing are left out.
- CaDatabase.CaDb.DoRevoke: allocation failures are left out.
- Spark and secp256k1 operations are arbitrary results or exceptions.
- X.509 names are sequences of type and value, dates are texts with a readable-or-not test.
- `chopup_args`, the option switches, key and certificate loading, sockets and printing are input and output.
- A BIO below that reports success for a write and takes nothing of it would keep the loop of `bf_prefix.c` going for ever; in the model it takes at least one byte or fails.
- The allocation failures of `next_protos_parse` and `parse_name`, and the warnings they print.
- The other builders of the wrapper (`serializeMintContext`, `validateAddress`, tag hashing) allocate one or two blocks each and would repeat the argument made for the spend result.
- Byte-order headers, comparison operators of `transaction.h`, thread data and the example applications.
