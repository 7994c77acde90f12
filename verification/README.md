# Proofs about the SHA-1 comparison, the DoW content store and the ICN consumer

Three programs of this repository for small networked devices are modelled here in Dafny 4.11.
`dafny verify dfyconfig.toml` checks the whole project.

**The five SHA-1 implementations of `sha1-test`** (Gladman, Reid, Oryx, Google and RFC 3174) are meant
to compute one function. `fips180.dfy` writes that function down once, from FIPS 180-4 sections 5.1.1 and
6.1.2. Each implementation is a class with the fields of its context, a ghost message and the buffer as an
array of bytes, and each is proved against the one specification: block compression (80-word or rolling
schedule, looped or unrolled, in the context's buffer or in the caller's data), buffering, counting and
padding. `agreement.dfy` concludes that all five agree on every message however each is fed, and that
Google's keyed interface is HMAC-SHA1. The limits of the counters are proved as exact conditions. That the
specification is SHA-1 rests on `sha1_laws.dfy`, which states its functions in other terms, and on
`known_answer.dfy`, which follows one of the test program's messages through all eighty rounds.

**The content store and the deputies of `ccnl_caching`.** A bounded store keeps a flag on the newest value
of each source and gives up entries in four tiers (`store.dfy`, its properties in `store_properties.dfy`,
runs in `store_runs.dfy`). Deputies take turns by the rank that beaconing gives them (`beaconing.dfy`,
`rotation.dfy`, `rotation_turns.dfy`) and hand their stores over chunk by chunk (`handover.dfy`,
`handover_result.dfy`, `handover_flags.dfy`). The time accounting of the radio is in `radio.dfy`, the
bisection for the sleep probability in `estimate.dfy`, the assignment of sources to nodes in `range.dfy`.

**The consumer of `l2_routing`** requests numbered chunks with flow control and retries (`flow.dfy`).

Methods follow the loops and branches of the C code; the functions that they are proved against carry the
lemmas about runs. Words are 32-bit vectors, bytes 8-bit vectors; counters are integers with their
wrap-around written out (`common.dfy`, `words.dfy`).

## Main results

- All five implementations return SHA-1 of the message, however it is cut: `Agreement.AllAgree`. Block
  compression: `GladmanSha1.Context.Compile`, `ReidSha1.Sha1Ctx.Transform`. Data overwritten while they are
  hashed: `ReidSha1.Sha1Ctx.Update`. Padding of words: `GladmanSha1.Context.PadAndCompile`. Limits:
  `ReidSha1.CountExact`, `GoogleSha1.LengthLimit`, `Rfc3174.Sha1Context.Input`. HMAC: `Agreement.HmacOf`,
  `Rfc2104.ShortKeyIsFilled`, `LongKeyIsHashed`. A known answer: `KnownAnswer.DigestOfTen`.
- The store: `ContentStoreRuns.AnyRunIsSound`, `Retention`, `InOrderRunLosesNothing`, `SourceLostIff`,
  `FlagsStayUniqueIff`, `ContentStoreProperties.VictimIsLeastOfFirstTier`, `HandoverResult.AnswerIff`.
- The handover: `Handover.Node.Takeover`, `SentIff`, `HandoverResult.HandOver`, `NothingStoredTwice`,
  `HandoverFlags.HandoverFlagsIff`.
- The rotation: `Beaconing.RanksAreAPermutation`, `Rotation.FollowsScheduleIff`, `ScheduleKeptIff`,
  `NoWholeCycle`, and what happens instead: `RotationTurns.TurnsTaken`, `OneDeputyIff`.
- Time accounting `Radio.TotalsAreReal`, the bisection `Estimate.EstimateP`, assignment
  `Range.SourcesPerNode` and `NodesPerSource`, and flow control `FlowControl.NeverDeadlocks`,
  `AllChunksArrive`, `BoundIsExact` and `WindowHolds`.

## What the code does not do

- The rotation of deputies does not last. The lateness test (`ccnl_caching/dow.c:244-251`) adds the sleep
  period to the time of the last takeover, which is one shift before the node went to sleep, and for the
  first deputy, which never took over, is 0. Three or more nodes never keep the schedule for a whole cycle,
  whatever their clocks show (`Rotation.NoWholeCycle`); two can, if a clock wraps round at the right second
  (`Rotation.WholeCycleOfTwoIff`, `PairKeepsCycle`), but no longer than that
  (`Rotation.NoGroupKeepsTheSchedule`). `Rotation.ScheduleKeptIff` and `KeptWithoutWrapIff` say up to which
  second the schedule holds, `DeadlineWraps` that from 180 nodes on the deadline overflows at once.
- There can be two deputies at once. The turns really taken repeat every n - 1 shifts, not n, and rank 0 cuts
  into one of these shifts when its clock shows (n - 1) * Y seconds (`RotationTurns.TurnsTaken`). If that
  second is the end of a shift, two nodes take over in it and both are deputies until the next takeover:
  `RotationTurns.OneDeputyIff` is the exact condition, three nodes with their clocks at 0 an example
  (`TwoDeputies`). With two nodes it cannot happen (`TwoNodesOneDeputy`), and a group is never without a
  deputy (`NeverWithoutDeputy`).
- The comment at `ccnl_caching/ccnl_helper.c:846-851` promises one value per name. It holds for arrival in
  order (`ContentStoreRuns.InOrderRunLosesNothing`). Out of order, the early `break` at lines 339-341 can
  leave two flags for one source, and a source can be lost although all sources would fit
  (`ContentStoreRuns.FlagsStayUniqueIff`, `SourceLostIff`, `OutOfOrderLosesASource`). A handover reverses
  the order of the store, so it leaves two flags for a source with three time stamps
  (`HandoverFlags.HandoverFlagsIff`).
- Time stamp 0 doubles as "none yet" in the search for the oldest entry
  (`ContentStoreProperties.OldestIsLeastIff`).
- A deputy that is registered for a prefix may skip entries of that prefix in a handover
  (`Handover.AllOfInterestSentIff`).
- Reid's length count is wrong from 2^31 bytes in one call on (`ReidSha1.CountExact`), Google's from 2^32
  bytes in all (`GoogleSha1.LengthLimit`).

## Model

| member | source | states |
|---|---|---|
| Fips180.PaddingBlocks | sha1-test/rfc_sha1.c:347-383 | FIPS 180-4 section 5.1.1 split where every implementation splits it: the last chaining value comes from one block, or from two when more than 55 bytes of a block are used |
| Fips180.ZerosReach56 | sha1-test/google_sha1.c:108-110 | feeding zero bytes first reaches offset 56 after exactly the number of zeros that the standard prescribes |
| Fips180.FeedBlock | sha1-test/sha1.c:177-183 | bytes that fill the buffer turn the chaining value of the whole blocks so far into that of one block more, and leave nothing over |
| Fips180.FeedPartial | sha1-test/sha1.c:185 | bytes that do not fill the buffer change no block and are appended to the rest |
| Fips180.WindowStep | sha1-test/sha1.c:121-123 | section 6.1.3 against 6.1.2: sixteen words overwritten in place hold W[t-15..t], and the word stored at t mod 16 is W[t] |
| Sha1Laws.ScheduleWord | sha1-test/google_sha1.c:56-57 | every word from the sixteenth on is the exclusive or of the four words 3, 8, 14 and 16 places before it, doubled with the carried bit brought round |
| Sha1Laws.ChBits | sha1-test/sha1.c:69 | bit by bit Ch takes the second word where the first has a one, else the third |
| Sha1Laws.ParityBits | sha1-test/sha1.c:70 | parity and its three words cancel |
| Sha1Laws.MajBits | sha1-test/sha1.c:71 | where two words agree Maj agrees with them, whatever their order |
| Sha1Laws.RotatedFive | sha1-test/pd_sha1.c:88 | a rotation by 5 as a product and the bits that come round |
| Sha1Laws.RotatedThirty | sha1-test/pd_sha1.c:88 | a rotation by 30 as a product and the bits that come round |
| Sha1Laws.LoadIsSum | sha1-test/rfc_sha1.c:247-250 | a word is the number whose four digits to base 256 are its bytes |
| Sha1Laws.LowByteCounts | sha1-test/google_sha1.c:113-120 | the conversion to a byte counts up from 0 and wraps round after 255 |
| KnownAnswer.DigestOfTen | sha1-test/main.c:20-21 | the digest of "1234567890" is the twenty bytes that the test program expects; constants, rounds, schedule, padding and byte order of the specification all enter into it |
| Rolling.NextInPlace | sha1-test/google_sha1.c:55-58 | the in-place step on memory returns W[i], keeps the window and touches no byte outside the block |
| Rolling.FirstWord | sha1-test/sha1.c:113 | the first sixteen words are read as they are |
| Forms.ChooseXorIsCh | sha1-test/sha1.c:69 | this form of Ch is the standard's |
| Forms.ChooseOrIsCh | sha1-test/oryx_sha1.c:47 | this form of Ch is the standard's |
| Forms.MajorityXorIsMaj | sha1-test/sha1.c:71 | this form of Maj is the standard's |
| Forms.MajorityMixedIsMaj | sha1-test/pd_sha1.c:106 | this form of Maj is the standard's |
| Forms.MajorityOrIsMaj | sha1-test/oryx_sha1.c:49 | this form of Maj is the standard's |
| Forms.RightIsLeft | sha1-test/sha1.c:89-91 | the right rotations by 27 and 2 are the left rotations by 5 and 30 |
| Forms.PairwiseSwaps | sha1-test/sha1.c:50 | both ways of building the byte swap from rotations and masks reverse the four bytes |
| Words.SwappedView | sha1-test/oryx_sha1.c:189-191 | byte-swapping the sixteen words of little-endian memory gives the big-endian words of the block |
| Words.StoreWord | sha1-test/sha1.c:224-225 | a 32-bit store into the byte/word union changes one word of the view and the four bytes under it, nothing else |
| Words.WordMemory | sha1-test/oryx_sha1.c:153-154 | a number stored as a byte-swapped word lies in memory as its four big-endian digits |
| Words.DigitsInjective | sha1-test/google_sha1.c:113-120 | the length field determines the length |
| Words.Halves | sha1-test/rfc_sha1.c:374-381 | the eight length bytes are those of the high word and then of the low word |
| DigestOutput.WriteDigest | sha1-test/rfc_sha1.c:129-133 | the byte loop writes the five words as the standard's twenty bytes and nothing after them |
| GladmanSha1.OneCycle | sha1-test/sha1.c:88-91 | one renamed cycle is one round of the standard |
| GladmanSha1.Context.FiveCycle | sha1-test/sha1.c:93-98 | five cycles with the registers renamed round the ring are five rounds, with the names back in place |
| GladmanSha1.Context.Compile | sha1-test/sha1.c:100-154 | the unrolled, renamed rounds over the overwritten schedule compute the same chaining value as 80 rounds over the expanded one, for every state and block |
| GladmanSha1.Context.HashData | sha1-test/sha1.c:169-186 | the context has absorbed the message so far followed by the data, in however many blocks |
| GladmanSha1.AddToCount | sha1-test/sha1.c:174-175 | the two-word count with its carry is the number of bytes modulo 2^64 |
| GladmanSha1.Context.SwapWords | sha1-test/sha1.c:53-54 | exactly the first n words are byte-swapped |
| GladmanSha1.MarkedBytes | sha1-test/sha1.c:202-203 | mask and OR keep j bytes of a word and put 0x80 and zeros after them, whatever was there |
| GladmanSha1.Context.MarkEnd | sha1-test/sha1.c:196-203 | after the partial swap and the mark the buffer holds the rest of the message and 0x80, whatever stale bytes followed it |
| GladmanSha1.Context.CloseBlock | sha1-test/sha1.c:208-211 | with fewer than nine free bytes the block is closed with zeros and compressed |
| GladmanSha1.Context.LastBlock | sha1-test/sha1.c:212-226 | the last block is the rest (if it was not closed), zeros and the 64-bit length |
| GladmanSha1.LengthWords | sha1-test/sha1.c:224-225 | shifts and OR put the eight bytes of the bit length into words 14 and 15 |
| GladmanSha1.Context.PadAndCompile | sha1-test/sha1.c:190-226 | word-level finalisation gives the chaining value of the message padded byte by byte, for every residue of the length |
| GladmanSha1.Context.End | sha1-test/sha1.c:190-232 | the twenty bytes are SHA-1 of everything absorbed |
| ReidSha1.Blk0 | sha1-test/pd_sha1.c:96-97 | swaps word i in place, returns W[i] and leaves memory outside the block alone |
| ReidSha1.Blk | sha1-test/pd_sha1.c:99-100 | expands word i in place and returns W[i] |
| ReidSha1.R0 | sha1-test/pd_sha1.c:103 | for rounds 0 to 15: one round of the standard on the renamed registers |
| ReidSha1.R1 | sha1-test/pd_sha1.c:104 | for rounds 16 to 19: one round of the standard on the renamed registers |
| ReidSha1.R2 | sha1-test/pd_sha1.c:105 | for rounds 20 to 39: one round of the standard on the renamed registers |
| ReidSha1.R3 | sha1-test/pd_sha1.c:106 | for rounds 40 to 59: one round of the standard on the renamed registers |
| ReidSha1.R4 | sha1-test/pd_sha1.c:107 | for rounds 60 to 79: one round of the standard on the renamed registers |
| ReidSha1.Sha1Ctx.Transform | sha1-test/pd_sha1.c:124-179 | compresses the block as it was before; of the caller's data only these 64 bytes change, and they end as W[64..79] |
| ReidSha1.CountExact | sha1-test/pd_sha1.c:205-206 | the split bit count with its signed shift is right if and only if the call has fewer than 2^31 bytes |
| ReidSha1.Sha1Ctx.Update | sha1-test/pd_sha1.c:196-221 | absorbs the data as they were before the call although whole blocks of them are overwritten; which bytes change and what they become |
| ReidSha1.Sha1Ctx.HashBlocks | sha1-test/pd_sha1.c:210-212 | each whole block is read before it is overwritten; the tail is untouched |
| ReidSha1.ShortKept | sha1-test/pd_sha1.c:207-215 | data that leave no whole block after filling the buffer are not changed at all |
| ReidSha1.SpentBytes | sha1-test/pd_sha1.c:207-221 | the bytes that complete the buffer and those kept in it stay as the caller wrote them |
| ReidSha1.SpentWords | sha1-test/pd_sha1.c:210-212 | each whole block of the data ends as words 64 to 79 of its own schedule |
| ReidSha1.CountDigits | sha1-test/pd_sha1.c:230-233 | the index and shift arithmetic saves the eight bytes of the bit length |
| ReidSha1.Sha1Ctx.PadToLength | sha1-test/pd_sha1.c:234-237 | byte-wise padding stops after the mark and exactly the prescribed zeros |
| ReidSha1.Sha1Ctx.Final | sha1-test/pd_sha1.c:225-242 | the twenty bytes are SHA-1 of everything absorbed |
| OryxSha1.LoopRound | sha1-test/oryx_sha1.c:203-218 | one pass of the loop is one round of the standard |
| OryxSha1.Sha1Context.Update | sha1-test/oryx_sha1.c:101-129 | the context has absorbed the message so far followed by the data |
| OryxSha1.Sha1Context.ProcessBlock | sha1-test/oryx_sha1.c:174-227 | compresses the bytes of the union read as big-endian words |
| OryxSha1.TableStart | sha1-test/oryx_sha1.c:148-150 | the prefix of the padding table that is fed is the standard's mark and zeros |
| OryxSha1.TotalBits | sha1-test/oryx_sha1.c:145-154 | the wrapped 64-bit length times eight gives the eight length bytes |
| OryxSha1.Sha1Context.PadAndProcess | sha1-test/oryx_sha1.c:145-157 | the chaining value of the padded message |
| OryxSha1.Sha1Context.Final | sha1-test/oryx_sha1.c:138-166 | the twenty bytes are SHA-1 of everything absorbed |
| GoogleSha1.HashRound | sha1-test/google_sha1.c:59-73 | one pass of the loop is one round of the standard |
| GoogleSha1.LanesAreBigEndian | sha1-test/google_sha1.c:83-88 | bytes stored at offset XOR 3 make little-endian memory read as big-endian words |
| GoogleSha1.Sha1Info.HashBlock | sha1-test/google_sha1.c:45-80 | compresses the sixteen words of the buffer |
| GoogleSha1.Sha1Info.AddUncounted | sha1-test/google_sha1.c:82-94 | one byte more is absorbed; a full buffer is compressed |
| GoogleSha1.Sha1Info.Write | sha1-test/google_sha1.c:96-103 | the message so far followed by the data is absorbed and counted |
| GoogleSha1.LengthBytes | sha1-test/google_sha1.c:113-120 | the eight shifted bytes are the bit length of a 32-bit byte count |
| GoogleSha1.LengthLimit | sha1-test/google_sha1.c:105-121 | the padding that the 32-bit count gives is the standard's if and only if the message is shorter than 2^32 bytes |
| GoogleSha1.Sha1Info.Pad | sha1-test/google_sha1.c:105-121 | the mark, the zeros and the length of the 32-bit count are fed |
| GoogleSha1.Sha1Info.Result | sha1-test/google_sha1.c:123-139 | SHA-1 of a message shorter than 2^32 bytes; for longer ones, the digest over the wrapped length |
| GoogleSha1.Sha1Info.InitHmac | sha1-test/google_sha1.c:144-161 | for keys shorter than, equal to and longer than a block: the key buffer holds the block of RFC 2104, and the inner hash has absorbed it XOR 0x36 |
| GoogleSha1.Sha1Info.ResultHmac | sha1-test/google_sha1.c:163-172 | HMAC-SHA1 of section 2 of RFC 2104, the key block having survived the re-initialisation |
| Rfc2104.BlockIsItsOwnKey | sha1-test/google_sha1.c:152-155 | a key of exactly 64 bytes is used as it is |
| Rfc2104.ShortKeyIsFilled | sha1-test/google_sha1.c:146-155 | a key of up to 64 bytes gives the same MAC as that key filled up with zeros |
| Rfc2104.LongKeyIsHashed | sha1-test/google_sha1.c:147-151 | a key of more than 64 bytes gives the same MAC as its digest |
| Rfc2104.HmacOfBlock | sha1-test/google_sha1.c:156-172 | for a key of one block: the digest of the key XOR 0x5c followed by the digest of the key XOR 0x36 and the text, byte by byte |
| Rfc3174.LoopBody | sha1-test/rfc_sha1.c:266-272 | one pass of the loop is one round of the standard |
| Rfc3174.Sha1Context.ExpandSchedule | sha1-test/rfc_sha1.c:239-256 | the array of 80 words is the schedule of section 6.1.2 |
| Rfc3174.Sha1Context.ProcessMessageBlock | sha1-test/rfc_sha1.c:229-313 | compresses the block and empties it |
| Rfc3174.Sha1Context.CountByte | sha1-test/rfc_sha1.c:187-196 | the two length words hold the bit count, and Corrupted is set exactly when it reaches 2^64 |
| Rfc3174.Sha1Context.Input | sha1-test/rfc_sha1.c:158-207 | every branch: no data, a finished context (state error), a corrupted one, data that fit and data that overflow the 64-bit count |
| Rfc3174.Sha1Context.PadMessage | sha1-test/rfc_sha1.c:339-384 | the chaining value of the padded message |
| Rfc3174.Sha1Context.Result | sha1-test/rfc_sha1.c:101-136 | SHA-1 of the message, the same again for every repeated call; a corrupted context returns its code and writes nothing |
| Agreement.AllAgree | sha1-test/main.c:54-137 | all five sequences of begin, updates and end return the same twenty bytes for the same message, each cut into its own chunks |
| Agreement.Gladman | sha1-test/main.c:79-82 | any chunks: SHA-1 of their concatenation |
| Agreement.Reid | sha1-test/main.c:69-72 | any chunks of fewer than 2^31 bytes: SHA-1 of their concatenation |
| Agreement.Oryx | sha1-test/main.c:59-62 | any chunks: SHA-1 of their concatenation |
| Agreement.Google | sha1-test/main.c:64-67 | any chunks of fewer than 2^32 bytes in all: SHA-1 of their concatenation |
| Agreement.Rfc | sha1-test/main.c:74-77 | any chunks of fewer than 2^64 bits in all: SHA-1 of their concatenation |
| Agreement.HmacOf | sha1-test/google_sha1.c:144-172 | the keyed interface over any chunks is HMAC-SHA1 of key and concatenation |
| ContentStore.Relay.HandleContent | ccnl_caching/ccnl_helper.c:306-388 | the store and the answer after a chunk are those of the specification Handle |
| ContentStore.Relay.MoveFlags | ccnl_caching/ccnl_helper.c:316-344 | every entry of the source up to the first newer one loses its flags; the loop stops there |
| ContentStore.Relay.OldestRepresentative | ccnl_caching/ccnl_helper.c:853-944 | the one pass with four pairs of variables removes the entry that the specification Victim names, or none |
| ContentStoreProperties.VictimIsLeastOfFirstTier | ccnl_caching/ccnl_helper.c:859-943 | with positive time stamps the removed entry is the oldest of the first non-empty tier of same source, unflagged, unregistered, all; none is removed when the chunk is older than the whole first or last tier |
| ContentStoreProperties.OldestIsLeastIff | ccnl_caching/ccnl_helper.c:879-900 | with time stamps of 0 too: the search finds an oldest entry if and only if none in the tier is 0 or its last one is |
| ContentStoreProperties.ZeroStampIsPassedOver | ccnl_caching/ccnl_helper.c:890-893 | a store where the sentinel 0 makes the strategy remove a newer entry |
| ContentStoreProperties.FlagsMove | ccnl_caching/ccnl_helper.c:316-371 | after the pass every source but that of the newest chunk still has a newest entry flagged |
| ContentStoreProperties.FlagsAfterPass | ccnl_caching/ccnl_helper.c:316-371 | each entry of the source that the pass reaches loses its pin and is the newest exactly when it is newer than the chunk; all other entries stay as they are |
| ContentStoreProperties.RegisteredKindIsSpared | ccnl_caching/ccnl_helper.c:894-899 | among newest values of other sources a registered node gives up an oldest one whose kind does not start with its character, if there is one |
| ContentStoreProperties.PinnedIsSpared | ccnl_caching/ccnl_helper.c:877 | an entry with the flag STATIC is never given up |
| HandoverResult.AnswerIff | ccnl_caching/ccnl_helper.c:374-387 | for every store without the chunk the answer is true if and only if the chunk is in it afterwards; then it is at the head, flagged if none of its source is newer |
| ContentStoreProperties.EvictionKeepsFlags | ccnl_caching/ccnl_helper.c:902-942 | no eviction takes away the last newest flag of a source that stays in the store |
| ContentStoreProperties.HandleKeepsSound | ccnl_caching/ccnl_helper.c:306-388 | for any arrival, in order or not: the store stays within capacity and some newest entry of every cached source is flagged |
| ContentStoreRuns.AnyRunIsSound | ccnl_caching/ccnl_helper.c:306-388 | the same over every run, whatever the order of arrival |
| ContentStoreRuns.Retention | ccnl_caching/ccnl_helper.c:902-942 | a step never removes a source or lowers its newest time stamp, except when the store is full, all entries are flagged and the chunk's source is absent; then at most one entry is given up |
| ContentStoreRuns.FlagsStayUniqueIff | ccnl_caching/ccnl_helper.c:320-344 | one flag per source is kept by a step if and only if no newer entry is found or the first one found is the flagged one: the early break can leave two |
| ContentStoreRuns.InOrderRunLosesNothing | ccnl_caching/ccnl_helper.c:846-851 | "always cache at least one value per name": if each source's chunks arrive in order of time and the sources number at most the capacity, every run accepts every chunk, stays within capacity and holds exactly one flagged entry per source, its latest chunk |
| ContentStoreRuns.SourceLostIff | ccnl_caching/ccnl_helper.c:902-942 | after any arrivals: a step loses a source if and only if the store is full, all flagged, the source new, an unregistered or no newer entry exists, and the first oldest entry of the unregistered kinds (of all, if there are none) is the only one of its source |
| ContentStoreRuns.SourceLostIfAdmitted | ccnl_caching/ccnl_helper.c:902-942 | with one flag per source the last condition can be dropped |
| ContentStoreProperties.ScanFindsFirst | ccnl_caching/ccnl_helper.c:879-900 | among equally old entries the first one is found |
| ContentStoreRuns.OutOfOrderLosesASource | ccnl_caching/ccnl_helper.c:339-341 | five chunks out of order, from three sources for capacity three, after which one of the sources is gone |
| Handover.Node.Producer | ccnl_caching/ccnl_helper.c:617-765 | the answer to a request for all data, the change to HANDOVER and the message to go inactive; silence when stopped, inactive or without a chunk number |
| Handover.Node.Consumer | ccnl_caching/ccnl_helper.c:413-431 | a chunk reaches the store of a deputy only; HANDOVER freezes it |
| Handover.Node.Hear | ccnl_caching/ccnl_helper.c:540-547 | the chunks that a deputy hears reach its store one after the other, those it has already excepted |
| HandoverResult.HeldIsLeftAlone | ccnl_caching/ccnl_helper.c:231-254 | a chunk that the store has leaves it as it is |
| HandoverResult.NothingStoredTwice | ccnl_caching/ccnl_helper.c:540-547 | no takeover and nothing that a deputy hears ever puts a chunk into a store twice |
| Handover.CountedIff | ccnl_caching/ccnl_helper.c:730 | the walk counts the entries whose name starts with the registered components, all of them when there are none |
| Handover.AnswerNumbers | ccnl_caching/ccnl_helper.c:729-765 | a chunk carries the number that was asked for, an acknowledgement the number of counted entries, twenty at most |
| Handover.NegativeNumbers | ccnl_caching/ccnl_helper.c:724-735 | a number below 0 asks for the first chunk |
| Handover.SubsequencePlaces | ccnl_caching/dow.c:468-483 | what a takeover receives in spite of losses stands at increasing places in what is offered |
| Handover.Node.Request | ccnl_caching/ccnl_helper.c:1078-1107 | at most INT_RETRIES interests; if one of them and its answer get through, the chunk of that number from the frozen store, and after an acknowledgement the old deputy is asleep |
| Handover.Node.Takeover | ccnl_caching/dow.c:468-483 | whatever is lost: at most (CACHE_SIZE + 2) * INT_RETRIES interests, and nothing received but what the old deputy offers, in order and each entry at most once; if never INT_RETRIES tries in a row are lost, all of that, registered or not; if nothing is lost, one interest for each chunk and one for the acknowledgement, the old store unchanged |
| Handover.UnregisteredReply | ccnl_caching/ccnl_helper.c:726-765 | request number pos is answered with entry pos, and with the acknowledgement after the last |
| Handover.UnregisteredOffer | ccnl_caching/ccnl_helper.c:726-765 | an unregistered deputy offers its whole store in order, up to CACHE_SIZE entries |
| Handover.SentIsOffered | ccnl_caching/ccnl_helper.c:729-765 | what a deputy offers contains every entry that is ever sent, at the place of its count |
| Handover.SentIff | ccnl_caching/ccnl_helper.c:729-735 | for any registration: an entry is ever sent if and only if it is the first or follows a counted one, and fewer than CACHE_SIZE are counted before it |
| Handover.SentOnce | ccnl_caching/ccnl_helper.c:729-735 | no entry answers two requests |
| Handover.AllOfInterestSentIff | ccnl_caching/ccnl_helper.c:729-735 | a deputy hands over all entries of its prefix if and only if there are at most CACHE_SIZE of them and they come first in its store |
| Handover.RegisteredSkips | ccnl_caching/ccnl_helper.c:729-735 | a store of three in which a registered deputy never sends an entry of its own prefix |
| HandoverResult.TakeoverKeepsSound | ccnl_caching/ccnl_helper.c:536-547 | the new deputy's store stays within capacity and keeps a newest entry of every source flagged |
| HandoverResult.TakeoverKeepsNewest | ccnl_caching/ccnl_helper.c:536-547 | between stores of any fill: unless a chunk of a new source meets a store full of flagged entries, the new deputy ends with a value at least as new for everything it held or received |
| HandoverResult.SourcesLost | ccnl_caching/ccnl_helper.c:536-547 | a takeover costs at most one source, of all held or received, for each chunk of a new source that meets a store full of flagged entries |
| HandoverResult.HandOver | ccnl_caching/dow.c:468-483 | the same for a takeover from end to end: everything the new deputy held and every entry the old one ever sends, and no chunk twice |
| HandoverResult.TakeoverLosesNothing | ccnl_caching/ccnl_helper.c:536-547 | if both stores fit the capacity together, the new deputy holds every chunk of both |
| HandoverFlags.HandoverFlagsIff | ccnl_caching/dow.c:468-483 | an old deputy whose chunks arrived in order, an empty new store with room: one flag per source afterwards if and only if no source has three time stamps among the chunks handed over |
| HandoverFlags.TwoStampsNeverDesperate | ccnl_caching/ccnl_helper.c:536-547 | a condition on the two stores alone under which no chunk of a takeover meets a store full of flagged entries and each source keeps one flag: at most two time stamps for each source, and room for an entry of every source |
| HandoverFlags.TwoStampsTakeover | ccnl_caching/ccnl_helper.c:536-547 | so under it a new deputy whose chunks arrived in order loses nothing newest that it held or received |
| HandoverFlags.AnyRunIsEarlierOlder | ccnl_caching/ccnl_helper.c:320-371 | whatever arrives, every entry before a flagged one of its source is older |
| HandoverFlags.DescendingFlagsIff | ccnl_caching/ccnl_helper.c:320-344 | the same for any chunks that arrive newest first for each source |
| HandoverFlags.RunDescends | ccnl_caching/ccnl_helper.c:306-388 | a run in order leaves the entries of each source newest first |
| HandoverFlags.HandoverDoublesFlags | ccnl_caching/dow.c:468-483 | three chunks that arrived in order leave two flags in the new store |
| Beaconing.Node.HandleBeacon | ccnl_caching/beaconing.c:22-48 | a beacon of a new neighbour is counted, below or above the own id; everything but a packet of six bytes with the key 0x1701 and a new identifier leaves the node as it was |
| Beaconing.Node.Listen | ccnl_caching/beaconing.c:22-48 | the neighbours after any packets in any order with any repeats |
| Beaconing.HeardIff | ccnl_caching/beaconing.c:23-34 | exactly the packets of six bytes that start with 0x1701 count |
| Beaconing.Node.CountsWrap | ccnl_caching/beaconing.c:41-45 | the 16-bit size is exact below 2^16 nodes and 0 for 2^16 |
| Beaconing.Node.KnowsRank | ccnl_caching/beaconing.c:36-46 | a node that has heard its group knows its size and its own rank in it |
| Beaconing.RanksAreAPermutation | ccnl_caching/beaconing.c:36-46 | the ranks of a group are 0 to n - 1, each taken by one node, in the order of the identifiers |
| Rotation.Timer.OnSecond | ccnl_caching/dow.c:244-256 | when a sleeping node takes over: at the end of its period, or when the lateness test fires |
| Rotation.FollowsScheduleIff | ccnl_caching/dow.c:172-184 | for 2 to 256 nodes and up to any second: exactly rank k mod n takes over at k * Y, if and only if no node is found late in the ideal rotation |
| Rotation.OneDeputy | ccnl_caching/dow.c:334-337 | as long as the schedule is kept, which no group does for good, the one deputy in second t is rank (t / Y) mod n |
| Rotation.LateInFirstCycle | ccnl_caching/dow.c:244-251 | for all clocks: in the first cycle the lateness test fires exactly when the clock shows at least what it shows at the deadline, which is a shift early after a takeover, and 0 plus the sleep for the first deputy |
| Rotation.ScheduleKeptIff | ccnl_caching/dow.c:244-251 | for 3 to 256 nodes and all clocks: the schedule is kept up to second h if and only if h is before the end of the first cycle and no clock has reached such a deadline |
| Rotation.KeptWithoutWrapIff | ccnl_caching/dow.c:244-251 | when no clock wraps round in the first cycle (at most 178 nodes): the schedule is kept up to second h if and only if h <= Y or rank 0's clock shows less than (n - 1) * Y seconds at h, and no node has gone to sleep whose deadline overflows 32 bits |
| Rotation.NoWholeCycle | ccnl_caching/dow.c:244-251 | no group of 3 to 256 keeps it for a whole cycle, whatever its clocks show: rank 1 is late at the end |
| Rotation.WholeCycleOfTwoIff | ccnl_caching/dow.c:244-251 | two nodes keep a whole cycle if and only if rank 0's clock wraps round within two seconds as it goes to sleep and rank 1's does not wrap round while it sleeps, unless in the first second |
| Rotation.PairKeepsCycle | ccnl_caching/dow.c:244-251 | two clocks with which they do |
| Rotation.TwoKeepIff | ccnl_caching/dow.c:244-251 | up to when two nodes keep the schedule, for all clocks and every second |
| Rotation.NoGroupKeepsTheSchedule | ccnl_caching/dow.c:244-251 | no group of 2 to 256 keeps it for a cycle and a shift, for all clocks |
| Rotation.DeadlineWraps | ccnl_caching/dow.c:245 | from 180 nodes on the 32-bit deadline wraps and rank 179 takes over after two seconds |
| RotationTurns.NeverWithoutDeputy | ccnl_caching/dow.c:334-337 | for all clocks: in every second some node is deputy |
| RotationTurns.OneDeputyIffNeverTwoAtOnce | ccnl_caching/dow.c:334-337 | for all clocks and any group: there is exactly one deputy in every second if and only if no two nodes take over in the same second |
| RotationTurns.FirstIsFirst | ccnl_caching/dow.c:244-251 | the first turn of rank 0 after the start is the first second after its shift in which its clock shows (n - 1) * Y seconds |
| RotationTurns.TurnsTaken | ccnl_caching/dow.c:244-251 | who really takes over, over every run of 2 to 256 nodes until a clock wraps round: rank r > 0 at r * Y, rank 0 at that first turn, and each again (n - 1) * Y seconds after its last turn; so the rotation has n - 1 shifts and rank 0 cuts into one of them |
| RotationTurns.OneDeputyIff | ccnl_caching/dow.c:334-337 | in such a run there is exactly one deputy in every second up to h if and only if the first turn of rank 0 comes after h or does not fall on the end of a shift |
| RotationTurns.TwoDeputies | ccnl_caching/dow.c:244-251 | three nodes started together with their clocks at 0 have two deputies after two shifts |
| RotationTurns.TwoNodesOneDeputy | ccnl_caching/dow.c:334-337 | two nodes always have exactly one, for all clocks |
| Radio.Accounting.RadioSleep | ccnl_caching/dow.c:401-422 | postponed while interests are pending; otherwise the active time is added once |
| Radio.Accounting.Wakeup | ccnl_caching/dow.c:505-512 | the sleeping time is added once |
| Radio.StaysAwakeIff | ccnl_caching/dow.c:401-422 | a sleep call leaves the node awake if and only if it was awake, interests were pending and the PIT was not empty; an empty PIT resets the count |
| Radio.WaitingIsCounted | ccnl_caching/dow.c:352-354 | a chunk waited for and served leaves no trace; 256 of them count as none |
| Radio.TotalsAreReal | ccnl_caching/dow.c:417-422 | over every interleaving of sleep and wake calls, repeated or postponed, and at any time: the totals are the real times awake and asleep modulo 2^32 |
| Radio.TotalsAddUp | ccnl_caching/dow.c:505-512 | the two totals add up to the time from the start to the last change of state, modulo 2^32 |
| Radio.RealTimesAddUp | ccnl_caching/dow.c:141 | the real times awake and asleep, defined apart from the counters, cover the time since the start |
| Estimate.MissIs | ccnl_caching/dow.c:674 | the loop's term is one minus the chance that a cache is awake and has been awake in the lifetime of the data |
| Estimate.OneMoreCache | ccnl_caching/dow.c:673-675 | one cache hits with probability 1 - p, and every cache more multiplies the chance of no hit by the chance that it misses |
| Estimate.HitFalls | ccnl_caching/dow.c:673-675 | the estimate never rises with the sleep probability on [0, 1] |
| Estimate.EstimateP | ccnl_caching/dow.c:656-686 | for targets in [0, 1): the estimate is above the target 1/256 below the result and not above it 1/256 above; the end points for other targets |
| Estimate.TargetIsBracketed | ccnl_caching/dow.c:676-679 | so every sleep probability up to p - 1/256 reaches the target and none from p + 1/256 on does |
| Range.InRangeIff | ccnl_caching/ccnl_helper.c:390-397 | with 32-bit wrap-around, the test accepts exactly the ids fewer than `interval` steps round the circle, for any consecutive ids |
| Range.InRangeOfAny | ccnl_caching/ccnl_helper.c:390-397 | for any 32-bit arguments, what the unsigned arithmetic compares with the interval |
| Range.SourcesPerNode | ccnl_caching/ccnl_helper.c:586-588 | every node is assigned exactly min(interval, max) sources |
| Range.NodesPerSource | ccnl_caching/ccnl_helper.c:586-588 | every source is assigned to exactly min(interval, max) nodes |
| Range.SourcesFit | ccnl_caching/ccnl_helper.c:586-588 | a node's sources fit its store with an entry to spare, its own among them |
| FlowControl.Consumer.GetSmallestMissing | l2_routing/l2.c:145-153 | the least chunk not received, none if there is none |
| FlowControl.Consumer.InitInterest | l2_routing/l2.c:155-207 | arms the retry, sends unless received or held back, and arms the next request |
| FlowControl.Consumer.ReceiveContent | l2_routing/l2.c:305-330 | a chunk is forwarded while an interest of another node is pending; otherwise stored and counted |
| FlowControl.Consumer.FireRetry | l2_routing/l2.c:368-373 | the retry timer calls icn_initInterest with the chunk it was armed for |
| FlowControl.SmallestMissingInWindow | l2_routing/l2.c:172-180 | in every reachable state the smallest missing chunk is at most receive_counter + 1 |
| FlowControl.WindowHolds | l2_routing/l2.c:168-197 | over every run: every interest sent is for a chunk of the file at most FLOW_THR = 4 (l2_routing/icn.h:50) beyond the largest received, and every call, timer or packet sends one interest at most, for a chunk that is missing then |
| FlowControl.ReceivedIsHeard | l2_routing/l2.c:305-330 | in a run without interests of other nodes exactly the chunks that arrive are received, and receive_counter is the largest of them |
| FlowControl.ForwardedLeavesNoTrace | l2_routing/l2.c:295-330 | an interest of another node and the chunk that answers it leave the consumer as it was |
| FlowControl.RetrySends | l2_routing/l2.c:163-197 | in every reachable state a retry for a chunk that is still missing sends and is armed again |
| FlowControl.RequestArms | l2_routing/l2.c:159-167 | every call made while a chunk is missing leaves a retry armed for the smallest missing one |
| FlowControl.NeverDeadlocks | l2_routing/l2.c:155-211 | over every run: after a first request a retry is armed whenever a chunk is missing |
| FlowControl.AllChunksArrive | l2_routing/l2.c:155-211 | whatever came before, 2n - 1 retries that fire and are answered complete the file, and one more for every interest of another node that is pending or comes in meanwhile, for any number n of chunks |
| FlowControl.BoundIsExact | l2_routing/l2.c:168-171 | one round fewer after a first request can leave the last chunk missing |
| Rotation.Timer.Sleep | ccnl_caching/dow.c:446-465 | the period is the eight-bit argument times Y |
| Rotation.SleepIsEightBits | ccnl_caching/dow.c:446-465 | the argument counts modulo 256 in shifts of 24 seconds; with 0 the counter wraps round and only the lateness test wakes the node |
| Radio.Accounting.WaitForInterest | ccnl_caching/dow.c:352-354 | one interest more is waited for, counted in eight bits |
| Radio.Accounting.ServeInterest | ccnl_caching/ccnl_helper.c:657-658 | one fewer |
| FlowControl.Consumer.FirePeriodic | l2_routing/l2.c:370-373 | the periodic timer calls icn_initInterest with the chunk it was armed for |
| FlowControl.Consumer.ReceiveInterest | l2_routing/l2.c:295-303 | an interest of another node is remembered by a count |

## Left out

Assumptions of the model:

- The host is little-endian, `size_t` and `unsigned long` have 32 bits as on the RIOT boards, and `int` has 32.
- `ccnl_content_add2cache` belongs to CCN-lite, which is not part of this model; it is used under the contract of `ContentStore.Relay.AddToCache`: at capacity it calls the strategy, and it inserts at the head if there is room then.
- `DOW_PRIO_CACHE` is 0 as configured; the flag STATIC is carried along but never set.
- Every name has four components; the branches that skip shorter ones are left out. The time stamp is the number that `strtol` returns; it is positive except in `ContentStoreProperties.OldestIsLeastIff`.
- Handover and rotation are modelled with `DOW_DEPUTY` and `DOW_INT_INT` set, `CCNLRIOT_CACHE_SIZE` 20 (not the 5 of SAMD21) and `DOW_RAND_SEEDING` 0.
- The neighbour filter is an exact set: false positives of the Bloom filter are left out.

Contracts that say less than one might ask for:

- Handover.Node.Takeover: other messages that the new deputy handles while it waits (`ccnl_caching/ccnl_helper.c:1032-1046`) are not modelled, nor are chunks of other nodes that reach it during the takeover; those that reach the old deputy are. An answer that comes after its request has timed out, which the code takes for the answer to the next number, is lost in the model.
- Handover.Node.Consumer: a chunk that arrives at a node that is not deputy is left to the own-content path, and one with a matching pending interest to CCN-lite; neither is modelled.
- Rotation.FollowsScheduleIff: all nodes start in the same second and a takeover takes no time; lost or delayed second timers are not modelled. Group sizes above 256 are excluded because the argument of `dow_sleep` has eight bits.
- Rotation.KeptWithoutWrapIff: says nothing about clocks that wrap round in the first cycle; `Rotation.ScheduleKeptIff` covers those too, in terms of what the clocks show.
- RotationTurns.TurnsTaken: runs in which a clock or a deadline reaches 2^32 microseconds are left out, also for `RotationTurns.OneDeputyIff`; `RotationTurns.OneDeputyIffNeverTwoAtOnce` covers them in terms of who takes over.
- HandoverFlags.TwoStampsNeverDesperate: the condition is sufficient, not necessary.
- Estimate.EstimateP: real arithmetic; rounding of `double` and negative `l` or `n` below 1 are left out.
- GladmanSha1.Context.End: the length is taken modulo 2^64 bits as in the code, so the digest is the one of the standard extended beyond 2^64 bits by the low 64 bits of the length.
- Agreement.Rfc: bounded by 2^64 bits because the context is corrupted beyond; the other implementations carry the bounds of their counters.
- HandoverResult.AnswerIff: a chunk that the store has already may be refused while its first copy stays; a deputy does not handle such chunks (`HandoverResult.HeldIsLeftAlone`).
- GoogleSha1.Sha1Info.InitHmac: the key is a sequence of fewer than 2^31 bytes; negative values of the `int` argument are left out.
- FlowControl.AllChunksArrive: a round is a retry that is answered before the round ends; rounds whose answer is lost are not counted.
- HandoverResult.TakeoverKeepsNewest: about the steps in which a chunk of a new source meets a store full of flagged entries there is only the bound of `HandoverResult.SourcesLost`; which source goes is decided by `ContentStoreRuns.SourceLostIff`.
- HandoverFlags.HandoverFlagsIff: the new store is empty and has room for what is handed over; for other stores each step is decided by `ContentStoreRuns.FlagsStayUniqueIff`.
- FlowControl.Consumer.ReceiveContent: the bit field is a set, so sequence numbers beyond its 128 bits are harmless here.

Not modelled:

- The non-deputy own-content path with `_unflag_cs` (`ccnl_caching/ccnl_helper.c:479-518`): it matches the id component only and does not keep the flag invariant with several sensor types.
- The flag USER2 and `ccnl_helper_flagged_cache`, `_first_time_full` and `ccnl_helper_reset`, which only feed statistics and publishing.
- Interests of the node for its own data and PIT entries, except for whether `_radio_sleep` may sleep; the state of the radio hardware and its retry timer.
- Big-endian builds, the VERBOSE, ARRAY and SHA1HANDSOFF variants, null-pointer returns and the final wiping of the SHA-1 files (`SHA1Result` clears its block, which is modelled).
- Timer messages of `l2.c` carry pointers to local variables; they are modelled as the values. `send_counter`, the packet buffers, the routing table, link schedule and background traffic are left out.
- `_stats` in `ccnl_caching/main.c`, whose bases differ from the accounting in `dow.c`.
- `ccnl_computation` (near copies of the caching code), the RPL, UDP, CoAP, MQTT and TCP demos, sensor threads, GPIO and shell front ends: input and output around libraries.
