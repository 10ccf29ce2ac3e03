# Argon2 and the UltraLocked bundle, verified

A Dafny model of the vendored Argon2 library (`Sources/CArgon2`) and of the bundle format built on it
(`Sources/UltraLockedFormat`), with proofs of what the two promise. `dafny verify dfyconfig.toml` checks all of it.

What is modelled in place is modelled in place: hash states, contexts, the bundle builder and the bundle parser are
classes whose methods are proved against specification functions; block operations, base64 and the memory fill are
loops over arrays. What the specification functions mean is then proved as lemmas.

- **Memory fill** (`Indexing`, `Recurrence`, `FillMemory`, `Threads`, `ThreadFailure`). Blocks are named by the moment
  they are written, `Time(segment, index)`, and `Value` is the recurrence of sections 3.2 and 3.4 of RFC 9106 over those
  moments. `FillMemory` shows that the loops compute it. `Threads` is a state machine of the calling thread and one
  thread per lane; a lane thread reads, one block at a time, then writes, and while it writes its cell holds arbitrary
  contents. Every run that completes leaves the same memory. All of this holds for any block operations (`Kernel`), and
  in particular for those of `FillBlock`. `ThreadFailure` is about the clean-up when a thread cannot be created.
- **Hashing** (`Blake2b`, `Blake2bLong`, `Blamka`, `FillBlock`, `FirstBlocks`, `InitialHash`). The compression function
  of BLAKE2b is a parameter; buffering, padding, counters and H' are proved against RFC 7693 and RFC 9106. The BlaMka
  round and the block permutation are proved to lose nothing, and their in-place forms to compute them.
- **Encoded hashes** (`Base64`, `Base64Codec`, `Decimal`, `EncodedText`, `Encoding`). Texts are strings of any bytes
  but NUL, the terminator being what is read at their end. `char` is signed, as on the platforms of the package.
- **The whole of Argon2** (`Context`, `Tag`, `Argon2`, `Verify`). `argon2_ctx` computes the tag for every schedule the
  operating system may choose (`Scheduler`); hashing, encoding and verifying fit together.
- **Bundles** (`BundleHeader`, `Manifest`, `BundleBuilder`, `BundleParser`, `BundleRoundTrip`, `Passphrase`).
  AES-GCM, HKDF and JSON are parameters with a few laws (`Aead`, `Json`).

- **A reference** (`Reference`). Argon2, H', BLAKE2b over its compression function, the permutation P, base64 and the
  encoded string are written down a second time from RFC 9106, RFC 7693 and RFC 4648, with natural numbers and literal
  constants and without any definition of the model. `ByteRefinement`, `HashRefinement`, `BlockRefinement`,
  `FillRefinement`, `TagRefinement`, `TextRefinement` and `VerifyRefinement` show that the model of the code computes
  it. `BundleFile` does the same for the bytes of a bundle.

`Words` has fixed-width words as bounded integers, with wrap-around written out, and the bit operations.

These properties are false of the code as one might state them. Each is proved with its exact condition, and with an
input at which it fails:

- every block of the reference window can be picked: exactly while the window has at most 2^31 blocks
  (`Indexing.OntoIffAtMostHalf`; `Context.SomeBlockNeverPicked`);
- a built bundle can be unlocked with its key: exactly if its ids are distinct (`BundleRoundTrip.BuiltUnlocks`;
  `BundleRoundTrip.DuplicateIdsBuilt`);
- a key can be derived for every header the bundle format admits: exactly with 8 KiB of memory per lane
  (`Passphrase.DeriveIffEnoughMemory`; `Passphrase.AllowedButNotDerivable`);
- the size `argon2_encodedlen` announces is the size needed: exactly for versions of two decimal digits
  (`Encoding.AnnouncedLenExact`; `Encoding.AnnouncedTooSmall`);
- an accepted string with a version number is its own re-encoding: exactly if it is ASCII, since a negative `char` is
  read as '/' (`EncodedText.ReEncodeIffAscii`; `EncodedText.OtherSpelling`);
- when a thread cannot be created, every thread is joined once: exactly while the limit on live threads has not been
  reached in the slice (`ThreadFailure.CleanUpJoinsOnce`; `ThreadFailure.JoinedTwice`).

The code and its comments differ in two places that matter here. The comment on the format of encoded hashes
(`Sources/CArgon2/encoding.c:246-248`) calls its numbers positive and lets them fill an `unsigned long`, but zero is
read and left to `validate_inputs`, and more than 32 bits are refused. The comment on `b64_char_to_byte`
(`Sources/CArgon2/encoding.c:90-93`) promises 0xFF for every character that is not base64, which a negative `char` does
not get. The model follows the code.

## Model

| member | source | states |
|---|---|---|
| Indexing.AreaExact | Sources/CArgon2/core.c:206-235 | The reference area computed in 32-bit arithmetic, wrap-arounds of `index - 1` and `-1` included, is the number of blocks of the RFC window |
| Indexing.RankInWindow | Sources/CArgon2/core.c:192-256 | Every rank below the area is a block of the window W of section 3.4.2 of RFC 9106: constructed, not the previous block, and of a finished segment if in another lane |
| Indexing.WindowHasRank | Sources/CArgon2/core.c:192-256 | Conversely every block of the window has exactly one rank below the area |
| Indexing.RelativeExact | Sources/CArgon2/core.c:239-242 | The doubly floored square never overflows 64 bits nor underflows: the relative position is area - 1 - depth |
| Indexing.IndexAlphaIsRefTime | Sources/CArgon2/core.c:189-257 | For every 32-bit pseudo-random value `index_alpha` returns the column of a block of the window, below the lane length |
| Indexing.RefTimeMonotone | Sources/CArgon2/core.c:237-242 | A larger pseudo-random value never picks a newer block |
| Indexing.DepthHits | Sources/CArgon2/core.c:237-242 | Discrete intermediate values: every depth up to that of `j` is the depth of some value not above `j` |
| Indexing.OntoIffAtMostHalf | Sources/CArgon2/core.c:237-242 | Every block of the window can be picked if and only if the area is at most 2^31; above that the oldest block never is |
| Context.SomeBlockNeverPicked | Sources/CArgon2/core.c:237-242 | Inputs that pass validation, one lane of almost 2^32 blocks, for which block (1, 0) is in the window of time (4, 1) and no 32-bit value picks it |
| Recurrence.RefHolds | Sources/CArgon2/core.c:192-201 | Wherever the other lanes are in the running segment, the block that is drawn is in memory and nobody is about to write it |
| Recurrence.CellsDiffer | Sources/CArgon2/ref.c:178-180 | Two blocks share a cell of the memory only if they are of the same lane and a multiple of four segments apart |
| Recurrence.HeldElsewhere | Sources/CArgon2/ref.c:178-191 | No block that is in memory lives in the cell a lane is writing |
| Recurrence.Overwrite | Sources/CArgon2/ref.c:180-191 | Whatever is put in the cell being filled, all blocks that are still to be read stay right |
| Recurrence.Complete | Sources/CArgon2/ref.c:144-192 | When the cell holds the value of the recurrence the lane has advanced by one block |
| Recurrence.NextSegment | Sources/CArgon2/core.c:263-268 | The end of one segment is the start of the next: what may be read in the next slice is in memory |
| Recurrence.Finally | Sources/CArgon2/core.c:263-274 | After the last pass every cell holds the last block the recurrence writes to it |
| Recurrence.FinalMemoryCell | Sources/CArgon2/core.c:160-167 | The memory cell of every block of the last pass, found by quotient and remainder, holds the value of the recurrence |
| Recurrence.ReferencesFixed | Sources/CArgon2/ref.c:104-160 | For type Argon2i, and for Argon2id in the first two segments, the value drawn at a place is the same for any two start memories and any previous block: the positions referred to do not depend on the password |
| Recurrence.ReferencesFromPrevious | Sources/CArgon2/ref.c:104-160 | For Argon2d, and for Argon2id from the third segment on, the value drawn is the first word of the previous block |
| FillMemory.NextAddresses | Sources/CArgon2/ref.c:83-88 | The counter is advanced and the address block is the double compression of the input block with that counter |
| FillMemory.PrevIsCyclic | Sources/CArgon2/ref.c:133-149 | The offset of the previous block is one less, or the end of the lane at its start: the cyclic predecessor in the same lane |
| FillMemory.RefOffsetExact | Sources/CArgon2/ref.c:162-179 | The reference offset is that of a block of the window in the lane drawn, in the first slice always the own lane |
| FillMemory.DrawPseudoRand | Sources/CArgon2/ref.c:153-160 | The lazily refreshed address block at index i has counter i / 128 + 1, in the first segment and in all others, so that the value drawn is that of section 3.4.1 of RFC 9106 |
| FillMemory.NextOffsets | Sources/CArgon2/ref.c:144-149 | Counting up both offsets and resetting the previous one at column 1 keeps it the cyclic predecessor |
| FillMemory.FilledIsValue | Sources/CArgon2/ref.c:178-192 | One iteration over any memory consistent with the recurrence computes the value of the recurrence |
| FillMemory.StepConsistent | Sources/CArgon2/ref.c:144-192 | One iteration keeps the memory consistent with the recurrence and advances the lane by one block |
| FillMemory.FillNext | Sources/CArgon2/ref.c:162-192 | One block is written, at the current offset, and no other; xored over the old one exactly from the second pass on in versions other than 0x10 |
| FillMemory.Iteration | Sources/CArgon2/ref.c:144-193 | A whole loop iteration: offsets, address block and memory are ready for the next one |
| FillMemory.FillSegment | Sources/CArgon2/ref.c:90-194 | The segment of one lane is brought from its start to its end, with the addressing of its type, whatever the other lanes have done of the same slice, and no cell outside the segment changes |
| FillMemory.FillMemoryBlocksSt | Sources/CArgon2/core.c:260-275 | The single-threaded fill leaves exactly the memory of the RFC 9106 recurrence |
| FillMemory.FinalBlock | Sources/CArgon2/core.c:155-167 | The block that is hashed is the xor of the last blocks of all lanes |
| FillRefinement.SamePick | Sources/CArgon2/core.c:189-257 | The column the RFC picks from the window of an absolute column, with its sizes written down again, is that of the block drawn |
| FillRefinement.SameIndependence | Sources/CArgon2/ref.c:104-107 | Addressing is data-independent exactly where the RFC says so |
| FillRefinement.SameAddressWord | Sources/CArgon2/ref.c:83-118 | The word taken from an address block is that of G(0, G(0, Z)) with Z = (pass, lane, slice, m', t, y, counter) |
| FillRefinement.SameBlocks | Sources/CArgon2/ref.c:90-194 | Every block of every lane and pass is the block B[i][j] of section 3.2 of RFC 9106, as defined again in `Reference` over absolute columns |
| Threads.WindowAlways | Sources/CArgon2/core.c:311-357 | Invariant of every run: lanes are created in order, joined in order, and each is created and joined once per finished slice |
| Threads.ThreadWindow | Sources/CArgon2/core.c:311-357 | At most `threads` threads are live at any moment of any run; all are joined before the next slice; every thread created is joined exactly once; `lanes - threads` does not underflow |
| Threads.ReadsRight | Sources/CArgon2/ref.c:153-180 | What a lane thread reads in the middle of an iteration is what the recurrence says, whatever the other threads are doing |
| Threads.MemoryKeptByMain | Sources/CArgon2/core.c:316-357 | Creating and joining threads, and going to the next slice, keep the memory consistent |
| Threads.MemoryKeptByRead | Sources/CArgon2/ref.c:144-192 | Every single read of a block by a lane thread gives the value of the recurrence |
| Threads.MemoryKeptByScribble | Sources/CArgon2/ref.c:178-191 | A half-written block may hold anything without any reader noticing |
| Threads.MemoryKeptByWrite | Sources/CArgon2/ref.c:178-191 | A finished write stores the value of the recurrence |
| Threads.MemoryAlways | Sources/CArgon2/core.c:292-372 | Both invariants hold in every state of every run of any length |
| Threads.ScheduleIndependence | Sources/CArgon2/core.c:292-372 | Every complete run of the multi-threaded fill, for any number of threads and any interleaving of reads and half-done writes, ends with the memory of the recurrence, which is that of the single-threaded fill |
| Threads.NoRace | Sources/CArgon2/ref.c:146-191 | The cell a lane is writing is neither read nor written by the iteration of any other lane, whatever value that one draws |
| Threads.NeverStuck | Sources/CArgon2/core.c:316-357 | Some step is possible in every reachable state but the last: no deadlock |
| Threads.StepsDescend | Sources/CArgon2/core.c:292-372 | Every step other than more scribbling over a half-written cell lowers a rank that is bounded below |
| Threads.RunsAreBounded | Sources/CArgon2/core.c:292-372 | No run is endless: whatever the schedule, at most (4 passes)(3 lanes + 2)(6 segmentLength + 2) steps are not such scribbles |
| Threads.CanFinish | Sources/CArgon2/core.c:292-372 | From every reachable state there is a schedule that completes the fill |
| ThreadFailure.CleanUpReachesLive | Sources/CArgon2/core.c:336-343 | When a thread cannot be created, the clean-up joins every thread that is live: none outlives the memory |
| ThreadFailure.CleanUpJoinsOnce | Sources/CArgon2/core.c:318-343 | It then joins every created thread exactly once if and only if the failing lane is below `threads`; from there on it joins threads a second time |
| ThreadFailure.JoinedTwice | Sources/CArgon2/core.c:318-343 | Whenever there are fewer threads than lanes some run reaches a creation whose failure joins lane 0 twice |
| Blake2b.ChainStable | Sources/CArgon2/blake2/blake2b.c:241-258 | Blocks that are complete and not the last do not depend on what is appended to the message |
| Blake2b.State.IncrementCounter | Sources/CArgon2/blake2/blake2b.c:57-61 | The two counter words are a sum modulo 2^128 |
| Blake2b.State.InitKey | Sources/CArgon2/blake2/blake2b.c:119-164 | A keyed state has absorbed the zero-padded key block; out-of-range lengths are refused and invalidate the state |
| Blake2b.State.CompressFull | Sources/CArgon2/blake2/blake2b.c:241-258 | The loop stops with 1 to 128 bytes left; the chaining value and the counter are those of all blocks before |
| Blake2b.State.Update | Sources/CArgon2/blake2/blake2b.c:224-262 | Afterwards the state stands for the message extended by the input: last non-empty block buffered, all others compressed, counter right modulo 2^128; a finished state or NULL input is refused and nothing changes |
| Blake2b.State.Final | Sources/CArgon2/blake2/blake2b.c:264-292 | The digest is that of section 3.3 of RFC 7693 for everything absorbed, and the state cannot be used again |
| Blake2b.CarryAddition | Sources/CArgon2/blake2/blake2b.c:57-61 | The carry out of the low word is detected exactly when `t[0] < inc` afterwards |
| Blake2b.HashChunks | Sources/CArgon2/blake2/blake2b.c:224-292 | For every message and every way to cut it into updates, keyed or not, the result is the one-shot digest |
| Blake2b.OneShot | Sources/CArgon2/blake2/blake2b.c:294-330 | `blake2b` returns the digest for all valid arguments and -1 for exactly the others |
| HashRefinement.SameHash | Sources/CArgon2/blake2/blake2b.c:224-330 | Without a key the digest is BLAKE2b of section 3.3 of RFC 7693, taken block by block from the front |
| Blake2bLong.HPrime | Sources/CArgon2/blake2/blake2b.c:333-389 | H' of section 3.3 of RFC 9106 has exactly the length asked for |
| Blake2bLong.ShortOutput | Sources/CArgon2/blake2/blake2b.c:333-353 | Up to 64 bytes are the digest of four length bytes and the input |
| HashRefinement.SameVariableHash | Sources/CArgon2/blake2/blake2b.c:333-389 | H' is that of section 3.3 of RFC 9106 as `Reference` defines it: half of every digest but the last |
| Blake2bLong.Blake2bLong | Sources/CArgon2/blake2/blake2b.c:333-389 | Exactly `outlen` bytes are written and they are H', up to 64 bytes the digest of the four length bytes and the input; nothing is written beyond them; lengths 0 and above 2^32 - 1 fail |
| Blamka.InverseOddRight | Sources/CArgon2/blake2/blamka-round-ref.h:25-29 | An odd number has an inverse modulo 2^32, given by Newton steps |
| Blamka.FBlaMkaUndo | Sources/CArgon2/blake2/blamka-round-ref.h:25-29 | `fBlaMka` can be undone in its first argument for every second one |
| Blamka.FBlaMkaRedo | Sources/CArgon2/blake2/blamka-round-ref.h:25-29 | and every word is reached |
| Blamka.RotrSwapsParts | Sources/CArgon2/blake2/blake2-impl.h:150-152 | The shift and or of `rotr64` exchange the low and the high part of the word |
| Blamka.RotrUndo | Sources/CArgon2/blake2/blake2-impl.h:150-152 | Rotating by c and by 64 - c gives the word back |
| Blamka.GBijective | Sources/CArgon2/blake2/blamka-round-ref.h:31-41 | G is a bijection on four words, its inverse given |
| Blamka.RoundBijective | Sources/CArgon2/blake2/blamka-round-ref.h:43-54 | A round of eight G is a bijection on sixteen words, its inverse given |
| Blamka.GInPlace | Sources/CArgon2/blake2/blamka-round-ref.h:31-41 | The eight assignments of the macro change exactly its four words, to G of them |
| Blamka.RoundInPlace | Sources/CArgon2/blake2/blamka-round-ref.h:43-54 | The macro on sixteen different cells of an array computes the round on them and leaves all others alone |
| FillBlock.CellOfWord | Sources/CArgon2/ref.c:55-77 | The cells of either index family determine their round and place: the eight sets of sixteen are disjoint |
| FillBlock.WordOfCell | Sources/CArgon2/ref.c:55-77 | and cover all 128 words |
| FillBlock.PassPointwise | Sources/CArgon2/ref.c:57-77 | After a pass each word is that of its own round, applied to the old block |
| FillBlock.AnyOrder | Sources/CArgon2/ref.c:57-77 | The eight rounds of a pass may be done in any order |
| FillBlock.PassInjective | Sources/CArgon2/ref.c:57-77 | A pass loses nothing |
| FillBlock.PermuteInjective | Sources/CArgon2/ref.c:55-77 | Neither does the permutation P of two passes |
| FillBlock.ReferenceMatters | Sources/CArgon2/ref.c:44-77 | For one previous block, different reference blocks are permuted to different blocks |
| FillBlock.XorInto | Sources/CArgon2/core.c:66-71 | `xor_block` word by word, also if source and destination are the same |
| FillBlock.PassInPlace | Sources/CArgon2/ref.c:57-65 | The loop of in-place rounds computes the pass |
| FillBlock.FillBlock | Sources/CArgon2/ref.c:39-81 | The next block becomes R xor P(R), xored over the old next block if asked, of the old contents, also where it is the reference or the previous block; and word by word: a middle block whose runs of sixteen are rounds of those of R, then sets of word pairs sixteen apart that are rounds of its sets |
| FillBlock.FilledOnce | Sources/CArgon2/ref.c:39-81 | That word-by-word description leaves no choice: it determines the block |
| FillBlock.PermuteByTransposing | Sources/CArgon2/ref.c:55-77 | P is column pass, transposition of the 8x8 matrix of word pairs, column pass, transposition |
| BlockRefinement.SameRound | Sources/CArgon2/blake2/blamka-round-ref.h:25-54 | The round is the permutation P of section 3.6 of RFC 9106, written in plain arithmetic with its rotations by 32, 24, 16 and 63 |
| BlockRefinement.SameCompress | Sources/CArgon2/ref.c:39-81 | The compression of blocks is G of section 3.5 of RFC 9106: P on the rows, then on the columns of the 8x8 matrix |
| FillBlock.NextAddressesInPlace | Sources/CArgon2/ref.c:83-88 | In-place address generation, in which the address block is reference and result at once, is the double compression |
| FillBlock.InputBlockCounts | Sources/CArgon2/ref.c:113-118 | Counting up word 6 gives the input block of the next counter |
| FirstBlocks.LoadStored | Sources/CArgon2/core.c:73-85 | `load_block` undoes `store_block` |
| FirstBlocks.StoreInjective | Sources/CArgon2/core.c:80-85 | Different final blocks are hashed as different strings |
| FirstBlocks.LoadBlock | Sources/CArgon2/core.c:73-78 | Loading reads 128 little-endian words |
| FirstBlocks.StoreBlock | Sources/CArgon2/core.c:80-85 | Storing writes them |
| FirstBlocks.StartsApart | Sources/CArgon2/core.c:520-534 | The first two cells of all lanes are all different |
| FirstBlocks.FillFirstBlocks | Sources/CArgon2/core.c:515-536 | The first two blocks of every lane are H' of the 72-byte seeds of section 3.2 of RFC 9106, and no other cell changes |
| FirstBlocks.ValueFromStart | Sources/CArgon2/ref.c:121-192 | No block depends on what the memory held before, beyond those two per lane: the allocated memory need not be initialised |
| FirstBlocks.LastFromStart | Sources/CArgon2/core.c:155-167 | Nor does the final block |
| Context.ValidateIffInRange | Sources/CArgon2/core.c:388-513 | `validate_inputs` accepts exactly the documented ranges, although it compares with the 32-bit product `8 * lanes` |
| Context.ErrorMeans | Sources/CArgon2/core.c:388-513 | Every error names a documented range that the inputs leave |
| Context.SegmentSizes | Sources/CArgon2/argon2.c:53-63 | Rounding down to four equal segments per lane gives at least two blocks per segment and wastes less than four blocks a lane |
| Context.InstanceValid | Sources/CArgon2/argon2.c:53-77 | Validated inputs give an instance all sizes of which are exact, with the type asked for, version, lanes and passes of the context, and threads clamped to 1..lanes |
| InitialHash.FieldPrefix | Sources/CArgon2/core.c:567-607 | A length-prefixed field and what follows it can be told apart |
| InitialHash.PreimageInjective | Sources/CArgon2/core.c:538-610 | The hashed string determines lanes, lengths, costs, version, type, password, salt, secret and associated data |
| InitialHash.PreimageReads | Sources/CArgon2/core.c:552-607 | A reader that takes 32-bit words at offsets 0, 4, ..., 20 as lanes, tag length, memory, passes, version and type, and then four length-prefixed fields, finds all inputs in the hashed string |
| InitialHash.FeedSecret | Sources/CArgon2/core.c:567-578 | A field is absorbed as it was, then zeroed together with its length if its flag is set |
| InitialHash.HashedAsGiven | Sources/CArgon2/core.c:549-607 | Unless a buffer that a clear flag wipes is hashed again later, what is hashed is what was given |
| InitialHash.FeedAll | Sources/CArgon2/core.c:549-607 | The many updates add up to the preimage of the old inputs, each buffer as the wiping before it has left it: also if buffers are shared and the clear flags zero buffers and lengths midway |
| InitialHash.InitialHash | Sources/CArgon2/core.c:538-610 | H0 is the BLAKE2b digest of a string from which that reader gets all inputs, in the order of step 1 of section 3.2 of RFC 9106, each buffer as it is when it is hashed; the flagged fields are wiped |
| Tag.ValueIgnoresThreads | Sources/CArgon2/core.c:292-372 | No block depends on the number of threads |
| Tag.TagDependsOn | Sources/CArgon2/argon2.c:39-98 | The tag is a function of lanes, lengths, costs, version, type and the bytes of the four inputs alone: not of threads, flags, callbacks or unused buffer contents |
| Tag.EveryLaneCounts | Sources/CArgon2/core.c:155-167 | Changing the last block of one lane alone changes the block that is hashed |
| TagRefinement.InstanceWorks | Sources/CArgon2/argon2.c:53-77 | The instance works on the parameters that were given: m' and the segments of the RFC, t passes, y and v |
| TagRefinement.TagIsArgon2 | Sources/CArgon2/argon2.c:39-98 | The tag is Argon2 of section 3.2 of RFC 9106, defined a second time in `Reference`, for all contexts that pass validation and all three types |
| Argon2.FillMemoryBlocksMt | Sources/CArgon2/core.c:292-372 | With every schedule that completes, the multi-threaded fill leaves the memory of the recurrence |
| Argon2.SomeSchedulerCompletes | Sources/CArgon2/core.c:292-372 | There are operating systems that complete every run, as the theorems about whole computations ask |
| Argon2.FillMemoryBlocks | Sources/CArgon2/core.c:376-386 | Single- and multi-threaded dispatch give the same memory |
| Argon2.Initialize | Sources/CArgon2/core.c:612-648 | Fresh memory of arbitrary contents agrees with the specification in the first two blocks of every lane |
| Argon2.Finalize | Sources/CArgon2/core.c:155-178 | The output is H' of the xor of the last blocks |
| Argon2.Argon2Ctx | Sources/CArgon2/argon2.c:39-98 | Either an error and nothing changed, or the tag of the inputs as hashed in the output buffer, for every schedule, whatever the memory held and whichever buffers are shared |
| Base64.MacrosCompare | Sources/CArgon2/encoding.c:70-78 | On 0..255 the constant-time macros are the comparisons, 0xFF for true |
| Base64.ByteToCharIsAlphabet | Sources/CArgon2/encoding.c:83-88 | The branch-free expression is the base64 alphabet |
| Base64.CharToByteIsAlphabet | Sources/CArgon2/encoding.c:94-102 | Its inverse on all ASCII codes, 0xFF for characters outside the alphabet |
| Base64.NegativeReadsAsSlash | Sources/CArgon2/encoding.c:94-102 | A negative `char` is read as the character "/" |
| Base64.CharReadIffAscii | Sources/CArgon2/encoding.c:90-102 | For all bytes: the documented value is returned if and only if the byte is ASCII |
| Base64.DecodeEncoded | Sources/CArgon2/encoding.c:112-200 | Decoding the sextets of a byte string gives it back, and they pass the leftover check |
| Base64.EncodeDecoded | Sources/CArgon2/encoding.c:195-197 | A text that passes the leftover check is the only text of its bytes |
| TextRefinement.SameBase64 | Sources/CArgon2/encoding.c:83-146 | The text is base64 of section 4 of RFC 4648 without padding, three bytes being a number of four digits in its alphabet |
| Base64Codec.EmitByte | Sources/CArgon2/encoding.c:133-140 | One more byte completes one or two sextets, from the pending bits alone |
| Base64Codec.ByteAccumulated | Sources/CArgon2/encoding.c:134-139 | The wrapping 32-bit accumulator holds those bits wherever they are read |
| Base64Codec.ToBase64 | Sources/CArgon2/encoding.c:112-146 | Fails exactly if the buffer has no room for the text and its terminator; writes exactly b64len characters, those of the bytes, and changes nothing else |
| Base64Codec.OutputLength | Sources/CArgon2/encoding.c:440-453 | `b64len`, and the same switch in `to_base64`, is the length of the text |
| Base64Codec.GainByte | Sources/CArgon2/encoding.c:178-186 | One more sextet completes at most one byte, from the pending bits alone |
| Base64Codec.SextetAccumulated | Sources/CArgon2/encoding.c:178-185 | The wrapping accumulator holds those bits, too |
| Base64Codec.LeftoverCheck | Sources/CArgon2/encoding.c:195-197 | The final test refuses exactly an impossible length or bits left that are not zero |
| Base64Codec.FromBase64 | Sources/CArgon2/encoding.c:161-200 | On any C string: succeeds exactly on canonical text whose bytes fit, stops at the first other character and has written those bytes; bytes above 127 count as "/" |
| Base64Codec.DecodingInjective | Sources/CArgon2/encoding.c:161-200 | No two different consumed texts, as read, decode to the same bytes |
| Base64Codec.Base64RoundTrip | Sources/CArgon2/encoding.c:112-200 | What `to_base64` writes, followed by anything that cannot continue it, is decoded to the same bytes |
| Decimal.DecIsMinimal | Sources/CArgon2/encoding.c:386-391 | The printed number is minimal notation and stands for the number |
| Decimal.MinimalIsDec | Sources/CArgon2/encoding.c:231-233 | Minimal notation is what printing gives |
| Decimal.DecodeDecimal | Sources/CArgon2/encoding.c:209-236 | On any C string: accepts exactly the minimal notation of a number of 64 bits, in spite of early overflow exits, and stops behind it |
| Decimal.NumLen | Sources/CArgon2/encoding.c:455-462 | `numlen` is the length of the notation |
| EncodedText.ParseOfText | Sources/CArgon2/encoding.c:258-371 | The parser restores every field the printer wrote, and reads all of the string |
| EncodedText.ParseIffPrinted | Sources/CArgon2/encoding.c:240-248 | The accepted strings are exactly the printed ones, with the version number left out where it is the default |
| EncodedText.ReEncode | Sources/CArgon2/encoding.c:258-438 | Re-encoding an accepted string that carries `$v=` gives the same string |
| EncodedText.ReEncodeIffAscii | Sources/CArgon2/encoding.c:258-438 | For any C string accepted with a version number: re-encoding gives the same string if and only if it is ASCII |
| EncodedText.OtherSpelling | Sources/CArgon2/encoding.c:94-102 | A string with a byte 0xFF that is accepted and is not the text of what it is accepted for |
| EncodedText.OneTypeOnly | Sources/CArgon2/encoding.c:320-333 | What is accepted under one type is rejected under any other, `argon2i` and `argon2id` included |
| EncodedText.AcceptedLabel | Sources/CArgon2/encoding.c:320-333 | A string accepted under type 0, 1 or 2 begins with $argon2d$, $argon2i$ or $argon2id$, and with no other of the three |
| EncodedText.PrintedLabel | Sources/CArgon2/encoding.c:415-416 | So does a printed one |
| TextRefinement.SameText | Sources/CArgon2/encoding.c:415-433 | The text is $argon2id$v=..$m=..,t=..,p=..$salt$tag, in decimals and base64, letter by letter |
| EncodedText.TextLength | Sources/CArgon2/encoding.c:415-433 | The exact length of the text |
| EncodedText.TextAscii | Sources/CArgon2/encoding.c:415-433 | The text is ASCII and has no NUL inside |
| Encoding.PutText | Sources/CArgon2/encoding.c:375-384 | SS fails exactly if there is no room and then writes nothing; else the text so far and the terminator are there |
| Encoding.PutNumber | Sources/CArgon2/encoding.c:386-391 | SX writes minimal decimals |
| Encoding.PutBinary | Sources/CArgon2/encoding.c:393-401 | SB writes base64 |
| Encoding.EncodeString | Sources/CArgon2/encoding.c:373-438 | Succeeds exactly if `dst_len` exceeds the length of the text, and has then written the text and its terminator and nothing behind; the buffer begins with $argon2d$, $argon2i$ or $argon2id$ exactly for types 0, 1 and 2 |
| Encoding.EncodedLen | Sources/CArgon2/argon2.c:447-452 | The announced buffer size |
| Encoding.AnnouncedLenExact | Sources/CArgon2/argon2.c:447-452 | For a valid context, `encode_string` succeeds exactly with buffers at least that long, if and only if the version has two digits; the text and its terminator then fill exactly that many characters |
| Encoding.AnnouncedTooSmall | Sources/CArgon2/argon2.c:447-452 | A valid context of version 100 for which encoding into a buffer of the announced size fails |
| Encoding.NextNumber | Sources/CArgon2/encoding.c:292-301 | CC and DECIMAL_U32 read what the grammar says |
| Encoding.NextBinary | Sources/CArgon2/encoding.c:304-313 | CC and BIN read what the grammar says |
| Encoding.ParseInto | Sources/CArgon2/encoding.c:315-344 | The reading part fills the context with exactly what the grammar gives |
| Encoding.DecodeString | Sources/CArgon2/encoding.c:258-371 | On any C string and any salt and output buffers, equal ones included: answers by grammar, then validation, then end of string; resets all other fields; lengths only shrink; a string that begins with one of the three type names is accepted under that type number only |
| Encoding.DecodedValid | Sources/CArgon2/encoding.c:355-359 | A context that shows the fields of a valid one passes the validation at the end of decoding |
| Encoding.EncodeThenDecode | Sources/CArgon2/encoding.c:258-438 | What `encode_string` has written for a valid context `decode_string` reads back: it answers OK and restores version, costs, salt and output; any other type gives a decoding failure |
| Verify.Compare | Sources/CArgon2/argon2.c:239-247 | Zero if and only if all bytes agree |
| Verify.HashOfDependsOn | Sources/CArgon2/argon2.c:132-149 | The tag depends on the bytes that count, not on the buffers |
| Verify.Argon2Hash | Sources/CArgon2/argon2.c:100-177 | The error of the first check that fails and nothing changed; else the raw tag, also over password or salt, and the encoded string with the salt as it then is, or a wiped buffer |
| Verify.Argon2VerifyCtx | Sources/CArgon2/argon2.c:342-354 | OK if and only if the tag of the inputs as hashed is the given one, as it is found after the computation |
| Verify.Argon2Verify | Sources/CArgon2/argon2.c:249-313 | OK if and only if the string has the format of this type, with parameters in range and nothing behind, and holds the tag of the password; the exact error otherwise |
| Verify.EncodedHashText | Sources/CArgon2/argon2.c:273-280 | No field is longer than the encoded string, so that the decode buffers suffice |
| Verify.VerifyComparesTags | Sources/CArgon2/argon2.c:100-354 | Verifying any password against an encoded hash answers OK if and only if it has the same tag |
| Verify.VerifyAcceptsHash | Sources/CArgon2/argon2.c:100-354 | `argon2_verify` answers OK on what `argon2_hash` encoded, for all parameters whose encoding is not longer than 2^32 - 1 |
| Verify.VerifyRejectsOtherType | Sources/CArgon2/argon2.c:249-313 | and fails to decode it under any other type |
| Verify.AcceptedIsEncodedHash | Sources/CArgon2/argon2.c:249-313 | An accepted string with a version number reads like the one `argon2_hash` writes for that password and some salt and costs, and is the same if and only if it is ASCII |
| VerifyRefinement.HashIsArgon2 | Sources/CArgon2/argon2.c:100-177 | What `argon2_hash` computes is the Argon2 tag of `Reference` for password, salt, lengths, costs, version and type |
| VerifyRefinement.EncodedHashIsArgon2 | Sources/CArgon2/argon2.c:100-177 | What it encodes is that tag behind its type name, version, costs and salt, letter by letter |
| VerifyRefinement.VerifyIffArgon2 | Sources/CArgon2/argon2.c:249-313 | For ASCII strings with a version number: `argon2_verify` accepts a password if and only if the string encodes an Argon2 tag of this type, computed with this password and the parameters and salt it states |
| BundleHeader.Make | Sources/UltraLockedFormat/BundleHeader.swift:49-86 | The initializer accepts exactly version 1, KDF 1, 16 and 12 bytes, 1 to 10 passes, 8 KiB to 256 MiB, 1 to 8 lanes and manifests of 16 bytes to 1 MiB, and the first check that fails decides the error |
| BundleHeader.Serialize | Sources/UltraLockedFormat/BundleHeader.swift:89-106 | 96 bytes, the fields in order, padded with zeros |
| BundleHeader.HeaderSlices | Sources/UltraLockedFormat/BundleHeader.swift:8-25 | Every field is at its documented offset |
| BundleHeader.ReadIsLittleEndian | Sources/UltraLockedFormat/BundleHeader.swift:164-176 | Or-ing shifted bytes reads a little-endian number |
| BundleHeader.Parse | Sources/UltraLockedFormat/BundleHeader.swift:110-147 | The magic loop, the reserved bytes and the checks, against the fields at their places |
| BundleHeader.ParseSerialized | Sources/UltraLockedFormat/BundleHeader.swift:89-147 | parse(serialize(h) + tail) = h |
| BundleHeader.SerializeParsed | Sources/UltraLockedFormat/BundleHeader.swift:89-147 | serialize(parse(b)) is the first 96 bytes of b: an accepted header has one encoding |
| Manifest.ValidateManifest | Sources/UltraLockedFormat/Manifest.swift:137-151 | The loops accept exactly valid items with pairwise different ids, and name the first error |
| Manifest.Decrypt | Sources/UltraLockedFormat/Manifest.swift:175-191 | A manifest is returned only if it opens, decodes and validates; the first failure decides the error |
| Manifest.SeenOnce | Sources/UltraLockedFormat/Manifest.swift:144-150 | The growing set finds a duplicate id if and only if there is one |
| Manifest.DecryptedManifest | Sources/UltraLockedFormat/Manifest.swift:175-191 | A decrypted manifest is valid and has no more items than its ciphertext has bytes |
| Manifest.OpenSealed | Sources/UltraLockedFormat/ItemRecord.swift:25-74 | A sealed item record is 16 bytes longer than its plaintext and opens to it |
| BundleBuilder.Stage | Sources/UltraLockedFormat/BundleBuilder.swift:64-85 | One descriptor per item, or the error of the first item that cannot be described |
| BundleBuilder.SealItems | Sources/UltraLockedFormat/BundleBuilder.swift:119-136 | Every record has the size its descriptor announces and their 64-bit total does not overflow |
| BundleBuilder.Assemble | Sources/UltraLockedFormat/BundleBuilder.swift:97-151 | The file is header, manifest and records, refused if it is too large |
| BundleBuilder.BundleBuilder.Add | Sources/UltraLockedFormat/BundleBuilder.swift:30-32 | Appends one item |
| BundleBuilder.BundleBuilder.BuildBundle | Sources/UltraLockedFormat/BundleBuilder.swift:59-152 | The first error, or the image of the bundle, which `BundleFile` describes byte by byte |
| BundleParser.RecordRanges | Sources/UltraLockedFormat/BundleParser.swift:82-91 | The records are disjoint ranges behind the manifest and inside the file, in order |
| BundleParser.NeverTruncated | Sources/UltraLockedFormat/BundleParser.swift:88-90 | The guard against truncation in `decrypt(item:)` never fires |
| BundleParser.SessionAlways | Sources/UltraLockedFormat/BundleParser.swift:73-144 | Over every sequence of calls: key and manifest both there or both not, the manifest is the one the key opens, ids unique, sizes within the file |
| BundleParser.LastSettlingCall | Sources/UltraLockedFormat/BundleParser.swift:102-144 | Only the last lock or successful unlock counts; failed unlocks and decryptions leave no trace |
| BundleParser.BundleParser.Open | Sources/UltraLockedFormat/BundleParser.swift:26-43 | A parser is made exactly for files of allowed size with a valid header and room for the manifest, and starts locked |
| BundleParser.BundleParser.UnlockWithKey | Sources/UltraLockedFormat/BundleParser.swift:111-144 | Sets key and manifest together, or fails and changes nothing |
| BundleParser.BundleParser.DecryptItem | Sources/UltraLockedFormat/BundleParser.swift:73-100 | The answer depends on the id of the item alone |
| BundleParser.BundleParser.Lock | Sources/UltraLockedFormat/BundleParser.swift:104-107 | Drops key and manifest |
| BundleParser.SumSizes | Sources/UltraLockedFormat/BundleParser.swift:134 | The 64-bit sum of the item sizes is exact |
| BundleParser.AccumulateOffset | Sources/UltraLockedFormat/BundleParser.swift:83-86 | The offset is where the record of the item begins |
| BundleRoundTrip.BuiltOpens | Sources/UltraLockedFormat/BundleParser.swift:26-43 | Every built bundle opens, with the header that was written |
| BundleRoundTrip.RecordInPlace | Sources/UltraLockedFormat/BundleParser.swift:82-91 | The record of item i is where the parser looks for it: the offsets summed up match the concatenation |
| BundleRoundTrip.ManifestShows | Sources/UltraLockedFormat/BundleBuilder.swift:64-95 | The manifest that is written is the only one of schema 1 that shows label, export date, and of every item id, name, MIME type, size, both dates, both ttl fields, nonce and record size |
| BundleFile.BuiltFile | Sources/UltraLockedFormat/BundleBuilder.swift:87-151 | A built file is ULOCKED1 and the header fields at their offsets, the JSON of that manifest sealed with the manifest key and the header as additional data, and as many bytes more as the records have |
| BundleFile.BuiltItem | Sources/UltraLockedFormat/ItemRecord.swift:25-48 | Behind them, in order, lies every item sealed with its own key and nonce, with header and id as additional data |
| BundleRoundTrip.BuiltUnlocks | Sources/UltraLockedFormat/BundleBuilder.swift:59-152 | With whole-second dates the same key gives a manifest back if and only if the ids are distinct: one that shows every item with its id, name, type, sizes, dates, ttl and nonce, the label and the export date; the builder lets duplicates pass and the parser refuses them |
| BundleRoundTrip.DuplicateIdsBuilt | Sources/UltraLockedFormat/BundleBuilder.swift:59-152 | Two empty items of one id, with manifest and header within the limits, are built into a bundle that opens and cannot be unlocked |
| BundleRoundTrip.RoundTrip | Sources/UltraLockedFormat/BundleParser.swift:26-144 | After any calls, unlocking with the key gives the manifest, which shows the items as they were handed in, field by field, and decrypting item i gives plaintext i |
| Passphrase.Derive | Sources/UltraLockedFormat/Argon2id.swift:43-91 | The derived key is the 32-byte Argon2id tag of the passphrase |
| Passphrase.KeyIsArgon2id | Sources/UltraLockedFormat/Argon2id.swift:43-91 | A derived key is the Argon2id tag of `Reference`: 32 bytes, version 0x13, the passphrase and salt, and the lanes, memory and passes of the parameters |
| Passphrase.DeriveIffEnoughMemory | Sources/UltraLockedFormat/BundleLimits.swift:45-61 | Among the parameters the format allows, a key can be derived if and only if there are 8 KiB of memory per lane |
| Passphrase.AllowedButNotDerivable | Sources/UltraLockedFormat/BundleLimits.swift:45-61 | A valid header that no passphrase unlocks: 8 KiB and two lanes |
| Passphrase.UnlockWithPassphrase | Sources/UltraLockedFormat/BundleParser.swift:47-59 | Unlocks with the key derived from the salt and parameters in the header; a failure of either step changes nothing |
| Passphrase.PassphraseRoundTrip | Sources/UltraLockedFormat/BundleParser.swift:47-59 | A bundle built from a passphrase opens with it, and gives manifest and plaintexts back |

## Left out

- The BLAKE2b compression rounds, its IV and parameter block: the streaming proof holds for any compression function.
- AES-GCM, HKDF and SHA-256: foreign calls, parameters with the laws open(seal) = plaintext, equal lengths and a tag of 16 bytes. Nothing is claimed about secrecy or forgery.
- `JSONEncoder` and `JSONDecoder`: a parameter that is lossless on whole-second dates and needs a byte per item.
- Argon2.Initialize: does not model that `allocate_memory` may fail (Sources/CArgon2/core.c:621-625), which is an error code and no further effect.
- Secure wiping of local buffers, custom allocators and `thread.c`: platform code. The clear flags and the wiped encoding buffer are modelled.
- NULL pointers for the context, the hash state and output buffers, which the code checks at its entry points; NULL password, salt, secret, associated data, hash and encoded buffers are modelled.
- Sums such as `buflen + inlen` and `pwdlen` as `size_t`: lengths are unbounded naturals up to the checks the code makes; `unsigned long` and `size_t` are taken to have 64 bits.
- Encoding.DecodeString: what a failed parse leaves in the fields it has already read is not stated; its buffers stay and its lengths do not grow.
- FillMemory.FillSegment: memory is an array of block values; that the in-place `fill_block` on arrays of words computes the value stored is FillBlock.FillBlock.
- Argon2.FillMemoryBlocksMt: does not model the return codes of runs in which `calloc`, creating or joining a thread fails; `Scheduler` stands for the runs in which all succeed, and `ThreadFailure` for the joins after a failed creation. The run of the threads is the state machine of `Threads`, whose final memory is copied back; offsets are naturals, proved to be below the number of blocks, which is below 2^32.
- Argon2.FillMemoryBlocks: does not model the same return codes, which it passes on.
- Blake2bLong.Blake2bLong: the error returns of the inner `blake2b` calls, which cannot occur for their lengths.
- The 30-byte buffer of `SX`: numbers of 64 bits have at most 20 digits.
- BundleBuilder.BundleBuilder.BuildBundle: random nonces are an argument; a failing encoder is one error; the text of error messages is left out.
- BundleParser.BundleParser.UnlockWithKey: `Data` with a start index other than 0 is normalised by the code and not modelled.
- Buffers that overlap in part: two buffers are the same array or disjoint.
- Platforms on which `char` is unsigned, where bytes above 127 end the text instead of counting as '/'.
- Passphrases are their UTF-8 bytes.
- `Random.swift`, `argon2_error_message` and the per-type wrappers have no content of their own.
- Timing and side channels.
