# A verified model of the mail system's codecs, pools, locks and logs

This project models the parts of the repository whose behaviour is decided by state, arithmetic
or concurrency, and proves what they promise. Code that updates fields, buffers and maps in place is
modelled by classes and methods with its loops; each method is proved against a specification function
or predicate, and the properties are proved of those for every input, every run or every reachable
state.

| file | component |
|---|---|
| `bytes.dfy` | bytes, 32-bit words, writing into a buffer |
| `base64_text.dfy` | the Base64 format of RFC 2045, section 6.8, and RFC 4648, section 4, as a one-shot function |
| `streams.dfy` | resumable byte machines: calls, windows, sessions |
| `base64_decoder.dfy` | the streaming decoder, character-wise and fast |
| `base64_encoder.dfy`, `base64_encoder_buffers.dfy` | the streaming encoder: its machine and invariant, and the routines over buffers |
| `base64_any_text.dfy` | what the decoder makes of any text, encoded or not |
| `base64_round_trip.dfy`, `base64_progress.dfy`, `base64_line_length.dfy` | round trips in any calls, when the text depends on the calls, that calls get to the end, how long lines get |
| `base64_whole_text.dfy` | the whole encoded text, line ends included, and how it ends |
| `md5_checksum.dfy` | streaming MD5 against sections 3.1 to 3.5 of RFC 1321 |
| `resource_pool.dfy`, `resource_pool_runs.dfy` | the index allocator, and every interleaving of its users |
| `boyer_moore.dfy` | the Boyer-Moore-Horspool search |
| `apple_file.dfy`, `apple_file_packer.dfy` | the AppleSingle/AppleDouble container of RFC 1740, Appendix A |
| `retry_worker.dfy` | the mail-sending worker and its retries |
| `read_write_lock.dfy` | the read-write lock with writer preference, and every interleaving of its users |
| `ip_area.dfy` | the IP-area index |
| `delivery_log.dfy` | the merge of delivery reports |
| `log_protocol.dfy` | the length-prefixed log framing |
| `ngx_base64.dfy`, `dw_string.dfy` | the whole-buffer Base64 coder, line wrapping, replacing |

How the sources are read: a byte is an integer from 0 to 255, and characters are bytes; shifts and masks
are divisions and remainders; where 32-bit wrap-around, carry or truncation matters it is written out.
A thread's step is what it does between taking a mutex and giving it up or waiting on a condition.

What the proofs show about the code that its own comments do not say, with the member that states it:

- The two decoders agree on everything a caller can observe (`Decoder.DecodeFast`). They may leave
  different values in `mLastByte` at a quartet boundary, where no later call reads it (`Decoder.OneChar`).
- The encoder's text does not depend on the calls, with one exception: if `dw_b64encoder_finish` is called
  while the end of a full line is still due and a final line end is wanted, the two line ends become
  one (`TextDependsOnlyOnDangling`). A caller that saw output space left after its last call to encode is
  safe (`RoomLeftIsDrained`).
- The fast encoder does not set `mLineLen` back when it ends a line and does not count what it writes
  behind. `EncodeFast` says by how much one call moves the column away from `mLineLen`; over several calls
  its lines have no bound, for any maximum it accepts (`FastLineNeverEnds`). Called with no input left and
  fewer than four columns free, it puts a line end inside a quartet (`FinishLine`).
- The loop of `dw_b64encoder_encode_fast` over full lines ends, and stays inside the output buffer, if and
  only if the masked maximum is at least four (`LineLoopEndsIff`).
- Of any text, the decoder puts the bytes of the alphabet characters before the first pad, and reports an
  error if and only if a bad character stands there (`AnyText`).
- With the final line end suppressed the encoded text ends in one if and only if its last line is full: by
  characters without padding, or, with padding, if the masked maximum is 0 (`EndsInLineEndIff`).
- `dw_b64encoder_encode` does not end in a padding or done state unless the output buffer is full
  (`EncodeEndsIff`).
- `IsValid` of the AppleSingle reader adds offset and length in 32 bits, so an entry whose end wraps is
  accepted although it is not in the file (`AcceptedEntryIsInside`, `WrappingIsAccepted`). After `IsValid`
  no getter returns an error; but the dates are read from 16 bytes whatever the entry's length, so a
  shorter entry is read past its end, at the end of the file as zeros (`TimesAreSaidIff`).
- `MD5Update` does not end when the bytes buffered and those of the input are 2^32 or more together, and
  `write` casts its size to 32 bits, so a write hashes all of its input if and only if the sum is smaller
  (`UpdateEndsIff`, `WriteIsWholeIff`).
- With `smtp_fail_retry` at 0 a file that asks for a retry is neither kept nor reported, and the books of
  the worker stay right if and only if the queue has not handed out the name before (`FirstKeeps`).
- A thread that waits in `lockAll` comes back without the flag if another calls `releaseAll` meanwhile
  (`LockAllCanReturnUnlocked`); while the flag is set nobody is granted an index (`LockedRunGrantsNothing`).
- The pool and the lock trust their clients: they stay safe if and only if nobody releases what another
  holds (`EveryRunIsSafe` of both).
- An inverted IP range is not equal to itself under `CompareIp`, and can make the search miss an address
  of another range; on every tree all addresses are found right if and only if the entries are rightly
  placed (`EqualToItselfIffProper`, `InvertedLineMisleads`, `FindsRightIffPlaced`). It can also let ranges
  into the store that overlap: an insertion keeps a store disjoint on every tree if and only if the new
  range overlaps none or its search has no gap to end in (`MissedLineOverlaps`, `StaysDisjointIff`). For
  two lines the condition is on the lines themselves (`TwoLinesIff`).
- The Boyer-Moore search ends on every text if and only if no skip amount is a multiple of 256
  (`EndsAlwaysIffUsable`).
- `dw_encode_base64` allocates twice the input, which is enough unless the input is one byte
  (`DoubleIsEnoughUnlessOne`).
- `dw_replace` ends if and only if there is a pattern or no text (`ReplaceEndsIff`).

## Model

| member | source | states |
|---|---|---|
| Base64Decoder.Map64 | service/cpplib/mimepp/src/base64.c:31-87 | the decoding table: the value of each alphabet character, and exactly which bytes are skipped, end the data or are bad |
| Base64Decoder.QuartetMoves | service/cpplib/mimepp/src/base64.c:603-703 | four alphabet characters read at a quartet boundary as one 24-bit number are exactly four moves of the character machine |
| Base64Decoder.Decoder.Start | service/cpplib/mimepp/src/base64.c:534-539 | the decoder is at a quartet boundary without error |
| Base64Decoder.Decoder.OneChar | service/cpplib/mimepp/src/base64.c:542-600 | one character is one move of the machine; mLastByte is then its value, except at the end of a quartet in decode4, which leaves the value before |
| Base64Decoder.Decoder.Decode | service/cpplib/mimepp/src/base64.c:542-600 | one call is the whole run of the character machine over the input there is and the room there is: bytes, positions, state and error flag; nothing else in the buffers changes |
| Base64Decoder.Decoder.Decode4 | service/cpplib/mimepp/src/base64.c:476-531 | goes on with a call up to the end of the current quartet, the end of the data, or the end of a buffer, and never puts more than the quartet still owed |
| Base64Decoder.Decoder.FastQuartet | service/cpplib/mimepp/src/base64.c:603-703 | each round of the inner loop advances, stays one call of the machine, and puts three bytes only against four characters, so testing the input limit alone keeps it inside the output |
| Base64Decoder.Decoder.DecodeFast | service/cpplib/mimepp/src/base64.c:603-703 | from any state and any buffers the fast decoder ends with the same bytes, positions, state and error flag as Decode, terminates, and never writes past mOutLen |
| Streams.CallIsPrefix | service/cpplib/mimepp/src/base64.c:542-600 | a call on less input and a smaller buffer is the beginning of a call on all of it |
| Streams.WindowIsCopied | service/cpplib/mimepp/src/base64.c:542-600 | a call does the same on a copy of its input window, so buffers may be refilled between calls |
| Streams.SessionIsPrefix | service/cpplib/mimepp/src/base64.c:542-600 | however a stream is cut into input chunks and output windows, the calls together do what one call does first |
| Streams.RoomLeft | service/cpplib/mimepp/src/base64.c:149-250 | a call that leaves output space stopped only because nothing more can be done with the input it has |
| Base64Encoder.EncodeKeeps | service/cpplib/mimepp/src/base64.c:149-250 | a whole encode call keeps: text so far without line ends == Base64 of the bytes consumed up to the bits pending in mState and mLastByte |
| Base64Encoder.FinishKeeps | service/cpplib/mimepp/src/base64.c:378-468 | a finish call keeps it too, and at the end the text without line ends is the padded encoding |
| Base64Encoder.EncodeFeedKeeps | service/cpplib/mimepp/src/base64.c:149-250 | one input byte keeps it in each of the three states |
| Base64Encoder.CharsSnoc | service/cpplib/mimepp/src/base64.c:149-250 | how the encoded text of a message changes when one byte joins it, which the three states of the encoder compute |
| Base64Encoder.GroupsKeep | service/cpplib/mimepp/src/base64.c:253-375 | whole groups may be encoded in one go between two quartets |
| Base64Encoder.SixBitPieces | service/cpplib/mimepp/src/base64.c:105-130 | the four six-bit pieces that fast_encode shifts out of a 24-bit number are those of the character-wise encoder |
| Base64EncoderBuffers.EncoderBuffers.SetDefaults | service/cpplib/mimepp/src/base64.c:133-138 | 72 characters per line, LF only, with a final line end |
| Base64EncoderBuffers.EncoderBuffers.Encode | service/cpplib/mimepp/src/base64.c:149-250 | both loops together are one call of the encoding machine, and nothing happens without room in any state; the history of bytes consumed and text emitted matches the buffers |
| Base64Encoder.EncodeEndsIff | service/cpplib/mimepp/src/base64.c:149-250 | a call of encode ends if and only if the output buffer is full or its switch has a case for the state |
| Base64Encoder.PassesReturn | service/cpplib/mimepp/src/base64.c:149-250 | the two loops, counted in passes, return what one run of the machine returns |
| Base64EncoderBuffers.EncoderBuffers.FastEncode | service/cpplib/mimepp/src/base64.c:105-130 | writes the Base64 text of whole three-byte groups and touches nothing else |
| Base64EncoderBuffers.EncoderBuffers.EncodeFast | service/cpplib/mimepp/src/base64.c:253-375 | the whole text of a call: what a slow call puts up to the end of the quartet; a line that fills up the current one, if its rest can be read and fits; full lines of exactly the masked maximum as long as one can be read and fits, each line with the line end of the options; as many whole groups as can be; and what a slow call puts then. The groups behind the last line are shorter than a line and its end, the column moves away from mLineLen by exactly what was not counted, mOutLen is never passed, and the encoder's invariant is kept |
| Base64EncoderBuffers.EncoderBuffers.FinishLine | service/cpplib/mimepp/src/base64.c:323-334 | the current line is filled up to its last quartet and ended by the line end of the options if and only if its rest can be read and it fits with its end, even where no quartet fits on the line; nothing happens otherwise |
| Base64Encoder.LineLoopEndsIff | service/cpplib/mimepp/src/base64.c:338-354 | the loop over full lines, counted in passes, ends, and each pass fits in the output buffer, if and only if the masked maximum is at least one quartet |
| Base64EncoderBuffers.EncoderBuffers.FullLines | service/cpplib/mimepp/src/base64.c:338-354 | lines of exactly the masked maximum, each with the line end of the options, until no further one can be read or fits, inside both buffers although the loop tests only a precomputed input limit |
| Base64EncoderBuffers.EncoderBuffers.Finish | service/cpplib/mimepp/src/base64.c:378-468 | is one call of the finishing machine, and does nothing without output space |
| Base64RoundTrip.LineEndsIgnored | service/cpplib/mimepp/src/base64.c:542-600 | line ends make no difference to what the decoder reaches and produces |
| Base64RoundTrip.DecodesEncoded | service/cpplib/mimepp/src/base64.c:542-600 | the decoder turns the encoding of any byte string back into it, through both padded tails, and knows the end of padded data |
| Base64RoundTrip.DecodesInAnyCalls | service/cpplib/mimepp/src/base64.c:542-600 | any text that is an encoding once line ends are removed decodes without error in whatever calls; before the end the output is a prefix |
| Base64AnyText.AnyText | service/cpplib/mimepp/src/base64.c:542-600 | of any text a call with room puts the bytes of the alphabet characters before the first pad; the error flag is set if and only if a bad character stands there, and the final state counts the characters of the last quartet |
| Base64AnyText.AnyTextInAnyCalls | service/cpplib/mimepp/src/base64.c:542-600 | the same in any calls that come to the end, and before that a prefix of those bytes |
| Base64AnyText.DecodersAgree | service/faceside/src/ngx_base64.cpp:42-83 | any text that the whole-buffer decoder accepts, the streaming decoder turns into the same bytes without error, in any calls |
| Base64RoundTrip.RoundTrip | service/cpplib/mimepp/src/base64.c:149-600 | for every input, line length, line end and every cut of encode, finish and decode into calls: the text without line ends is the Base64 text, and decoding gives the input back |
| Base64Progress.AnyMix | service/cpplib/mimepp/src/base64.c:149-703 | any sequence of encode and encode_fast calls, each with a window of the input and a new buffer, and then of finish calls: it has consumed a beginning of the input, the text carries it, and when it is done with all of it the text is its Base64 and decodes to it in any calls |
| Base64Progress.AlwaysCompletes | service/cpplib/mimepp/src/base64.c:149-468 | four encode calls for each byte and six finish calls, each with input and room, always get to the end |
| Base64RoundTrip.TextDependsOnlyOnDangling | service/cpplib/mimepp/src/base64.c:378-468 | the text is independent of the calls if and only if there is no final line end or finish is not called while the end of a full line is still due |
| Base64RoundTrip.RoomLeftIsDrained | service/cpplib/mimepp/src/base64.c:149-250 | output space left after the last encode call is enough for a caller to know that no line end is due |
| Base64RoundTrip.TextCanDependOnTheCalls | service/cpplib/mimepp/src/base64.c:378-468 | a concrete input and two sizes of buffer that give different texts |
| Base64WholeText.WholeText | service/cpplib/mimepp/src/base64.c:149-468 | the whole text of every complete encoding in calls: the Base64 text of the whole groups with the line end of the options behind each full line, the last one or two bytes with their pads, and a final line end just where it is due |
| Base64WholeText.EndsInLineEndIff | service/cpplib/mimepp/src/base64.c:378-468 | the text ends in the line end of the options if a final one is wanted, and otherwise if and only if there is input without remaining bytes that fills its last line, or remaining bytes and a masked maximum of 0 |
| Base64WholeText.CallLined | service/cpplib/mimepp/src/base64.c:149-250 | whatever a call is given: the text put so far, with a line end that is still due, is its own text without line ends broken in full lines |
| Base64LineLength.LinesAreBounded | service/cpplib/mimepp/src/base64.c:149-468 | in any calls, every line that encode ends has exactly the masked maximum (at least one quartet), and no line of the whole text is longer, padding included |
| Base64LineLength.CallInLine | service/cpplib/mimepp/src/base64.c:149-250 | mLineLen is the column of the text put so far, and the rest of a quartet always fits on the line |
| Base64LineLength.FastLineNeverEnds | service/cpplib/mimepp/src/base64.c:355-368 | the fast encoder's lines have no bound over several calls: for every maximum that it accepts, input in pieces of three bytes becomes one line of any length |
| Base64Text.EncodedLength | service/faceside/src/ngx_base64.cpp:3-40 | encoded text is exactly 4 * ceil(n / 3) characters |
| Base64Text.CharsAreNotEol | service/cpplib/mimepp/src/base64.c:31-40 | no alphabet character is a line end or the pad |
| Base64Text.CharsOfAlphabet | service/cpplib/mimepp/src/base64.c:31-40 | the character of each value is that of the table base64Chars |
| Base64Text.ValuesOfAlphabet | service/cpplib/mimepp/src/base64.c:31-87 | a byte has a value if and only if it is in the table base64Chars, and then its place there; the pad, the line feed and the carriage return are what they are in ASCII |
| Base64Text.EncodedWeighs | service/faceside/src/ngx_base64.cpp:3-40 | the four characters of each started group weigh, by six bits each, what its bytes weigh, most significant first, and are pads exactly where a byte is missing |
| Md5Checksum.PaddingIsLeast | service/cpplib/checksum/md5checksum.cpp:129-145 | the padded message is a whole number of blocks, and no smaller number of zero bytes makes it one |
| Md5Checksum.PaddedBytes | service/cpplib/checksum/md5checksum.cpp:129-141 | the padded message byte by byte: the message, 0x80, zeros, and in the last eight bytes the number of bits modulo 2^64, least significant byte first |
| Md5Checksum.OutputWeighs | service/cpplib/checksum/md5checksum.cpp:232-241 | the four words of the digest in order, each least significant byte first |
| Md5Checksum.InitialBytes | service/cpplib/checksum/md5checksum.cpp:62-66 | the initial words as the sixteen bytes 01 23 .. ef fe dc .. 10 of RFC 1321 |
| Md5Checksum.CounterAdds | service/cpplib/checksum/md5checksum.cpp:106-110 | the two-word addition with its carry counts bits modulo 2^64 |
| Md5Checksum.CounterIndex | service/cpplib/checksum/md5checksum.cpp:106 | bits 3 to 8 of the low word are the length modulo 64, however far the counter has wrapped |
| Md5Checksum.UpdateEndsIff | service/cpplib/checksum/md5checksum.cpp:102-125 | with its 32-bit loop counter an update ends if and only if the bytes buffered and those of the input are together fewer than 2^32 |
| Md5Checksum.WriteIsWholeIff | service/cpplib/checksum/md5checksum.cpp:69-73 | a write ends and hashes all of its input if and only if the bytes buffered and those written are together fewer than 2^32 |
| Md5Checksum.LongWriteNeverEnds | service/cpplib/checksum/md5checksum.cpp:117-118 | one byte buffered and 2^32 - 1 bytes written: the loop does not end |
| Md5Checksum.BlocksAppend | service/cpplib/checksum/md5checksum.cpp:113-119 | the fold over blocks continues over a message that grows |
| Md5Checksum.Checksum.constructor | service/cpplib/checksum/md5checksum.cpp:51-67 | starts an empty message from the RFC's initial state |
| Md5Checksum.Checksum.Reset | service/cpplib/checksum/md5checksum.cpp:56-67 | starts an empty message from the RFC's initial state, whatever was hashed before |
| Md5Checksum.Checksum.TransformBlocks | service/cpplib/checksum/md5checksum.cpp:113-120 | with the counter in 32 bits, the buffered part and the input are folded block by block, leaving less than a block |
| Md5Checksum.Checksum.Update | service/cpplib/checksum/md5checksum.cpp:102-125 | after every update that ends the state is the fold over the complete blocks of the whole message, the buffer its leftover, the counter its length |
| Md5Checksum.Checksum.Final | service/cpplib/checksum/md5checksum.cpp:129-145 | the digest is that of message, 0x80, least zero padding and 64-bit length; the context is cleared |
| Md5Checksum.Checksum.Flush | service/cpplib/checksum/md5checksum.cpp:75-82 | the digest is computed once and stays |
| Md5Checksum.Checksum.Write | service/cpplib/checksum/md5checksum.cpp:69-73 | the message grows by the truncated size, which is all of the input if and only if that and the bytes buffered are together fewer than 2^32 |
| Md5Checksum.DigestOfChunks | service/cpplib/checksum/md5checksum.cpp:102-145 | however a message is cut into writes, the digest is that of the whole message |
| ResourcePool.WalkIsChain | service/cpplib/system/resourcepool.cpp:19-28 | following m_nNextAvailableIndex through the array ends and gives the free list: it is determined by the array |
| ResourcePool.TakeKeeps | service/cpplib/system/resourcepool.cpp:19-28 | taking the head keeps a duplicate-free chain with exactly the other cells marked applied |
| ResourcePool.GiveKeeps | service/cpplib/system/resourcepool.cpp:90-100 | threading a slot back in keeps it |
| ResourcePool.DistinctBelow | service/cpplib/system/resourcepool.cpp:60-64 | a full count of distinct indices is all of them, so comparing the two counters is the test that nothing is out |
| ResourcePool.IndexPool.constructor | service/cpplib/system/resourcepool.cpp:12-17 | a new pool is free and in order, or empty |
| ResourcePool.IndexPool.GetIndexWithoutLock | service/cpplib/system/resourcepool.cpp:19-28 | grants the head of the free list, or npos exactly when locked or empty, changing nothing |
| ResourcePool.IndexPool.ClearWithoutLock | service/cpplib/system/resourcepool.cpp:31-38 | an empty pool with the given flag |
| ResourcePool.IndexPool.ResizeWithoutLock | service/cpplib/system/resourcepool.cpp:40-58 | a new array threaded through all its slots |
| ResourcePool.IndexPool.ApplyPass | service/cpplib/system/resourcepool.cpp:74-88 | one pass of the apply loop: a grant, a refusal, or a wait exactly when unlocked, not empty and exhausted |
| ResourcePool.IndexPool.Release | service/cpplib/system/resourcepool.cpp:90-100 | an applied index returns to the head of the list; any other index changes nothing |
| ResourcePool.IndexPool.AllFree | service/cpplib/system/resourcepool.cpp:60-64 | the counter test is that every index is on the free list |
| ResourcePool.IndexPool.ReleaseAll | service/cpplib/system/resourcepool.cpp:118-122 | only the lock-all flag changes |
| ResourcePoolRuns.ReleaseKeeps | service/cpplib/system/resourcepool.cpp:90-100 | a release keeps the pool safe if and only if the client holds the index or nobody does |
| ResourcePoolRuns.EveryRunIsSafe | service/cpplib/system/resourcepool.cpp:60-122 | in a run of any clients, whatever they release, no index is held twice, an index is free or held but not both, and free plus held is the total, throughout, if and only if each release is by the holder or of an index nobody holds |
| ResourcePoolRuns.EveryStepIsExplained | service/cpplib/system/resourcepool.cpp:60-122 | in every such run each step is a grant while unlocked of an index nobody holds, a release by its holder, a rebuild while nothing is held, or leaves pool and holders alone |
| ResourcePoolRuns.LockAllReturnsIdle | service/cpplib/system/resourcepool.cpp:102-108 | a thread that comes back from waiting in lockAll found every index free |
| ResourcePoolRuns.FlagMoves | service/cpplib/system/resourcepool.cpp:40-122 | the flag is cleared by releaseAll, set when lockAll is called and when lockAllAndResize has rebuilt the pool, and moved by nothing else |
| ResourcePoolRuns.LockedRunGrantsNothing | service/cpplib/system/resourcepool.cpp:74-122 | in every run, whatever is released: from a call of lockAll or the return of lockAllAndResize until releaseAll the flag stays set and nobody is granted an index |
| ResourcePoolRuns.LockAllCanReturnUnlocked | service/cpplib/system/resourcepool.cpp:102-122 | a permitted run in which a thread comes back from lockAll although the flag is no longer set, because another called releaseAll while it waited |
| ResourcePoolRuns.ApplyComesTo | service/cpplib/system/resourcepool.cpp:74-88 | an apply, called or woken up, gets the first free index if and only if the flag is not set and not all indices are held; it waits if and only if the flag is not set, there are indices and all are held; otherwise it comes back with nothing |
| ResourcePoolRuns.WholePoolComesTo | service/cpplib/system/resourcepool.cpp:60-116 | resize, lockAll and lockAllAndResize wait if and only if an index is held; a rebuilt pool has all its indices free, in order |
| ResourcePoolRuns.ReleaseComesTo | service/cpplib/system/resourcepool.cpp:90-100 | an index released by its holder is the next to be granted, and one that nobody holds is ignored |
| ResourcePoolRuns.OthersWaitOn | service/cpplib/system/resourcepool.cpp:74-122 | a step starts or ends the waiting of no other thread, a waiting thread does nothing but wake up, and only an apply can time out |
| ResourcePoolRuns.Perform | service/cpplib/system/resourcepool.cpp:60-122 | every step made on the object itself leaves it in the state that the model of the interleavings says |
| ResourcePoolRuns.ForeignReleaseIsUnsafe | service/cpplib/system/resourcepool.cpp:90-100 | a concrete run of three steps with a foreign release, after which two clients hold one index |
| BoyerMoore.Skip | service/cpplib/mimepp/src/boyermor.cpp:84-89 | the table value of a character is the distance from its last place before the pattern's end, or the length |
| BoyerMoore.SkipIsSafe | service/cpplib/mimepp/src/boyermor.cpp:105 | no skip jumps over a match |
| BoyerMoore.CopiedIsSameIff | service/cpplib/mimepp/src/boyermor.cpp:80 | strncpy copies the pattern if and only if nothing but zeros stands behind a zero byte |
| BoyerMoore.ShortIsUsable | service/cpplib/mimepp/src/boyermor.cpp:84-89 | no skip amount of a pattern of up to 255 bytes is stored as zero |
| BoyerMoore.EndsAlwaysIffUsable | service/cpplib/mimepp/src/boyermor.cpp:105-114 | the search ends on every text if and only if no skip amount is stored as zero in its unsigned char |
| BoyerMoore.Searcher.Assign | service/cpplib/mimepp/src/boyermor.cpp:74-91 | for a pattern of any length the loops leave what strncpy leaves and its skip table modulo 256 |
| BoyerMoore.Searcher.CompareBackwards | service/cpplib/mimepp/src/boyermor.cpp:106-113 | the inner loop reaches -1 if and only if the pattern occurs there |
| BoyerMoore.Searcher.FindIn | service/cpplib/mimepp/src/boyermor.cpp:94-116 | the least occurrence at or after aPos, or -1 if and only if none exists there, for every pattern and every text on which the loop ends; terminates |
| AppleFile.OffsetsTile | service/cpplib/mimepp/src/applfile.cpp:340-403 | the entries follow each other without gap or overlap from the end of the descriptors to the end of the file |
| AppleFile.StageStep | service/cpplib/mimepp/src/applfile.cpp:340-403 | filling in one offset and appending its content completes exactly one more entry and disturbs no other |
| AppleFile.DescriptorDenotesEntry | service/cpplib/mimepp/src/applfile.cpp:190-404 | in a printed container of any entries, each back-patched offset and length denotes exactly its own entry |
| AppleFile.PackedIsAccepted | service/cpplib/mimepp/src/applfile.cpp:457-574 | a printed container of any entries below 2^32 bytes is accepted, with its format and count |
| AppleFile.EntryReads | service/cpplib/mimepp/src/applfile.cpp:684-747 | the first entry with an id is the one that is read for it |
| AppleFile.NoEntryReads | service/cpplib/mimepp/src/applfile.cpp:684-747 | an id that no entry has reads as absent |
| AppleFile.PackThenUnpack | service/cpplib/mimepp/src/applfile.cpp:190-430 | for every choice of entries, all contents and both formats below 2^32 bytes, reading the printed container restores name, times, resource fork, presence, and the data fork in AppleSingle form |
| AppleFile.HeaderBytes | service/cpplib/mimepp/src/applfile.cpp:206-250 | the 26 bytes of the header, magic number and version as in RFC 1740 |
| AppleFile.IdsOfEntries | service/cpplib/mimepp/src/applfile.cpp:252-338 | the entry ids 3, 8, 2 and 1, in this order, each with its content and just for what the file has; an AppleDouble header has no data fork |
| AppleFile.TimesPieces | service/cpplib/mimepp/src/applfile.cpp:361-376 | the four times stand in the order created, modified, backed up, accessed |
| AppleFile.ValidityByBytes | service/cpplib/mimepp/src/applfile.cpp:457-574 | the code of IsValid for any bytes, said of the bytes: too short below 26; a magic number that is none of the two; a version that is not 2; corrupt unless the descriptors are whole and each entry begins behind them and ends, in 32 bits, inside the file |
| AppleFile.ReadsZeros | service/cpplib/mimepp/src/applfile.cpp:640-678 | behind the end of the file zeros are read |
| AppleFile.AcceptedEntryIsInside | service/cpplib/mimepp/src/applfile.cpp:553-557 | an entry of an accepted file lies inside it if and only if its offset plus length does not wrap at 32 bits |
| AppleFile.WrappingIsAccepted | service/cpplib/mimepp/src/applfile.cpp:553-557 | a concrete file that is accepted although its only entry is not in it |
| AppleFile.TimesAreSaidIff | service/cpplib/mimepp/src/applfile.cpp:640-678 | the times read from a dates entry are said by the file up to the entry's end if and only if the entry has at least 16 bytes |
| AppleFilePacker.DwAppleFile.constructor | service/cpplib/mimepp/src/applfile.cpp:30-42 | an AppleSingle file with nothing in it and invalid times |
| AppleFilePacker.DwAppleFile.PackHeader | service/cpplib/mimepp/src/applfile.cpp:206-250 | magic number, version, filler and count |
| AppleFilePacker.DwAppleFile.PackDescriptors | service/cpplib/mimepp/src/applfile.cpp:252-338 | one descriptor per present entry with a blank offset, whose position is remembered |
| AppleFilePacker.DwAppleFile.PackContents | service/cpplib/mimepp/src/applfile.cpp:340-403 | from blank descriptors to all offsets filled in and all contents appended |
| AppleFilePacker.DwAppleFile.Pack | service/cpplib/mimepp/src/applfile.cpp:190-404 | the printed container is the one-pass layout of exactly the present entries; nothing else about the file changes |
| AppleFilePacker.DwAppleFile.SetPackagedData | service/cpplib/mimepp/src/applfile.cpp:180-187 | the bytes are kept and every flag is cleared |
| AppleFilePacker.DwAppleFile.IsValid | service/cpplib/mimepp/src/applfile.cpp:457-574 | the error of every input, in the order of the tests; flags only for what was accepted before stopping; format and count as far as read |
| AppleFilePacker.DwAppleFile.FindEntry | service/cpplib/mimepp/src/applfile.cpp:595-633 | the scan finds the first descriptor with an id if there is one |
| AppleFilePacker.DwAppleFile.GetContent | service/cpplib/mimepp/src/applfile.cpp:684-879 | the content of the flagged entry or nothing; an error exactly for a bad end |
| AppleFilePacker.DwAppleFile.GetFileDatesInfo | service/cpplib/mimepp/src/applfile.cpp:577-681 | the four times of the flagged entry or the invalid date; never an error code |
| AppleFilePacker.DwAppleFile.Unpack | service/cpplib/mimepp/src/applfile.cpp:407-430 | fails if and only if IsValid does, with its code; an accepted container is read whole, and a refused one leaves name, times and forks as they were |
| AppleFilePacker.Transfer | service/cpplib/mimepp/src/applfile.cpp:190-430 | Pack into one object, Unpack into another: the second describes the first one's file |
| RetryWorker.FirstKeeps | service/faceside/src/main.cpp:207-219 | a first attempt conserves the books if and only if the queue has not handed out the name before; the file is then waiting or reported, rather than lost, if and only if retries are enabled or the result is not "retry" |
| RetryWorker.FirstCovers | service/faceside/src/main.cpp:207-219 | a name handed out again takes the place of the first, but no file is forgotten |
| RetryWorker.VisitKeeps | service/faceside/src/main.cpp:223-248 | the visit of a waiting file conserves the books: waiting, reported or lost, only one of these, reported once; counter == attempts; at most smtp_fail_retry + 1 attempts |
| RetryWorker.SweptStep | service/faceside/src/main.cpp:223-248 | one more file of the map is dealt with and no other is touched |
| RetryWorker.Worker.First | service/faceside/src/main.cpp:207-219 | the books after the first attempt |
| RetryWorker.Worker.VisitOne | service/faceside/src/main.cpp:223-248 | the books after one turn of the loop over the map |
| RetryWorker.Worker.Sweep | service/faceside/src/main.cpp:223-248 | every waiting file is visited once, in any order, and stays with its new counter and time or is reported with its result |
| RetryWorker.Worker.PostEmailQueue | service/faceside/src/main.cpp:200-252 | over every run of the loop, with retries enabled or not: every attempt has the result that sending gave in its pass and follows one that asked for it by more than the interval; every report carries the result of an attempt, or says that the attempts are used up, and every result is reported; the files accounted for are exactly those taken, each pass is a first attempt and a sweep, and the books are conserved where the queue hands out no name twice |
| RetryWorker.PassOfTaken | service/faceside/src/main.cpp:207-219 | a new file is tried at once with number 0 and reported with the result, or dropped with retries off, or waits with the time of the attempt unless it is due already |
| RetryWorker.PassOfWaiting | service/faceside/src/main.cpp:223-248 | one pass on a waiting file: used up it is reported so without being tried; due it is tried once and waits again with the time of the pass, or is reported with the result; otherwise it stays as it is |
| RetryWorker.PassOfOthers | service/faceside/src/main.cpp:200-252 | a pass does nothing to a file that neither waits nor is taken |
| RetryWorker.VisitRecorded | service/faceside/src/main.cpp:223-248 | the visit of a waiting file keeps all attempts, waits and reports explained by one another |
| RetryWorker.FirstRecorded | service/faceside/src/main.cpp:207-219 | so does the first attempt |
| RetryWorker.DueFileIsReported | service/faceside/src/main.cpp:200-252 | however sending goes, a file that is due in every pass is reported within the passes that its remaining attempts and one more take, and stays reported |
| RetryWorker.Serve | service/faceside/src/main.cpp:200-252 | from the start: each file taken is waiting, reported or lost, none lost with retries enabled, within the bound on attempts; each report carries the result that sending gave in some pass, or says that the attempts are used up; only one of these, and reported once, where the queue hands out no name twice |
| ReadWriteLock.TimedReadWriteLock.ReadSection | service/cpplib/mutex/timedreadwritelock.cpp:31-45 | one atomic section of a reader is one pass of its loop |
| ReadWriteLock.TimedReadWriteLock.WriteSection | service/cpplib/mutex/timedreadwritelock.cpp:64-79 | one atomic section of a writer, counted as waiting when it waits |
| ReadWriteLock.TimedReadWriteLock.WriterWakes | service/cpplib/mutex/timedreadwritelock.cpp:70-78 | a writer leaves the count of the waiting whether it wakes or times out |
| ReadWriteLock.TimedReadWriteLock.ReleaseSection | service/cpplib/mutex/timedreadwritelock.cpp:91-113 | a reader or the writer goes, or an error when nothing is locked; the last throw is unreachable |
| ReadWriteLock.StepKeeps | service/cpplib/mutex/timedreadwritelock.cpp:31-113 | a step keeps the counts right if and only if it is no release by a thread without the lock while it is held |
| ReadWriteLock.EveryRunIsSafe | service/cpplib/mutex/timedreadwritelock.cpp:31-113 | in a run of any threads, whatever they release, the fields count exactly the readers, the writer and the waiting writers, and a writer excludes readers and writers, throughout, if and only if a thread without the lock releases only when nobody has it |
| ReadWriteLock.ForeignReleaseIsUnsafe | service/cpplib/mutex/timedreadwritelock.cpp:91-113 | a concrete run of three steps with a foreign release, after which one thread writes while another reads |
| ReadWriteLock.WriterIsAlone | service/cpplib/mutex/timedreadwritelock.cpp:31-113 | in every run, thread by thread: while one writes no other reads or writes |
| ReadWriteLock.WritersGoFirst | service/cpplib/mutex/timedreadwritelock.cpp:31-45 | in every run, no step grants a read while a writer waits or writes |
| ReadWriteLock.ReadComesTo | service/cpplib/mutex/timedreadwritelock.cpp:31-45 | a thread that asks to read or wakes up for it reads if and only if nobody writes or waits to write, and otherwise waits, or comes back if it may not wait; no other thread moves |
| ReadWriteLock.WriteComesTo | service/cpplib/mutex/timedreadwritelock.cpp:64-79 | a thread that asks to write or wakes up for it writes if and only if nobody reads or writes, and otherwise waits, or comes back if it may not wait; no other thread moves |
| ReadWriteLock.LeavingComesTo | service/cpplib/mutex/timedreadwritelock.cpp:31-113 | who leaves or times out is outside; a step that a thread cannot make where it is changes nothing |
| ReadWriteLock.ReleaseFailsIff | service/cpplib/mutex/timedreadwritelock.cpp:91-113 | release throws if and only if nobody reads or writes |
| ReadWriteLock.TimeOutGrantsNothing | service/cpplib/mutex/timedreadwritelock.cpp:38-41 | a timeout leaves ownership unchanged |
| ReadWriteLock.TimedOutWriterLetsReadersIn | service/cpplib/mutex/timedreadwritelock.cpp:31-79 | in every such run, a reader that the only waiting writer keeps out gets in once that writer has timed out |
| ReadWriteLock.HoldersRelease | service/cpplib/mutex/timedreadwritelock.cpp:91-113 | in every run, a holder's release succeeds and takes just what it held |
| ReadWriteLock.ReadersAreTraffic | service/cpplib/mutex/timedreadwritelock.cpp:31-113 | in every run, the reader count is the reads granted less the reads released |
| IpArea.MemcmpIsNumeric | service/scanlog_cachedb/iparea.c:62-71 | memcmp of four big-endian bytes is the numeric order of addresses |
| IpArea.EqualToItselfIffProper | service/scanlog_cachedb/iparea.c:62-71 | the comparison is reflexive on a range if and only if the range is not inverted |
| IpArea.EqualIffOverlapping | service/scanlog_cachedb/iparea.c:62-71 | two ranges share an address if and only if they are not inverted and compare equal |
| IpArea.InsertKeepsOrder | service/scanlog_cachedb/iparea.c:124 | inserting where the search ends keeps the ranges strictly ordered if and only if the new one is not inverted |
| IpArea.OrderedEnd | service/scanlog_cachedb/iparea.c:62-71 | among ordered ranges a search ends at an equal one or between the smaller and the greater ones, whatever entries its tree compares with |
| IpArea.EndsExactly | service/scanlog_cachedb/iparea.c:62-71 | on some tree the search can end at each equal entry and in each gap between a smaller and a greater one, and on no tree elsewhere, in any store |
| IpArea.FindsRightIffPlaced | service/scanlog_cachedb/iparea.c:62-133 | for any store, the search ends at the entry where a linear scan stops, for every address and on every tree, if and only if every address of a stored range sorts between the entries before and after it |
| IpArea.SearchesRightIffPlaced | service/scanlog_cachedb/iparea.c:62-133 | entries so placed give every address the area that a scan gives; where no two entries have the same area, no other stores do |
| IpArea.StaysDisjointIff | service/scanlog_cachedb/iparea.c:124-127 | insertion without overwrite keeps a disjoint store disjoint on every tree if and only if the new range overlaps none of the old ones or its search has no gap to end in |
| IpArea.MissedLineOverlaps | service/scanlog_cachedb/iparea.c:75-133 | a file of an inverted and two overlapping proper lines, and a tree on which the store then holds both of these |
| IpArea.TwoLinesIff | service/scanlog_cachedb/iparea.c:62-133 | loaded from any two lines, every address is found right on every tree if and only if the second is not an inverted range that parts the addresses of the first, nor a proper one put on the wrong side of an inverted one |
| IpArea.InvertedLineMisleads | service/scanlog_cachedb/iparea.c:75-133 | a file of an inverted and a proper line, both accepted: an address of the second is missed on a tree that compares with the first one first |
| IpArea.AcceptedIsDisjoint | service/scanlog_cachedb/iparea.c:75-133 | lines that differ from all those accepted before them are pairwise disjoint; with an inverted line the store can hold others (MissedLineOverlaps) |
| IpArea.ScanIgnoresOrder | service/scanlog_cachedb/iparea.c:75-133 | a linear scan of disjoint ranges does not depend on their order |
| IpArea.AreaStore.Search | service/scanlog_cachedb/iparea.c:62-71 | of any key in any store, the search ends as some tree lets it end |
| IpArea.AreaStore.Put | service/scanlog_cachedb/iparea.c:124-127 | any range is stored where its search ends unless that found an equal one, and nothing is overwritten; a proper range in an ordered store is added if and only if it overlaps none |
| IpArea.AreaStore.ReadIpArea | service/scanlog_cachedb/iparea.c:75-133 | of any file the store holds lines of it; of a file without inverted lines exactly those accepted in file order, strictly ordered |
| IpArea.AreaStore.Find | service/scanlog_cachedb/iparea.c:62-71 | in any store a found area is that of a range that contains the address; in one that is rightly placed it is what a linear scan gives, without any other condition |
| IpArea.LoadAndFind | service/scanlog_cachedb/iparea.c:62-133 | of any file a found area is that of a line that contains the address; of a file without inverted lines the search gives what a scan of the accepted lines gives |
| DeliveryLog.MergedRecord | service/scanlog_maillist/findyouallovertheworld.c:311-339 | the final record of a listed mailbox is its first success, or else its last entry, or else none; no mailbox is added |
| DeliveryLog.SuccessStays | service/scanlog_maillist/findyouallovertheworld.c:311-326 | success is absorbing |
| DeliveryLog.NeverAdded | service/scanlog_maillist/findyouallovertheworld.c:311-339 | an unlisted mailbox is never added |
| DeliveryLog.DaysAreNumbered | service/scanlog_maillist/findyouallovertheworld.c:357-367 | each step of the day loop is the next day of 31-day months, and the loop's test is the order of those numbers, so it ends |
| DeliveryLog.DaysRunOut | service/scanlog_maillist/findyouallovertheworld.c:221-230 | from any date to any other the day loop runs out |
| DeliveryLog.DaysRead | service/scanlog_maillist/findyouallovertheworld.c:219-369 | what is read of the logs is the entries of all report lines, in the order of days, files and lines, up to the first removal of the mailing |
| DeliveryLog.Stored | service/scanlog_maillist/findyouallovertheworld.c:302-337 | of a detail the '(' and the text behind it are stored, cut to 199 characters; without one, nothing |
| DeliveryLog.FilesOf | service/scanlog_maillist/findyouallovertheworld.c:242-355 | at most the first 10000 files of a day are read |
| DeliveryLog.MailboxTable.ReadMailBox | service/scanlog_maillist/findyouallovertheworld.c:142-206 | exactly the listed mailboxes become keys without a record; those already there are kept |
| DeliveryLog.MailboxTable.MergeEntry | service/scanlog_maillist/findyouallovertheworld.c:311-339 | one report entry merged into the table |
| DeliveryLog.MailboxTable.ScanFile | service/scanlog_maillist/findyouallovertheworld.c:246-350 | the entries of a file merged in order, up to the line that removes the mailing |
| DeliveryLog.MailboxTable.ScanDay | service/scanlog_maillist/findyouallovertheworld.c:244-355 | the files of a day in order, up to the removal of the mailing or 10000 files |
| DeliveryLog.MailboxTable.ScanDeliverLog | service/scanlog_maillist/findyouallovertheworld.c:209-372 | the reports of all days of the period, in order, up to the removal of the mailing |
| DeliveryLog.Scan | service/scanlog_maillist/findyouallovertheworld.c:142-372 | list and logs to table: each listed mailbox with its first success, else its last report, else nothing, and no other mailbox |
| LogProtocol.StreamParses | service/mtftps/logserver.py:18-37 | frames that were sent are the frames that are parsed, in order, with the unfinished tail |
| Bytes.BigEndian32Weighs | service/mtftps/logserver.py:26 | the four bytes of a length weigh it, most significant first |
| LogProtocol.ParseIsComplete | service/mtftps/logserver.py:18-37 | the parsed frames and the tail are all that was received |
| LogProtocol.FramesGrow | service/mtftps/logserver.py:18-37 | more data changes no complete frame |
| LogProtocol.Receiver.DataReceived | service/mtftps/logserver.py:18-37 | after any chunk the bodies handled are the complete frames of everything received and input_buffer is the tail; or a body could not be loaded, the frames before it were handled and the rest is lost; terminates |
| LogProtocol.ReceiveAll | service/mtftps/logserver.py:18-37 | for every split of a stream into chunks, the records handled are its complete frames up to the first that cannot be loaded, and an exception is raised if and only if there is one |
| NgxBase64.RoundTrip | service/faceside/src/ngx_base64.cpp:3-83 | every byte string comes back from its encoded text, through both padded tails |
| NgxBase64.RoundTripWithoutPads | service/faceside/src/ngx_base64.cpp:42-83 | so it does without the pads |
| NgxBase64.AcceptedIff | service/faceside/src/ngx_base64.cpp:42-83 | a text is accepted if and only if what stands before its first pad is of the alphabet and as long as the text of some bytes |
| NgxBase64.NgxEncode | service/faceside/src/ngx_base64.cpp:3-40 | writes exactly the Base64 text, 4 * ceil(n / 3) characters, and nothing behind it |
| NgxBase64.NgxDecode | service/faceside/src/ngx_base64.cpp:42-83 | 0 and the bytes, or -1 exactly for an invalid character before the first '=' or a rest of one character |
| NgxBase64.Basis | service/faceside/src/ngx_base64.cpp:85-108 | the table holds 77 exactly outside the alphabet |
| NgxBase64.DoubleIsEnoughUnlessOne | service/faceside/src/dwstring.cpp:96 | the buffer of twice the input is large enough if and only if the input is not a single byte |
| NgxBase64.DwEncode | service/faceside/src/dwstring.cpp:88-105 | the text is replaced by its encoding, except that a single byte is not covered |
| NgxBase64.DwDecode | service/faceside/src/dwstring.cpp:107-127 | the text is replaced when it can be decoded and kept otherwise; an empty one is an error |
| DwString.LinesAreFull | service/faceside/src/dwstring.cpp:151-161 | every line is exactly pos characters except a last one of 1 to pos, and the lines are the text |
| DwString.UnwrapUndoesWrap | service/faceside/src/dwstring.cpp:151-161 | removing the inserted separators restores the text, whatever the separator |
| DwString.LineWrap | service/faceside/src/dwstring.cpp:151-161 | the text is its lines joined by the separator; terminates |
| DwString.StripWrapped | service/faceside/src/dwstring.cpp:151-161 | removing CR and LF from a text wrapped with CRLF restores it |
| DwString.WrappedBodyDecodes | service/faceside/src/dwstring.cpp:151-161 | a Base64 body wrapped at any width with CRLF decodes to the original by both decoders, by the streaming one in any calls |
| DwString.FirstInIsFirst | service/faceside/src/dwstring.cpp:140 | no occurrence comes before the one that find gives |
| DwString.PartsAreText | service/faceside/src/dwstring.cpp:129-149 | the parts between the replaced occurrences, with the pattern between them, are the text |
| DwString.PartsLackPattern | service/faceside/src/dwstring.cpp:129-149 | the pattern occurs in none of these parts |
| DwString.Replace | service/faceside/src/dwstring.cpp:129-149 | the same parts with the new string between them, and the number of replacements; what is put in is not searched again |
| DwString.ReplaceEndsIff | service/faceside/src/dwstring.cpp:129-149 | the loop ends if and only if there is a pattern or no text |
| DwString.LoopReplaces | service/faceside/src/dwstring.cpp:129-149 | with a pattern the loop, counted in passes, gives the replaced parts |

## Left out

- Base64EncoderBuffers.EncoderBuffers.EncodeFast: requires mMaxLineLen of at least 4, because LineLoopEndsIff says that below the source does not end and leaves its buffer.
- Base64Decoder.Decoder.DecodeFast: is for unsigned characters. decode and decode4 index the table by a plain char, which where char is signed is outside the table from 128 on, and only the fast loop masks it.
- Base64EncoderBuffers.EncoderBuffers.Encode: with room, requires an encoding state; for the other states EncodeEndsIff says that the source does not end.
- BoyerMoore.Searcher.Assign: requires a pattern that is not empty, because the second loop of the source runs over otherwise, and characters below 128 before the last, because the others index outside the table.
- Md5Checksum.Checksum.Update: MD5Transform is a parameter, any function from state and block to state.
- NgxBase64.DwEncode: does not model the input of one byte, for which the source writes past its buffer.
- DwString.Replace: null pointers are not modelled.
- IpArea.AreaStore.ReadIpArea: takes the lines already parsed; parsing, iconv and the pages of the B-tree are not part of this model, which leaves open which entry a search compares with next. With inverted lines, the exact conditions are on the store, on each insertion and on files of two lines, not on longer files.
- DeliveryLog.MailboxTable.ReadMailBox: takes the list of addresses; finding it in the mailing's file and cutting a line to its address are not part of this model.
- DeliveryLog.MailboxTable.ScanFile: takes lines already parsed into removals, reports and others; the bytes of a record behind its strings are not modelled.
- RetryWorker.Worker.PostEmailQueue: of a queue that hands out a name twice it states only that every file is waiting, reported or lost, and what each pass does; sending, reporting and moving are a parameter and a list.
- ResourcePoolRuns.EveryRunIsSafe: wake-ups may happen at any time, and fairness and progress are not claimed.
- ReadWriteLock.EveryRunIsSafe: a thread that reads twice counts as two threads; which waiter a notification wakes is left open, and progress is not claimed.
- AppleFilePacker.DwAppleFile.GetContent: one method for the three getters that differ in flag, id and field; the other setters, the conversion to Unix time and mErrorCode, which nothing reads, are not modelled.
- LogProtocol.Receiver.DataReceived: what pickle.loads accepts is a parameter; what Twisted does with the connection after an exception is not modelled.
- Overflow of int buffer positions in base64.c, boyermor.cpp and dwstring.cpp: positions are unbounded.
- Failing memory allocation.
- Sockets, HTTP and SMTP loops, files and directories, databases, logging, configuration, templates and the web front end: foreign calls and plumbing.
- The later copies ScanDeliverLog2 and ScanDeliverLog3 and the second iparea.c: the same ideas again.
