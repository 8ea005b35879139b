# TAZeR: the data path, modelled and proved

TAZeR moves blocks of files between servers and clients. This project models the parts of it whose
correctness is not visible in any one function, and proves what they are for:

* the LZ4 block codec: a compressor and a decoder that over-run their buffers' logical ends on purpose,
  against a grammar of the block format and a byte-at-a-time decoder (`Lz4Format`, `Lz4Reference`,
  `Lz4Copy`, `Lz4Decoder`, `Lz4Count`, `Lz4Encoder`, `Lz4Parse`, `Lz4Compressor`, `Lz4`), and what its hash
  tables find (`Buckets`, `Lz4Periods`);
* the HC match finder and its prices (`Lz4Hc`);
* xxHash, one-shot and incremental (`XxHash`), as operations on machine words and on inputs whose hashes are
  published (`Words`, `XxHashVectors`);
* the two reader/writer lock protocols and what their calls come to (`ReaderWriterLock`, `ReaderWriterCalls`,
  `FsReaderWriterLock`, `FsReaderWriterCalls`);
* the write path: the client's buffering, in-order delivery by a thread pool, the server's appending, and
  the three together (`OutputFile`, `DeliveryQueue`, `ServerFile`, `RemoteWrite`);
* the client's read path: block placement in any order of arrival (`InputFile`), and a compressed remote
  read from the request to the caller's buffer (`RemoteRead`);
* packets, which of them are messages, and framing over streams cut anywhere (`Message`, `MessageChecks`,
  `Connection`), and the range clipper of
  downloads (`RangeClip`).

`Arith` and `Bytes` hold what the other modules share. `dafny verify dfyconfig.toml` checks everything.

## How the code is modelled

In-place code is a method over arrays or a class with the source's fields; each is proved against a
function of its input or old state, and the lemmas are about those functions. Buffers that are only read
are sequences of bytes. Protocols are state machines with one atomic operation, one `mkdir`/`rmdir`, or one
queue operation per step, and every statement about them is about all runs of any number of threads. A
thread's private choices (which call to make, which sleeping thread to wake, when the pool looks empty, how a
socket cuts a stream) are arguments of the step or the method, so every statement holds for all of them.

32-bit and 16-bit numbers are kept where the source's width matters: counters of the locks, offsets in the
caller's buffer, packet sizes, xxHash words, LZ4 hashes, offsets and ring indices. File positions and
sequence numbers are unbounded. The platform is 64-bit little-endian.

Some results are exact conditions, because the property does not hold always:

* `ReaderWriterLock.ExclusiveIffThreadsFitCounter`: readers and a writer exclude each other in every run
  exactly when there are at most as many threads as the reader counter has values (65536 per entry of
  `MultiReaderWriterLock`). With one more thread the counter wraps to 0 and a writer enters.
* `FsReaderWriterLock.ExclusiveIffNamesDistinct`: the directory lock excludes in every run exactly when
  all clients have different names. The name is fixed by host and thread when the lock object is made, so
  two threads that share one object share a name.
* `InputFile.SliceIffArrivedAndFit` and `InputFile.InputFile.Read`: a read that asks for something leaves the
  slice in every buffer exactly when all wanted blocks were accepted and the last block's offset in the buffer
  is below 2^32. If that offset is not, the last byte asked for is never written
  (`InputFile.SomeOffsetsDoNotFit` has such a read). One block that is not accepted leaves the others' bytes
  in place: if its request never gets ready it is passed over and the count is returned all the same; if its
  future has nothing in it, as after the last network retry, waiting for it throws, when other blocks may
  have been copied already.
* `RemoteRead.ReadRemote`: a read over the network throws exactly when it needs a block that is in no client-side
  cache and for which the server sends more than the network block size, a guard of the client on the size it
  receives (src/common/Message.cpp:502). What the server sends is a function of the file when it compresses,
  `Lz4Parse.Compressed` of the block, since the compressor is deterministic, and what its cache holds otherwise; so
  ten retries change nothing (`RemoteRead.FetchWithRetries`). Compressed, a full block in which no four bytes occur
  twice is always refused (`RemoteRead.RepeatFreeThrows`), where the same block uncompressed gets through
  (`RemoteRead.CompressedThrowsPlainDoesNot`); a block that repeats with a period of at most 64 gets through,
  unless words of its first period share hash buckets (`RemoteRead.PeriodicPasses`), and so does every block with `CompressBound(|block|) <= networkBlockSize`
  (`RemoteRead.SmallBlocksRead`), which a block of the network block size never is and a short last one may be. The data of a refused
  block stay unread on the connection (`RemoteRead.RecSendBlkMsg`).
* `ServerFile.AppendIsDirectIffAtEnd`: the server appends what it is sent and does not use the position
  (src/server/ServeFile.cpp:472-476). Whatever the bytes, that makes the file that direct writes make
  exactly when the program makes every write at the end of what it has written; and
  `ServerFile.AlwaysRightIffInPlace` is the same for messages executed in any order. `ServerFile.RewindDiffers` is
  an instance where it fails.

Details of the code that differ from the LZ4 Block Format Description, and are modelled as the code has them:
reading a literal length stops within 15 bytes of the end of the input; offset 0 is accepted and yields
zero bytes; the low half of the last token is ignored; with capacity 0 only the single byte 0 is accepted.
The range clipper puts its terminator one past the first free byte, so the byte before it is arbitrary.

## Model

| member | source | states |
|---|---|---|
| Lz4Reference.AcceptsExactlyBlocks | src/common/lz4.c:1290-1438 | the decoder returns `out` for an input exactly when the input is the writing of some block that fits and `out` is that block's expansion |
| Lz4Reference.DecodeFits | src/common/lz4.c:1290-1438 | the writing of a block that fits is readable and decodes to the block's expansion |
| Lz4Reference.CompliantFits | src/common/lz4.c:1312-1336 | a block that obeys the format's end-of-block rules fits every capacity that can hold its data |
| Lz4Reference.DecodeEncoded | src/common/lz4.c:1290-1438 | every compliant encoding of some data decodes to that data, for every capacity that can hold it |
| Lz4Reference.StepWritten | src/common/lz4.c:1290-1432 | decoding one written sequence consumes exactly its bytes and appends exactly its literals and match |
| Lz4Reference.DecodeOnlyWritten | src/common/lz4.c:1290-1438 | whatever the decoder accepts from some point on was written by a block continuing from there |
| Lz4Format.CopyBackAt | src/common/lz4.c:1395-1432 | copying back keeps what is there and repeats the last `offset` bytes with period `offset` |
| Lz4Copy.WildCopy | src/common/lz4.c:321-331 | the 8-byte copy loop within one array copies up to the next multiple of 8 past the end, each byte from its distance back, and touches nothing else |
| Lz4Copy.WildCopyFrom | src/common/lz4.c:321-331 | the same loop from the input |
| Lz4Decoder.TablesAreRepeats | src/common/lz4.c:1275-1276 | the two overlap tables move the match pointer to a multiple of the offset back, for every offset below 8 |
| Lz4Decoder.CopyFirst8 | src/common/lz4.c:1396-1411 | the first eight bytes of a match, near or far, continue the repetition, and the match pointer is left a period behind |
| Lz4Decoder.CopyRest | src/common/lz4.c:1413-1431 | the rest of a match, in 8-byte steps or near the end byte by byte, continues the repetition and writes nothing past the output's end |
| Lz4Decoder.CopyMatch | src/common/lz4.c:1395-1432 | a match copied with overlap tables and over-running copies leaves exactly the bytes that copying one at a time does |
| Lz4Decoder.LiteralLength | src/common/lz4.c:1295-1310 | the length loop computes the specified run length and position |
| Lz4Decoder.MatchLength | src/common/lz4.c:1347-1361 | the match-length loop computes the specified length or the position of its error |
| Lz4Decoder.DecodeMatch | src/common/lz4.c:1338-1432 | offset check, length and copy do what one step of the specification decoder does, error position included |
| Lz4Decoder.DecodeSequence | src/common/lz4.c:1290-1432 | one turn of the loop is one step of the specification decoder, in all exits |
| Lz4Decoder.DecompressSafe | src/common/lz4.c:1245-1447 | the array decoder reports exactly what the byte-at-a-time decoder does, result, bytes and error position, and writes nothing past the declared size |
| Lz4Count.FirstDifference | src/common/lz4.c:366-374 | the trailing zero bits of a nonzero difference, divided by 8, locate its first nonzero byte |
| Lz4Count.DifferenceStep | src/common/lz4.c:449-459 | one 8-byte step either advances the common run by 8 or finds its end |
| Lz4Count.WordStep | src/common/lz4.c:460-470 | two words are equal as little-endian numbers exactly when the run is at least a word long |
| Lz4Count.Count | src/common/lz4.c:446-471 | word steps and tail compute the length of the common run up to the limit, overlapping regions included |
| Lz4Compressor.FindMatch | src/common/lz4.c:643-672 | the search, with its growing step, finds what `Search` does and leaves the table as it does; a found match has equal 4-byte words at a distance from 1 to 65535, in both table modes, more than 12 bytes before the end; table entries stay below the position; the search ends |
| Lz4Compressor.CatchUp | src/common/lz4.c:674-678 | extending a match backwards keeps its distance and its bytes equal, and stays behind the anchor |
| Lz4Parse.AppendSequence | src/common/lz4.c:680-746 | one more sequence whose bytes agree with the source keeps all that has been written a compliant encoding of the source so far, within 256/255 of its length |
| Lz4Parse.CloseBlock | src/common/lz4.c:778-797 | the last literal run completes a compliant encoding of the whole source, within the size bound |
| Lz4Parse.MatchesSound | src/common/lz4.c:702-772 | as a function of source and hash table, the run of matches that follow each other directly encodes what it passes over |
| Lz4Parse.TurnSound | src/common/lz4.c:637-772 | so does a turn of the main loop: search, backward extension, matches |
| Lz4Parse.CompressedByEncodes | src/common/lz4.c:581-801 | what the greedy parse is written as is a compliant encoding of the source within compressBound, in both table modes and at every acceleration |
| Lz4Periods.RunIsShort | src/common/lz4.c:581-801 | a source of more than 13 equal bytes comes out as at most 11 + n / 255 bytes |
| Lz4Periods.Hash4Spreads | src/common/lz4.c:511-516 | every bucket of the 16-bit table gets exactly 2^19 of the 2^32 four-byte words |
| Lz4Periods.Hash5Spreads | src/common/lz4.c:518-526 | every bucket of the 32-bit table gets exactly 2^28 of the 2^40 five-byte words |
| Lz4Periods.PeriodFound | src/common/lz4.c:643-672 | in data that repeats every q <= 64 bytes, its first positions in different buckets, the search goes on one position at a time and finds the first word again at position q |
| Lz4Periods.PeriodicParse | src/common/lz4.c:581-801 | such data is parsed into its first period, one match at distance q and five literals |
| Lz4Periods.PeriodicIsShort | src/common/lz4.c:581-801 | and so comes out as at most q + 11 + n / 255 bytes |
| Lz4Periods.RampIsShort | src/common/lz4.c:581-801 | data whose byte at i is i % 8 comes out as at most 18 + n / 255 bytes, in either table mode |
| Lz4Periods.RampBlock | src/common/lz4.c:581-801 | 64 bytes of it come out as the 18 bytes given |
| Lz4Compressor.EmitMatches | src/common/lz4.c:702-772 | the run of matches without literals writes exactly the sequences of `Matches`, keeps the encoding, leaves at least 5 bytes, and makes progress |
| Lz4Compressor.CompressMatches | src/common/lz4.c:629-776 | the main loop terminates with everything up to the anchor encoded by legal sequences, those of the whole parse |
| Lz4Compressor.CompressGeneric | src/common/lz4.c:581-801 | the output is the writing of the parse, a compliant encoding of the source of at most (256 n + 495) / 255 bytes; unsupported sizes, and only they, give 0 |
| Lz4Compressor.CompressDefault | src/common/lz4.c:803-843 | with compressBound capacity the result is a compliant encoding of at most compressBound bytes, no store leaves the buffer, and only oversized inputs give 0; the bytes are a function of the source, `Compressed` |
| Lz4Encoder.EncodeLiterals | src/common/lz4.c:680-700 | token, length bytes and wildly copied literals are the literal part of a sequence |
| Lz4Encoder.WriteExtFill | src/common/lz4.c:734-742 | the 4-byte 0xFFFFFFFF fills leave exactly the length extension, one byte of 255 at a time, within their spill |
| Lz4Encoder.EncodeMatch | src/common/lz4.c:702-744 | offset and match length, and the token completed after the fact, are one sequence of the format |
| Lz4Encoder.EncodeLast | src/common/lz4.c:778-797 | the last run is written as the format's last literals |
| Lz4Encoder.TokenCompletes | src/common/lz4.c:734-744 | adding the low half to a token written earlier gives the bytes of the whole sequence |
| Lz4.EncodingIsInjective | src/common/lz4.c:1446-1447 | no byte string encodes two different inputs |
| Lz4.RoundTrip | src/common/lz4.c:839-843 | decompressing what LZ4_compress_default wrote gives the input back, for every input size and every capacity that holds it |
| Lz4.RepeatFreeGrows | src/common/lz4.c:581-801 | data in which no four bytes occur twice has no compliant encoding that is not longer than itself |
| Lz4Hc.HcIndex.constructor | src/common/lz4hc.c:150-159 | the empty index indexes nothing yet, for any data |
| Lz4Hc.HcIndex.Insert | src/common/lz4hc.c:162-180 | after inserting up to a position, every hash has its latest index below it and the ring holds the capped distance of every index within 65536 |
| Lz4Hc.HcIndex.InsertAndFindBestMatch | src/common/lz4hc.c:182-232 | the result is the longest common prefix, 4 or more or else 0, over the budgeted most recent same-hash positions within 65535, and the match is the most recent one that reaches it |
| Lz4Hc.ChainStep | src/common/lz4hc.c:194-228 | following a capped 16-bit distance reaches the previous index of the hash, or leaves the window exactly when that does |
| Lz4Hc.TryCandidate | src/common/lz4hc.c:202-211 | the one-byte and 4-byte pre-tests reject only candidates that cannot improve on the best length |
| Lz4Hc.CandidatesComplete | src/common/lz4hc.c:194-228 | with budget enough, every same-hash position in the window is a candidate |
| Lz4Hc.BestIsLongestInWindow | src/common/lz4hc.c:182-232 | with budget enough, the best candidate is the longest match at any of the last 65535 positions |
| Lz4Hc.HashSpreads | src/common/lz4hc.c:141-145 | every bucket gets exactly 2^17 of the 2^32 four-byte words |
| Lz4Hc.SmallBudgetFinds | src/common/lz4hc.c:182-232 | with any budget, a match of at least 4 is found if the word at the position occurs earlier in the window and no other word there shares its bucket |
| Lz4Hc.EncodeSequence | src/common/lz4hc.c:321-387 | the sequence written is one of the format, with the given literals, offset and length, in as many bytes as its price |
| Lz4Hc.PriceExact | inc/tazer/lz4opt.h:125-142 | the price of a sequence is the length of its writing |
| XxHash.OneShot | src/common/xxhash.c:329-387 | the one-shot loop computes the hash function of the xxHash specification, for both widths, which `XxHashVectors` ties to machine words and to published hashes |
| XxHash.StripesAppend | src/common/xxhash.c:679-748 | hashing whole stripes first and then the rest is hashing all of it |
| XxHash.State.constructor | src/common/xxhash.c:429-438 | a reset state stands for no data |
| XxHash.State.FlushBuffer | src/common/xxhash.c:459-473 | completing the buffered stripe and taking it keeps the lanes those of all data up to there |
| XxHash.State.Update | src/common/xxhash.c:440-504 | an update appends its input to the data the state stands for, in every branch |
| XxHash.State.Digest | src/common/xxhash.c:515-548 | the digest is the hash of the data the state stands for |
| XxHash.LengthAdds | src/common/xxhash.c:449-450 | the wrapped length and the flag for inputs of at least a stripe survive adding any length |
| XxHash.Streamed | src/common/xxhash.c:801-918 | reset, any list of updates and digest give the hash of the concatenation |
| XxHashVectors.XorIsBitwise | src/common/xxhash.c:380-384 | exclusive or of numbers is that of the bits of words, 32 or 64 of them |
| XxHashVectors.ShrIsShift | src/common/xxhash.c:380-384 | a shift of a number by any amount is that of the word's bits |
| XxHashVectors.RotlIsRotation | src/common/xxhash.c:251-255 | a rotation of a number by any amount is the word shifted up, with what falls out coming in below |
| XxHashVectors.SeedShiftsLanes | src/common/xxhash.c:344-347 | each of the four lanes starts at the seed's distance from where it starts without one |
| XxHashVectors.EmptyHashes | src/common/xxhash.c:362-387 | the two hashes of the empty input are 0x02CC5D05 and 0xEF46DB3751D8E999 |
| XxHashVectors.LetterHashes | src/common/xxhash.c:374-378 | the two hashes of "a", a byte of tail, are the published ones |
| XxHashVectors.SanityHash | src/common/xxhash.c:711-735 | the 64-bit hash of 14 bytes of xxHash's self test, a word, a half word and two bytes, is the published one |
| XxHashVectors.PhraseHash32 | src/common/xxhash.c:329-387 | the 32-bit hash of a phrase of 39 bytes, two stripes, a word and three bytes, is the published one |
| XxHashVectors.PhraseHash64 | src/common/xxhash.c:679-748 | the 64-bit hash of that phrase, one stripe, a half word and three bytes, is the published one |
| ReaderWriterLock.NextCounts | src/common/ReaderWriterLock.cpp:99-178 | every atomic step keeps the reader counter equal to the number of threads counted as readers, modulo its width |
| ReaderWriterLock.NextOwned | src/common/ReaderWriterLock.cpp:99-178 | every atomic step keeps the flag set exactly while one thread owns it |
| ReaderWriterLock.NextExclusive | src/common/ReaderWriterLock.cpp:99-178 | every atomic step keeps a writer alone, while threads do not outnumber the counter |
| ReaderWriterLock.RunKeepsInvariant | src/common/ReaderWriterLock.cpp:99-178 | every run of any number of threads making reader, writer and try calls keeps all of that |
| ReaderWriterLock.IdleIsClean | src/common/ReaderWriterLock.cpp:99-178 | when all threads are idle both counters are 0 |
| ReaderWriterLock.WrappedCounterLetsWriterIn | src/common/ReaderWriterLock.cpp:99-124 | with one thread more than the counter has values, some run has a writer among readers |
| ReaderWriterLock.ExclusiveIffThreadsFitCounter | src/common/ReaderWriterLock.cpp:99-178 | exclusion holds in every run exactly when the threads do not outnumber the counter's values |
| ReaderWriterLock.LockExclusive | src/common/ReaderWriterLock.cpp:99-178 | the single lock is exclusive in every run of at most 2^32 threads |
| ReaderWriterLock.EntriesAreIndependent | src/common/ReaderWriterLock.cpp:223-272 | what happens to one entry is a run of the single lock by the steps on that entry |
| ReaderWriterLock.EveryEntryExclusive | src/common/ReaderWriterLock.cpp:223-272 | every entry stays exclusive while at most 65536 threads use the lock |
| ReaderWriterCalls.TryReaderOutcome | src/common/ReaderWriterLock.cpp:169-178 | with any other threads in between, tryReaderLock reads exactly when both its loads of the flag gave 0, and comes back without exactly when one did not, within four steps |
| ReaderWriterCalls.TryWriterOutcome | src/common/ReaderWriterLock.cpp:146-155 | tryWriterLock comes back without exactly when its exchange found the flag set, and otherwise writes as soon as it finds no reader counted |
| ReaderWriterCalls.CowardOutcome | src/common/ReaderWriterLock.cpp:157-167 | cowardlyTryWriterLock writes exactly when its exchange found the flag clear and its load found no reader counted, and otherwise comes back within three steps |
| ReaderWriterCalls.WriterOutcome | src/common/ReaderWriterLock.cpp:116-124 | writerLock never comes back without, and writes as soon as it finds no reader counted after it has found the flag clear |
| ReaderWriterCalls.ReaderOutcome | src/common/ReaderWriterLock.cpp:99-110 | readerLock never comes back without, reads only after a load that gave 0, and does when at four of its steps in a row the flag is clear |
| ReaderWriterCalls.CallAndUnlock | src/common/ReaderWriterLock.cpp:99-178 | undisturbed on a free lock every call enters its section, and unlocking restores both counters |
| FsReaderWriterLock.NextMutex | src/caches/FSReaderWriterLock.cpp:97-124 | every step keeps the mutex directory there exactly while one client is inside |
| FsReaderWriterLock.NextDirectory | src/caches/FSReaderWriterLock.cpp:165-195 | with distinct names, every step keeps the readers directory listing exactly the readers |
| FsReaderWriterLock.RunKeepsInvariant | src/caches/FSReaderWriterLock.cpp:165-212 | every run of any number of clients keeps both |
| FsReaderWriterLock.InvariantMeans | src/caches/FSReaderWriterLock.cpp:153-212 | no reader or second writer is in its section with a writer, and while the mutex is free the readers directory exists exactly when some client reads |
| FsReaderWriterLock.SharedNameLetsWriterIn | src/caches/FSReaderWriterLock.cpp:165-208 | two clients with one name have a run in which a writer enters while one of them reads |
| FsReaderWriterLock.ExclusiveIffNamesDistinct | src/caches/FSReaderWriterLock.cpp:126-134 | exclusion holds in every run exactly when all names are distinct |
| FsReaderWriterCalls.ReaderOutcome | src/caches/FSReaderWriterLock.cpp:165-172 | with any other clients in between, readerLock never comes back without, and reads exactly three steps after the one that made the mutex directory |
| FsReaderWriterCalls.WriterOutcome | src/caches/FSReaderWriterLock.cpp:198-208 | writerLock goes on trying while there are readers: it never comes back without, and writes exactly when it has made the mutex directory and then found no readers directory |
| FsReaderWriterCalls.UnlockOutcome | src/caches/FSReaderWriterLock.cpp:174-196 | readerUnlock ends idle, four or five steps after it has made the mutex directory, and nowhere else |
| FsReaderWriterCalls.LockAndUnlock | src/caches/FSReaderWriterLock.cpp:153-212 | a client alone that locks and unlocks leaves the directories as they were |
| OutputFile.WriteAtJoins | src/client/OutputFile.cpp:224-254 | two positional writes, the second where the first ended, are one |
| OutputFile.SeeksCompose | src/client/OutputFile.cpp:349-381 | relative seeks add up, and an absolute one forgets where it was made |
| OutputFile.OutputFile.constructor | src/client/OutputFile.cpp:96-110 | a new file has nothing buffered, sent or written |
| OutputFile.OutputFile.Send | src/client/OutputFile.cpp:235-247 | sending the buffer as the next message makes the messages stand for what the buffered state stood for: the file by positional writes, and the bytes in the order written |
| OutputFile.OutputFile.FlushFull | src/client/OutputFile.cpp:221-252 | the flush loop ends with the rest fitting the buffer, and what it sent and buffered is one write of the part it took |
| OutputFile.OutputFile.Write | src/client/OutputFile.cpp:209-279 | a write changes what the messages will stand for exactly as a direct write at the file position, whatever the early-flush test sees, and advances the position; the buffer ends at the position and index and count agree |
| OutputFile.OutputFile.Seek | src/client/OutputFile.cpp:349-381 | a seek sends the buffer, changes nothing the messages will stand for, and moves the position |
| OutputFile.OutputFile.Close | src/client/OutputFile.cpp:141-156 | after close the messages stand for everything written |
| OutputFile.Session | src/client/OutputFile.cpp:141-381 | for every list of writes and seeks, ended by close, the messages are numbered in order, their positional replay is the file that direct writes make, and their data one behind the other are the bytes written |
| DeliveryQueue.NextKeepsInvariant | src/client/OutputFile.cpp:318-339 | every step of writer, closer and pool threads, sleeping, notification and spurious wake-ups included, keeps each number drawn and not acknowledged in exactly one place, and only the number whose turn it is being sent; and while the queue is not empty some thread is awake or the writer about to notify |
| DeliveryQueue.RunKeepsInvariant | src/common/PriorityThreadPool.cpp:168-204 | every run keeps it |
| DeliveryQueue.DeliveredInOrder | src/client/OutputFile.cpp:318-339 | in every run sends are attempted as 0, 1, 2, ... once each and one at a time, and pending numbers are exactly those from `_sendNum` to `_seqNum - 1`, each once |
| DeliveryQueue.CloseWaitsForAll | src/client/OutputFile.cpp:157-163 | when close's two loads, in either order, have agreed, every number it saw drawn has been sent, and if none was drawn since then nothing is left in queue or threads (that they come to agree is `CloseReturns`) |
| DeliveryQueue.SleepersAreWoken | src/common/PriorityThreadPool.cpp:168-204 | no wake-up is lost: in every reachable state with a nonempty queue, some pool thread is awake or the writer is between queueing and notify_one |
| DeliveryQueue.SmallestIsSendable | inc/tazer/PriorityThreadPool.h:137-141 | unless a thread has it already, the number whose turn it is tops the queue |
| DeliveryQueue.MoveNearer | src/common/PriorityThreadPool.cpp:168-204 | no move of any thread takes the next number further from being sent; a move of the thread that has it brings it nearer, and while it is queued a move of any thread that is awake, or the writer's notification if none is |
| DeliveryQueue.FairRoundsSend | src/client/OutputFile.cpp:318-339 | under every schedule in rounds in which each thread that is awake moves, and the writer queues what it drew and notifies, the next number is sent within 2 * threads + 7 rounds, whichever threads the notifications reach |
| DeliveryQueue.FairSchedulesDeliver | src/client/OutputFile.cpp:318-339 | from every reachable state, such a schedule sends everything drawn so far within that many rounds for each number, `_seqNum - _sendNum` counting down |
| DeliveryQueue.NeverStuck | src/common/PriorityThreadPool.cpp:168-204 | after every run of at least one pool thread some continuation sends everything drawn so far |
| DeliveryQueue.LoadsEnd | src/client/OutputFile.cpp:157-163 | in every reachable state with everything sent, close's two loads in either order, one after the other, end its wait |
| DeliveryQueue.CloseReturns | src/client/OutputFile.cpp:157-163 | from every reachable state in which close begins to wait, every fair schedule in which the writer draws no more and the closer goes on loading ends the wait, all drawn numbers sent, within the rounds of the sends and three more |
| DeliveryQueue.CloseIsReachable | src/client/OutputFile.cpp:157-163 | with any number of pool threads, any number of messages can be sent and closed |
| ServerFile.InPlaceIsRight | src/server/ServeFile.cpp:464-485 | if each message with data is executed when the file ends at the position it asks for, appending makes the file that positional writes in the order sent make, in whatever order the pool executes them |
| ServerFile.OutOfPlaceIsWrong | src/server/ServeFile.cpp:464-485 | if one is not, some bytes of the same lengths make a different file |
| ServerFile.AlwaysRightIffInPlace | src/server/ServeFile.cpp:464-485 | so appending is right whatever the bytes exactly when every message with data is executed in place |
| ServerFile.AppendIsDirectIffAtEnd | src/server/ServeFile.cpp:464-485 | of the program's own calls: appending in the order written is right whatever the bytes exactly when every write is made at the end of what has been written |
| ServerFile.RewindDiffers | src/server/ServeFile.cpp:472-476 | writing "ab", going back and writing "c" appends to "abc" where direct writes make "cb" |
| RemoteWrite.MessagesArriveInOrder | src/client/OutputFile.cpp:141-163 | once close's wait has ended, the messages have been sent once each and in the order they were made, whatever the threads did |
| RemoteWrite.CloseEnds | src/client/OutputFile.cpp:157-163 | every such fair schedule leads to the closed state that the statements about the server's file start from |
| RemoteWrite.ServerFileIsDirect | src/server/Server.cpp:168-190 | the server's file is then the bytes written, one write behind the other, if its pool keeps the order, which is the direct file if every write was made at the end; and in any order it is the direct file if every message is executed in place |
| RemoteWrite.WriteRemotely | src/client/OutputFile.cpp:141-381 | running a program's writes and seeks and close yields messages of which all that holds, for all transfer threads, all their runs until close's wait ends, and all orders of the server's pool; and with every number of threads some run closes |
| InputFile.TilesCover | src/client/InputFile.cpp:386-395 | every byte asked for is in a block from startBlock to endBlock - 1 |
| InputFile.TilesDisjoint | src/client/InputFile.cpp:319-343 | and the parts of two blocks are disjoint and in order |
| InputFile.HighEdge | src/client/InputFile.cpp:319-343 | each part lies inside its block and inside the range asked for |
| InputFile.PlaceBlock | src/client/InputFile.cpp:319-338 | the unsigned 32-bit arithmetic yields the part's place in the block and its size, and the low 32 bits of its offset |
| InputFile.ArrivedByte | src/client/InputFile.cpp:319-343 | with offsets that fit, after any arrivals a byte of the buffer is the file's if its block has arrived and untouched otherwise |
| InputFile.AnyOrder | src/client/InputFile.cpp:397-497 | with offsets that fit, all blocks in any order, and however often, leave exactly the slice in the buffer |
| InputFile.WrappedMisses | src/client/InputFile.cpp:321-341 | otherwise no arrival ever writes the last byte asked for |
| InputFile.SliceIffOffsetsFit | src/client/InputFile.cpp:319-343 | with all blocks in, the slice is in every buffer exactly when the last block's offset is below 2^32 |
| InputFile.SliceIffArrivedAndFit | src/client/InputFile.cpp:319-497 | after any arrivals, the slice asked for is in every buffer exactly when all wanted blocks have arrived and that offset fits |
| InputFile.SomeOffsetsDoNotFit | src/client/InputFile.cpp:321 | there are slices whose last offset does not fit |
| InputFile.AcceptedBytes | src/client/InputFile.cpp:397-497 | offsets fitting, once all accepted blocks have been copied each byte is the file's if its block was accepted and untouched otherwise |
| InputFile.InputFile.constructor | src/client/InputFile.cpp:270-277 | an opened file has the block size and count its size calls for; an empty one stays closed |
| InputFile.InputFile.BlockRange | src/client/InputFile.cpp:386-395 | the 32-bit block numbers are the first block and the one after the last, within the file |
| InputFile.InputFile.CopyBlock | src/client/InputFile.cpp:319-343 | one copy is one arrival |
| InputFile.InputFile.Read | src/client/InputFile.cpp:366-506 | whatever becomes of the wanted blocks' requests and in whatever order they end, a read throws exactly when one is broken and otherwise returns the clipped count and advances the position; the buffer is what the accepted blocks copied make of it, each byte the file's or untouched, and the slice is delivered exactly when all were accepted and offsets fit; at the end of the file it returns 0 and sets the flag |
| RangeClip.Clip | src/caches/UrlDownload.cpp:296-331 | the five cases compute the overlap of the chunk with the range |
| RangeClip.MemoryChunk.WriteMemoryRangeCallback | src/caches/UrlDownload.cpp:293-349 | each call keeps the collected bytes the window of everything received |
| RangeClip.Download | src/caches/UrlDownload.cpp:241-349 | for every chunking the bytes kept are those at positions start to end, in order |
| Message.FillMsgHeader | src/common/Message.cpp:190-196 | the packed header is magic, type, name size and size, and nothing behind it changes |
| Message.Build | src/common/Message.cpp:262-421 | the packet of a named message is header, fields, name and terminator |
| Message.BuildBare | src/common/Message.cpp:352-375 | the packets without a name are header and fields |
| Message.BuildWrite | src/common/Message.cpp:377-392 | the front filled in before data already in place is the packet of the write message |
| Message.EncodedChecks | src/common/Message.cpp:124-183 | every packet built passes checkMsg, whatever stale bytes follow it in the receive buffer |
| MessageChecks.CheckedIsWellFormed | src/common/Message.cpp:124-183 | conversely a packet that passes begins with magic, a known type, a name size and its own length, which is the sum of structure, name and data modulo 2^32 |
| MessageChecks.EncodeParsed | src/common/Message.cpp:124-403 | a packet that passes without wrapping, whose name field is one terminated string and whose flags are 0 or 1, is the writing of the message it is parsed as |
| MessageChecks.CompleteIffMessage | src/common/Message.cpp:124-403 | exactly those packets are writings of messages |
| MessageChecks.PingPacket | src/common/Message.cpp:190-196 | the 20 bytes of a ping |
| MessageChecks.RequestPacket | src/common/Message.cpp:288-302 | the 30 bytes of a request for two blocks of a file |
| Message.CStringIs | src/common/Message.cpp:283-290 | reading a name up to its terminator gives back a name without NUL |
| Message.ParseEncoded | src/common/Message.cpp:283-403 | parsing a packet gives back the message it was built from, for every type |
| Connection.Sender.SendMsg | src/common/Connection.cpp:363-446 | partial sends put a prefix of the message on the wire, and all of it if the socket is steady |
| Connection.SendAll | src/common/Message.cpp:198-209 | a steady socket carries the packets one behind the other |
| Connection.Receiver.RecvMsg | src/common/Connection.cpp:449-510 | partial receives, retries and interrupts leave the next bytes of the stream in the buffer, all of them if the socket is steady |
| Connection.Receiver.ReceivePacket | src/common/Connection.cpp:513-569 | a packet handed on is exactly the next bytes of the stream, and if a message comes next it is that message's packet, whatever the buffer's size and stale contents; what is handed on is headed as a message, and when the stream does not begin with the magic number nothing is |
| Connection.ReceiveAll | src/common/Connection.cpp:513-569 | however the stream is cut, the packets received and parsed are the messages sent |
| Connection.CarryDelivers | src/common/Connection.cpp:449-510 | every cutting of a byte string into pieces and pauses delivers the same bytes |
| Connection.Exchange | src/common/Connection.cpp:363-569 | messages sent in any pieces and received in any other pieces come out as the same list |
| RemoteRead.Compress | src/server/ServeFile.cpp:367-389 | the server's message is `Compressed` of the block, or of what there is of the last one, whatever else its buffer holds, and so a compliant encoding of it |
| RemoteRead.SendData | src/server/ServeFile.cpp:391-413 | structure, name and data go on the wire one after the other; the data are the compressed block, or what the server's cache holds |
| RemoteRead.RecSendBlkMsg | src/common/Message.cpp:473-528 | the client recovers name, number and data of the block; or, when the data are larger than its limit, refuses it and leaves them unread in front of what follows |
| RemoteRead.CapacityIsBlockSize | src/caches/NetworkCache.cpp:174-184 | for every block a file has, the size computed for decompression is the network block size and holds the block |
| RemoteRead.Decompress | src/caches/NetworkCache.cpp:132-149 | decompressing an encoding of the block into that capacity gives the block |
| RemoteRead.TakeReply | src/caches/NetworkCache.cpp:190-227 | the reply is taken exactly when the message is at most the network block size, and then holds the block |
| RemoteRead.FetchBlock | src/caches/NetworkCache.cpp:152-245 | one request over steady sockets succeeds exactly when the message is at most the network block size, returns the block, compressed or not, and leaves nothing unread; otherwise the message is left unread |
| RemoteRead.FetchWithRetries | src/caches/NetworkCache.cpp:258-286 | if what the server sends for the block is at most the network block size, one attempt makes the future hold the block; otherwise eleven attempts are refused and the future has nothing in it |
| RemoteRead.RepeatFreeBlockRefused | src/common/Message.cpp:502-509 | a full block in which no four bytes occur twice is always refused |
| RemoteRead.FourBytesRefused | src/common/Message.cpp:502-509 | for instance the block 1, 2, 3, 4 when the network block size is 4 |
| RemoteRead.RefusedUncompressed | src/server/ServeFile.cpp:391-413 | an uncompressed read is refused exactly when the server's cache holds more than the network block size for a needed block |
| RemoteRead.RepeatFreeThrows | src/common/Message.cpp:502-509 | a compressed read that needs a full uncached block in which no four bytes occur twice throws |
| RemoteRead.RunPasses | src/common/Message.cpp:502-509 | a block of more than 13 equal bytes gets through compressed, full or not |
| RemoteRead.PeriodicPasses | src/common/Message.cpp:502-509 | so does one that repeats with a period of at most 64, its first words in different buckets |
| RemoteRead.RampPasses | src/common/Message.cpp:502-509 | and one whose byte at i is i % 8 |
| RemoteRead.RampReads | src/common/Message.cpp:502-509 | reading a file of 64 such bytes in one full block does not throw |
| RemoteRead.SmallBlocksRead | src/common/Message.cpp:502-509 | a compressed read does not throw if the worst-case size of each needed uncached block is within the network block size |
| RemoteRead.ShortLastBlockReads | src/server/ServeFile.cpp:367-389 | for instance the last byte of any file of 21 bytes in blocks of 20 |
| RemoteRead.CompressedThrowsPlainDoesNot | src/common/Message.cpp:502-509 | reading 1, ..., 8 in blocks of 4, the network block size, throws when compressed and not otherwise |
| RemoteRead.ReadRemote | src/client/InputFile.cpp:366-506 | a remote read throws exactly when some block it needs is not cached and what the server sends for it, a function of the file if compressed, is larger than the network block size; the slice of the server's file, the last partial block included, is left in every buffer exactly when it did not throw and offsets fit, and in any case each byte is the file's, cached blocks' certainly, or untouched; every uncached block was sent once, or eleven times if refused |

## Left out

- Lz4Decoder.DecompressSafe: the empty input, and a one-byte input that announces a length byte, are excluded; the code reads past its input there.
- Lz4Compressor.CompressDefault: only the mode with compressBound capacity; `limitedOutput`, dictionaries, streaming, destSize and accelerations so large that the shifted counter wraps are not modelled.
- Lz4Hc.HcIndex.InsertAndFindBestMatch: no external dictionary; the wider-match search, the hash-chain parser and the binary-tree optimal parser are heuristics over it and are not modelled.
- XxHashVectors.RotlIsRotation: bit vectors are shifted one place at a time, as often as the amount says.
- XxHash.State.Digest: the 64-bit state counts 64 bits of length, so the statement is for less than 2^64 bytes; alignment and big-endian variants are not modelled.
- ReaderWriterLock.RunKeepsInvariant: `fairWriterLock` and `fairWriterUnlock` are not among the calls; their ticket tests do not implement ticket order.
- FsReaderWriterLock.RunKeepsInvariant: directory operations are atomic and do not fail for other reasons; the fcntl lock of `FcntlReaderWriterLock.cpp` is not modelled.
- OutputFile.OutputFile.Write: uncompressed, one file position; the size estimate in `_fileSize` and a write racing with close are not modelled.
- OutputFile.OutputFile.Seek: `SEEK_END`, and seeks to negative offsets, which the unsigned position wraps.
- OutputFile.OutputFile.Close: one close; a second one would send the buffer again, since the count is not reset.
- DeliveryQueue.DeliveredInOrder: sequence numbers are unbounded where the code has 32 bits; a failed send counts as attempted, as in the code.
- DeliveryQueue.NeverStuck: the pool is alive throughout; `terminate`, which wakes all threads and ends their loops, is not modelled. Taking the queue's lock, testing the queue and popping or beginning to wait is one step.
- InputFile.InputFile.Read: a block that is decompressed to nothing, which the code marks ready with a null pointer, does not occur here: `RemoteRead` proves that decompression succeeds. Prefetching, statistics and the cache levels themselves are not modelled. `LocalFile.cpp` repeats the same arithmetic.
- RangeClip.MemoryChunk.WriteMemoryRangeCallback: element size 1, positions below 2^32, and no failing allocation.
- Connection.Receiver.ReceivePacket: a result below the header's 20 bytes is possible only when stale header bytes and a wrapping name size agree; nothing is stated about it.
- Connection.Sender.SendMsg: restarting sockets after an error, polling and the choice among sockets are not modelled.
- RemoteRead.FetchBlock: the connection has nothing unread when the request is made, and `Config::socketRetry` is 1, as configured. Compression level 0 (LZ4_compress_default), block sizes up to LZ4's input limit.
- RemoteRead.FetchWithRetries: what the server's cache holds for the block is the same at every attempt. The eleven connections are different and clean. The pool hands out another connection for the next attempt, but one that refused goes back into the pool with its data unread, and may be handed out again later; what a request on it makes of those bytes is not modelled.
- ServerFile.AppendIsDirectIffAtEnd: the pool has executed every message; `writeData` drops one only while the file object is being destroyed, when its lock cannot be taken. Restarted and several sessions on one server file are not modelled.
- RemoteRead.ReadRemote: client and server agree on the block size, as they do when configured alike.
- `sendSendBlkMsg` (which does not set the data size), the connection pool's choice by measured rates, curl, memory mapping and the preloaded POSIX wrappers are not modelled.
