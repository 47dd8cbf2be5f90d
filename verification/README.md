# Models of libed2k

A verification project for the algorithms at the core of libed2k: the Huffman coder of its bundled deflate
library, the HTTP response parser, the connection queue, the bandwidth manager, the disk cache, the layout of
files in pieces, MD4 and the hashing of files, the send buffer, the bencoding decoder, and the UTF converters.
`dafny verify dfyconfig.toml` checks all of it; nothing here has been executed.

Code that changes objects and arrays in place is modelled by classes and methods with the same fields, loops and
branches, each proved against a function or predicate of values. What the code promises is then proved of these
values, for all inputs or for all runs.

- **Huffman coding** (`BitArith`, `CanonicalCodes`, `InflateTrie`, `InflateTables`, `InflateReader`, `RadixSort`,
  `HuffmanShape`, `HuffmanOptimal`, `MinimumRedundancy`, `LengthLimit`, `DeflateTables`, `HuffmanStream`). The
  encoder collects and sorts symbol counts, computes code lengths in place, limits them, and numbers the codes;
  the decoder fills a lookup table and a tree and reads symbols through a bit buffer. The lengths are optimal
  among all prefix codes; a limit lengthens the codes of frequent symbols only where that is unavoidable. Both sides
  agree on the codes, and every message comes back.
- **HTTP** (`HttpNumbers`, `HttpChunks`, `HttpCollapse`, `HttpParser`, `HttpMessages`, `HttpHeaders`). The parser is
  called with ever more of the same data. Its state is a function of that data, however it was cut up; each header
  line means what is written in it, a body of known length is finished when all of it has arrived, and a chunked body
  is put together in place. A blank size line breaks this, and a negative size makes the parser count bytes twice;
  the exact conditions are proved.
- **Connection queue** (`ConnectionEntries`, `ConnectionQueue`, `ConnectionRuns`, `ConnectionTimer`). The critical
  sections are steps of a machine in which callbacks, posted calls and the timer interleave in any order.
- **Bandwidth manager** (`BandwidthShares`, `BandwidthQueue`, `BandwidthManager`, `BandwidthRuns`,
  `BandwidthDrive`). Requests name up to five channels, possibly shared; quotas are refilled and distributed by
  priority. What becomes of queue, peers and quotas is a function of what happens, and the manager computes that
  function. No limited channel ever gives out more than its rate allows; in use it is refilled at exactly that rate,
  and a lone request is served in time.
- **Disk cache** (`DiskBlocks`, `DiskFlush`, `DiskEvict`, `DiskCache`, `DiskFill`, `DiskPieces`, `DiskInsert`,
  `DiskRoom`, `DiskStore`). A write cache and a read cache of blocks over the pieces on disk. Views never change,
  counters are exact, pieces are in the order in which they may go, and reads succeed whenever the disk can be read
  and room can be made.
- **Bencoding** (`Bencode`, `BencodeSteps`, `BencodeRoundTrip`, `BencodeLimits`, `BencodeDescent`, `LazyDecoder`). The
  decoder works with a stack of pointers into growing arrays. On every text, well formed or not, it does what a
  recursive descent does.
- **Send buffer** (`ChainedBuffer`, `SendSteps`, `SendQueue`). A chain of buffers behaves like a machine on values
  that loses no byte and sends all of them.
- **File layout** (`FileLayout`, `FileStorage`), **MD4 and file hashes** (`Md4Spec`, `Md4Stream`, `FileHash`),
  **UTF** (`UtfCodes`, `UtfRuns`, `UtfExact`, `UtfConvert`).

Some contracts say `true == P(x)` where `P(x)` would mean the same. Written so, the verifier takes the predicate
as one fact instead of unfolding it at every use, which keeps the proofs of callers and loops small.

## Where the code does not do what one would expect

Each of these is a lemma with the failing inputs and a second one with the exact condition.

- A chunk size line of blanks only is read as size 0 until the next line arrives, and as that line's number from
  then on: `HttpChunks.BlankSizeLine`; it happens exactly for blank lines, `HttpChunks.SizeFixedIff`. A size may
  also be negative: `HttpChunks.NegativeSizeLine`. Then, and only then, the next chunk ends before the bytes
  already accounted for, `HttpChunks.TurnsBackIff`, which are accounted for again, `HttpChunks.CountsTwice`.
- If several threads serve the queue, an entry can time out before its connect callback has run, whatever its
  timeout, since that callback runs after the lock is released: `ConnectionRuns.OutOfOrder`; exactly when,
  `ConnectionRuns.OrderKept`. The timer is armed by the first entry only, so that a later one with a shorter
  timeout is noticed late: `ConnectionTimer.LateEntry`; exactly when, `ConnectionTimer.TimelyIff`.
- An encoded integer that 64 bits do not hold comes back as another one: `BencodeRoundTrip.LostInteger`; exactly
  those, `BencodeRoundTrip.RoundTrip`. A length whose low 64 bits are a negative number moves the decoder
  backwards: `BencodeRoundTrip.NegativeLength`; exactly those, for strings `BencodeRoundTrip.LengthIff` and for
  keys `BencodeRoundTrip.KeyLengthIff`. A list that the text does not close is accepted: `BencodeDescent.Unclosed`;
  exactly when the recursive descent comes to the end of the text between two items, `BencodeDescent.DecodesAs`.
- The test for legal UTF-8 passes sequences whose second byte is too small after the first bytes 0xED and 0xF4:
  `UtfRuns.OverlookedExample`; exactly those, `UtfCodes.LegalIff` and `UtfRuns.Exact8`.

## Model

| member | source | states |
|---|---|---|
| InflateTables.HuffTable.Build | src/miniz.c:1511-1532 | building succeeds exactly for a complete code or one with at most one symbol; then lookup table and tree lead from the reversed canonical code of every symbol to that symbol, and the tree never outgrows its array |
| CanonicalCodes.PrefixFree | src/miniz.c:1513-1525 | no canonical code is a prefix of another, if the Kraft sum is at most 1 |
| CanonicalCodes.CanonicalOrder | src/miniz.c:1513-1525 | the rules of section 3.2.2 of RFC 1951: codes of one length ascend with their symbols, without gaps, and every code stands before all longer ones; those of length 1 start at 0 |
| CanonicalCodes.CanonicalExample | src/miniz.c:1513-1525 | the codes of the example in that section |
| InflateReader.DecodeNext | src/miniz.c:1413-1426 | the decoded symbol is the one whose code stands first in the unread bits, and exactly its bits are consumed |
| InflateReader.Fill | src/miniz.c:1395-1407 | near the end of the input the unread bits keep their value, and the last byte taken was needed: without it there was no whole code |
| RadixSort.Sort | src/miniz.c:1819-1833 | the buffer returned holds the entries in order of their keys, entries with equal keys in their old order, and the sum of keys is kept, also when the second pass is skipped |
| HuffmanOptimal.GreedyIsOptimal | src/miniz.c:1836-1847 | lengths read off a greedily joined tree cost no more than those of any other prefix code for the same frequencies |
| MinimumRedundancy.Calculate | src/miniz.c:1836-1854 | the in-place computation gives descending lengths with Kraft sum exactly 1 for any 16-bit keys, even if sums wrap around; they are optimal for sorted keys whose sum fits 16 bits, and at most 30 if the keys are positive |
| LengthLimit.EnforceMaxCodeSize | src/miniz.c:1858-1869 | the loop ends; the number of codes is the same, none is over the limit, and the Kraft sum is exactly 1; counts that respect the limit do not change; codes shorter than a length `low` are left alone, and leaving those of length `low` alone, too, is impossible: even if all longer ones had the limit, the Kraft sum would be over 1 |
| LengthLimit.SplitOne | src/miniz.c:1865-1867 | the code that a round splits is one of the longest below the limit |
| LengthLimit.MovedSums | src/miniz.c:1865-1867 | one round of the loop keeps the number of codes and lowers the Kraft sum by one unit of the longest length |
| DeflateTables.OptimizeTable | src/miniz.c:1871-1904 | exactly the symbols that occur get codes, more frequent ones no longer codes; the decoder accepts the lengths; symbols whose optimal code is shorter than `low` keep its length, and keeping that of those with length `low`, too, is impossible under the limit; all are optimal if the limit cuts none; the codes are the reversed canonical ones |
| HuffmanStream.Encode | src/miniz.c:1906-1915 | the bytes written are the codes of the message one after the other, lowest bit first, padded with zeros |
| HuffmanStream.RoundTrip | src/miniz.c:1871-1915 | what the encoder writes with the table it built, the decoder reads back with the table it builds from the same lengths |
| HttpNumbers.FixedIff | src/http_parser.cpp:348-360 | the number at the start of a complete line does not depend on what follows exactly if the line is not blank |
| HttpChunks.SizeFixedIff | src/http_parser.cpp:344-366 | the same of the size line of a chunk, behind the line end of the chunk before |
| HttpChunks.BlankSizeLine | src/http_parser.cpp:336-417 | a blank size line counts as the last chunk, and as another size once a digit follows |
| HttpChunks.NegativeSizeLine | src/http_parser.cpp:336-417 | a size line with a minus makes a header of negative size |
| HttpChunks.TurnsBackIff | src/http_parser.cpp:253-306 | a round of the chunk loop, on any data, accounts for a complete header exactly, and leaves the next chunk's end before the bytes accounted for exactly if the size is negative |
| HttpChunks.CountsTwice | src/http_parser.cpp:253-306 | after a negative size, the header found further back ends that many bytes before what is then accounted for |
| HttpChunks.HeaderGrows | src/http_parser.cpp:336-417 | unless the size line is blank or negative, a complete chunk header stays what it is when more arrives, and an incomplete one ends beyond what has been seen |
| HttpChunks.ScanGrows | src/http_parser.cpp:245-313 | reading chunks on from where a part of the data left off gives the chunks of all of it |
| HttpChunks.ScanTotals | src/http_parser.cpp:245-313 | up to the current position the data consists of the chunk headers and the chunks, and nothing else |
| HttpParser.Parser.Incoming | src/http_parser.cpp:82-334 | after any calls with growing data, header fields, positions, chunk ranges and the end are those that the data determines; the payload reported is what the bytes of the body have grown by, and the protocol bytes what those of the header and of chunk headers have |
| HttpParser.Parser.GetBody | src/http_parser.cpp:419-428 | the interval lies in the data, holds all chunks, and ends with the last chunk, the content length or the data |
| HttpParser.Parser.CollapseChunkHeaders | src/http_parser.cpp:451-476 | a chunked body is replaced by the data of its chunks, another one stays |
| HttpCollapse.Collapse | src/http_parser.cpp:456-475 | moving the chunks to the front one by one, in place, gives their data in order, although moves overlap |
| HttpMessages.HeaderRead | src/http_parser.cpp:100-243 | a response written as status line, header lines and an empty line is read as written, and the body starts behind it |
| HttpMessages.TransferEncodingLine | src/http_parser.cpp:234-237 | a header line of that name, in any case, decides whether the body is chunked |
| HttpHeaders.DecRead | src/http_parser.cpp:200-203 | a number in decimal writing is read as written, and as the largest of 64 bits if it is larger |
| HttpHeaders.ContentLengthLine | src/http_parser.cpp:191-203 | a line of that name, in any case, with the decimal writing of n sets the content length to n and nothing else |
| HttpHeaders.ContentRangeLine | src/http_parser.cpp:204-233 | a range from a to b, with or without the word bytes, sets its ends and the content length b - a + 1; it is an error exactly if b is less than a |
| HttpHeaders.CodingLine | src/http_parser.cpp:234-237 | the body is chunked exactly if the value begins with that word, in any case |
| HttpHeaders.OtherLine | src/http_parser.cpp:191-237 | a line of any other name changes nothing |
| HttpHeaders.StatusRead | src/http_parser.cpp:130-135 | the status is the number written behind the protocol |
| HttpHeaders.RequestRead | src/http_parser.cpp:136-146 | a first line that does not begin with HTTP/ has status and content length 0 |
| HttpHeaders.EmptyStatus | src/http_parser.cpp:113-118 | an empty first line is an error |
| HttpHeaders.InterimRead | src/http_parser.cpp:169-177 | behind a header with status 100 another one is read, from its status line on |
| HttpHeaders.ResponseRead | src/http_parser.cpp:100-243 | a response with status, content length and other lines is read as written, whatever stands behind it |
| HttpHeaders.ReceivePlain | src/http_parser.cpp:82-428 | a response with a body of known length, cut up in any way, is finished after a call exactly if all of the body has arrived; the body shown is the body, whatever follows; the bytes reported are its size and that of the header |
| HttpMessages.Receive | src/http_parser.cpp:82-476 | a chunked response with extensions and trailer, cut up in any way, is finished with exactly its chunks, and collapsing gives exactly its body; the payload reported is its size, and all other bytes are protocol |
| ConnectionEntries.NextExpiryIsLeast | src/connection_queue.cpp:280-297 | the time noted for the timer is the earliest at which an entry expires |
| ConnectionEntries.SweepExact | src/connection_queue.cpp:280-297 | exactly the connecting entries that expire before the given time leave; they and the others keep their order |
| ConnectionEntries.MarkAt | src/connection_queue.cpp:208-240 | the idle entries with fewer idle ones before them than there are slots connect, each with the time it reads and its own timeout, and their tickets come in this order; all others stay |
| ConnectionEntries.IndexOfFinds | src/connection_queue.cpp:113-119 | looking for a ticket fails exactly if it is not queued |
| ConnectionQueue.ConnectionQueue.Enqueue | src/connection_queue.cpp:68-105 | the new entry, with a new ticket, goes to the back, or to the front if it has priority; a call is posted if a slot is free |
| ConnectionQueue.ConnectionQueue.Done | src/connection_queue.cpp:107-127 | the entry of the ticket leaves and frees its slot if it had one; an unknown ticket changes nothing |
| ConnectionQueue.ConnectionQueue.TryConnect | src/connection_queue.cpp:187-253 | the first idle entries, as many as there are slots, start to connect with their expiries, and their tickets are returned in order |
| ConnectionQueue.ConnectedAt | src/connection_queue.cpp:187-253 | with a free slot, each entry starts or stays according to the idle ones before it; the first of all arms the timer with its own expiry, and only if nothing was connecting |
| ConnectionQueue.StartingCount | src/connection_queue.cpp:187-253 | without a free slot nothing starts; otherwise as many as there are idle entries or slots; an empty queue disarms the timer |
| ConnectionQueue.ConnectionQueue.OnTryConnect | src/connection_queue.cpp:327-331 | the same for a posted call |
| ConnectionQueue.ConnectionQueue.OnTimeout | src/connection_queue.cpp:265-301 | the tickets returned are those of connecting entries that expire less than 100 ms after now; all others stay, and none of those that stay and connect expires so early; the counter falls by their number; the next time is the earliest expiry left |
| ConnectionQueue.ConnectionQueue.Resume | src/connection_queue.cpp:313-325 | after the timeout callbacks the timer waits for the noted time and free slots are used |
| ConnectionRuns.RunSafe | src/connection_queue.cpp:68-331 | in every reachable state the counter is the number of connecting entries and within the limit, no callback has run twice, an idle entry with a free slot has a wakeup coming, and something watches over connecting entries |
| ConnectionRuns.TimeoutAfterIssue | src/connection_queue.cpp:107-331 | a ticket times out or finishes only if its connect callback was issued, never both, and then is gone; a withdrawn one never connects |
| ConnectionRuns.OrderKept | src/connection_queue.cpp:265-325 | timeout callbacks stay behind connect callbacks exactly if no timeout takes an entry whose connect callback is still to run |
| ConnectionRuns.OutOfOrder | src/connection_queue.cpp:212-325 | for every timeout and limit: enqueue, try_connect, the timer going off when due or later, and its handling lead to a timeout before the connect callback |
| ConnectionTimer.TimelyIff | src/connection_queue.cpp:187-325 | over any step from a reachable state the timer stays no later than the earliest expiry exactly if the step's new expiries, or the time it rearms for, are on time |
| ConnectionTimer.LateEntry | src/connection_queue.cpp:212-228 | a second entry is noticed late exactly if it expires before the first |
| BandwidthShares.LeastIsLeast | src/bandwidth_queue_entry.cpp:54-74 | a request gets the least of what it wants and of its share of every binding channel, and one of these is reached |
| BandwidthShares.NoOverdraft | src/bandwidth_queue_entry.cpp:54-74 | the shares that all requests take from a limited channel together are at most what it distributes, also if requests name a channel twice |
| BandwidthShares.Channel.UpdateQuota | src/bandwidth_limit.cpp:60-66 | a limited channel gains its rate for the time, rounded, or stands at three times its limit if that is less |
| BandwidthQueue.GrantSplits | src/bandwidth_manager.cpp:187-206 | a round moves requests out of the queue and conserves them; what they hold grows by exactly their shares |
| BandwidthQueue.ServedRight | src/bandwidth_manager.cpp:187-213 | whoever is served gets something and at most what was asked for |
| BandwidthQueue.KeptExact | src/bandwidth_manager.cpp:143-167 | exactly the requests of peers that are gone are dropped; the others stay as they are, in their order |
| BandwidthQueue.RoundExact | src/bandwidth_manager.cpp:187-206 | each request gets its share and has one tick less; exactly those that have all they want, or something and no tick left, are served; the others stay in their order |
| BandwidthManager.Manager.RequestBandwidth | src/bandwidth_manager.cpp:80-114 | granted at once exactly if no channel is limited; otherwise queued with its limited channels, and the queued bytes stay the sum of what is wanted |
| BandwidthManager.Manager.UpdateQuotas | src/bandwidth_manager.cpp:129-213 | requests of gone peers leave and return what they hold; channels in use are refilled up to three times their limit; requests served are reported in reverse order; every quota changes by exactly that, and no limited channel ends below zero unless it was so after its refill |
| BandwidthManager.QuotaFloor | src/bandwidth_limit.cpp:60-86 | the quota after a round is at least zero, or what it was after the refill if that was negative |
| BandwidthRuns.RunConserves | src/bandwidth_manager.cpp:80-213 | over every run, what a channel was charged is what its requests were delivered and what those queued hold; requests are queued, delivered or dropped, each once |
| BandwidthDrive.Drive | src/bandwidth_manager.cpp:80-213 | whatever happens to a manager, in any order: the peers told and in which order, the answers given at once, the queue, and the quota of every channel are those that the run function computes from what happened, the first quotas and the limits |
| BandwidthDrive.DrivenConserves | src/bandwidth_manager.cpp:80-213 | over every such run, the first quota of a limited channel and its refills, less what is left, are what its peers were told and what queued requests hold |
| BandwidthDrive.RateLimited | src/bandwidth_limit.cpp:60-86 | over every such run, what a limited channel gave out and what is held of it is at most its first quota and limit times time, each step rounded; its quota does not fall below zero, or below where it started |
| BandwidthDrive.RefillIs | src/bandwidth_limit.cpp:60-66 | in a tick a channel in use is refilled by its rate for the time, or up to three times its limit; one that is not in use, by nothing |
| BandwidthDrive.FullRate | src/bandwidth_limit.cpp:60-66 | over every run in which it is in use and stays below the cap, a channel is refilled by exactly what its limit allows |
| BandwidthDrive.LoneServed | src/bandwidth_manager.cpp:129-213 | a request that is alone on one limited channel is served as soon as the ticks are worth what it wants, and at the latest when its time is up |
| BandwidthDrive.AskServed | src/bandwidth_manager.cpp:80-213 | a peer that asks an idle manager is served within twenty ticks |
| DiskBlocks.FlushKeepsView | src/disk_io_thread.cpp:569-690 | writing the cached blocks of a range and dropping them changes no block as seen through cache and disk |
| DiskFlush.Flusher.WriteAll | src/disk_io_thread.cpp:595-648 | runs of neighbouring blocks gathered and written at once leave on disk what writing block by block would; the blocks are counted and the hash position moves on |
| DiskStore.BlockCache.FlushRange | src/disk_io_thread.cpp:569-690 | the cached blocks of the range reach the disk, leave the cache and are reported in order; all counters stay right and all pieces look the same |
| DiskStore.BlockCache.FlushContiguous | src/disk_io_thread.cpp:426-473 | flushes the longest run unless it is below the limit, and nothing else |
| DiskStore.BlockCache.FlushLru | src/disk_io_thread.cpp:501-513 | the first pieces are flushed and leave, until enough blocks are free or none is left; the others stay as they are; no view changes |
| DiskStore.BlockCache.FlushLargest | src/disk_io_thread.cpp:514-526 | the same with the longest runs first: at least as many blocks are freed as any piece had in its longest run; the loop ends |
| DiskStore.BlockCache.FlushCacheBlocks | src/disk_io_thread.cpp:481-567 | the cache shrinks by exactly the number returned; the ignored piece stays; write blocks are touched, or too few freed, only if no piece of the read cache may go any more; if writes may be flushed, as many as asked are freed or none is left, the least recently used pieces or the longest runs first |
| DiskEvict.ClearEnds | src/disk_io_thread.cpp:364-400 | exactly the number asked for is evicted, from both ends in turn or only from the end, and every block in between stays |
| DiskStore.BlockCache.ClearOldestReadPiece | src/disk_io_thread.cpp:338-405 | the least recently used piece that may be touched and has expired gives up the number asked for, from its ends as ClearEnds says, or goes; otherwise nothing changes, and then no other piece may go either |
| DiskStore.BlockCache.MakeRoom | src/disk_io_thread.cpp:892-898 | there is room afterwards exactly if it says so; it says so whenever there is room once all other pieces of the read cache that may go are gone; the piece itself is not touched |
| DiskStore.BlockCache.CacheBlock | src/disk_io_thread.cpp:692-731 | a piece of more than one block enters the write cache with that block; the block is seen with the new bytes and everything else as before |
| DiskInsert.InsertedByExpiry | src/disk_io_thread.cpp:727-729 | a piece goes behind all that may go no later, and the order by expiry stays |
| DiskFill.FillBlocks | src/disk_io_thread.cpp:790-866 | blocks filled from a buffer hold the bytes that the disk has for them, also the short last one |
| DiskStore.BlockCache.ReadIntoPiece | src/disk_io_thread.cpp:735-866 | blocks are read up to the count, the end of the piece or the room; it succeeds exactly if that is at least one block, the allocations suffice and the disk can be read; then their bytes are those on disk; after an error the piece has no blocks |
| DiskStore.BlockCache.CacheReadBlock | src/disk_io_thread.cpp:868-916 | makes room and reads a new piece from the block asked for on, which is cached exactly if that succeeds; it succeeds if the disk can be read, allocations suffice and room can be made; writes and disk are untouched |
| DiskStore.BlockCache.LineToRead | src/disk_io_thread.cpp:886-890 | as many blocks as are left, the cache line, the caller's line and half the free room allow, at least three for the last of these, and one of them is reached |
| DiskStore.BlockCache.IsCacheHit | src/disk_io_thread.cpp:1123-1145 | true exactly if all blocks of the request are cached |
| DiskPieces.RequestEnds | src/disk_io_thread.cpp:1126-1136 | the last block of a request is that of its last byte |
| DiskStore.BlockCache.BlocksToRead | src/disk_io_thread.cpp:1176-1184 | the run of missing blocks, cut to the cache line and to half the free room, but enough for the request, and cut to the caller's line; one of them is reached |
| DiskFill.CopyOut | src/disk_io_thread.cpp:1202-1235 | the bytes copied out of one or two blocks are those on disk; a volatile cache drops exactly these blocks and the cached ones right before them, another one none |
| DiskStore.BlockCache.CopyFromPiece | src/disk_io_thread.cpp:1147-1236 | a request that succeeds yields the bytes on disk; one whose blocks are cached succeeds without reading, any other if the disk can be read, allocations suffice and room can be made |
| DiskStore.BlockCache.TryRead | src/disk_io_thread.cpp:1238-1287 | from any valid state: if the blocks are cached the request succeeds without reading; if the piece is missing and only explicit requests are cached, it fails and nothing changes; otherwise it succeeds if the disk can be read, allocations suffice and room can be made; the bytes are those on disk; the piece then has its new expiry and holds the blocks, unless a volatile cache has dropped them |
| FileStorage.FileStorage.AddFile | src/file_storage.cpp:338-378 | files lie one behind the other, and the total is their sum |
| FileStorage.FileStorage.Optimize | src/file_storage.cpp:528-622 | no file is lost or doubled; files over the limit and over 8 KiB start at a multiple of 8 KiB; a pad file fills up to the next large one, and only where no remaining file fits; otherwise the largest remaining comes first |
| FileStorage.FileStorage.FileAtOffset | src/file_storage.cpp:202-215 | the last file that starts at or before the offset, and it reaches up to it |
| FileStorage.FileStorage.MapBlock | src/file_storage.cpp:217-256 | the slices cover the range exactly, in order, without empty ones |
| FileStorage.SliceStarts | src/file_storage.cpp:217-256 | each slice starts where the sizes before it end, and together they have the size of the range |
| FileStorage.FileStorage.MapFile | src/file_storage.cpp:280-292 | piece and start give back the position in the file, and the start lies in the piece |
| Md4Stream.CountsStep | src/md4.cpp:185-188 | the counter of 29 and 32 bits, with its carry found by comparison, counts modulo 2^61 |
| Md4Stream.Context.Update | src/md4.cpp:179-212 | however a message is cut up, buffer, counters and chaining value are those of the message |
| Md4Stream.Context.Final | src/md4.cpp:214-262 | the digest is that of the padded message, in one or two last blocks |
| Md4Spec.PaddingAt | src/md4.cpp:214-243 | behind the message come 0x80, zeros, and the length in bits in the last eight bytes of a block |
| Md4Spec.OutputAt | src/md4.cpp:246-261 | the digest holds the four words in order, each with its lowest byte first |
| Md4Spec.EmptyDigest | src/md4.cpp:168-177 | the empty message is one block, compressed from the start value |
| FileHash.HashPiece | src/file.cpp:866-890 | succeeds exactly if none of the reads of the piece fails, as many as it has blocks; then the digest is that of its bytes, whatever the block size |
| FileHash.HashFile | src/file.cpp:846-912 | an empty file is told apart; an error is reported exactly if one of the reads that the file takes fails; otherwise the hashes are those of the pieces, with the terminal hash behind whole pieces, and the file hash is that of the list or its only member |
| FileHash.HashesAt | src/file.cpp:864-898 | a file has one hash more than full pieces: that of each piece, and the terminal one if the last is full |
| FileHash.FileHashIs | src/file.cpp:899-907 | a file shorter than a piece has the digest of its bytes, any other that of all its hashes |
| FileHash.PiecesTile | src/file.cpp:864-885 | the pieces put together are the file |
| FileHash.PieceAt | src/file.cpp:864-885 | piece i is the part from i times the piece size on |
| FileHash.PieceSizes | src/file.cpp:864-885 | all pieces but the last have the full size, and none is empty |
| ChainedBuffer.SegmentsArePrefix | src/chained_buffer.cpp:118-136 | segments built for a number of bytes hold the first bytes of the chain |
| SendQueue.Chain.AppendBuffer | src/chained_buffer.cpp:66-83 | the bytes of the buffer come behind all others |
| SendQueue.Chain.Append | src/chained_buffer.cpp:85-116 | succeeds exactly if the last buffer has room, and then adds the bytes; no other buffer changes |
| SendQueue.Chain.PopFront | src/chained_buffer.cpp:38-64 | drops exactly that many bytes, and releases exactly the buffers used up, each once |
| SendQueue.Chain.BuildIovec | src/chained_buffer.cpp:118-136 | as many bytes as asked for, or all |
| SendQueue.Connection.CopySendBuffer | src/base_connection.cpp:80-104 | the bytes come behind those queued, split over the last buffer and a new one; without memory the connection closes |
| SendQueue.Connection.DoWrite | src/base_connection.cpp:56-72 | at most one write is in flight; a new one covers the quota or all, and is started exactly if none is in flight, the connection is open and not limited, and there is something to send and quota for it |
| SendQueue.Connection.AssignBandwidth | src/peer_connection.cpp:2658-2667 | quota ends the rate limit, and a write that covers it or all is started unless one is in flight |
| SendQueue.Run | src/base_connection.cpp:56-254 | over every sequence of messages, completions, errors and limits, the bytes sent, those queued and those in flight are those of the machine on values; sent and queued bytes are the written ones, in order |
| SendSteps.AllAccounted | src/base_connection.cpp:56-254 | the bytes that have left, followed by those queued, are the bytes written |
| SendSteps.AlwaysBusy | src/base_connection.cpp:56-254 | if quotas are positive, bytes never wait without a write in flight, unless for the rate limit or after an error |
| SendSteps.AllSent | src/base_connection.cpp:230-254 | without errors and limits all bytes leave, after no more completions than there are bytes |
| Bencode.WrappedIff | src/lazy_bdecode.cpp:203-212 | cutting integers to 64 bits changes nothing exactly if all of them fit |
| BencodeSteps.AlwaysSafe | src/lazy_bdecode.cpp:95-201 | in every state that the decoder comes to, between and within steps, all stack pointers are good, although growing a list moves its entries |
| BencodeSteps.RunVisits | src/lazy_bdecode.cpp:95-201 | a run that does not fail comes to its last state by such steps |
| LazyDecoder.LazyDecode | src/lazy_bdecode.cpp:95-201 | for any text and limits the decoder ends, with the result of the step function, error or not; it writes through a stack pointer only while that is good |
| BencodeDescent.DecodesAs | src/lazy_bdecode.cpp:95-201 | on every text and for all limits the decoder gives what a recursive descent gives: the same error, the same tree up to the same position, or a stop where the text ends between two items |
| BencodeDescent.Unclosed | src/lazy_bdecode.cpp:106-200 | a list with a complete item that the text does not close is accepted, and what is decoded is incomplete |
| BencodeRoundTrip.Decoded | src/lazy_bdecode.cpp:95-201 | an encoded value within the limits is decoded from exactly its text, whatever follows, to the value with its integers cut to 64 bits |
| BencodeRoundTrip.RoundTrip | src/lazy_bdecode.cpp:95-212 | the value itself comes back exactly if all its integers fit 64 bits |
| BencodeLimits.DecodedIff | src/lazy_bdecode.cpp:95-201 | an encoded value is decoded exactly if it is nested no deeper than the one limit and has fewer values than the other |
| BencodeRoundTrip.LostInteger | src/lazy_bdecode.cpp:203-212 | an integer that does not fit comes back as a different one |
| BencodeRoundTrip.NegativeLength | src/lazy_bdecode.cpp:183-195 | a length that wraps to a negative number is accepted, and the cursor goes back by it |
| BencodeRoundTrip.LengthIff | src/lazy_bdecode.cpp:183-195 | the string of length n is passed over exactly if n has 63 bits and the text is long enough; the cursor goes back exactly if the highest of the low 64 bits of n is set |
| BencodeRoundTrip.KeyLengthIff | src/lazy_bdecode.cpp:127-141 | the same of the key of a dictionary, if anything stands behind its colon |
| UtfCodes.LegalIff | src/ConvertUTF.cpp:295-319 | the test passes exactly the well-formed sequences and the overlooked ones |
| UtfCodes.KnownCodes | src/ConvertUTF.cpp:214-520 | characters with published codes have these in UTF-8 and UTF-16 |
| UtfConvert.ConvertUTF8toUTF16 | src/ConvertUTF.cpp:336-404 | reads, writes and stops as the run of the conversion does |
| UtfConvert.ConvertUTF8toUTF32 | src/ConvertUTF.cpp:462-520 | likewise |
| UtfConvert.ConvertUTF16toUTF8 | src/ConvertUTF.cpp:214-282 | likewise, strict or lenient |
| UtfConvert.ConvertUTF32toUTF8 | src/ConvertUTF.cpp:409-457 | likewise; what is too large is replaced and remembered |
| UtfRuns.Exact8 | src/ConvertUTF.cpp:336-520 | with room enough, a conversion from UTF-8 consumes the longest well-formed beginning, writes its characters, and reports success if that is all, exhaustion if the next sequence is cut short and illegality otherwise, exactly if no overlooked sequence follows |
| UtfExact.Exact16 | src/ConvertUTF.cpp:214-282 | a strict conversion from UTF-16 consumes the longest well-formed beginning and writes its characters; it is exhausted at a high surrogate that is the last unit, and illegal at any other unpaired one |
| UtfExact.Lenient16 | src/ConvertUTF.cpp:214-282 | a lenient one passes unpaired surrogates on, tears no pair, and stops only at the end or at a high surrogate that is the last unit |
| UtfExact.Exact32 | src/ConvertUTF.cpp:409-457 | a conversion from UTF-32 goes on to the end, or if strict to the first surrogate; values above the range are replaced and reported |
| UtfRuns.PrefixLongest | src/ConvertUTF.cpp:336-520 | no longer well-formed text begins the source |
| UtfRuns.Resume | src/ConvertUTF.cpp:214-520 | going on with a fresh target after a full one gives what one large target would |
| UtfRuns.RoundTrip16 | src/ConvertUTF.cpp:214-404 | well-formed UTF-8 goes to UTF-16 and back unchanged |
| UtfRuns.RoundTrip32 | src/ConvertUTF.cpp:409-520 | well-formed UTF-8 goes to UTF-32 and back unchanged |
| UtfRuns.OverlookedExample | src/ConvertUTF.cpp:295-319 | the overlooked sequences after 0xED are read as characters that are encoded otherwise |

## Left out

- InflateReader.DecodeNext: bits that begin with no code at all, which only an incomplete table allows, are not modelled.
- DeflateTables.OptimizeTable: stated for counts whose sum fits 16 bits, as those of a block do: it is flushed when its 64 KiB code buffer is full (src/miniz.c:847, src/miniz.c:2422). The branch for static tables is not modelled.
- HuffmanStream.Encode: the end of the output buffer, where the source drops bytes, is not modelled.
- HttpParser.Parser.Incoming: promises nothing for data with a blank or negative chunk size line, of which HttpChunks.SizeFixedIff and HttpChunks.TurnsBackIff say exactly what they break, nor for the byte counts returned together with an error.
- HttpChunks.BlankSizeLine: the number ends with the buffer; behind a size line and nothing but blanks the source's strtoll goes on into the memory after the buffer, so that even this 0 depends on what lies there.
- HttpMessages.Receive: the contents of trailer lines are skipped and not kept as header fields.
- ConnectionRuns.RunSafe: the limit of the queue is fixed over a run.
- BandwidthManager.Manager.UpdateQuotas: 32-bit overflow of quotas and weights is not modelled.
- DiskStore.BlockCache.FlushRange: all writes succeed; errors of the storage, a failing allocation of the gathering buffer, and other threads while the lock is released are not modelled.
- DiskStore.BlockCache.FlushCacheBlocks: the avoid_readback algorithm is not modelled.
- DiskStore.BlockCache.TryRead: promises success of a request that is not cached only if there is room for twice the blocks of its piece and the caller's line is not a single block, which may be too short for the request. The settings and flags that leave out the read cache are not modelled.
- FileHash.HashFile: the list of hashes is shorter than 4 GiB, as the 32-bit size of MD4_Update demands.
- Md4Stream.Context.Final: the three rounds of MD4 are a parameter, any function from a state and a block to a state.
- FileStorage.FileStorage.MapBlock: file bases, hashes, links and modification times beside the file list are not modelled; a base counts as 0.
- BencodeSteps.AlwaysSafe: what a read through a pointer outside the text yields is not modelled; such a run ends there as OutsideText. Overflow of a signed 64-bit number, which C++ leaves undefined, is modelled as wrap-around.
- Huffman coding: matching, block headers, and the ZIP and PNG parts of src/miniz.c.
- Connection queue: close, changing the limit, and the wrap-around of the ticket counter.
- HTTP: URL parsing, and the truncation of numbers by atoi.
- Disk cache: the job queue, hashing of pieces, flush by age, and statistics.
- UTF: the converters between UTF-16 and UTF-32. Masks and shifts are written as arithmetic.
- Sockets, clocks, threads and memory allocation are parameters or left out.
