# Golly, modelled and verified

A Dafny model of eight source files of the Golly libraries for Go, with proofs of what their code is
for. The loops that fill buffers, sort, filter and walk are methods over arrays and class fields; each is tied
to a function of its input, and the properties are proved about that function.

| files | source | main results |
|---|---|---|
| `LzfFormat`, `LzfDecoder`, `LzfMatcher`, `LzfCompressor`, `LzfGreedy`, `LzfPeriod`, `LzfSuccess` | `lzf/lzf.go` | decompressing what was compressed gives the input back; exactly which tokens Compress emits, and when it has a result; inputs of any period up to 8192 are compressed; the decoder accepts exactly the token streams that fit; when each ends in nil or in an index out of range |
| `RingSpec`, `Ring`, `RingRuns` | `hash/ring.go` | removing a node disturbs nobody else; when adding one steals only for itself; buckets are conserved over whole runs |
| `AsyncLog`, `AsyncBarriers`, `AsyncClose`, `AsyncCrash`, `AsyncProgress` | `log/handler.go` | first-in first-out without loss; Flush is a barrier in every interleaving; when Close is one; when a call meets a closed channel, and what a caller can do against it; that every call can complete, but for one kind of stuck Flush |
| `Url` | `url/url.go` | unquoting undoes quoting; exactly which strings and custom safe sets allow that; exactly when unquoting fails |
| `Pbkdf2` | `crypto/crypto.go` | the in-place loops compute the key of section 5.2 of RFC 2898 |
| `Dict` | `structure/dict.go` | a chained table on the heap refines a map |
| `PrefixTree` | `structure/prefixtree.go` | the readers return exactly the stored prefixes, and never fail without an empty label |
| `Accept` | `httputil/httputil.go` | when the option order is a strict weak order; which offers are preferred, in which order |

`Bytes` has the machine-sized numbers they share. `dafny verify dfyconfig.toml` checks everything.

## How the models are read

**LZF.** A stream is a list of tokens (literal run, back reference) with a meaning and a byte code; reading and
writing one token are inverse. `Expand` is the recursive token decoder, and `Decompress` equals it on every
input. A token takes at most two bytes for each byte it produces and the declared length is below 2^30, so the
index into the input stays below 2^31 + 4 and none of its sums wraps around. One `uint32` difference does, for
a back reference to before the start, and the check after it lets the access out of range through: this is the
outcome `IndexFailure`, and `DecompressedFails` says on exactly which inputs it happens.
`Step`, `Run` and `Finish` are the greedy matcher over tokens, with the hash table but without the buffer;
`Compress`, which reserves control bytes and fills them in later, equals them. Positions in the hash table are
never trusted, so the round trip does not depend on the hash. What is emitted does: `LzfGreedy` says it without
machine, table or buffer, from the positions entered so far (`LastUnder`), the longest match (`Longest`) and the
room left (`HasRoom`); such a list of items is unique, and there is a result exactly when one exists.

**Ring.** The checksum and the digest are arbitrary functions; `sort.Sort` is known only to give a sorted
arrangement, in any order among equal ids. `Owners(b, c)` is the order in which the distinct nodes are met
clockwise from hash value `c`; `Find` and `FindMultiple` return its first elements.

**Asynchronous handler.** Each call of Log, Flush or Close is a process; `Step` says what each can do next to the
four channels, the run goroutine and the trace of events. A run is any list of actions. The methods of `async`
have value receivers, so the mutex and `closed` are copies in each call and nothing here relies on them.
Properties are about the trace of every run. `AsyncProgress` is about what can still happen: from every state
reached before Close is called some continuation completes each call under way.

Where the code does not do what its comments or its shape suggest, the code is kept and the exact condition
is proved: `DecompressedFails` (a reference before the start is not always answered with nil),
`AddStealsOnlyForItself` (nodes that share an id can change places when a third is added), `CloseBarrierExactly`
(two closers and a buffered queue can close the wrapped handler early), `CrashOnlyByLateSend` (a Log or Flush
that comes after Close can end the program, as in `LateLogCrashes`; `QuietNeverCrashes` is the rule that
prevents it), `FlushReturnsExactly` and `StuckExactly` (two Flush calls requested together get one wake-up, so that
with a buffered queue one of them can wait until another call of Flush or Close), `CompressedRoundTrips` (of 2^32 bytes or more only uint32(len) come back, as in `LongRunIsCutOff`),
`CustomRoundTripOf` (a safe `%` or `+` breaks unquoting of the strings that hold it), `ConsideredWhenSorted` (the
loops stop at weight zero only, so an option of negative weight counts when no option has weight zero, and one
of weight NaN when none before it has; `NegativeWeightIsChosen` is such a header), `LessIsStrictWeakOrder` and
`WeakOrderExactly` (a weight NaN ties with everything, so a sort can leave options out of order, as in
`NaNHidesDisorder`), `AcceptsAgreesExactly` (an `identity` option hides the options after it from `Accepts` but
not from `FindPreferred`).

## Model

| member | source | states |
|---|---|---|
| LzfFormat.CopyBackIsPeriodic | lzf/lzf.go:280-295 | copying a back reference byte by byte gives the one extension of the output with that period, also when source and target overlap |
| LzfFormat.ParseEncode | lzf/lzf.go:28-50 | every token of the format is read back from its bytes, whatever follows them |
| LzfFormat.EncodeParse | lzf/lzf.go:28-50 | whatever is read is a token of the format and takes exactly the bytes it is written with |
| LzfFormat.EncodeAllInjective | lzf/lzf.go:28-50 | no byte string is the code of two token lists |
| LzfDecoder.WorkedStream | lzf/lzf.go:28-50 | a worked stream in bytes: a literal run, a copy in two bytes, an overlapping one in three, padding |
| LzfDecoder.ExpandAccepts | lzf/lzf.go:217-299 | the decoder accepts a stream with result r if and only if it is the code of tokens that mean r and r fits the declared length |
| LzfDecoder.ExpandFails | lzf/lzf.go:217-299 | it is rejected, or runs into an index out of range, exactly when some tokens lead to a token with that verdict (cut off, too long, before the start, wrapped around) |
| LzfDecoder.DecompressedAccepts | lzf/lzf.go:198-303 | on an input of any size bytes are returned exactly for a declared length below the limit and a token stream that fits it, and they are its meaning padded with zeros |
| LzfDecoder.DecompressedFails | lzf/lzf.go:198-303 | the exact inputs, of any size, on which nil is returned and on which an access is out of range |
| LzfDecoder.FaultIsBackref | lzf/lzf.go:250-280 | the out-of-range access comes from a back reference that fits the output and whose high part alone reaches to before the start |
| LzfFormat.CodeSize | lzf/lzf.go:28-50 | well-formed tokens take at most two bytes for each byte they produce |
| LzfDecoder.IndexIsSmall | lzf/lzf.go:208-246 | wherever the decoder stands the index is at most four plus twice what it has produced, so below 2^31 + 4: neither it nor the sum at line 232 wraps around |
| LzfDecoder.ReferenceBeforeStartCanFault | lzf/lzf.go:250-278 | a six-byte input whose reference before the start is not answered with nil |
| LzfDecoder.CopyLiteral | lzf/lzf.go:236-244 | the literal loop copies the run and touches nothing after it, all indices in range |
| LzfDecoder.CopyReference | lzf/lzf.go:280-295 | the copy loop gives the meaning of the back reference and touches nothing after it |
| LzfDecoder.LiteralTurn | lzf/lzf.go:225-244 | one literal turn of the loop is one step of the token decoder |
| LzfDecoder.ReferenceTurn | lzf/lzf.go:248-295 | one back-reference turn, with its two offset forms and the uint32 difference, is one step of the token decoder |
| LzfDecoder.Decompress | lzf/lzf.go:198-303 | on every input the whole call equals the token decoder on the first uint32(len) bytes, with zero padding |
| LzfDecoder.DeclaredLengthLimit | lzf/lzf.go:210-212 | a declared length of 2^30 - 1 is accepted with some stream, 2^30 and more with none |
| LzfMatcher.MatchLength | lzf/lzf.go:107-112 | the length found is above the start and at most the cap |
| LzfMatcher.StepKeepsShape | lzf/lzf.go:66-164 | every slot holds 0 or a position below iidx also after the reinsertion, every token has an offset below 8192 and a length from 3 to 264, fewer than 32 bytes are pending, and iidx grows |
| LzfCompressor.MatchLengthAgrees | lzf/lzf.go:76-112 | a match is real and is cut only by the cap or by the first difference |
| LzfCompressor.CopyOfInput | lzf/lzf.go:76-129 | copying from an agreeing earlier position reproduces the input |
| LzfCompressor.StepProduces | lzf/lzf.go:66-164 | each turn keeps: tokens and pending bytes mean the input read so far, whatever the hash table holds |
| LzfCompressor.StepFits | lzf/lzf.go:90-164 | the early exits keep oidx at most inputLength+3, and at most inputLength-4 while bytes are pending |
| LzfCompressor.RunNeedsMatch | lzf/lzf.go:149-151 | without a match the loop gives up, so a finished loop has emitted a back reference |
| LzfCompressor.CompressedTokens | lzf/lzf.go:51-196 | the result is the big-endian length and the code of tokens that mean the input, one of them a back reference |
| LzfCompressor.CodeDecompresses | lzf/lzf.go:28-50 | the length and the code of any well-formed tokens are decompressed to what the tokens mean |
| LzfCompressor.CompressedRoundTrips | lzf/lzf.go:51-303 | whatever Compress returns is decompressed to the first uint32(len) bytes of the input, so to the input exactly when it is shorter than 2^32 |
| LzfCompressor.CompressedSize | lzf/lzf.go:61-194 | a result is at most inputLength+3 bytes |
| LzfCompressor.PutByte | lzf/lzf.go:153-162 | a literal byte goes into the buffer, and a full run of 32 gets its control byte in the reserved slot |
| LzfCompressor.CloseRun | lzf/lzf.go:102-105 | a pending run is closed in the reserved slot, or the slot is given back |
| LzfCompressor.PutReference | lzf/lzf.go:114-128 | the two or three bytes of a match are its code and a new slot is reserved after them |
| LzfCompressor.FindMatchLength | lzf/lzf.go:83-112 | the capped scan computes the match length |
| LzfCompressor.Reinsert | lzf/lzf.go:135-145 | the last two positions of a match enter the hash table |
| LzfCompressor.EmitMatch | lzf/lzf.go:83-128 | a match closes the run and is written, or there is exactly no room |
| LzfCompressor.Turn | lzf/lzf.go:70-164 | one turn of the loop over both arrays is one step of the token machine, and gives up exactly when that does |
| LzfCompressor.PutTail | lzf/lzf.go:172-187 | the last bytes become literals and the buffer holds exactly the code |
| LzfCompressor.Compress | lzf/lzf.go:51-196 | the whole call equals the token machine, every access in bounds and every uint32 non-negative |
| LzfCompressor.CompressAndDecompress | lzf/lzf_test.go:10-31 | one call after the other returns the input whenever there is a compressed form |
| LzfGreedy.SlotOfShift | lzf/lzf.go:72-73 | the slot depends on the last three bytes shifted in, by the stated formula |
| LzfGreedy.SlotsOfRehash | lzf/lzf.go:137-145 | the two slots taken behind a match, with two bytes or-ed into one |
| LzfGreedy.ByteOrAt | lzf/lzf.go:137 | that or is bitwise |
| LzfGreedy.StepFollows | lzf/lzf.go:70-164 | each turn emits the item that the latest entry under its slot calls for, and gives up exactly when there is no room for it |
| LzfGreedy.RightItemIsUnique | lzf/lzf.go:76-112 | at most one item is right after given items: a copy as long as possible from the latest entry if it has the same three bytes and is at most 8192 back, else a literal byte |
| LzfGreedy.GreedyIsUnique | lzf/lzf.go:51-196 | so an input has at most one greedy list of items |
| LzfGreedy.CompressedIsGreedy | lzf/lzf.go:51-196 | a result is the code of tokens with that list, and exactly as long as it says |
| LzfGreedy.SucceedsExactly | lzf/lzf.go:54-170 | there is a result if and only if the length is from 5 to 2^30 - 1 and the greedy list keeps, item by item, within the room the early exits leave |
| LzfPeriod.PeriodicCompresses | lzf/lzf.go:51-196 | every input of a period q from 1 to 8192 that is at least 2q + 266 bytes and whose slots do not collide is compressed, to at most n + 14 - 244 * ceil(q / 264) bytes |
| LzfPeriod.NextItem | lzf/lzf.go:76-145 | from the second period on each item is a copy of 264 bytes, or as many as are left; or a literal, fewer than q of them in a row, and only from the third period on or at the end |
| LzfPeriod.LettersRepeat | lzf/lzf.go:51-196 | "abc" a hundred times over is compressed to at most 70 bytes |
| LzfSuccess.TooShort | lzf/lzf.go:54-56 | an input of which ten bytes or fewer are seen is never compressed |
| LzfSuccess.ConstantRunCompresses | lzf/lzf.go:51-196 | a run of one byte, of any length, is compressed if and only if uint32(len) is above ten and below the size limit |
| LzfSuccess.LongRunIsCutOff | lzf/lzf.go:53 | 2^32 + 11 equal bytes are compressed and come back as eleven |
| LzfSuccess.SizeLimit | lzf/lzf.go:54 | 2^30 - 1 equal bytes are compressed, 2^30 are not |
| RingSpec.DistinctIsFirstOccurrenceOrder | hash/ring.go:121-138 | the distinct nodes of a walk are its nodes, each once, in order of first occurrence |
| RingSpec.FoundShape | hash/ring.go:98-140 | FindMultiple has no node twice, min(count, number of nodes) of them, all on the ring, beginning with Find's |
| RingSpec.OwnerExactly | hash/ring.go:76-96 | the owner of a hash value is the node of the first bucket whose id is not below it, or of the first bucket when all are |
| RingSpec.ClockwiseOfDrop | hash/ring.go:108-119 | filtering a sorted ring and walking it is walking it and filtering, with wrap-around and shared ids |
| RingSpec.OwnersAfterRemove | hash/ring.go:142-161 | removing a node takes it out of every clockwise order and changes nothing else |
| RingSpec.RemoveDisturbsNobodyElse | hash/ring.go:98-167 | FindMultiple(key, count) after Remove(x) is the first count of the old FindMultiple(key, count+1) without x, not found if that is empty |
| RingSpec.RemovePassesToNext | hash/ring.go:76-167 | Find after Remove(x) is unchanged unless x was the owner, then the next distinct node |
| RingSpec.AddIsQuietWithoutSharedIds | hash/ring.go:38-66 | if the other nodes share no id, adding x gives back their buckets in the old order once x is filtered out |
| RingSpec.SharedIdIsDisturbed | hash/ring.go:63-65 | if two of them share one, some outcome of the unstable sort changes an owner |
| RingSpec.AddStealsOnlyForItself | hash/ring.go:38-66 | adding x leaves the other nodes' order from every hash value, for every outcome of the sort, if and only if they share no id |
| RingSpec.AddedOwner | hash/ring.go:38-96 | for any ring and any x, on it or not, whose other nodes share no id: after adding x the owner of a key is x or the old owner, or, where x was the owner, the next distinct node; the other nodes keep their order |
| Ring.WordsCount | hash/ring.go:48-61 | stepping four bytes to a bound of at most 64 makes a quarter as many buckets, rounded up, and reads no byte past 63 |
| Ring.WordsAt | hash/ring.go:52-60 | bucket k of a round has the big-endian word of bytes 4k to 4k+3 of the digest as its id |
| Ring.DerivedCount | hash/ring.go:44-62 | exactly the number of buckets asked for is made, all of the node |
| Ring.DerivedAt | hash/ring.go:44-61 | bucket k of round r of a node has as id the four bytes from 4k on, most significant first, of the digest of the node's name written r + 1 times |
| Ring.RoundOf | hash/ring.go:44-61 | every bucket of a node is one of those |
| Ring.Sort | hash/ring.go:27-29 | stands for sort.Sort: a sorted arrangement of the same buckets |
| Ring.Ring.constructor | hash/ring.go:181-188 | NewRing is sorted and holds the buckets of every name, as often as it is given |
| Ring.Ring.AppendWords | hash/ring.go:52-61 | the inner loop appends the words of one digest |
| Ring.Ring.AddBuckets | hash/ring.go:38-66 | add refreshes: old buckets of the node out, its derived buckets in, sorted; or only appends |
| Ring.Ring.Add | hash/ring.go:68-70 | the same with 100 buckets |
| Ring.Ring.AddWithOpts | hash/ring.go:72-74 | the same with the number given |
| Ring.Ring.RemoveBuckets | hash/ring.go:142-161 | closing gaps in place is an order-preserving filter |
| Ring.Ring.Remove | hash/ring.go:163-167 | the ring stays sorted and loses exactly the node's buckets |
| Ring.Ring.Search | hash/ring.go:83-94 | the binary search finds the first bucket not below the hash value, or wraps to the first |
| Ring.Ring.Find | hash/ring.go:76-96 | the first node clockwise, or not found on an empty ring |
| Ring.Ring.IsIn | hash/ring.go:132-136 | the scan of the nodes found so far is membership |
| Ring.Ring.FindMultiple | hash/ring.go:98-140 | the first count distinct nodes clockwise; the cyclic walk ends |
| RingRuns.RunConserves | hash/ring.go:38-74 | after any run of Add, AddWithOpts and Remove the ring is sorted and each node has the buckets of its last operation |
| RingRuns.RunConservesAll | hash/ring.go:142-167 | bucket by bucket: the ring's multiset is the union of the nodes' shares |
| AsyncLog.FifoAlways | log/handler.go:71-113 | in every reachable state handled entries, the one in hand and the queue are the entries sent, in order |
| AsyncLog.StepKeepsPhases | log/handler.go:95-111 | channels are closed one after the other, and only once stop has been seen and no flush is pending |
| AsyncBarriers.SentIsConserved | log/handler.go:71-113 | the same without duplicates: nothing is lost, doubled or reordered |
| AsyncBarriers.KnownAlways | log/handler.go:59-80 | the stage of every call and what the trace says of it agree in every reachable state |
| AsyncBarriers.StepKeepsFlushWaits | log/handler.go:92-104 | every step keeps: a waiting flush is still requested or already served, also when requests coalesce |
| AsyncBarriers.FlushReturnsAlways | log/handler.go:59-69 | at each return of a Flush its barrier is in the trace |
| AsyncBarriers.FlushIsBarrierAlways | log/handler.go:59-104 | if Log returned before Flush began and Flush returned, the entry was handled, then the wrapped handler was flushed, after Flush began |
| AsyncClose.StepKeepsStopping | log/handler.go:45-57 | how stop, its channel and the run goroutine hang together, kept by every step |
| AsyncClose.StepKeepsCloseWaits | log/handler.go:45-57 | every step keeps: with one closer, past the answer run has stopped and what was logged before is handled |
| AsyncClose.TameCloseIsBarrier | log/handler.go:45-113 | with one closer, or without a buffer, the wrapped handler is closed only after every entry whose Log returned before Close began |
| AsyncClose.TwoClosers | log/handler.go:53-55 | a run in which two closers meet on the stop channel and the handler is closed with an entry queued |
| AsyncClose.CloseBarrierExactly | log/handler.go:45-113 | over all runs with at most n calls of Close, Close is a barrier if and only if n is at most one or the queue has no buffer |
| AsyncCrash.CrashMeansLateSend | log/handler.go:45-111 | with at most one call of Close, the only step that can meet a closed channel is the send of a Log or a Flush while run is finishing |
| AsyncCrash.CrashOnlyByLateSend | log/handler.go:45-111 | a run with at most one call of Close has crashed exactly when its last step was such a send to a queue or flush channel already closed |
| AsyncCrash.SeenAlways | log/handler.go:59-80 | in every reachable state a Log call is under way or done exactly when the trace has its beginning, and a Flush is done exactly when the trace has its return |
| AsyncCrash.QuietNeverCrashes | log/handler.go:45-111 | if Close is called at most once, and only after every Log and Flush has returned, no interleaving crashes |
| AsyncCrash.LateLogCrashes | log/handler.go:71-106 | for every capacity, a run in which a Log begins after Close and sends to the closed queue |
| AsyncCrash.LateFlushCrashes | log/handler.go:59-108 | the same for a Flush and the flush channel |
| AsyncCrash.TwoClosersCrash | log/handler.go:53-56 | for every capacity, a run of two Close calls alone that closes the stop channel twice |
| AsyncCrash.QuietExactly | log/handler.go:45-111 | that rule, with at most n calls of Close, is safe in every run if and only if n is at most one |
| AsyncCrash.RunCanCrash | log/handler.go:106-109 | with two closers run itself can answer on the closed stop channel |
| AsyncCrash.StopSeenTwice | log/handler.go:90-91 | with two closers run can receive from the closed stop channel |
| AsyncProgress.ReadyAlways | log/handler.go:71-104 | in every state reached before Close: nothing has crashed, a requested flush has a caller waiting, and one left for later leaves an entry to receive |
| AsyncProgress.ComesToRest | log/handler.go:84-104 | from every such state run can, without any new call, empty the queue and serve the flush requested |
| AsyncProgress.EntriesCanBeHandled | log/handler.go:84-104 | and then every entry sent has been handled |
| AsyncProgress.LogCanReturn | log/handler.go:71-104 | every Log under way can return with its entry handled, with or without a buffer |
| AsyncProgress.FlushReturnsExactly | log/handler.go:59-104 | a Flush under way can return without another call if and only if it is not stuck: waiting, with no flush requested, none being answered and no other Flush about to request one |
| AsyncProgress.FlushCanReturnWithHelp | log/handler.go:59-104 | once one more Flush begins, every Flush under way can return |
| AsyncProgress.LostWake | log/handler.go:92-104 | a run in which two Flush calls are requested together and one wake-up leaves the other stuck |
| AsyncProgress.StuckExactly | log/handler.go:59-104 | a Flush can get stuck if and only if the queue has a buffer |
| AsyncProgress.CloseCanComplete | log/handler.go:45-111 | from every state reached before Close, a Close that begins at rest can go through to the wrapped handler |
| AsyncProgress.CloseFreesFlush | log/handler.go:45-111 | and every waiting Flush, stuck or not, can then return |
| Url.LeftAlone | url/url.go:35-68 | the bytes left alone are the ones the comments list |
| Url.HexDigit | url/url.go:177-178 | unhex undoes the digit table |
| Url.RoundTrip | url/url.go:11-68 | unescaping undoes escaping whenever the percent sign, and in the plus form the plus, is escaped |
| Url.StandardRoundTrip | url/url.go:11-33 | Unquote undoes Quote and UnquotePlus undoes QuotePlus on every byte string |
| Url.RoundTripOf | url/url.go:11-149 | under any policy a string is read back exactly when it holds no percent sign, nor in the plus form a plus, that the policy leaves alone |
| Url.CustomRoundTripOf | url/url.go:15-149 | a custom form is undone on a string if and only if the string and the safe bytes share no percent sign, nor a plus in the plus form |
| Url.EscapedShortens | url/url.go:98-149 | a percent sign left alone is read with two bytes of the source, so what comes back is at least two bytes too short |
| Url.CustomRoundTripExactly | url/url.go:15-68 | the custom forms are undone on all strings if and only if no safe byte is a percent sign, nor a plus in the plus form |
| Url.EscapeAlphabet | url/url.go:35-68 | escaped text has no byte left that needs escaping but the signs put in |
| Url.UnescapeConcat | url/url.go:98-149 | unescaping goes on from where a prefix that scans ends |
| Url.EscapeExactly | url/url.go:151-223 | every byte is written as itself, as a plus or in two lower-case digits, as the policy says; a string of bytes left alone stays as it is |
| Url.UnescapeExactly | url/url.go:70-149 | the result is t if and only if the input is one of the ways to write t: each byte as itself, a space as a plus in the plus form, or in two digits of either case |
| Url.UnescapeFailsExactly | url/url.go:98-120 | it fails exactly at a percent sign, reached by the scan, without two hex digits after it, and shows at most three bytes from there |
| Url.ShouldEscapeCustom | url/url.go:51-68 | the loop over the safe bytes is membership |
| Url.UrlEscape | url/url.go:151-223 | counting and writing agree: the buffer is filled exactly and holds the escaped text, for both escapers |
| Url.WriteEscaped | url/url.go:171-183 | one byte is written as its escape |
| Url.Scan | url/url.go:99-120 | the first pass finds the error of the one-pass decoder or the size of its result |
| Url.UrlUnescape | url/url.go:98-149 | the two passes equal the one-pass decoder, and the buffer is filled exactly |
| Pbkdf2.EnoughBlocks | crypto/crypto.go:37-74 | any number of blocks that is enough gives the same key |
| Pbkdf2.BlocksSize | crypto/crypto.go:34-43 | n blocks are n times the hash length |
| Pbkdf2.KeyByte | crypto/crypto.go:45-69 | each key byte is the byte of its T_i, with the block number in big-endian |
| Pbkdf2.XorByteAt | crypto/crypto.go:66 | bit k of the exclusive or is the sum without carry of the two bits |
| Pbkdf2.KeyBit | crypto/crypto.go:37-74 | a bit of the key says whether an odd number of the digests of its block have it set; the first digest is of the salt and the block number, each other one of the digest before it |
| Bytes.BitIsQuotient | crypto/crypto.go:66 | bit k is the quotient by 2 to the k, odd or even |
| Pbkdf2.ShorterKeyIsPrefix | crypto/crypto.go:37-74 | a shorter key is a prefix of a longer one |
| Pbkdf2.CopyInto | crypto/crypto.go:58-60 | the first digest is copied into the slice |
| Pbkdf2.XorInto | crypto/crypto.go:65-67 | the slice is xored with the digest in place |
| Pbkdf2.Iterate | crypto/crypto.go:63-68 | one further U is computed and xored in, the hash left empty |
| Pbkdf2.FillBlock | crypto/crypto.go:45-69 | a block is T_i cut to what is left, one U at least whatever the iteration count |
| Pbkdf2.PBKDF2 | crypto/crypto.go:23-78 | the result is the first keylen bytes of T_1, T_2, ... of section 5.2 of RFC 2898 |
| Dict.Dict.constructor | structure/dict.go:133-145 | a new table is valid and stands for the empty map |
| Dict.Dict.Get | structure/dict.go:33-49 | the value of the map, or not found |
| Dict.Dict.Set | structure/dict.go:98-127 | the map with the key set; chains stay linked, acyclic, disjoint and in their slots |
| Dict.Dict.Update | structure/dict.go:111-113 | writing a node's value sets its key in the map and no other |
| Dict.Dict.AddFirst | structure/dict.go:101-108 | a node in an empty bucket adds its key |
| Dict.Dict.Attach | structure/dict.go:119-123 | linking a node behind the last one grows this chain and leaves the others |
| Dict.Dict.AddLast | structure/dict.go:119-125 | a node at the end of a chain adds its key |
| Dict.Dict.Keys | structure/dict.go:86-96 | every key of the map exactly once |
| Dict.Dict.FillCount | structure/dict.go:77-84 | the number of the 4096 slots, hash modulo 4096, that keys of the map fall into |
| Dict.Dict.Size | structure/dict.go:129-131 | the number of keys of the map |
| PrefixTree.FindIsStored | structure/prefixtree.go:89-119 | on a radix tree Lookup finds v exactly when some path spells the key and ends in v |
| PrefixTree.MatchesAreStoredPrefixes | structure/prefixtree.go:192-236 | MatchPrefix is exactly the stored prefixes of the key with what they leave, shortest first |
| PrefixTree.LookupIsEmptySuffixMatch | structure/prefixtree.go:89-236 | on any tree Lookup is the member of MatchPrefix with an empty suffix |
| PrefixTree.FoundIsStored | structure/prefixtree.go:89-119 | on any tree, radix or not, what Lookup returns is stored under the key |
| PrefixTree.MatchedAreStored | structure/prefixtree.go:192-236 | on any tree what MatchPrefix returns are stored prefixes, shortest first |
| PrefixTree.LabelledNeverFaults | structure/prefixtree.go:89-236 | in a tree without empty labels no walk reads the first byte of one |
| PrefixTree.EmptyLabelFaults | structure/prefixtree.go:94-95 | an empty label at the top fails every lookup of a key whose first byte no label before it begins with |
| PrefixTree.FindNode | structure/prefixtree.go:107-112 | the scan for a subnode by first byte, failing at an empty label that comes before it |
| PrefixTree.PrefixTree.Lookup | structure/prefixtree.go:89-119 | on every tree the loop over heap nodes fails exactly when the walk comes to an empty label, and else equals the recursive walk |
| PrefixTree.PrefixTree.MatchPrefix | structure/prefixtree.go:192-236 | so does the loop that collects matches |
| Accept.LessIsStrictWeakOrder | httputil/httputil.go:31-54 | for all weights, NaN and the infinities included, Less is a strict partial order whose ties are transitive exactly when the middle option is not NaN or the outer two tie; and exactly which options tie |
| Accept.LessExactly | httputil/httputil.go:31-54 | heavier before lighter; of equal weight plain before meta wildcard before full wildcard; plain ones by place, meta wildcards by prefix |
| Accept.TextLessExactly | httputil/httputil.go:42-44 | strings are ordered by their first difference, a prefix first |
| Accept.WeakOrderExactly | httputil/httputil.go:31-54 | ties are transitive among the options of a header exactly when none has weight NaN or all of them tie |
| Accept.NaNHidesDisorder | httputil/httputil.go:31-163 | a header whose neighbours are all in order although its last option belongs before its first |
| Accept.ConsideredExactly | httputil/httputil.go:113-134 | for options in any order an offer is considered exactly when some option takes it and no option up to that one has weight zero |
| Accept.ConsideredWhenSorted | httputil/httputil.go:113-134 | on sorted options of any weights an offer is considered exactly when it is taken by an option of positive weight, or by a negative one if no option has weight zero, or by a NaN one if none before it has |
| Accept.PositiveExactly | httputil/httputil.go:113-134 | considered is the same as taken with positive weight exactly when the offer is, or no negative or NaN option that takes it is before the first of weight zero |
| Accept.NegativeWeightIsChosen | httputil/httputil.go:114-163 | a single option of weight -1 or NaN is preferred and accepted |
| Accept.InStringSlice | structure/slice.go:6-13 | the loop is membership |
| Accept.Acceptable.Collect | httputil/httputil.go:117-133 | the loop over the offers for one option |
| Accept.Acceptable.FindPreferred | httputil/httputil.go:97-136 | with options: no duplicates, exactly the offers some considered option takes, by first such option and then by offer; without: the offers, or identity alone |
| Accept.Acceptable.Accepts | httputil/httputil.go:63-95 | on parsed options a value is accepted exactly when it is considered and no identity option stands before the first option that takes it |
| Accept.AcceptsDirectly | httputil/httputil.go:75-94 | the scan with its early ends means exactly that |
| Accept.AcceptsAgreesExactly | httputil/httputil.go:63-136 | Accepts and FindPreferred agree on a value if and only if no identity option stands before the first that takes it, or a weight of zero comes first anyway |
| Accept.AcceptsAgreesWhenSorted | httputil/httputil.go:63-136 | the same on sorted options, with the condition read off the weights |
| Accept.IdentityHidesWhatFollows | httputil/httputil.go:78-83 | an option after identity that is preferred and not accepted |

## Left out

- Ring.Sort: the comparisons and swaps of sort.Sort are not modelled, only that its result is a sorted arrangement.
- Ring.Ring.Find: the lock around every ring operation is not modelled; the ring is used by one caller at a time.
- Pbkdf2.PBKDF2: a negative key length, on which make panics, and a hash of size zero, on which the loop never ends, are excluded.
- PrefixTree.PrefixTree.Lookup: the heap nodes are taken to hold some finite tree, so a node below itself is not covered.
- Dict.Dict.Set: keys are values; a caller who later writes into the key slice it passed is not modelled.
- Accept.Weight: finite weights are real numbers; the rounding of ParseFloat is not modelled.
- AsyncProgress.CloseCanComplete: what can happen is proved, not that it must; after Close has been called, run can serve a flush and then block with stop seen. Errors returned by the wrapped handler are ignored by the source and not modelled.
- SHA-512, CRC-32C, HMAC and SipHash are arbitrary functions of fixed result size.
- `Dict.Delete`: removing the head of a chain drops the whole chain and the scan after it never advances, so it does not refine removal from a map.
- `PrefixTree.Insert` and `Delete`: they do not keep the map contract (a split can leave an empty label, a deletion can detach live nodes).
- The preset dictionary type of `lzf` has unfinished bodies.
- `Ring.String`, `PrefixTree.String` and the other printers are formatting only.
- `httputil.Parse`: header splitting and number parsing; the options it builds are taken as given.
- Passwords and iron strings in `crypto`, the other log handlers, `refmap`, `bitset`, `decimal`, `prime`, `optparse`, `process`, `fsutil` and `tlsconf` would add only wrappers, I/O or easy members.
