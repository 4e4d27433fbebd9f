# Verified models of MiracleCast components

MiracleCast connects Wi-Fi Display sources and sinks. This project models the parts
of it that keep state or transform data in memory, and proves what they promise,
for all inputs and over whole runs:

- **Hash table** (`TaggedWords`, `ProbeTable`, `Htable`): open addressing with
  deletion markers, where each bucket hides hash bits and a "sits at home" bit in the
  bits that all stored pointers share. It refines a multiset of pointers through
  growth, in-place rehashing and mask shrinking. Words are sets of bit positions.
- **RTSP** (`Ring`, `SanitizeLine`, `CleanWords`, `RtspAutomaton`, `RtspFraming`,
  `RtspParser`, `RtspSender`, `RtspLink`, `RtspHeads`, `RtspHeaders`, `RtspSealing`,
  `RtspBody`): a seven-state parser over a power-of-two ring buffer, the reading of first
  lines, headers and parameter bodies, the serializers with the headers they set, and the
  outgoing queue under short writes. The parser object refines an automaton over a plain
  byte sequence, and sender and receiver are composed end to end, down to the printed
  content length.
- **wpa_supplicant bus** (`WpasPairing`, `WpasRuns`, `WpasRefs`): requests and replies
  without serial numbers, and reference counts with a cycle between bus and queued
  messages.
- **DHCP** (`LeaseTable`, `LeaseRules`, `DhcpOptions`, `DhcpLayouts`, `ClientTimers`,
  `LinkLocal`, `LinkLocalRuns`): the lease table of the server, the option codec, the
  renewal timers and the link-local machine of the client.
- **Codecs** (`QuotedString`, `QuotedStringBuffers`, `QuotedWords`, `Atoi`, `RateLimit`):
  quoted strings, number parsing and the rate limiter.

Objects that the source updates in place are classes; a pure step function specifies
each method, and the invariants and theorems are about those functions. What the
functions do is stated a second time without their branches: over who holds which
address (`LeaseRules`), over the steps of a run (`WpasRuns`), over the packets that the
network delivers (`LinkLocalRuns`), over words and the gaps between them (`CleanWords`,
`QuotedWords`), over lines with any endings (`RtspFraming`) and over padded option areas
(`DhcpLayouts`). Sockets, clocks, random numbers and memory shortage are parameters
(`alloc`, `now`, `ts`, the jitter `j`, the number drawn `tmp`, the answer of `send`).

Where a promise does not hold for all inputs, the condition under which it holds is
proved to be exact: pointers without a visible bit (`ShowsIsExact`, `Insert`),
interleaved data (`DataRoundTrip`), text messages and the first lines that end a
connection (`TextRoundTrip`, `RejectedExactly`), bodies of 4 GiB (`SealedRoundTrip`), the
last reference to the bus (`Replay`), displaced leases (`RequestSparesExact`), expiry
differences (`CompareExact`), late clocks (`LateClockExact`), option fields that ask for
each other (`ForeverExact`), long leases (`FirstRenewalExact`, `FirstRebindingExact`),
apostrophes (`JoinRoundTrip`), very long tokens (`NeededExact`) and overflow reports
(`Ulln`). Where a comment in the source promises more than its code does, the
model follows the code, but for one place that "Left out" names.

`dafny verify dfyconfig.toml` checks the whole project.

## Model

| member | source | states |
|---|---|---|
| `TaggedWords.EntryDecodes` | src/shared/shl_htable.c:57-87 | whatever hash bits and perfect bit a bucket adds, an entry is told apart from the empty and the deleted marker, and decodes to its pointer and to what was added |
| `TaggedWords.ShowsIsExact` | src/shared/shl_htable.c:272-312 | a pointer can be told apart from both markers for every hash and bucket exactly when it has a set bit above bit 0 outside the common mask |
| `TaggedWords.LostPointer` | src/shared/shl_htable.c:272-312 | two pointers, in a table of any size: the second agrees with the encoding that the first chose, and its word is the deletion marker in its home bucket and the empty word elsewhere |
| `TaggedWords.DecodesAnyway` | src/shared/shl_htable.c:57-72 | a word decodes to its pointer whether or not the pointer shows a bit |
| `TaggedWords.SharedTopShows` | src/shared/shl_htable.c:276-283 | pointers that share the highest bit of the first one stored always keep a visible bit, so the assumption in the comment is enough |
| `TaggedWords.ShrinkKeepsEntry` | src/shared/shl_htable.c:289-312 | giving bits of the mask back rewrites a bucket to exactly the encoding of the same pointer, hash and perfect bit under the smaller mask |
| `TaggedWords.ShrinkAgrees` | src/shared/shl_htable.c:289-312 | the pointer that caused the shrinking agrees with the remaining common bits |
| `TaggedWords.FirstTagFits` | src/shared/shl_htable.c:272-288 | the encoding chosen by the first pointer is well formed and holds that pointer |
| `ProbeTable.FreeSlotExists` | src/shared/shl_htable.c:163-206 | a table that entries and deletion markers do not fill has an empty bucket, so every probe ends |
| `ProbeTable.StepOn` | src/shared/shl_htable.c:163-177 | a probe that has met no empty bucket has not come round, and goes one further from its home bucket |
| `ProbeTable.PassedAll` | src/shared/shl_htable.c:163-191 | a probe that meets an empty bucket has passed every entry of its home bucket |
| `ProbeTable.FillKeepsReachable` | src/shared/shl_htable.c:194-206 | filling a bucket, or turning an entry into a deletion marker, opens no gap between any entry and its home bucket |
| `ProbeTable.BagUpdate` | src/shared/shl_htable.c:194-206 | overwriting a bucket exchanges exactly its pointer in the stored multiset |
| `ProbeTable.RehashBegins` | src/shared/shl_htable.c:247-257 | starting at an empty bucket, no entry has its probe path across the start |
| `ProbeTable.RehashKeeps` | src/shared/shl_htable.c:257-268 | passing an empty bucket or an entry at home, or erasing a deletion marker, keeps what the walk has established |
| `ProbeTable.RehashMoves` | src/shared/shl_htable.c:257-268 | taking an entry out and adding it again in place lands at or before its old bucket and keeps what the walk has established |
| `ProbeTable.RehashEnds` | src/shared/shl_htable.c:247-269 | after one round there is no deletion marker and no empty bucket between any entry and its home bucket |
| `Htable.Htable.constructor` | src/shared/shl_htable.c:89-98 | a fresh table holds nothing and has a full mask |
| `Htable.Htable.Counters` | src/shared/shl_htable.c:163-206 | every reachable table counts its elements exactly, has at most `deleted` deletion markers, and stays below its limits, so at least one bucket is zero |
| `Htable.Htable.Val` | src/shared/shl_htable.c:163-191 | probing stops at an entry with the wanted hash bits or at an empty bucket, and every entry it passed has another hash |
| `Htable.Htable.Lookup` | src/shared/shl_htable.c:372-390 | a matching element is found exactly when one is stored |
| `Htable.Htable.DelVal` | src/shared/shl_htable.c:329-337 | the bucket becomes a deletion marker, the counters stay exact and every other entry stays findable |
| `Htable.Htable.Remove` | src/shared/shl_htable.c:401-420 | succeeds exactly when a matching element is stored, and takes exactly one occurrence of the reported element out of the multiset |
| `Htable.Htable.AddEntry` | src/shared/shl_htable.c:194-206 | the pointer goes, in its encoding, into the first bucket without an entry from its home bucket on |
| `Htable.Htable.FirstCommon` | src/shared/shl_htable.c:272-288 | on an empty table the pointer sets mask, common bits and perfect bit |
| `Htable.Htable.ShrinkCommon` | src/shared/shl_htable.c:289-312 | every bucket still decodes to the same pointer, hash bits and home flag after the mask gave bits back |
| `Htable.Htable.RehashTable` | src/shared/shl_htable.c:247-269 | the stored multiset stays, no deletion marker is left, and no empty bucket lies between an entry and its home |
| `Htable.Htable.DoubleTable` | src/shared/shl_htable.c:208-245 | fails exactly without memory or at the largest size and then changes nothing; otherwise the same multiset is in a table twice as large with room for one more |
| `Htable.Htable.MakeRoom` | src/shared/shl_htable.c:314-322 | after growing or rehashing there is room below both limits and the multiset is the same |
| `Htable.Htable.Insert` | src/shared/shl_htable.c:314-327 | fails exactly when it must grow and cannot, with the multiset unchanged; otherwise the word for the pointer is written, and what the words of the table are taken for has one occurrence of it more exactly if that word is taken for an entry; the table is a sound one with the pointer added exactly if the pointer shows a bit |
| `Htable.DecodedAdds` | src/shared/shl_htable.c:194-206 | writing the word for any pointer adds it to what the table is taken for exactly if the word is taken for an entry |
| `Htable.LosePointer` | src/shared/shl_htable.c:272-327 | a run of two inserts after which the table counts two elements and holds one |
| `Htable.Htable.ThisOrNext` | src/shared/shl_htable.c:121-131 | the first entry from a position on, or none if there is none |
| `Htable.Htable.GetEntry` | src/shared/shl_htable.c:133-142 | the pointer in a bucket, if it holds one |
| `Htable.Htable.Visit` | src/shared/shl_htable.h:89-93 | iteration visits every stored occurrence exactly once |
| `Htable.Replay` | src/shared/shl_htable.c:121-420 | for every sequence of inserts, removes and lookups from a fresh table, all answers are those of a plain multiset of pointers, when equal objects have equal hashes and all pointers share their highest bit |
| `Ring.AlignPower2IsLeast` | src/shared/shl_macro.h:136-147 | for arguments up to 2^63 the result is the least power of two not below the argument; above, it is the zero that the comment promises |
| `Ring.MaskWraps` | src/shared/shl_ring.c:19 | masking a position with the size less one, bit by bit, wraps it once round the buffer, because the size is a power of two |
| `Ring.Ring.Copy` | src/shared/shl_ring.c:71-89 | a prefix of the byte queue, at most all of it |
| `Ring.Ring.Pull` | src/shared/shl_ring.c:181-188 | drops a prefix of the byte queue, at most all of it |
| `Ring.Ring.Resize` | src/shared/shl_ring.c:95-120 | the same bytes in a buffer of the new size, or no change |
| `Ring.Ring.Grow` | src/shared/shl_ring.c:127-145 | there is room afterwards exactly if there was, or if the size does not overflow and memory suffices; the bytes stay |
| `Ring.Ring.Push` | src/shared/shl_ring.c:151-175 | appends all bytes or none, and says exactly when |
| `SanitizeLine.SanitizeInPlace` | src/shared/rtsp.c:261-333 | the in-place cleaner leaves the cleaned line, with a terminator, at the front of its buffer |
| `SanitizeLine.SanitizeIdempotent` | src/shared/rtsp.c:261-333 | cleaning a cleaned line changes nothing |
| `SanitizeLine.NoZeros` | src/shared/rtsp.c:261-333 | a cleaned line holds no zero byte |
| `SanitizeLine.BreakLeavesNoTrace` | src/shared/rtsp.c:261-333 | the line break that ended a line leaves no trace in its cleaned form unless quotes are open |
| `CleanWords.SanitizeIsWords` | src/shared/rtsp.c:261-333 | for every line, the cleaned form is its words with one blank between them: the runs of bytes between blanks, tabs, line breaks and zero bytes, where quoted text belongs to its word as it is |
| `CleanWords.SpreadSanitized` | src/shared/rtsp.c:261-333 | words, bare or quoted, with anything of blanks, tabs and line breaks around them come out with single blanks, and what is in quotes unchanged |
| `CleanWords.GapLeavesNoTrace` | src/shared/rtsp.c:261-333 | outside quotes it does not matter how many blanks, tabs and line breaks stand at a place, nor which |
| `CleanWords.FoldedLine` | src/shared/rtsp.c:261-333 | a line that is continued behind a line break and a blank is cleaned to one line |
| `RtspAutomaton.FeedConcat` | src/shared/rtsp.c:2184-2562 | reading a stream in two parts is reading it at once |
| `RtspAutomaton.ChunksDoNotMatter` | src/shared/rtsp.c:2526-2562 | however a stream is cut into chunks, the parser ends in the same state and has delivered the same messages |
| `RtspAutomaton.OutGrows` | src/shared/rtsp.c:2494-2524 | what was delivered stays delivered, and a failed parser stays failed |
| `RtspHeads.FromHead` | src/shared/rtsp.c:1861-1872 | a first line is read as a reply exactly if it begins like a version |
| `RtspHeads.FromReply` | src/shared/rtsp.c:1783-1859 | the reader of replies computes the specification of which `ReplyFormReads` and `UnknownExactly` say what it gives for every line |
| `RtspHeads.FromRequest` | src/shared/rtsp.c:1702-1781 | likewise the reader of requests, with `RequestFormReads` |
| `RtspHeads.RejectedExactly` | src/shared/rtsp.c:1783-1843 | a first line is an error exactly if it consists of a version, a code of 4294967295 or more, and behind it nothing or a blank |
| `RtspHeads.ReplyFormReads` | src/shared/rtsp.c:1783-1859 | a line of version, code and nothing or a blank and a phrase is that reply, with numbers clipped to 32 bits and the wildcard code refused |
| `RtspHeads.RequestFormReads` | src/shared/rtsp.c:1702-1781 | a line of method, address and version with single blanks between them is that request |
| `RtspHeads.UnknownExactly` | src/shared/rtsp.c:1702-1872 | a first line is unknown exactly if it has neither of the two forms |
| `RtspHeads.SameNameExactly` | src/shared/rtsp.c:806-811 | names are the same exactly if they differ at most in the case of their letters |
| `RtspHeads.ReplyRoundTrip` | src/shared/rtsp.c:1166-1175 | a printed reply reads as itself, but for the wildcard code, which the sender refuses |
| `RtspHeads.RequestRoundTrip` | src/shared/rtsp.c:1154-1163 | a printed request reads as itself exactly if its method and address hold no blank and its method does not begin like a version |
| `RtspHeads.RejectedRequest` | src/shared/rtsp.c:398-446 | a request that the sender accepts and the receiver takes for a reply with the wildcard code |
| `RtspParser.Decoder.FeedChar` | src/shared/rtsp.c:2494-2524 | one byte moves the parser fields and the ring exactly as the automaton moves, with `buflen` the number of pending bytes at the front of the ring |
| `RtspParser.Decoder.FeedCharHeader` | src/shared/rtsp.c:2224-2335 | the header state, including its two ways to end a header, the start of the next line, and the first lines and headers that end the connection |
| `RtspParser.Decoder.FeedCharBody` | src/shared/rtsp.c:2358-2407 | the body state, including the hand-over to the state between messages |
| `RtspParser.Decoder.FeedCharDataBody` | src/shared/rtsp.c:2461-2492 | the payload of an interleaved data message |
| `RtspParser.Decoder.ParseData` | src/shared/rtsp.c:2526-2562 | a chunk gives exactly the automaton result over the ring buffer; it is short of memory exactly if the ring has no room and cannot get it, fails exactly if the automaton does, and the internal consistency check never fails |
| `RtspParser.Receive` | src/shared/rtsp.c:2780-2803 | reading any list of chunks from a fresh parser, while no allocation fails, ends in the state and with the messages of the automaton that read the whole stream, and fails exactly if that one does |
| `RtspFraming.DataRoundTrip` | src/shared/rtsp.c:1322-1346 | a serialized data message comes out of the parser as itself, leaving it between messages, exactly when the channel is below 256 and the payload has 1 to 65535 bytes |
| `RtspFraming.HeaderLines` | src/shared/rtsp.c:2224-2335 | lines that end in any of the three line breaks, each in its own way, and may be folded or hold breaks in quotes, collect in their cleaned forms with the announced body length, the last one pending, exactly if the first line and the headers before it are accepted; otherwise the parser fails |
| `RtspFraming.TextArrives` | src/shared/rtsp.c:2184-2407 | a text message from any sender, behind any blanks and breaks, with any line endings and an empty line of any of these forms, is delivered with its cleaned lines and its body exactly if the first line and the headers are accepted and announce the length of the body |
| `RtspFraming.FoldedIsGood` | src/shared/rtsp.c:2224-2335 | a line that begins with a blank behind a line break continues the line before it |
| `RtspFraming.LeadingIgnored` | src/shared/rtsp.c:2184-2222 | blanks and line breaks between messages are ignored |
| `RtspFraming.BetweenFeeds` | src/shared/rtsp.c:2409-2439 | behind a message, also one whose empty line is a single carriage return, the next one is read as if the parser were idle |
| `RtspFraming.TextRoundTrip` | src/shared/rtsp.c:1139-1320 | a serialized text message of good lines is delivered with its cleaned lines and its body exactly if the receiver accepts its first line and all its headers and they announce the length of its body |
| `RtspFraming.HeadRoundTrip` | src/shared/rtsp.c:2117-2137 | a message of a first line only comes through exactly if that line is not of the form that is an error |
| `RtspFraming.StreamDelivered` | src/shared/rtsp.c:2184-2562 | a stream of whole messages, each of which comes through, delivers exactly these in order and leaves the parser between messages |
| `RtspFraming.PartDelivered` | src/shared/rtsp.c:2224-2492 | a part of a message delivers the message exactly if it reaches the last byte, or the last but one for a text message without a body; a shorter part delivers nothing |
| `RtspSender.LinkKeeps` | src/shared/rtsp.c:2733-2739 | a queued message goes behind all others |
| `RtspSender.DroppedLive` | src/shared/rtsp.c:3246-3259 | a message leaves the queue unsent only if no part of it was offered to the socket; all others keep their order |
| `RtspSender.WrittenKeeps` | src/shared/rtsp.c:2805-2848 | any short write keeps the wire whole messages plus a part of the first one queued, and only appends to it |
| `RtspSender.WrittenLive` | src/shared/rtsp.c:2805-2848 | writing neither loses nor reorders a message |
| `RtspSender.RunKeeps` | src/shared/rtsp.c:2733-2848 | in every run of calls, drops and short writes the wire holds whole raw messages in queue order and then a part of the first one queued |
| `RtspSender.RunSendsCalls` | src/shared/rtsp.c:3197-3244 | nothing is sent that was not handed over |
| `RtspSender.EndToEnd` | src/shared/rtsp.c:2526-2848 | feeding the wire of any run to the parser delivers exactly the messages sent, in order, and the first queued one exactly if the sent part reaches the byte that completes it; with no part sent the parser is between messages |
| `RtspSender.Flushed` | src/shared/rtsp.c:2805-2848 | progress: however little the socket takes at a time, after one write a byte and two a message that take something, every queued message is sent, whole and in order |
| `RtspSender.HeadLeaves` | src/shared/rtsp.c:2805-2848 | a message that is wholly sent leaves the queue at once, or with the next write if nobody listens for an answer and it still waits |
| `RtspSender.CallLeaves` | src/shared/rtsp.c:2733-2848 | on an idle line a call with a callback is sent and gone with one write that takes all of it, any other call with two |
| `RtspSender.DroppedLeaves` | src/shared/rtsp.c:3246-3259 | a dropped message of which a part may be sent is sent to its end and then leaves at once |
| `RtspLink.Transfer` | src/shared/rtsp.c:2526-2848 | for any run of the sender and any cutting of the stream, the parser object has delivered exactly those messages; it can fail only for want of a buffer |
| `RtspHeaders.AppendHeader` | src/shared/rtsp.c:2075-2115 | a header line is split, tokenized and read as a length, as an error or as neither, exactly as specified, using the tokenizer and the number parser |
| `RtspHeaders.SplitLine` | src/shared/rtsp.c:820-880 | the trimming loops give the key and the tokens of a line |
| `RtspHeaders.PlainLineParts` | src/shared/rtsp.c:820-932 | the receiver splits a printed header line into the key and the value that were printed |
| `RtspHeaders.LooseLineParts` | src/shared/rtsp.c:820-880 | the key and the tokens of a header line with any number of blanks, or none, before the colon, behind it, between the tokens and at the end, the tokens bare or in either kind of quotes |
| `RtspHeaders.LineMeaning` | src/shared/rtsp.c:2075-2115 | for the framing such a line counts exactly if its key is, in any case of letters, the one for the length or for the sequence number, and then by its first token |
| `RtspHeaders.LengthExactly` | src/shared/rtsp.c:2075-2115 | a token is a length exactly if it is all decimal digits and without the last one fits in 64 bits, and it is its decimal value if that fits |
| `RtspHeaders.SequenceExactly` | src/shared/rtsp.c:2075-2115 | a sequence number is an error exactly if its leading digits without the last one do not fit in 64 bits |
| `RtspHeaders.DecimalReads` | src/shared/rtsp.c:1205-1227 | a printed number that fits in 64 bits reads as itself |
| `RtspSealing.SealedFits` | src/shared/rtsp.c:1205-1280 | for any headers of the application that are readable lines, raw ones included, after sealing every line is readable and exactly the remembered content length header announces a length |
| `RtspSealing.SealedSays` | src/shared/rtsp.c:1205-1280 | a sealed message says the length of its body, its sequence number and, for parameters, their content type, each in the last header of that name or in a new one; all other headers stay as they are, in their places |
| `RtspSealing.AnnouncedExact` | src/shared/rtsp.c:1205-1227 | the receiver expects exactly the body that was sent if and only if the application set a content length header or the body is shorter than 2^32 bytes |
| `RtspSealing.SealedRoundTrip` | src/shared/rtsp.c:1139-1320 | a sealed message is delivered with its cleaned lines and its body exactly if its first line is not an error and the application set a content length header or the body is shorter than 2^32 bytes |
| `RtspSealing.RequestArrives` | src/shared/rtsp.c:1154-1163 | a sealed request is delivered and its first line read as that request exactly if its method does not begin like a version and its length was printed in full |
| `RtspSealing.LooseRequestArrives` | src/shared/rtsp.c:2117-2137 | a request of any sender, with blanks and breaks before it, any number of blanks between its parts and behind them, and any line endings, is delivered and read as that request |
| `RtspSealing.RequestEndsConnection` | src/shared/rtsp.c:2117-2137 | a request that the sender accepts and at which the receiver ends the connection |
| `RtspSealing.OptionsDelivered` | src/shared/rtsp.c:1154-1163 | an instance for every body below 2^32 bytes: a request without headers of the application, whose length and sequence number the serializer sets, read back as that request |
| `RtspBody.SplitBody` | src/shared/rtsp.c:1930-1966 | the splitting loop gives the non-empty lines of the body, defined character by character, in cleaned form |
| `RtspBody.PartsExact` | src/shared/rtsp.c:1177-1198 | parameter lines put behind each other split into these lines exactly if none is empty or holds a break |
| `RtspBody.PartsSpread` | src/shared/rtsp.c:1930-1966 | whatever line breaks separate the lines of a body, and however many, these lines are found |
| `RtspBody.ParametersExactly` | src/shared/rtsp.c:806-811 | the receiver takes a body for parameters exactly if the last content type header, in any case of letters, has that value |
| `RtspBody.ValueAmongBlanks` | src/shared/rtsp.c:820-880 | the value of a header is what is behind the colon without the blanks around it |
| `RtspBody.AppendBody` | src/shared/rtsp.c:1888-1973 | a body is split exactly if the content type that the receiver remembers is that of parameters |
| `RtspBody.SealedTyped` | src/shared/rtsp.c:1229-1252 | after sealing a message with parameters the receiver finds their content type |
| `RtspBody.ParametersArrive` | src/shared/rtsp.c:1888-1973 | a sealed message with parameter lines is delivered, and the handler sees exactly these lines in cleaned form |
| `RtspBody.RebuiltSplits` | src/shared/rtsp.c:2139-2158 | splitting the body that the receiver puts together again gives the lines that the handler saw exactly if no line was cleaned away altogether |
| `RtspSender.Sender.WriteMessage` | src/shared/rtsp.c:2805-2848 | the object takes the writing step of the runs for every answer of the socket, and reports an error exactly if there is something to send and the socket does not take it; the other methods take their steps likewise |
| `WpasPairing.RunPairs` | src/shared/wpas.c:877-899 | in every run with a peer that answers each request once and in order, with events and cancellations at any time: only the head is marked sent, one request is under way at most, and each reply reaches the callback of its own request, or none if that was cancelled |
| `WpasPairing.ReplyIsForHead` | src/shared/wpas.c:1381-1412 | a reply that arrives is the one to the request at the head, and nothing else is under way |
| `WpasPairing.CancelKeeps` | src/shared/wpas.c:1252-1272 | cancelling in any state keeps the pairing |
| `WpasPairing.WriteKeeps` | src/shared/wpas.c:1332-1350 | sending the head keeps the pairing, whether or not the socket takes it |
| `WpasPairing.ReadKeeps` | src/shared/wpas.c:1352-1412 | reading an event or a reply keeps the pairing |
| `WpasPairing.Bus.Cancel` | src/shared/wpas.c:1252-1272 | the loop over the queue takes the cancelling step of the runs: the first request with that cookie leaves the queue, or is only marked if it is under way; the other methods take their steps likewise |
| `WpasRuns.DeliveredExactly` | src/shared/wpas.c:1252-1412 | from the steps of a run alone: the callback of a request has run exactly if the reply to that request was read and no step cancelled it, and it has run once, with that reply, in the order of the requests |
| `WpasRuns.CancelledStaysSilent` | src/shared/wpas.c:1252-1272 | after a step that cancels a request its callback never runs, however the run goes on |
| `WpasRuns.CancelExact` | src/shared/wpas.c:1252-1272 | a cancelled request is no longer queued, or it is at the head, under way and marked; all other requests keep their places |
| `WpasRuns.CancelOnly` | src/shared/wpas.c:1252-1272 | a cancellation changes nothing but the queue, and nothing at all if no queued request has that cookie |
| `WpasRuns.CookieStandsFor` | src/shared/wpas.c:1242 | requests are numbered in the order of the calls, and a cookie stands for its request exactly as long as no older queued one agrees with it modulo 2^64 - 1 |
| `WpasRuns.CallExact` | src/shared/wpas.c:1215-1250 | a call puts its request, unsent, behind all others and changes nothing else |
| `WpasRuns.WriteExact` | src/shared/wpas.c:1332-1350 | the oldest request is sent exactly if the bus is alive, the socket takes it and nothing is under way |
| `WpasRuns.QuietConserves` | src/shared/wpas.c:1332-1412 | conservation: sending, answering and reading only turn callbacks that are due into callbacks that have run, in order |
| `WpasRuns.Drained` | src/shared/wpas.c:1332-1412 | progress: while the bus is alive every run can go on so that the queue is empty and exactly the requests that were queued and not cancelled have been called back, in order |
| `WpasRefs.Bus.MessageNew` | src/shared/wpas.c:118-151 | a message holds the bus |
| `WpasRefs.Bus.Link` | src/shared/wpas.c:877-883 | the queue holds the message |
| `WpasRefs.Bus.Unlink` | src/shared/wpas.c:885-891 | the queue gives its reference up; freeing the message gives up one to the bus |
| `WpasRefs.Bus.Unref` | src/shared/wpas.c:1161-1213 | despite the recursion, everything is released exactly if nothing outside refers to the bus or to a message; otherwise only the count changes |
| `WpasRefs.Bus.DropQueue` | src/shared/wpas.c:1161-1213 | the loop that empties the queue frees every message and ends with the last bus reference |
| `WpasRefs.Bus.MessageUnref` | src/shared/wpas.c:243-253 | giving up a reference to a message, with the release of the bus it may cause |
| `WpasRefs.AllQueued` | src/shared/wpas.c:1161-1180 | counting finds that all messages are queued exactly when they are |
| `WpasRefs.Perform` | src/shared/wpas.c:235-253 | the methods carry out exactly the steps that the theorems about runs are about |
| `WpasRefs.RunSafe` | src/shared/wpas.c:1153-1213 | in every run the bus is released only by a call after which nothing outside refers to it or to one of its messages |
| `WpasRefs.LastReference` | src/shared/wpas.c:1161-1213 | of the steps that the methods take, giving up the last outside reference releases the bus exactly when it was not one to a queued message, and a bus that is left stays for ever; `Replay` states it of the object |
| `WpasRefs.Replay` | src/shared/wpas.c:1153-1213 | for every run of calls on the object, with the outside references and the queue counted from the calls alone: the bus and every held message are there while anything is held, the queue is in the order of the calls, and all is released when nothing is held, exactly unless the last call left a message queued |
| `WpasRefs.CountsAgree` | src/shared/wpas.c:235-253 | the counts kept are those of the calls |
| `WpasRefs.LeakRun` | src/shared/wpas.c:243-253 | a run of four calls that leaves the bus and a queued message referring to each other |
| `LeaseTable.CompareExact` | src/dhcp/server.c:185-191 | the comparison is right exactly if cutting the difference down to 32 bits keeps its sign; for differences below 2^32 that means exactly if it fits in an int |
| `LeaseTable.GetLeaseKeeps` | src/dhcp/server.c:123-183 | the record handed out is detached, and nobody else has that address or that client |
| `LeaseTable.AttachKeeps` | src/dhcp/server.c:193-220 | a record put in at its place restores the whole invariant, with the list sorted |
| `LeaseTable.AddLeaseKeeps` | src/dhcp/server.c:193-220 | adding a lease keeps list and index consistent and sorted, and the client then holds the address until the right time |
| `LeaseTable.AddLeaseOthers` | src/dhcp/server.c:123-220 | adding a lease touches no record but those of this address and this client |
| `LeaseTable.AllocatorExact` | src/dhcp/server.c:236-284 | no address is found exactly if every usable one is leased and no lease is expired; an address found is free or its lease expired |
| `LeaseTable.DiscoverHolds` | src/dhcp/server.c:541-582 | a client that is offered an address holds it; otherwise nothing changes |
| `LeaseTable.RequestHolds` | src/dhcp/server.c:694-720 | a client that is acknowledged holds that address for the lease time; otherwise nothing changes |
| `LeaseTable.HandleKeeps` | src/dhcp/server.c:653-760 | every packet keeps the invariant, and every acknowledged or offered address is held by the client it went to |
| `LeaseTable.SetExpireKeeps` | src/dhcp/server.c:286-295 | a changed expiry keeps the list sorted and the rest of the invariant |
| `LeaseTable.RemoveLeaseKeeps` | src/dhcp/server.c:112-120 | removing a lease keeps the invariant |
| `LeaseTable.DiscoverSpares` | src/dhcp/server.c:494-582 | a DISCOVER never displaces an unexpired lease of another client |
| `LeaseTable.RequestSparesExact` | src/dhcp/server.c:694-720 | a REQUEST displaces an unexpired lease of another client exactly if it comes from a client without a lease and names that address |
| `LeaseRules.RequestExact` | src/dhcp/server.c:694-720 | over who holds what alone: a REQUEST is acknowledged exactly if the client owns that address, or owns nothing and the address can be handed out and there is memory or a record; it is refused or ignored exactly as stated; and then the client holds the address for the lease time, nobody else does, and all else is as before |
| `LeaseRules.DiscoverExact` | src/dhcp/server.c:494-582 | a DISCOVER is answered exactly if the client has a real address, something can be offered and there is memory or a record; what is offered is the own address, or else the wish if it is in range and free or expired, or else what the allocator prefers; and the client then holds it |
| `LeaseRules.AllocatorPrefers` | src/dhcp/server.c:236-284 | the lowest usable address without a lease, or else the one whose lease ran out first, or else none |
| `LeaseRules.DeclineExact` | src/dhcp/server.c:724-739 | a declined address is free afterwards exactly if the client owned it; nothing else changes |
| `LeaseRules.ReleaseExact` | src/dhcp/server.c:740-752 | a released lease ends now and nothing else changes, exactly if the client owned the address |
| `LeaseRules.InformExact` | src/dhcp/server.c:753-756 | an INFORM is acknowledged and changes nothing |
| `LeaseRules.Exchange` | src/dhcp/server.c:541-720 | a client that asks for what it was offered gets it for the full time, whatever the memory |
| `LeaseRules.GivenBackIsOffered` | src/dhcp/server.c:541-752 | a released address is offered, at any later time, to whoever has no lease and asks for it, and a declined one at any time |
| `LeaseRules.AddLeaseGrants` | src/dhcp/server.c:193-220 | after adding a lease exactly this client holds this address until then, and everybody else what they held |
| `LeaseTable.RunConsistent` | src/dhcp/server.c:653-760 | after every run list and index describe the same leases, one per address and per client, all in range, sorted by descending expiry |
| `LeaseTable.LateClockExact` | src/dhcp/server.c:185-220 | for any table and any accepted client and address, a lease with any expiry gets its place in the order exactly if the expiry is below 2^31, there is no other lease, or its distance to the latest other expiry, cut down to 32 bits, is at most 2^31 |
| `LeaseTable.Server.FindLeaseByMac` | src/dhcp/server.c:97-110 | the first lease of the list with that client |
| `LeaseTable.Server.FindFreeOrExpiredNip` | src/dhcp/server.c:244-284 | the loop over the range finds what the specification finds |
| `LeaseTable.Server.Get` | src/dhcp/server.c:123-183 | the object hands out the record that the specification reuses, frees or allocates, with list and index following |
| `LeaseTable.Server.Add` | src/dhcp/server.c:193-220 | the object adds the lease as specified and stays consistent |
| `LeaseTable.Server.LeaseSetExpire` | src/dhcp/server.c:286-295 | the object moves the lease to its new place in the list and stays consistent |
| `LeaseTable.Server.SendOffer` | src/dhcp/server.c:541-582 | the object answers a DISCOVER as specified and stays consistent |
| `LeaseTable.Server.HandleRequest` | src/dhcp/server.c:694-720 | the object answers a REQUEST as specified and stays consistent |
| `LeaseTable.Server.Listen` | src/dhcp/server.c:653-760 | the object answers every packet as specified and stays consistent |
| `DhcpOptions.HoldsEnd` | src/dhcp/common.c:134-146 | on a written area the walk ends at the total encoded length |
| `DhcpOptions.AddedHolds` | src/dhcp/common.c:228-244 | an added option goes behind the others or, without room, changes nothing; nothing behind the first 308 bytes is written |
| `DhcpOptions.ReaderInvertsWriter` | src/dhcp/common.c:74-132 | on an area that holds a list of options the reader finds the data of the first one with that code, and nothing exactly if there is none |
| `DhcpOptions.BuiltPacket` | src/dhcp/common.c:336-355 | after any header and any additions the reader returns the data of the first accepted option with that code or nothing, the end mark is at the encoded length, and the rest of the area is untouched |
| `DhcpOptions.NumberComesBack` | src/dhcp/common.c:285-334 | a number added under a fresh code is the number that is read |
| `DhcpLayouts.FieldsSearched` | src/dhcp/common.c:74-132 | in fields with any padding before, between and behind the options: the option is found in the option area, or else, if an overload option there asks for it, in the file field, or else, if asked for, in the name field, and nowhere else |
| `DhcpLayouts.OffsetData` | src/dhcp/common.c:74-132 | and its data is that of the first option there with the code |
| `DhcpLayouts.AreaScan` | src/dhcp/common.c:84-129 | one field with padding: the first option with the code, or the bits of all its overload options |
| `DhcpLayouts.AddedBehind` | src/dhcp/common.c:228-244 | on an area with padding the writer puts the option in the place of the end mark, if there is room |
| `DhcpLayouts.NumberSizes` | src/dhcp/common.c:43-60 | the codes that are written as numbers, by size |
| `DhcpOptions.BigEndianRoundTrip` | src/dhcp/common.c:285-317 | a number in network order reads as itself |
| `DhcpOptions.Packet.GetOption` | src/dhcp/common.c:74-132 | whenever the fields do not ask for each other in a circle, the loop ends after at most three further fields and finds what the specification finds |
| `DhcpOptions.ForeverExact` | src/dhcp/common.c:84-121 | the loop goes round for ever exactly if the file and name fields that the option area leads to ask for each other, or for themselves, in a circle |
| `DhcpOptions.CircularPacket` | src/dhcp/common.c:95-121 | packets with fields of the right sizes for which it does, whatever is behind the end marks |
| `DhcpOptions.Packet.EndOption` | src/dhcp/common.c:134-146 | the loop reaches the end mark of the walk |
| `DhcpOptions.Packet.AddBinary` | src/dhcp/common.c:228-244 | the bytes of the area after adding, with every write inside it |
| `DhcpOptions.Packet.AddNumber` | src/dhcp/common.c:267-334 | a number is added only under a code of its size |
| `DhcpOptions.Packet.InitHeader` | src/dhcp/common.c:336-355 | the area holds the message type |
| `ClientTimers.LeaseSeconds` | src/dhcp/client.c:1600-1616 | a lease time between 10 seconds and 2^28, whatever the option says |
| `ClientTimers.LeaseSecondsIs` | src/dhcp/client.c:1600-1616 | the option value if it is between 10 and 2^28, ten seconds below, an hour without an option, and only the low 28 bits of larger values |
| `ClientTimers.RenewalPendingExactly` | src/dhcp/client.c:1695-1731 | in every run, after the renewal timer fired n times, another renewal is pending exactly if the time from T1 to T2, halved n times, is more than a minute |
| `ClientTimers.RebindingPendingExactly` | src/dhcp/client.c:1651-1693 | likewise for rebindings and the time from T2 to the end of the lease |
| `ClientTimers.RenewStep` | src/dhcp/client.c:1695-1731 | when the next renewal comes, in milliseconds and 32 bits, and that the other timers stay |
| `ClientTimers.RebindStep` | src/dhcp/client.c:1651-1693 | when the next rebinding comes, that no renewal is left, and that the end of the lease stays |
| `ClientTimers.OtherSteps` | src/dhcp/client.c:1632-1764 | at the end of a lease nothing is pending; an acknowledgement sets the three timers to a half, seven eighths and all of the new lease |
| `ClientTimers.TimesOrdered` | src/dhcp/client.c:1746-1748 | T1 < T2 < expiry for every lease of at least 10 seconds |
| `ClientTimers.RequestsInTime` | src/dhcp/client.c:1651-1764 | in every state of every run, with any jitter, a pending renewal is before T2 and a pending rebinding before the end of the lease |
| `ClientTimers.PhaseInTime` | src/dhcp/client.c:1660-1712 | every repeated request is more than half a minute before its deadline, despite up to a second of jitter each |
| `ClientTimers.RenewalsHalve` | src/dhcp/client.c:1695-1731 | if the delays fit in 32 bits, a renewal is repeated after half of the time left to T2, up to two seconds per request sent |
| `ClientTimers.RebindingsHalve` | src/dhcp/client.c:1651-1693 | if the delays fit in 32 bits, a rebinding is repeated after half of the time left of the lease, up to two seconds per request sent |
| `ClientTimers.FirstWaitExact` | src/dhcp/client.c:1660-1712 | in either phase the first repetition comes after half of the time left whatever the jitter, if and only if the delay fits in 32 bits |
| `ClientTimers.FirstRenewalExact` | src/dhcp/client.c:1695-1731 | so for renewals, in terms of the lease |
| `ClientTimers.FirstRebindingExact` | src/dhcp/client.c:1651-1693 | and for rebindings, in terms of the lease |
| `ClientTimers.ShortLeaseUnwrapped` | src/dhcp/client.c:1706-1711 | all leases up to 2^24 seconds satisfy that condition in both phases |
| `ClientTimers.LongLeaseWraps` | src/dhcp/client.c:1660-1712 | no lease from 0x1600000 seconds on satisfies it for renewals, none from 0x41a0000 on for rebindings |
| `ClientTimers.LongRebindingWraps` | src/dhcp/client.c:1660-1668 | the first rebinding of a lease of 0x5000000 seconds is repeated far too early |
| `ClientTimers.StepKeeps` | src/dhcp/client.c:1632-1764 | every timer and every acknowledgement keeps the schedule invariant |
| `ClientTimers.Timers.Fire` | src/dhcp/client.c:1632-1731 | the handlers take the steps of the runs and keep the schedule invariant |
| `LinkLocal.RunIsFair` | src/dhcp/client.c:2617-2664 | in every run an address becomes available only right after three probes and two announcements of it without a conflict in between; while it is watched or defended it was reported and not given up; and it is lost only at a second source conflict after one defence |
| `LinkLocalRuns.TakenInSilence` | src/dhcp/client.c:2617-2664 | over the events of every run: an address reported available was probed three times and announced twice, and from its first probe on no ARP packet named it as sender or target, and the machine was neither stopped nor started |
| `LinkLocalRuns.ConflictStops` | src/dhcp/client.c:1388-1459 | an ARP packet that names the address while it is probed or announced ends it: it is dropped, the machine stops listening, and it begins again or, from the tenth conflict on, reports failure |
| `LinkLocalRuns.LostAtSecond` | src/dhcp/client.c:1419-1436 | over the events of every run: an address is lost exactly at a packet sent from it after another such packet was answered while it was watched, with nothing but packets from other addresses in between |
| `LinkLocalRuns.GivesUpAtTenth` | src/dhcp/client.c:1416-1457 | over the events of every run: failure is reported exactly if a packet ends the claim to an address and is at least the tenth since the count was last cleared, in eight bits |
| `LinkLocalRuns.SilenceTakes` | src/dhcp/client.c:520-590 | a machine that is about to probe, after a start or after a conflict, takes its address in six timeouts if the network stays silent |
| `LinkLocalRuns.OthersPass` | src/dhcp/client.c:1404-1414 | a packet about other addresses changes nothing |
| `LinkLocalRuns.TargetOnly` | src/dhcp/client.c:1419-1432 | a packet that only asks for an address in use changes no more than the count |
| `LinkLocalRuns.SourceDefended` | src/dhcp/client.c:1419-1428 | the first packet from another owner is answered by one announcement, and the address is kept |
| `LinkLocalRuns.DefenceEnds` | src/dhcp/client.c:2605-2615 | if no other such packet comes in time the address stays, and nothing is sent |
| `LinkLocal.SecondConflictGivesUp` | src/dhcp/client.c:1430-1457 | a second source conflict while defending reports the address lost, stops listening for it and begins again with new probes or reports failure |
| `LinkLocal.DefenceKeeps` | src/dhcp/client.c:1419-1428 | a source conflict while watching is answered by one announcement |
| `LinkLocal.QuietNetworkTakes` | src/dhcp/client.c:520-590 | without conflicts a start leads in exactly six timeouts to the address it drew, probed three times and announced twice |
| `LinkLocal.StepKeeps` | src/dhcp/client.c:1342-1459 | every timer, ARP packet, start and stop keeps the invariant and only extends the log |
| `LinkLocal.Machine.OnArp` | src/dhcp/client.c:1388-1459 | the ARP handler takes the steps of the runs and keeps their invariant, as the other handlers do |
| `QuotedString.JoinRoundTrip` | src/shared/shl_util.c:587-768 | for tokens without zero bytes, tokenizing a joined line gives them back exactly if no token is empty and an apostrophe occurs only together with a space, tab, newline or vertical tab |
| `QuotedString.JoinTokenizes` | src/shared/shl_util.c:587-768 | tokens that meet the condition come back, and empty ones are dropped |
| `QuotedString.ScannersAgree` | src/shared/shl_util.c:512-665 | the tokenizer and the decoder are inside quotes and escapes at the same places of a token |
| `QuotedString.EncodedDecodes` | src/shared/shl_util.c:512-696 | decoding an encoded token gives the token |
| `QuotedWords.SpreadTokenized` | src/shared/shl_util.c:587-665 | bare words and words in either kind of quotes, with any number of blanks around them, are cut into exactly these words, without the quotes |
| `QuotedWords.EscapesDecode` | src/shared/shl_util.c:484-561 | text written with every escape that has a meaning decodes to itself, inside and outside quotes |
| `QuotedWords.OtherEscapes` | src/shared/shl_util.c:484-561 | escapes without a meaning and a backslash at the end are kept |
| `QuotedWords.EscapeNotCut` | src/shared/shl_util.c:587-665 | an escaped character never ends a token |
| `QuotedWords.OpenQuote` | src/shared/shl_util.c:587-665 | a quote that is not closed takes the rest of the line into one token |
| `QuotedWords.JoinPlain` | src/shared/shl_util.c:672-768 | words without quotes and backslashes are printed as they are, with one blank between them, and those with white space in double quotes |
| `QuotedString.EncodedStays` | src/shared/shl_util.c:587-696 | an encoded token is not cut by the tokenizer |
| `QuotedString.JoinLoses` | src/shared/shl_util.c:587-768 | a token with an apostrophe but no white space loses apostrophes on the way |
| `QuotedStringBuffers.DecodeInPlace` | src/shared/shl_util.c:512-561 | the in-place decoder leaves the decoded string with its terminator and never writes ahead of its reading |
| `QuotedStringBuffers.TokenizeLine` | src/shared/shl_util.c:587-665 | the scanning loop over positions cuts and decodes as specified |
| `QuotedStringBuffers.QuoteLength` | src/shared/shl_util.c:698-717 | the length, and whether a space, tab, newline or vertical tab occurs |
| `QuotedStringBuffers.EncodeInto` | src/shared/shl_util.c:672-696 | appends the encoded token, at most two bytes per character and two quotes |
| `QuotedStringBuffers.Reserve` | src/shared/shl_util.c:267-288 | at least the room asked for with the same contents, or failure without memory |
| `QuotedStringBuffers.NeededExact` | src/shared/shl_util.c:734-748 | the three wrap-around tests catch every overflow of the size, exactly but for a string of 2^63 - 2 or 2^63 - 1 bytes at the beginning of the line |
| `QuotedStringBuffers.JoinLine` | src/shared/shl_util.c:719-768 | every write is inside the reserved buffer and the result is the joined line with its terminator; it fails exactly without memory or if the length is no `int` |
| `Atoi.Ulln` | src/shared/shl_util.c:93-162 | stops at the first non-digit; the two phases agree with positional notation for every value that fits in 64 bits; larger values are reported as promised if and only if the last digit does not carry out of 64 bits |
| `Atoi.Un` | src/shared/shl_util.c:183-200 | for every string and base: the exact value if it fits in 32 bits, otherwise a range error with the largest value |
| `Atoi.DecimalValue` | src/shared/rtsp.c:1208-1227 | a printed number has its value in positional notation |
| `Atoi.DigitsExactly` | src/shared/shl_util.c:43-66 | the digits of a base are the first characters of the small and of the capital alphabet, and no others |
| `Atoi.BaseReads` | src/shared/shl_util.c:93-162 | a number up to 2^64 - 1, written in any base with small or capital letters, is read as itself to the end |
| `Atoi.PrefixReads` | src/shared/shl_util.c:68-91 | where no base is asked for, a zero in front means octal, 0x hexadecimal, and everything else decimal |
| `Atoi.ValueMore` | src/shared/shl_util.c:120-141 | positional notation and multiply-and-add agree digit by digit |
| `Atoi.DigitStep` | src/shared/shl_util.c:124-147 | one digit in either phase and on the way from one to the other |
| `Atoi.MultU64` | src/shared/shl_macro.h:187-206 | the division test refuses exactly the products that do not fit |
| `Atoi.ParsedExact` | src/shared/shl_util.c:93-162 | that condition, as a fact about the value and its last digit |
| `Atoi.PowerOfTwoBases` | src/shared/shl_util.c:93-162 | it always does so in the bases 2, 4, 8, 16 and 32 |
| `Atoi.LostCarry` | src/shared/shl_util.c:143-147 | 2^64 in base 36 parses without an error to a number sixteen too small |
| `RateLimit.Limiter.Check` | src/shared/shl_util.c:904-926 | the object takes the step of the runs and grants exactly the calls that the bounds count |
| `RateLimit.WindowBound` | src/shared/shl_util.c:904-926 | no window grants more than `burst` calls |
| `RateLimit.RefusedExactly` | src/shared/shl_util.c:904-926 | a call is refused exactly when its window is still open and has granted `burst` calls |
| `RateLimit.SwitchedOff` | src/shared/shl_util.c:904-926 | without an interval or a burst nothing is ever refused |
| `RateLimit.SpanBound` | src/shared/shl_util.c:904-926 | in any span of time not longer than `interval` fewer than twice `burst` calls are granted |
| `RateLimit.SpanBoundIsTight` | src/shared/shl_util.c:904-926 | for every burst above one there is a run with one call less than twice `burst` in such a span |
| `RateLimit.DefinedNeverRefuses` | src/shared/shl_util.h:149-150 | a limiter made by the static initialiser never refuses a call, since its values are in another order than the fields |

## Left out

- Sockets, epoll, D-Bus, udev, process handling, user interfaces, logging: input and output only.
- `htable_clear`, `shl_ring_peek`, `shl_ring_flush`: easy members beside the ones modelled.
- The first bucket of a fresh hash table shares its memory with `perfect_bit`; the model gives it memory of its own.
- Hash tables of more than 2^30 buckets: growing further counts as shortage of memory.
- Hash and compare callbacks are pure functions; lookups ask that equal objects have equal hashes.
- Htable.Htable.Insert: for a pointer that shows no bit it says what the table holds after this insert, but not after later ones, which may give bits of the mask back and lose it.
- Ring.AlignPower2IsLeast: for arguments above 2^63 it states the zero that the comment promises; the shift by the full width that the code does there is undefined.
- RTSP header lines beyond the content length, the content type and the range of the sequence number: they do not matter for the framing or the body.
- The standard phrase that a reply without one gets, and the headers that the receiver overwrites when it seals a received message again.
- RtspSealing.SealedFits: remembered headers are positions; the source keeps pointers into an array, which are assumed to stay right when it grows beyond 64 headers.
- Allocation failures and failing handlers inside the RTSP parser: they end the connection.
- RTSP callbacks and the table of waiting calls: only the wire side of cancellation is modelled.
- RtspFraming.TextRoundTrip: a line may be folded and may hold breaks in quotes, but does not begin with a blank and has balanced quotes, and the first one does not begin with a dollar sign or a quote.
- RtspFraming.TextArrives: likewise; and a line feed behind a line that ended in a carriage return is part of that line break, not an empty line.
- RtspSealing.LooseRequestArrives: method and address hold no white space, quote or zero byte, and the method does not begin with a dollar sign.
- RtspSealing.RequestArrives: method and address hold no white space, quote or zero byte, and the method does not begin with a dollar sign.
- RtspSealing.AnnouncedExact: headers that sealing does not overwrite are readable lines, and only content length headers announce a length; the source lets the application append any text.
- RtspBody.ParametersArrive: the receiver takes no header for a content type that the sender does not; the source compares keys before cleaning on one side and after it on the other.
- `wpas_send`, which queues requests with cookie 0, timeouts and server mode of the supplicant bus.
- WpasPairing.RunPairs: the peer answers each request once and in order.
- WpasRuns.Drained: the socket takes what is written and the peer answers; it states that such a continuation exists.
- ARP checks before an address is offered: the source always reports success.
- LeaseRules.RequestExact: times stay below 2^31; likewise the other rules.
- LeaseTable.RunConsistent: times stay below 2^31, and the last address of the range is below 255.255.255.255.
- A reservation of five minutes after an OFFER: the source stores 300 as an absolute expiry, and so does the model.
- The client address of a REQUEST is compared in the byte order in which the source compares it; the model takes it as a number.
- DhcpOptions.Packet.GetOption: excludes the circular fields of `ForeverExact`, on which the source does not return.
- DhcpOptions.Packet.EndOption: the end mark is reached inside the area, as `HoldsEnd` shows for every area the writer made; the source reads on otherwise.
- DhcpOptions.Packet.AddBinary: likewise.
- DhcpOptions.Packet.AddNumber: likewise.
- DhcpLayouts.FieldsSearched: the file and name fields hold no overload option, as section 9.3 of RFC 2132 asks, and the code is not padding or end mark; with overload options there `ForeverExact` says what happens.
- DhcpOptions.BuiltPacket: added codes are not padding, end mark or overload.
- `dhcp_checksum` and the DHCPv6 option codec.
- DHCP client states other than bound, renewing, rebinding and expired; timers fire exactly at their time.
- Link-local: delays between packets are not modelled, only their order; ARP packets are received only while the client listens.
- QuotedStringBuffers.JoinLine: excludes tokens of the two lengths of `NeededExact`.
- ClientTimers.RenewalsHalve: excludes leases whose delay wraps, for which `FirstRenewalExact` shows that the first wait is wrong.
- ClientTimers.RebindingsHalve: likewise, with `FirstRebindingExact`.
- `shl_atoi_uln` and `shl_atoi_zn`: on 64-bit machines they are the parser modelled by `Ulln`.
- RateLimit.SpanBound: the clock is positive, never goes back and does not reach 2^64 within one interval.
