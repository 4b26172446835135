# JOTPOT Server: a verified model

A Dafny model of the self-contained protocol parts of an HTTP/1.x server written in Go, with proofs about
every input, every run and every interleaving. `dafny verify dfyconfig.toml` checks all of it.

| files | component |
|---|---|
| `Strconv.dfy`, `MapTotals.dfy` | decimal and hex number text with bit-size limits, two's complement wrap-around, byte search; sums over maps |
| `ChunkedGrammar.dfy`, `ChunkedReader.dfy` | the resumable chunked decoder against a reference decoder and the grammar of section 4.1 of RFC 7230 |
| `ServerState.dfy`, `ServerSchedules.dfy`, `ServerCalls.dfy` | the open, closing, closed protocol of the server, interleaved at every lock operation and field access |
| `HeaderStore.dfy`, `HeaderLinearizable.dfy`, `HeaderCalls.dfy`, `HeaderHas.dfy` | the header map under double-checked locking |
| `StableSort.dfy`, `Ranges.dfy`, `RangeCoverage.dfy`, `RangeShape.dfy` | byte ranges: sorting and merging in place, and what that does to the bytes asked for |
| `RangeHeader.dfy` | the Range header (sections 2.1 and 3.1 of RFC 7233) |
| `Metadata.dfy`, `MetadataRuns.dfy`, `MetadataReads.dfy`, `HeaderMetadata.dfy` | size and range kept in Content-Range, Content-Length and Transfer-Encoding (section 4.2 of RFC 7233) |
| `HttpChars.dfy`, `QuotedString.dfy`, `MediaType.dfy`, `MediaTypeGrammar.dfy` | character classes, quoted strings (section 3.2.6 of RFC 7230), media types (section 3.1.1.1 of RFC 7231) |
| `HandlerList.dfy` | handler lists as linked lists on the heap, and calling along them |
| `EncodingList.dfy`, `Pipes.dfy`, `Pipelines.dfy`, `ChunkedCoding.dfy` | the sorted list of encodings, chains of readers and writers, what the two together do to data, and the chunked decoder as one of the encodings |
| `StatusTable.dfy` | the padded status tables |
| `Etag.dfy` | base-88 etag digits in wrapping 64-bit arithmetic |

A `string` stands for a Go byte string: each `char` is one byte. A Go slice that is changed in place is an
array or a field of sequence type; goroutines are program counters in a state machine whose events are single
lock operations and field accesses. What a method computes is tied to a function of its inputs, and the
promises of the source are proved about that function.

## What the code does otherwise than documented

- A chunked stream that merely breaks off on a source ending in `io.EOF` is reported as a complete body
  (`ChunkedReader.EofMeansCompleteIff`). Behind a wrong or missing chunk closing the reader is not finished but at a
  chunk's start, unlike after every other failure, so that it can read on after an error
  (`ChunkedReader.ReadsOnAfterError`, `ChunkedReader.SilentIff`).
- The server can be Closed with a connection being served (`ServerSchedules.ClosedWithAConnection`), exactly while
  a connection is left, some goroutine still acts on a zero it read before, and none holds the lock to open it
  (`ServerSchedules.ClosesBusyIff`);
  closing a server without connections leaves it Closing (`ServerSchedules.IdleCloseIsStuck`).
- Merging drops the range from the least int64 to 0, whose length wraps, though it asks for a byte
  (`RangeCoverage.DropSafeIff`). Without sorting, an open-ended range is shortened by an earlier overlapping one
  (`RangeCoverage.MergeShortens`), which loses bytes exactly if a range swallowed by its neighbour asks for one that
  no surviving range of the request does (`RangeCoverage.MergeCoversIff`); and merging twice is merging once exactly
  if no join reaches the range kept before it (`RangeShape.MergeTwiceIff`).
- A Range header under six bytes and a Content-Range header under six bytes panic (`RangeHeader.ParseRangeHeader`,
  `MetadataObject.HeaderMetadata.SetSize`). A quoted string ending in a backslash does (`QuotedString.ParsePanicIff`),
  and so does a media type ending that way or behind an equals sign, and no other
  (`MediaTypeGrammar.CrashIff`, `MediaTypeGrammar.CrashInputs`).
- A media type without parameters keeps the case of its subtype, and a plain last value its trailing blanks
  (`MediaTypeGrammar.AcceptIff`).
- Quoted text loses all bytes but the first of every UTF-8 character longer than one byte
  (`MediaTypes.RoundTripIff`).
- The Content-Length of the range from 0 to the greatest int64 comes out negative (`MetadataRuns.LengthExactIff`);
  an absolute range set after a failed relative one is set, yet answered with an error
  (`MetadataRuns.SizeAndRangeCommute`).
- A Content-Range in another unit than bytes is taken for a size of 0 (`MetadataRuns.OtherUnit`).
- A pipe of writers applies the last coding first, so that it keeps the order of section 3.3.1 of RFC 7230, and is
  read back by the readers for the same codes, exactly for lists of codes that are their own reverse
  (`Pipelines.WritersInOrderIff`, `Pipelines.ReadsBackIff`).
- The chunked encoding has no writer, so that opening the pipe for a body of unknown length panics exactly if chunked
  is among its codings (`ChunkedCoding.ChunkedPanicsIff`).
- A handler passed to HandleWithHandler is never called when no item is of the Handle stage
  (`HandlerLists.CallWithIsSpliced`).
- The etag digits of an unsigned number from 88^10 wrapped to 64 bits up panic, and from 88^13 wrapped up never
  end (`Etags.FormatUint64`, `Etags.LoopEndsIff`); absolute values of int64 stay below both.
- The length of a range from a suffix to byte 0 leaves out the size of the data (`RangeShape.AbsLengthExactIff`).
- The etag alphabet holds the digit 6 twice, so different numbers are written alike (`Etags.TagsCollide`).
- A status class whose code 0 is set after it has grown keeps the old default for the codes in between
  (`StatusTables.LateZero`): exactly the unset codes passed before that are affected
  (`StatusTables.PromiseForAllValuesIff`).

## Model

| member | source | states |
|---|---|---|
| Strconv.ParseUintIff | http/http1/encoding/chunked/chunkedParser.go:185-189 | number text parses exactly if it is non-empty, all digits of the base, and its positional value fits the limit, and then to that value; the range error means that leading digits overflow, and comes with the limit, a syntax error with 0 |
| Strconv.DigitIff | http/http1/encoding/chunked/chunkedParser.go:185-189 | what each character counts as, by its place among the digits and letters, small or capital; nothing else is a digit |
| Strconv.ParseDenotesIff | http/http1/encoding/chunked/chunkedParser.go:185-189 | so a number is read exactly from the texts that write it in digits of either case with any leading zeros |
| Strconv.ParseFormat | http/request.go:161-164 | printed decimal and hex numbers parse back |
| Strconv.FormatUintIff | http/http1/metadata.go:163-167 | the printed number is the one text that writes it in small digits without a leading zero |
| Strconv.FormatIntDenotes | http/http1/metadata.go:67-68 | a negative number is a minus sign and the text of its absolute value |
| Strconv.Widths | http/http1/metadata.go:41 | the limits are those of 31 and 63 bits |
| Strconv.WrapCongruent | jps/range.go:54-95 | wrapping changes a result by a multiple of 2^64 |
| ChunkedGrammar.DecodeEncode | http/http1/encoding/chunked/chunkedParser.go:204-254 | for any chunks (sizes below 2^31 written in hex digits of either case, with any leading zeros, any CR-free extensions) the reference decoder yields their concatenated payloads and stops right behind the final CRLF |
| ChunkedGrammar.CompleteIsMessage | http/http1/encoding/chunked/chunkedParser.go:204-254 | conversely, a stream decoded to completion is a valid message followed by the unread rest |
| ChunkedGrammar.CompleteIff | http/http1/encoding/chunked/chunkedParser.go:204-254 | decoding completes on exactly the byte strings that start with a valid message |
| ChunkedGrammar.PlainIsValid | http/http1/encoding/chunked/chunkedParser.go:185-188 | payloads of 1 to 2^31-1 bytes with plain hex sizes, in small letters or capitals, form a valid message, so the above is not vacuous |
| ChunkedGrammar.PartOfChunk | http/http1/encoding/chunked/chunkedParser.go:229-242 | stopping anywhere inside a chunk and resuming decodes the same as not stopping |
| ChunkedGrammar.EndOfChunk | http/http1/encoding/chunked/chunkedParser.go:243-250 | after a chunk's last byte only CRLF leads on; anything else is the chunk-end error, with the two bytes consumed |
| ChunkedReader.Source.Read | http/http1/encoding/chunked/chunkedParser.go:42-65 | the source hands out any fragment it likes of what is left, writes no other byte of the buffer, and reports its end only with no bytes |
| ChunkedReader.Reader.Read1 | http/http1/encoding/chunked/chunkedParser.go:83-92 | exactly one byte is consumed, or the source's end reported, whatever the fragments |
| ChunkedReader.Reader.Read2 | http/http1/encoding/chunked/chunkedParser.go:94-109 | exactly two bytes are consumed in order, or the end reported with nothing left |
| ChunkedReader.Reader.ReadLineBuffered | http/http1/encoding/chunked/chunkedParser.go:127-143 | on a buffered source: the line up to the first CR, which LF must follow, consumed to the byte |
| ChunkedReader.Reader.ReadLineByPairs | http/http1/encoding/chunked/chunkedParser.go:145-169 | reading two bytes at a time gives the same line, error and position, with the CR at even and odd offsets |
| ChunkedReader.Reader.ReadLine | http/http1/encoding/chunked/chunkedParser.go:126-170 | both ways of reading a line agree with one specification on every byte string |
| ChunkedReader.Reader.ReadBytesLeft | http/http1/encoding/chunked/chunkedParser.go:172-190 | the hex size before any extension, with the syntax and overflow errors told apart |
| ChunkedReader.Reader.ConsumeCRLF | http/http1/encoding/chunked/chunkedParser.go:193-202 | two bytes are consumed and accepted only if CRLF |
| ChunkedReader.Reader.StartChunk | http/http1/encoding/chunked/chunkedParser.go:208-228 | a chunk's first line leaves what is still to come unchanged; every failure leaves the reader finished and the source where the reference decoder stops |
| ChunkedReader.Reader.ReadPayload | http/http1/encoding/chunked/chunkedParser.go:229-247 | bytes delivered are the next of the remaining payload; the caller's buffer is otherwise untouched |
| ChunkedReader.Reader.Read | http/http1/encoding/chunked/chunkedParser.go:204-254 | for any fragments and buffer: what is delivered followed by what remains is what remained before; with an error all payload was delivered, the error is the reference one and the source stands where the reference decoder stops |
| ChunkedReader.ReadAll | http/http1/encoding/chunked/chunkedParser.go:204-254 | for every sequence of positive buffer sizes, fragmentation and kind of source, reading to the first error gives the reference payload, error and source position; a valid message gives its payloads, `io.EOF` and the source right behind it |
| ChunkedReader.EofMeansCompleteIff | http/http1/encoding/chunked/chunkedParser.go:204-235 | `io.EOF` means a complete message for all streams exactly on sources that do not themselves end in `io.EOF` |
| ChunkedReader.SilentIff | http/http1/encoding/chunked/chunkedParser.go:204-254 | after an error nothing more is delivered and `io.EOF` answered, except exactly behind a missing chunk closing on a source with another end, and behind a wrong one unless the text after it reads as an end |
| ChunkedReader.QuietIff | http/http1/encoding/chunked/chunkedParser.go:204-254 | which texts read as an end: no line or a positive size with nothing behind it, on a source ending in `io.EOF`; or size 0 with CRLF behind it, or with less than two bytes on such a source |
| ChunkedReader.ReadAllTwice | http/http1/encoding/chunked/chunkedParser.go:204-254 | the same of reading to an error and then on, for every fragmentation and buffer size |
| ChunkedReader.ReadsOnAfterError | http/http1/encoding/chunked/chunkedParser.go:243-247 | a stream that gives "a" and an error, and then "b" and `io.EOF` |
| ServerState.StepInv | jps/server.go:65-90 | every step of every goroutine keeps: lock ownership, the counter equal to the goroutines in flight, and what each goroutine relies on |
| ServerState.ConnectionsConserved | jps/server.go:65-90 | in every run the counter is the number of goroutines between increment and decrement, and rises only while Open |
| ServerState.StepLive | jps/server.go:247-266 | while Closing, a shutdown under way stays under way until Closed is written, and one not under way never starts |
| ServerState.ClosingPeriod | jps/server.go:176-201 | no lost shutdown: all through a Closing period connections are left or a goroutine is between its decrement and its write, exactly if so when the period began |
| ServerState.ShutdownIff | jps/server.go:247-278 | once all connections are handled without another Open or Close, the server is Closed if and only if the shutdown was under way at the start |
| ServerState.StaysUnset | jps/server.go:247-278 | a Closed server stays Closed under every interleaving until Open or Close is called |
| ServerState.FreshCloseIsQuiet | jps/server.go:87-89 | Closed is written only by the conditional change, and with no connection if the zero was read in the current period; ServerSchedules.ClosesBusyIff has the other half |
| ServerState.ZeroUntilOpen | jps/server.go:65-78 | no connections in a server that is not open stays so until it is opened again |
| ServerState.HandlersOnlyWhileClosed | jps/server.go:286-335 | handlers are added only to a Closed server, which stays Closed meanwhile |
| ServerCalls.BlockedIff | jps/server.go:65-90 | a goroutine that is not done waits exactly while another stands where it holds the lock it is about to take: readers of the state keep out writers only |
| ServerCalls.ServedWhileOpen | jps/server.go:65-78 | while the server stays Open, under every interleaving, nobody who registers is turned away: he is still registering or gets to run his handler; so one is turned away only if the state was not Open at some time of the call |
| ServerCalls.AllServed | jps/server.go:176-201 | let the goroutines of an Open server run in any order until none can: everyone who was registering has been served |
| ServerCalls.EveryConnectionServed | jps/server.go:176-201 | so every connection that comes to a server which stays Open is served |
| ServerCalls.NeverServedUnlessOpen | jps/server.go:65-71 | no connection is served that comes to a server which is not Open at any time of the call |
| ServerCalls.HandlersConserved | jps/server.go:286-335 | while the server stays Closed, under every interleaving, the handlers there are with those still to be added are those there were with those requested since, each once, and they are appended |
| ServerCalls.EveryHandlerAdded | jps/server.go:286-335 | so once no goroutine can go on all of them are in |
| ServerCalls.NoHandlersUnlessClosed | jps/server.go:286-335 | none is added while the server is not Closed at any time |
| ServerSchedules.SchedulesEnd | jps/server.go:173-203 | without new calls every schedule is finite, bounded by the steps goroutines have left |
| ServerSchedules.NoDeadlock | jps/server.go:237-266 | if no goroutine can take a step, or only one that a waiting writer keeps out, all are done |
| ServerSchedules.EveryScheduleShutsDown | jps/server.go:247-278 | under every schedule of a Closing server taken to the end, with or without waiting writers keeping readers out, everyone finishes and the server is Closed exactly if a connection was left or departing at the start |
| ServerSchedules.ClosedWithAConnection | jps/server.go:82-90 | a run from the initial state that ends Closed with a connection being served |
| ServerSchedules.ClosesBusyIff | jps/server.go:82-90 | a Closing server can still become Closed with a connection before it is opened again exactly if a connection is left, some goroutine is in the conditional change on a zero it read, and none holds the lock to open the server |
| ServerSchedules.TryingCloses | jps/server.go:247-266 | whatever locks are held, the holders let go and the goroutine in the conditional change gets its write |
| ServerSchedules.OpeningBlocks | jps/server.go:237-245 | while the lock is held to open the server no run of the period closes it |
| ServerSchedules.NobodyClosesBusy | jps/server.go:247-266 | with nobody in the conditional change no run of the period ends Closed with a connection |
| ServerSchedules.IdleCloseIsStuck | jps/server.go:273-278 | after closing an idle server no interleaving short of Open or Close reaches Closed |
| HeaderLinearizable.NextRefines | http/header/header.go:148-217 | each atomic step either leaves the map as it was or is the one step where the call does to it what the sequential update does |
| HeaderLinearizable.StepInv | http/header/header.go:188-271 | every step keeps lock ownership, the log and what each goroutine found |
| HeaderLinearizable.Linearizable | http/header/header.go:148-330 | every interleaving of Add, Set, Del, Modify and batches equals a sequential run on one map; each entry of it is the update of a call, after its start and with its result; each returned call has exactly one |
| HeaderLinearizable.RealTimeOrder | http/header/header.go:148-330 | calls that do not overlap take effect in call order |
| HeaderLinearizable.WritesReachTheMap | http/header/header.go:188-217 | an update always writes a slice still in the map, so no value is lost to a concurrent delete |
| HeaderLinearizable.NoDeadlock | http/header/header.go:34-48 | when no goroutine can step, or only one that a waiting writer keeps out, every call has returned |
| HeaderCalls.BlockedIff | http/header/header.go:148-330 | a call waits exactly while another stands where it holds the lock it is about to take: readers of the key set keep out writers only, and of each slice there is one user at a time |
| HeaderCalls.SchedulesEnd | http/header/header.go:148-330 | without new calls every schedule is finite, bounded by the steps calls have left |
| HeaderCalls.EveryCallReturns | http/header/header.go:148-330 | under every schedule taken to its end all calls have returned, no lock is held, and the header holds what the log of updates makes |
| HeaderCalls.ReadPathOnly | http/header/header.go:148-271 | an update of a key that is there at all times, and a deletion of one that is not, never comes to the write lock, under every interleaving |
| HeaderCalls.RunHolds | http/header/header.go:148-330 | a sequential run of updates leaves under each key the values set last, none after a Del, and then all added since by Add and batches, in order, each once |
| HeaderCalls.HeaderHolds | http/header/header.go:148-330 | so does every interleaving of calls, for the order of the log |
| HeaderHas.Has | http/header/header.go:277-301 | true exactly if the header holds every wanted value at least as often as wanted |
| StableSort.SortIsStable | jps/range.go:101-110 | the specification sorts, permutes and keeps equal keys in order |
| StableSort.SortedUnique | jps/range.go:101-110 | no other sorted list has the same elements of each key in the same order |
| Ranges.SortRanges | jps/range.go:101-110 | the in-place insertion sort is that stable sort by start |
| Ranges.MergeRanges | jps/range.go:119-175 | merging and deleting in place, with reslicing, yields the merge of the values |
| Ranges.TidyRanges | jps/range.go:180-183 | sorting then merging in place yields the tidied values |
| RangeCoverage.DropSafeIff | jps/range.go:78-86 | a range dropped as having no length asks for no byte of any data, except exactly the one whose length wraps |
| RangeCoverage.CoversMeans | jps/range.go:31-42 | the bytes a range asks for, in all four forms: a negative start means the last so many bytes, a negative end leaves out all but one of that many |
| RangeCoverage.NoLengthIff | jps/range.go:78-86 | a range counts as having no length exactly if it ends before it starts, or is the one whose length wraps |
| RangeCoverage.JoinSafeIff | jps/range.go:138-168 | joining two ranges keeps their bytes for data of every size exactly if the first is not open-ended or the second reaches as far |
| RangeCoverage.MergeCovers | jps/range.go:119-175 | merging in request order keeps the bytes asked for, at every size, on lists without open-ended ranges |
| RangeCoverage.MergeIsSurvivors | jps/range.go:119-175 | on any int64 list, merging asks for exactly the bytes of the ranges of the request that are not swallowed: open-ended and directly before an absolute one that starts earlier and reaches them |
| RangeCoverage.LostOrKept | jps/range.go:119-175 | the bytes asked for are those of the surviving ranges and those of the lost ones, a leading wrapped range among them |
| RangeCoverage.MergeCoversIff | jps/range.go:119-175 | a whole call keeps the bytes of data of a size exactly if each byte of a lost range of the request is asked for by a surviving one, both told from neighbours in the request |
| RangeCoverage.MergeShortens | jps/range.go:153-167 | a list with an open-ended range that loses bytes |
| RangeCoverage.TidyCovers | jps/range.go:34-42 | tidying keeps exactly the bytes asked for, end-relative ranges included, at every size |
| RangeCoverage.TidyCoversIff | jps/range.go:78-86 | over all int64 ranges, tidying loses a byte exactly if it is byte 0, the request has the wrapped range before all others with its start, and none of the others asks for that byte |
| RangeShape.TidyIsTidy | jps/range.go:177-183 | tidied lists ascend, neighbours do not overlap, and no droppable range leads |
| RangeShape.TidyTwice | jps/range.go:177-183 | tidying is idempotent on all lists |
| RangeShape.TidySeparates | jps/range.go:177-183 | tidied absolute ranges are non-empty and each ends before the next starts |
| RangeShape.TidyLengths | jps/range.go:90-95 | tidied absolute ranges ask for the same set of bytes, and their lengths add up to its size exactly unless the request asks for every position, each byte together with the one before it |
| RangeShape.TidyBridges | jps/range.go:112-183 | tidying absolute ranges keeps which neighbouring bytes some one range asks for together |
| RangeShape.WholeIff | jps/range.go:112-183 | tidying comes to the one range whose length wraps exactly for requests with a range from 0 in which some range asks for each later byte together with the one before it |
| RangeShape.AbsLengthIff | jps/range.go:54-95 | a length is the number of bytes in the range except exactly for 0 to the greatest int64 |
| RangeShape.AbsLengthExactIff | jps/range.go:54-95 | the length of any range, end-relative ones included, is its length on data of that size exactly if that fits int64 and the range is not one from a suffix to byte 0 |
| RangeShape.MergeFromBlocks | jps/range.go:112-175 | every kept range is the hull of one contiguous run of the non-empty ranges asked for, runs in request order |
| RangeShape.MergeBlocks | jps/range.go:112-175 | the same for a whole call, leading ranges dropped |
| RangeShape.MergeTwiceIff | jps/range.go:112-175 | merging again changes nothing exactly if, along the loop, no join made a range that reaches the one kept before it |
| RangeShape.CalmIff | jps/range.go:128-173 | those loops are the ones that leave every two neighbours apart |
| RangeShape.MergeNotIdempotent | jps/range.go:112-117 | a list that merging changes again |
| RangeHeader.FormatRanges | http/request.go:164-186 | comma-separated specs of all ranges, or of those before the first that HTTP cannot express |
| RangeHeader.NextSpec | http/request.go:210-284 | the three forms of a spec before a comma or at the end, with syntax and overflow errors told apart |
| RangeHeader.ParseRangeHeader | http/request.go:193-286 | a panic exactly below six bytes, nothing exactly for longer texts that do not begin with `bytes=`, else the ranges up to the first error |
| RangeHeader.ParseListIff | http/request.go:200-285 | the parser accepts exactly comma-separated byte-range specs over numbers below 2^63 and reads each as its meaning |
| RangeHeader.SpecErrorIff | http/request.go:210-284 | which texts around a dash are a spec, and when the answer is 416 for a number over the limit instead of 400 |
| RangeHeader.FirstErrorEnds | http/request.go:200-285 | the first bad spec ends the parse, its error beside the ranges before it |
| RangeHeader.ParsedAreRepresentable | http/request.go:200-285 | every range returned, also beside an error, is one the printer accepts |
| RangeHeader.HeaderRoundTripIff | http/request.go:149-286 | behind `bytes=` a printed list of 64-bit ranges reads back exactly if it is not empty and holds no suffix of 2^63 bytes |
| RangeHeader.ParsePrintParse | http/request.go:149-286 | parsing, printing and parsing again gives what the first parse gave |
| MetadataObject.HeaderMetadata.SetSize | http/http1/metadata.go:76-98 | headers that show a record show afterwards the record with the size set, with that step's answer; no other header changes; on all headers the panics and errors |
| MetadataObject.HeaderMetadata.SetRange | http/http1/metadata.go:156-184 | headers that show a record show afterwards the record with the range set or refused, with that step's answer; no other header changes |
| MetadataObject.HeaderMetadata.RemoveContentLength | http/http1/metadata.go:59-66 | no Content-Length, chunked last, at most that coding added, no other header changed |
| MetadataObject.HeaderMetadata.SetContentLength | http/http1/metadata.go:67-74 | the one Content-Length, the codings before a final chunked, no other header changed |
| MetadataObject.HeaderMetadata.Size | http/http1/metadata.go:32-57 | the record's size on headers that show one |
| MetadataObject.HeaderMetadata.Range | http/http1/metadata.go:127-152 | the record's range on headers that show one |
| MetadataObject.ElsewhereKept | http/http1/metadata.go:59-106 | on whatever headers, no call touches another than the three |
| MetadataRuns.SizeShows | http/http1/metadata.go:32-57 | Size reads the recorded size, through Content-Range if there is one |
| MetadataRuns.RangeShows | http/http1/metadata.go:127-152 | Range reads the recorded range, or the whole when none with positions is recorded |
| MetadataRuns.SplitShows | http/http1/metadata.go:108-125 | splitting a written Content-Range gives back its parts |
| MetadataRuns.StepRefines | http/http1/metadata.go:76-184 | one call on the headers does and answers what it does on the record of size and range |
| MetadataRuns.RunRefines | http/http1/metadata.go:32-184 | the same for all runs, errors and panics included; Size and Range read the record; no other header changes |
| MetadataRuns.FollowLast | http/http1/metadata.go:76-184 | the record holds the size set last and the range set last, made absolute with the size known then |
| MetadataRuns.PlainRun | http/http1/metadata.go:32-184 | from headers silent on size and range, after any run: Size and Range give the last values, Content-Range spells them, Content-Length is the range's length or the size, and it never stands beside a final chunked |
| MetadataRuns.SuffixWritten | http/http1/metadata.go:156-168 | on any headers with a size of n bytes, setting the last k bytes writes Content-Range and Content-Length with n - k and k spelled out, likewise when the last few are left out, and nothing if k is more than n |
| MetadataReads.SizeIff | http/http1/metadata.go:32-57 | of all headers, which have a size and which, which say it is unknown, and which panic, told from the header texts |
| MetadataReads.SizeErrors | http/http1/metadata.go:32-57 | and the error of all others with the value beside it |
| MetadataReads.RangeIff | http/http1/metadata.go:108-152 | of all headers, which have a range and which, and which tell of none |
| MetadataReads.RangeErrors | http/http1/metadata.go:108-135 | and the error of those without positions |
| MetadataReads.PositionErrors | http/http1/metadata.go:132-152 | and of those whose positions are no numbers, an overflowing one being carried on |
| MetadataRuns.LengthExactIff | http/http1/metadata.go:156-184 | on whatever headers, size known or not, the Content-Length SetRange writes is the length of the range except exactly for 0 to the greatest int64 |
| MetadataRuns.SizeAndRangeCommute | http/http1/metadata.go:76-184 | setting a size and an absolute range in either order leaves the same headers, and when the answers differ |
| MetadataRuns.SeveralContentRanges | http/http1/metadata.go:108-114 | with several Content-Range values all reads and updates answer that error, and what the updates still write |
| MetadataRuns.OtherUnit | http/http1/metadata.go:115-118 | a Content-Range in another unit reads as size 0 with an error, and relative ranges on it are refused |
| MetadataRuns.SeveralLengths | http/http1/metadata.go:44-56 | several Content-Length values are an error that setting a size ends |
| HttpChars.RemoveWhitespacePrefix | http/httpchars/characters.go:84-90 | the rest behind the longest run of leading blanks |
| HttpChars.RemoveWhitespacePostfix | http/httpchars/characters.go:92-98 | the part before the longest run of trailing blanks |
| HttpChars.TokenIsPlain | http/httpchars/characters.go:47-50 | no token character is a blank, quote, backslash or separator |
| HttpChars.TokenCharIff | http/httpchars/characters.go:47-50 | the token characters are the letters, the digits and fifteen marks |
| HttpChars.TextCharsIff | http/httpchars/characters.go:3-45 | what can stand in quoted text bare and behind a backslash, which characters are visible, and which are blanks |
| HttpChars.LowerCharIff | http/http1/mediatype.go:43-50 | each capital letter becomes its small letter and everything else stays |
| HttpChars.RecasedLower | http/http1/encoding/list.go:118 | so lower-casing does not see which letters are in capitals |
| QuotedString.ParseQuotedStringNoStartingQuote | http/httpchars/quotedString.go:23-43 | value, index and error, or a panic past a last backslash |
| QuotedString.ParseFullQuotedString | http/httpchars/quotedString.go:45-58 | the value of a text that is one quoted string, and the error for a missing quote or for anything behind it |
| QuotedString.ParseQuotedIff | http/httpchars/quotedString.go:19-43 | accepts exactly qdtext and quoted pairs with a closing quote, with their value, stopping behind the quote |
| QuotedString.ParseFullIff | http/httpchars/quotedString.go:45-58 | a whole text is accepted exactly if it is a quoted string, with its value |
| QuotedString.ParsePanicIff | http/httpchars/quotedString.go:27-31 | runs off its input exactly on valid pieces followed by one last backslash |
| QuotedString.FormatTokenOrQuotedString | http/httpchars/quotedString.go:60-93 | a token bare, else quoted and escaped, up to the first byte that cannot be written |
| QuotedString.LeadsIff | http/httpchars/quotedString.go:66-67 | the range loop sees every byte exactly if no character is longer than one byte |
| QuotedString.RuneWidthIff | http/httpchars/quotedString.go:66-67 | the range loop steps over several bytes exactly where they are the UTF-8 encoding of a code point |
| QuotedString.LegalCharIff | http/httpchars/quotedString.go:66-84 | everything but controls and DEL can be written |
| QuotedString.RenderParses | http/httpchars/quotedString.go:23-93 | quoted output parses back to its bytes, also before more text, and ends at its closing quote |
| QuotedString.LegalPieces | http/httpchars/quotedString.go:66-84 | what is written between the quotes is valid and denotes the text, with quotes and backslashes alone escaped |
| MediaTypes.FormatMediaType | http/http1/mediatype.go:12-32 | type, subtype and parameters joined, or nothing if one value cannot be written |
| MediaTypes.NextParam | http/http1/mediatype.go:54-89 | one turn of the parameter loop: quoted and plain values, what follows them, every error and both panics |
| MediaTypes.ParseMediaType | http/http1/mediatype.go:36-92 | what was read before the first error, with names and type lowered and blanks trimmed as the source does |
| MediaTypes.ParseSpaced | http/http1/mediatype.go:36-92 | for token names in any case, and any blanks around the semicolons, parsing gives the type as printed with names lowered, but for a subtype alone, or a panic exactly on an empty last value |
| MediaTypes.ParseFormatted | http/http1/mediatype.go:12-92 | the same for the printed form itself |
| MediaTypes.RoundTripIff | http/http1/mediatype.go:12-92 | printing and parsing give the type back exactly if no value has a character longer than one byte, the last is not empty, and no name has a capital, a subtype alone excepted |
| MediaTypes.ReadsAnyCase | http/http1/mediatype.go:36-92 | with any letters of type, subtype and names in capitals it is read as the lower-case media type, but for a subtype alone |
| MediaTypes.TextRoundTrip | http/http1/mediatype.go:12-92 | so they do for values over visible ASCII, space and tab, separators and quotes included |
| MediaTypeGrammar.CrashIff | http/http1/mediatype.go:36-92 | of all texts, parsing panics exactly on a type, a subtype and a chain of parameters with semicolons whose tail ends behind an equals sign, or behind a backslash in a quoted value |
| MediaTypeGrammar.CrashInputs | http/http1/mediatype.go:61-64 | two header values that panic |
| MediaTypeGrammar.AcceptIff | http/http1/mediatype.go:36-92 | of all texts, parsing accepts exactly a type and subtype, alone or with a chain of parameters and a last one, blanks around semicolons allowed, with the meaning given |
| MediaTypeGrammar.ReadChain | http/http1/mediatype.go:53-90 | parameters followed by semicolons are read one by one, quoted or plain, with what they mean |
| MediaTypeGrammar.SplitChain | http/http1/mediatype.go:53-90 | every text is such a chain and a tail that no semicolon follows |
| HandlerLists.HandlerList.Insert | jps/ListMethods.go:33-59 | the links stay acyclic and spell the stable insertion behind everything of its stage with at least its priority; the list stays the stable sort of its history |
| HandlerLists.HandlerList.InsertBehind | jps/ListMethods.go:45-57 | the search loop links the item in at that place |
| HandlerLists.HandlerList.Ordered | jps/ListMethods.go:3-88 | after any run of inserts: every item once, stages ascending, priorities falling within a stage, equals in insertion order |
| HandlerLists.HandlerList.CallFromItem | jps/ListMethods.go:109-126 | the cursor loop calls along the list as specified, with reply and trace |
| HandlerLists.HandlerList.CallFromWithHandler | jps/ListMethods.go:128-154 | the same with the extra handler |
| HandlerLists.HandlerList.Handle | jps/ListMethods.go:185-192 | from the first item; nothing handled on an empty list |
| HandlerLists.HandlerList.HandleWithHandler | jps/ListMethods.go:194-201 | the same with the extra handler |
| HandlerLists.CallAsks | jps/ListMethods.go:109-126 | a call asks the handlers for the session's protocol or for any, in list order, up to the first that handles the session or returns an error, and returns its reply; if none does, all are asked and nothing is handled |
| HandlerLists.WillingAt | jps/ListMethods.go:113-115 | those are the handlers at ascending positions of the list, exactly where the protocol is empty or the session's |
| HandlerLists.CallWithIsSpliced | jps/ListMethods.go:131-154 | calling with a handler has the reply and trace of calling the list with it spliced in before the first Handle-stage item, or of the plain list if there is none |
| StringOrder.CompareStrings | util/stringCompare.go:11-26 | the loop computes the lexicographic order of bytes |
| StringOrder.CompareTotal | util/stringCompare.go:11-26 | equal only on equal strings; swapping flips the answer |
| StringOrder.CompareIff | util/stringCompare.go:11-26 | greater means that the other is a proper beginning, or has the smaller byte where they first differ |
| StringOrder.CompareTransitive | util/stringCompare.go:11-26 | the order is transitive |
| EncodingLists.List.Index | http/http1/encoding/list.go:22-52 | the position of the name, or the place before which all names are greater and after which all are less |
| EncodingLists.GoesAtIff | http/http1/encoding/list.go:80-104 | inserting keeps the list strictly descending at that place and at no other |
| EncodingLists.MeansUnique | http/http1/encoding/list.go:10-20 | the map a list stands for is determined by the list |
| EncodingLists.List.Add | http/http1/encoding/list.go:82-104 | adds to the map unless the name is there, shifting the rest up |
| EncodingLists.List.Remove | http/http1/encoding/list.go:70-78 | removes from the map, shifting the rest down |
| EncodingLists.List.Get | http/http1/encoding/list.go:61-67 | what the map holds |
| EncodingLists.List.Contains | http/http1/encoding/list.go:55-58 | whether the map holds it |
| EncodingLists.List.GetReaderPipeGenerators | http/http1/encoding/list.go:109-126 | the readers of the codes, last first, if all are known; names are found whatever letters of the codes are in capitals |
| EncodingLists.List.GetWriterPipeGenerators | http/http1/encoding/list.go:128-142 | the writers of the codes as written, in order, a nil entry for each unknown one, and whether all are known |
| Pipes.Build | jps/pipe/pipe.go:46-66 | each generator is applied to what the one before made, the array holding the last one first; the first failure ends it |
| Pipes.ChainFails | jps/pipe/pipe.go:57-60 | a failed generator decides the outcome whatever follows |
| Pipes.Close | jps/pipe/pipe.go:72-86 | everything is closed from the last made to the source, up to the first failure, which is reported |
| Pipelines.ReadersUndo | http/http1/encoding/list.go:106-126 | for codings whose readers decode what they encode, the reader pipe recovers data encoded left to right, whatever the case of the codes |
| Pipelines.WritersReverse | jps/pipe/pipe.go:92-112 | the writer pipe of lower-case codes encodes in the opposite order |
| Pipelines.WritersUndone | http/http1/encoding/list.go:128-142 | so its output is recovered by the readers of the reversed codes |
| Pipelines.UnknownPanics | http/http1/encoding/list.go:128-142 | a nil entry never opens |
| Pipelines.WritersInOrderIff | http/http1/encoding/list.go:128-142 | for lower-case codes, the codings are applied in the order listed, whatever they and the data are, exactly if the list is its own reverse |
| Pipelines.ReadsBackIff | http/http1/encoding/list.go:106-142 | and exactly then the readers for the same codes read back what the writers wrote |
| Pipelines.OrderMatters | http/http1/encoding/list.go:128-142 | for every other list there are codings that fail so on all data |
| Pipelines.OpenBody | http/http1/bodyReader.go:68-76 | list, generators and From together: the pipe's front is what the chain of readers makes, and so delivers the data its codings encoded; or the coding is not supported |
| Pipelines.CreateBody | http/http1/bodyWriter.go:247-253 | list, generators and To together: what is written to the pipe's front reaches the connection encoded last code first; it fails or panics as the chain of writers does |
| ChunkedCoding.WritesMessagesIff | http/http1/encoding/chunked/chunkedParser.go:204-254 | senders of valid messages, free in their chunks, size texts and extensions, are exactly those whose texts are read whole and to a clean end |
| ChunkedCoding.ChunkedDecodes | http/http1/encoding/httpEncodings.go:14-17 | ChunkedEncoding undoes every such sender, so it is a coding that reads back what it encodes |
| ChunkedCoding.ChunkedWrites | http/http1/encoding/httpEncodings.go:14-17 | cutting into chunks of any size from 1 to 2^31-1 is such a sender |
| ChunkedCoding.CarriedOpens | http/http1/bodyReader.go:68-76 | the reader pipe for any codings and then chunked, in whatever case, delivers the data and leaves out what follows the message on the connection |
| ChunkedCoding.ReadConnection | http/http1/encoding/chunked/chunkedParser.go:256-261 | for every fragmentation and buffer size a new reader, read to its end, gives what ChunkedEncoding's reader gives in a pipe; on a connection that carries coded data it stops with `io.EOF` right behind the message, and the other readers make the data of it |
| ChunkedCoding.ChunkedPanicsIff | http/http1/bodyWriter.go:247-253 | where all other codings can write, the writer pipe of a body panics exactly if chunked is among the codes, and opens otherwise |
| Pipelines.WriterlessPanicsIff | jps/pipe/pipe.go:92-112 | the same for any one encoding without a writer |
| StatusTables.StatusTable.Get | jps/responseStatusMaps.go:129-151 | when each class set code 0 first: the last value of the status, else of its class's code 0, else the default; after any history what StatusTables.SliceIsReads says |
| StatusTables.StatusParts | jps/responseStatus.go:7-34 | the type is the upper byte and the code the lower one, and four types are classes |
| StatusTables.StatusTable.Set | jps/responseStatusMaps.go:153-211 | one more pair in the history of its class, every class array following; a panic for no class |
| StatusTables.StatusTable.SetAll | jps/responseStatusMaps.go:224-228 | all pairs in order, up to the first of no class |
| StatusTables.SliceIsReads | jps/responseStatusMaps.go:179-210 | every slot of a grown array, padding included, holds the last value of its code or the class default of when it was padded |
| StatusTables.LookupReads | jps/responseStatusMaps.go:143-150 | so does every lookup, beyond the array too, after any history |
| StatusTables.PromiseIff | jps/responseStatusMaps.go:123-211 | a code reads as its last value or else the class default exactly if it was set or the class default has not changed since it was padded |
| StatusTables.PromiseForAllValuesIff | jps/responseStatusMaps.go:123-211 | told from the order of codes alone: so for all values and defaults exactly if no code 0 is set after the code was passed unset |
| StatusTables.ZeroFirstKeepsPromise | jps/responseStatusMaps.go:123-228 | so it does for every code when each class sets code 0 first |
| StatusTables.ReadsPromised | jps/responseStatusMaps.go:123-228 | the same for all statuses of a table filled with pairs of all classes |
| StatusTables.NewFromValuePairs | jps/responseStatusMaps.go:123-127 | a new table whose history is the pairs, or a panic for one of no class |
| StatusTables.LateZero | jps/responseStatusMaps.go:183-206 | a history where it does not |
| Etags.FormatUint64 | etag/etag.go:10-27 | below 88^10 wrapped to 64 bits the digits of the number in the alphabet; from there up always a panic |
| Etags.WriteDigits | etag/etag.go:19-26 | dividing down by powers writes the canonical digits, every index in bounds; any other scale comes down to 0 before the last digit |
| Etags.FormatInt64 | etag/etag.go:29-34 | for every int64, the least included, the digits of the absolute value behind its sign |
| Etags.DigitsValue | etag/etag.go:10-27 | digits evaluate back, with no leading zero but for 0 |
| Etags.DigitsUnique | etag/etag.go:10-27 | there is no other such way to write a number |
| Etags.TenDigits | etag/etag.go:13-18 | at most ten digits |
| Etags.ExactIff | etag/etag.go:12-18 | the first loop stops on a power of 88 exactly for the numbers below 88^10 wrapped to 64 bits, which exceeds 2^63 |
| Etags.LoopEndsIff | etag/etag.go:12-18 | of all 64-bit numbers the first loop ends exactly on those below 88^13 wrapped |
| Etags.SameTextIff | etag/etag.go:8-22 | two numbers share a text exactly if their digits differ only between the two sixes |
| Etags.TagsCollide | etag/etag.go:8-22 | two numbers that do |

## Left out

- Etags.FormatUint64: takes no number on which the source's loop never ends (Etags.LoopEndsIff); there is no result to state.
- ChunkedReader.Source.Read: sleeps, timeouts and retries after temporary errors are not modelled; a read may yield nothing finitely often.
- HeaderHas.Has: wanting no values answers true; that the source then keeps the processor's lock is not modelled.
- MediaTypes.ParseMediaType: lower-casing is for ASCII letters only.
- Ranges.MergeRanges: slices are index ranges of one array; other slices sharing that array are not modelled.
- StatusTables.StatusTable.Get: returns the value, not a pointer into the table.
- Pipelines.ReadersUndo: a reader stands for all it delivers, so codings are functions on whole texts; piecewise reading is modelled for the chunked decoder only (ChunkedCoding.ReadConnection), flushing not at all.
- MetadataRuns.PlainRun: value processors of headers are the identity, and Transfer-Encoding does not begin with two final chunked codings.
- The connection counter is unbounded rather than 64 bits wide; the invariant keeps it at the number of goroutines in flight.
- A waiting writer does not keep new readers out of a read-write lock here, which allows more interleavings than Go does; the statements on deadlock and on schedules taken to their end hold with and without that.
- WaitForState and CloseAndWait wait on a channel the server never creates.
- GetValuesRawKey reads the header map without its lock.
- The locks of handler lists and of the header's processor; Session.Frame's locking, spread over callbacks.
- Trailers behind the last chunk, which the decoder does not read either.
- Cache-Control, the header line parser, URLs, dates, response buffering, gzip, zlib and lzw.
- Content-Type, encodings, languages and dates of the header metadata, which store and fetch single values.
- Sockets, files and logging.
