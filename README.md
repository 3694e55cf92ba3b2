# MyWebServer, modelled in Dafny

MyWebServer is a reactor-style HTTP server written in C++. One thread waits on
epoll, accepts connections and classifies ready events. A thread pool reads
requests, parses them, composes responses and writes them back. Idle
connections are closed by a min-heap of timers.

This project models the sequential core of that server in Dafny 4.11 and
proves properties of the model. Each C++ class becomes a Dafny class over
the same fields, and its operations are methods proved against
specification functions. The modules are:

- `Common`: the `Option` type and decimal rendering (`std::to_string`), with a
  round trip back to the number.
- `ByteBuffer`: `Buffer`, the growable byte buffer with its read and write
  cursors. Covered: the size queries, `Retrieve*`, `Append*`,
  `EnsureWriteable`/`MakeSpace`, and `ReadFd`/`WriteFd`. What `readv` and
  `write` return are parameters.
- `HeapTimers`: `HeapTimer`, the array min-heap of `TimerNode`s ordered by
  expiry, with its id-to-index map. The clock is an integer `now` in
  milliseconds. A fired callback is recorded in a `fired` log.
- `ParseHttp`: `HttpRequest`, the four-state line machine
  (REQUEST_LINE, HEADER, CONTENT, FINISH) over the read buffer. Its two
  `std::regex` patterns are written as grammar functions. Also covered: the
  path rewrite, `ConvertHex`, the in-place urlencoded splitter, and the POST
  redirect through `UserVerify`.
- `RespondHttp`: `HttpResponse`. It picks the status code, substitutes the
  error page, looks up the MIME type, and writes the exact status line,
  header block and error body. `stat`, `open` and `mmap` are answered by a
  file-system map. The program tests the int that `mmap`'s result points at,
  where `MAP_FAILED` is meant; both tests are modelled (see "## Findings").
- `HttpConnection`: `HttpConn`, a connection's open flag, the shared user
  count and trigger mode, the `Read` and `Write` loops, the two-slot
  gather list after each `writev`, and `Process`. `Shared` holds the static
  members.
- `WebServer`: `Server`. It covers:
  - the trigger-mode masks, including the switch's fall-through;
  - the event classification of `Start`;
  - the accept loop with its capacity check;
  - `AddClient`, `CloseConn` and `ResetTime`;
  - the read and write outcome decisions;
  - the epoll interest list, modelled as a map from socket to mask.

## Model

| member | source | states |
|---|---|---|
| Common.DigitChar | code/http/respond_http.cpp:36 | the digit character for a value below ten: a decimal digit whose offset from '0' is that value |
| Common.NatToString | code/http/respond_http.cpp:36 | `to_string` of a natural number is a non-empty string of decimal digits with no leading zero |
| Common.IntToString | code/http/respond_http.cpp:145 | `to_string` of an int is the digits of its magnitude, with a leading '-' exactly when it is negative |
| Common.DecimalRoundTrip | code/http/respond_http.cpp:149 | reading the decimal rendering of n back gives n |
| Common.NatToStringInjective | code/http/respond_http.cpp:36 | two numbers with the same rendering are equal, so a status line names exactly one code |
| ByteBuffer.Buffer.constructor | code/buffer/buffer.cpp:7-8 | a new buffer has the requested capacity, both cursors at 0 and nothing readable |
| ByteBuffer.Buffer.ReadableBytes | code/buffer/buffer.cpp:10-12 | the readable count is the length of the readable content, writeIdx - readIdx |
| ByteBuffer.Buffer.WritableBytes | code/buffer/buffer.cpp:14-16 | the writable count fills the capacity from writeIdx |
| ByteBuffer.Buffer.PrependableBytes | code/buffer/buffer.cpp:18-20 | prependable, readable and writable bytes add up to the capacity |
| ByteBuffer.Buffer.Peek | code/buffer/buffer.cpp:22-24 | Peek points at the first readable byte, which lies readable-count bytes before writeIdx |
| ByteBuffer.Buffer.BeginWrite | code/buffer/buffer.cpp:60-66 | the write position is where the writable region starts |
| ByteBuffer.Buffer.HasWritten | code/buffer/buffer.cpp:33-35 | writeIdx advances by len; the bytes already in the buffer there become readable and nothing else changes |
| ByteBuffer.Buffer.Retrieve | code/buffer/buffer.cpp:37-40 | requires len at most the readable count; readIdx advances by len and the readable content loses exactly its first len bytes |
| ByteBuffer.Buffer.RetrieveUntil | code/buffer/buffer.cpp:42-45 | readIdx moves to the given end position, dropping the readable bytes before it |
| ByteBuffer.Buffer.RetrieveAll | code/buffer/buffer.cpp:47-52 | every byte is zeroed, both cursors are 0 and the capacity is kept |
| ByteBuffer.Buffer.RetrieveAllToStr | code/buffer/buffer.cpp:54-58 | returns exactly the old readable bytes and leaves the buffer empty and zeroed |
| ByteBuffer.Buffer.Place | code/buffer/buffer.cpp:73 | `std::copy` into the storage: the target range holds s and every other byte and both cursors are kept |
| ByteBuffer.Buffer.Grow | code/buffer/buffer.cpp:140 | `resize` upward: the old bytes keep their places, the new ones are zero, and the cursors and readable content are kept |
| ByteBuffer.Buffer.Compact | code/buffer/buffer.cpp:144-148 | the readable bytes move to offset 0 byte for byte; readIdx becomes 0 and the capacity and readable content are kept |
| ByteBuffer.Buffer.MakeSpaceAsWritten | code/buffer/buffer.cpp:136-150 | as written: compacts when writable plus prependable covers len, otherwise resizes to writeIdx + len - 1; the readable content is kept either way |
| ByteBuffer.Buffer.EnsureWriteableAsWritten | code/buffer/buffer.cpp:26-31 | as written: the assertion holds exactly when the space was already there or compaction sufficed; otherwise exactly len - 1 bytes are writable |
| ByteBuffer.ShortGrowthWitness | code/buffer/buffer.cpp:140 | a full 4-byte buffer asked for 2 more bytes grows to 5 and has 1 writable byte, so the assertion fails |
| ByteBuffer.Buffer.MakeSpace | code/buffer/buffer.cpp:136-150 | corrected growth: at least len bytes are writable afterwards, by compaction when the free bytes suffice and by growth to writeIdx + len otherwise, with the readable content kept |
| ByteBuffer.Buffer.EnsureWriteable | code/buffer/buffer.cpp:26-31 | at least len bytes are writable afterwards, the readable content is kept, and a buffer with enough room is not touched |
| ByteBuffer.MadeRoom | code/buffer/buffer.cpp:26-31 | corrected growth: the layout after making room has at least len writable bytes and the same readable count; it is unchanged when the room was there, compacted to offset 0 when the free spans suffice, and otherwise grown |
| ByteBuffer.Appended | code/buffer/buffer.cpp:68-72 | the layout after an append has len more readable bytes and never a smaller capacity |
| ByteBuffer.ReadvRoom | code/buffer/buffer.cpp:97-105 | one readv can deliver the writable span plus the 65535-byte scratch area, so never less than 65535 bytes |
| ByteBuffer.AfterReadv | code/buffer/buffer.cpp:106-113 | the layout after a readv of n bytes has n more readable bytes, in the writable span when they fit and otherwise through an append of the excess |
| ByteBuffer.AppendCapacity | code/buffer/buffer.cpp:136-150 | corrected growth: the capacity after making room never shrinks, leaves room for len bytes, and is the capacity MadeRoom gives |
| ByteBuffer.Buffer.Append | code/buffer/buffer.cpp:68-87 | with the corrected growth: the readable content becomes the old content followed by s, the capacity and cursors are what Appended gives, and readIdx is kept when the room was already there |
| ByteBuffer.Buffer.AppendBuffer | code/buffer/buffer.cpp:89-91 | with the corrected growth: appends exactly the other buffer's readable content and leaves the other buffer unchanged |
| ByteBuffer.Buffer.ReadFd | code/buffer/buffer.cpp:93-115 | with the corrected growth: returns readv's count, at most the writable span plus 65535; a failure saves errno and changes nothing; otherwise the readable content gains exactly the incoming bytes, and the capacity and cursors are what AfterReadv gives |
| ByteBuffer.Buffer.WriteFd | code/buffer/buffer.cpp:117-126 | returns write's count; a failure saves errno and changes nothing; otherwise exactly that many bytes are sent from the front and readIdx advances by them |
| ByteBuffer.DefaultBufferIsEmpty | code/buffer/buffer.h:13 | a default buffer has capacity 1024 and nothing readable |
| ByteBuffer.RetrieveAppendRoundTrip | code/buffer/buffer.cpp:54-91 | draining a buffer to a string and appending that string back restores its readable content |
| HeapTimers.LessIsExpiryOrder | code/timer/heap_timer.h:18-20 | `operator<` compares expiry only: it is a strict order, and equal expiries are mutually not less |
| HeapTimers.Swap | code/timer/heap_timer.cpp:36 | `std::swap` of two slots exchanges them and keeps every other slot |
| HeapTimers.RootIsEarliest | code/timer/heap_timer.h:26 | in a min-heap the root expires no later than any node |
| HeapTimers.SwapKeepsIndex | code/timer/heap_timer.cpp:33-39 | corrected SwapNode: pointing each swapped id at its new slot keeps the id-to-index map exact and the set of timers unchanged |
| HeapTimers.AppendEntries | code/timer/heap_timer.cpp:68-70 | pushing a new node at the back and recording its index adds exactly that timer |
| HeapTimers.ReplaceEntries | code/timer/heap_timer.cpp:74-76 | rewriting a node in place under its id replaces exactly that timer |
| HeapTimers.DropLastEntries | code/timer/heap_timer.cpp:53-54 | erasing the back id and popping the back removes exactly that timer |
| HeapTimers.SiftDownStep | code/timer/heap_timer.cpp:21-29 | one step of Siftdown, swapping with the smaller child, moves the single violation one level down |
| HeapTimers.SiftUpStep | code/timer/heap_timer.h:26 | one step of the intended sift-up, swapping with a later parent, moves the single violation one level up |
| HeapTimers.ReplaceIsAlmostOrdered | code/timer/heap_timer.cpp:59 | changing one node's expiry breaks the heap order at that node only |
| HeapTimers.LastIntoSlotIsAlmostOrdered | code/timer/heap_timer.cpp:46-47 | moving the last node into slot i breaks the order of the shorter heap at slot i only |
| HeapTimers.UpOrderedWithParentEdge | code/timer/heap_timer.cpp:77-81 | a heap wrong only above x is ordered once x's parent is no later than x |
| HeapTimers.SiftDownSeq | code/timer/heap_timer.cpp:16-31 | the heap Siftdown leaves keeps its length and every slot from n on |
| HeapTimers.SiftDownSeqOrders | code/timer/heap_timer.cpp:16-31 | sifting down the single violation restores the heap order of the first n slots |
| HeapTimers.SiftDownOutcome | code/timer/heap_timer.cpp:16-31 | if the node moves the first n slots are ordered; if not the heap is unchanged and at most its edge to the parent is wrong |
| HeapTimers.SmallerChild | code/timer/heap_timer.cpp:20-23 | the child Siftdown descends to is a child of i inside the first n slots |
| HeapTimers.SmallerChildIsEarliest | code/timer/heap_timer.cpp:22-23 | that child expires no later than any child of i |
| HeapTimers.HeapTimer.constructor | code/timer/heap_timer.h:37-39 | a new timer holds no timers and has fired none |
| HeapTimers.HeapTimer.SwapNode | code/timer/heap_timer.cpp:33-39 | corrected: the slots are exchanged, each swapped id points at its new slot, and the set of timers is unchanged |
| HeapTimers.HeapTimer.Siftdown | code/timer/heap_timer.cpp:16-31 | only slots below n move; the result is the sift-down function of the old heap; returns true exactly when the node moved; a single violation at index is repaired or left to sift up |
| HeapTimers.HeapTimer.SiftdownSwaps | code/timer/heap_timer.cpp:21-29 | the loop of Siftdown: the heap after it is the sift-down function of the heap before, and the timers are kept |
| HeapTimers.HeapTimer.Resettle | code/timer/heap_timer.cpp:48-50 | Del and Add's "sift down, else up": a single violation at i becomes a heap ordered on its first n slots |
| HeapTimers.HeapTimer.Siftup | code/timer/heap_timer.cpp:4-14 | corrected sift-up: stays in bounds, touches only the first n slots, keeps the timers, and a heap wrong only above i0 ends ordered |
| HeapTimers.ParentAsWritten | code/timer/heap_timer.cpp:6 | (i - 1) / 2 computed in size_t |
| HeapTimers.SiftupAsWritten | code/timer/heap_timer.cpp:4-14 | Siftup as written, ending in the state that reads past the vector; SiftupAsWrittenAlwaysFaults states that it always does |
| HeapTimers.SiftupAsWrittenAlwaysFaults | code/timer/heap_timer.cpp:4-14 | as written the loop never ends in bounds: from any start it reaches index 2^63 - 1 |
| HeapTimers.FirstAddFaults | code/timer/heap_timer.cpp:63-71 | the very first Add into an empty heap runs Siftup(0) off the end of the vector |
| HeapTimers.SiftupAsWrittenBreaksOrder | code/timer/heap_timer.cpp:8-9 | as written, a parent earlier than its child is swapped below it, which breaks a correct min-heap |
| HeapTimers.SwapNodeAsWritten | code/timer/heap_timer.cpp:33-39 | SwapNode as written, with the crossed index updates |
| HeapTimers.SwapNodeAsWrittenBreaksIndex | code/timer/heap_timer.cpp:36-38 | as written, both swapped ids keep pointing at their old slots, so for i != j the id-to-index map is wrong |
| HeapTimers.HeapTimer.Del | code/timer/heap_timer.cpp:41-55 | the heap shrinks by one, exactly the id at slot i is removed, every other timer is kept, and the heap order is kept |
| HeapTimers.HeapTimer.MoveToBack | code/timer/heap_timer.cpp:46-50 | the node at i ends at the back, the timers are kept, and the slots before the back form an ordered heap |
| HeapTimers.HeapTimer.DropBack | code/timer/heap_timer.cpp:53-54 | the back node and only its id are removed |
| HeapTimers.HeapTimer.Add | code/timer/heap_timer.cpp:63-83 | the timer under id becomes (id, now + timeout, cb); a new id grows the heap by one and a known one is replaced in place; the heap order is kept |
| HeapTimers.HeapTimer.Adjust | code/timer/heap_timer.cpp:57-61 | requires the id to be present; only its expiry changes, to now + timeout; the order is kept when the expiry does not move earlier |
| HeapTimers.HeapTimer.Clear | code/timer/heap_timer.cpp:85-88 | the heap and the index map are empty |
| HeapTimers.HeapTimer.DoWork | code/timer/heap_timer.cpp:90-98 | an absent id changes nothing; a present one is fired and exactly that timer is removed |
| HeapTimers.HeapTimer.Pop | code/timer/heap_timer.cpp:117-120 | the root and only its id are removed, and in an ordered heap the root was the earliest timer |
| HeapTimers.HeapTimer.Tick | code/timer/heap_timer.cpp:100-115 | afterwards the heap is empty or its root is unexpired; the fired log grows only by expired timers, each removed once; every other timer is kept; in an ordered heap exactly the expired ones fire |
| HeapTimers.FireKeepsLog | code/timer/heap_timer.cpp:112-113 | firing an expired timer and removing it keeps the firing record consistent |
| HeapTimers.TickOutcome | code/timer/heap_timer.cpp:104-111 | once an ordered heap's root is unexpired, a timer is still pending exactly when it is unexpired |
| HeapTimers.FiredIdsAppend | code/timer/heap_timer.cpp:112 | one more fired node adds exactly its id to the fired ids |
| Common.SizeT | code/timer/heap_timer.cpp:124 | the `size_t` conversion wraps modulo 2^64 and keeps values in range |
| Common.Int32 | code/timer/heap_timer.cpp:134 | the conversion to `int` wraps modulo 2^32 and keeps values in range |
| HeapTimers.NoDeadlineIsMinusOne | code/timer/heap_timer.cpp:124-134 | `size_t res = -1` returned as `int` is -1 |
| HeapTimers.HeapTimer.GetNextTick | code/timer/heap_timer.cpp:122-135 | runs Tick; -1 for an empty heap; otherwise the root is unexpired and, when it fits an int, the result is its remaining milliseconds, so the negative clamp is never reached |
| ParseHttp.SplitAt | code/http/parse_http.cpp:103 | splitting at the first c gives the text before it, with no c, and the text after it; None exactly when there is no c |
| ParseHttp.SplitAtFirst | code/http/parse_http.cpp:103 | the split recovers a and b from a + c + b when a has no c |
| ParseHttp.FindCRLF | code/http/parse_http.cpp:25 | `std::search` for CRLF: the position of the first CRLF, or the end when there is none |
| ParseHttp.RequestLineParts | code/http/parse_http.cpp:89-97 | the request-line pattern as a function; RequestLineSound and RequestLineComplete state what it accepts |
| ParseHttp.RequestLineSound | code/http/parse_http.cpp:89-97 | an accepted request line is method SP path SP "HTTP/" version, with no space in any part |
| ParseHttp.RequestLineComplete | code/http/parse_http.cpp:89-97 | every such line is accepted, with exactly those three fields |
| ParseHttp.HeaderParts | code/http/parse_http.cpp:103-106 | the header pattern as a function; the Header lemmas state what it accepts |
| ParseHttp.HeaderSound | code/http/parse_http.cpp:103-106 | an accepted header is name ":" with an optional single space and then the value; the name has no ':' |
| ParseHttp.HeaderComplete | code/http/parse_http.cpp:103-106 | every such line is accepted with that name and value, with or without the space |
| ParseHttp.HeaderNeedsColon | code/http/parse_http.cpp:107-109 | a line without ':' is not a header |
| ParseHttp.MappedPath | code/http/parse_http.cpp:119-130 | ParsePath: "/" becomes "/index.html" and the six page names gain ".html" |
| ParseHttp.MappedPathIdempotent | code/http/parse_http.cpp:119-130 | every path but "/" and the six short names is left alone, and mapping twice changes nothing more |
| ParseHttp.SignedByte | code/http/parse_http.cpp:206 | a `char` read as an int on a signed-char platform lies in [-128, 128) and ASCII keeps its code |
| ParseHttp.ByteChar | code/http/parse_http.cpp:178-179 | storing an int in a `char` keeps its value modulo 256 |
| ParseHttp.TruncRem | code/http/parse_http.cpp:178 | C++ `%` truncates: quotient times divisor plus remainder is the dividend, and the remainder takes the dividend's sign |
| ParseHttp.ConvertHex | code/http/parse_http.cpp:199-207 | 'A'-'F' and 'a'-'f' give 10-15; any other character gives its own code, so '0'-'9' give 48-57 |
| ParseHttp.UrlScan | code/http/parse_http.cpp:162-196 | the splitter keeps the body's length and never drops a stored key; its pairs, the final-pair rule and the '%' rewrite are the lemmas below |
| ParseHttp.PlusToSpace | code/http/parse_http.cpp:171-173 | each '+' becomes a space and every other character is kept |
| ParseHttp.UrlScanWithoutPercent | code/http/parse_http.cpp:162-196 | without a '%' the splitter never reads past the body, and the body comes back with exactly its '+' rewritten |
| ParseHttp.UrlencodedWithoutPercent | code/http/parse_http.cpp:152-197 | a body without '%' is split without undefined reads, and its '+' become spaces |
| ParseHttp.UrlScanKeepsPrefix | code/http/parse_http.cpp:162-182 | the splitter never rewrites a position it has already passed |
| ParseHttp.UrlScanKeepsPrefixAtPercent | code/http/parse_http.cpp:175-179 | the '%' step of the same: the rewrite touches only the two positions after the '%', so everything before it stays as it was |
| ParseHttp.UrlScanLeavesPlain | code/http/parse_http.cpp:170-182 | characters other than '+' and '%' come out of the splitter unchanged |
| ParseHttp.UrlScanPercentDigits | code/http/parse_http.cpp:175-180 | for every '%' with two characters after it: the '%' stays and the two become the quotient and remainder by 10 of ConvertHex(c[i+1]) * 16 + ConvertHex(c[i+2]), each added to '0', unless one of those is itself a '+' or '%' |
| ParseHttp.UrlScanFinalPair | code/http/parse_http.cpp:192-196 | once no '=', '&' or '%' lies ahead, the only store left is the trailing token, which goes under the last key exactly when that key is new and the token is not empty; the scan is then defined |
| ParseHttp.DelimAt | code/http/parse_http.cpp:165-188 | the first '=' or '&' in a string, or its length when there is none |
| ParseHttp.PairsFrom | code/http/parse_http.cpp:165-196 | the reference reading, token by token: '=' sets the key, '&' stores the token under it (a later store overwrites), and the trailing token is stored only when non-empty under a new key; old keys are kept |
| ParseHttp.PlainSlice | code/http/parse_http.cpp:171-173 | a stretch without '+' is left as it is by the rewrite |
| ParseHttp.DelimAtIs | code/http/parse_http.cpp:165-188 | the first delimiter is the one with none before it |
| ParseHttp.PairsAtEnd | code/http/parse_http.cpp:192-196 | the reference reading of a token with no delimiter stores it exactly when the key is new and the token is not empty |
| ParseHttp.PairsStep | code/http/parse_http.cpp:165-188 | one token step of the reference reading at the first delimiter |
| ParseHttp.PairsAtDelim | code/http/parse_http.cpp:165-188 | a token ended by '=' becomes the key, and one ended by '&' is stored under it |
| ParseHttp.UrlScanIsPairs | code/http/parse_http.cpp:162-196 | for a body without '%', from any position the splitter's map is the reference reading of the rewritten rest of the body |
| ParseHttp.UrlScanIsPairsAtDelim | code/http/parse_http.cpp:165-188 | the same, when the current character ends the token |
| ParseHttp.UrlScanIsPairsAtPlus | code/http/parse_http.cpp:171-173 | the same, when the current character is a '+' inside the token: the rewrite to a space does not change the reference reading |
| ParseHttp.UrlScanIsPairsInToken | code/http/parse_http.cpp:187-188 | the same, when the current character is any other character of the token |
| ParseHttp.UrlencodedPairs | code/http/parse_http.cpp:152-197 | for every body without '%', the pairs stored are exactly the reference reading of its '+'-to-space rewrite |
| ParseHttp.Urlencoded | code/http/parse_http.cpp:152-197 | ParseFromUrlencoded on a request: an empty body is left alone, otherwise the splitter's body, pairs and undefined flag |
| ParseHttp.UrlencodedTwoPairs | code/http/parse_http.cpp:166-196 | "a=1&b=2" stores a=1 and b=2 |
| ParseHttp.UrlencodedRepeatedFinalKey | code/http/parse_http.cpp:193-196 | a final pair whose key is already stored is dropped: "a=1&a=2" keeps a=1 |
| ParseHttp.UrlencodedPlus | code/http/parse_http.cpp:171-173 | "a=b+c" stores a as "b c" |
| ParseHttp.UrlencodedPercent | code/http/parse_http.cpp:175-180 | "%41" is not decoded: 52 * 16 + 49 = 881 is written back as '%', the byte of '0' + 88, and '1' |
| ParseHttp.UserVerify | code/http/parse_http.cpp:209-211 | an empty name or password is refused; otherwise the database decides |
| ParseHttp.PostStep | code/http/parse_http.cpp:132-150 | ParsePost as a value, with operator[]'s inserts; PostStepRedirects states its outcome |
| ParseHttp.PostStepRedirects | code/http/parse_http.cpp:132-150 | only a POST of the form type touches the request; on the register and login pages the path becomes "/welcome.html" or "/error.html" by the verdict, and other pages keep their path |
| ParseHttp.LineStep | code/http/parse_http.cpp:27-45 | one pass of Parse's switch on one line |
| ParseHttp.Interpret | code/http/parse_http.cpp:27-45 | one pass, or a refusal for a first line that is not a request line |
| ParseHttp.InterpretLeavesRequestLine | code/http/parse_http.cpp:27-45 | past the request line every line is accepted, and no accepted line returns the machine to REQUEST_LINE |
| ParseHttp.InterpretRefusesBadRequestLine | code/http/parse_http.cpp:28-31 | in REQUEST_LINE a line is refused exactly when it is not a request line |
| ParseHttp.InterpretRequestLine | code/http/parse_http.cpp:28-33 | an accepted request line stores its method, path and version, maps the path and moves to HEADER |
| ParseHttp.InterpretHeader | code/http/parse_http.cpp:34-39 | in HEADER a line is stored as a header (a later duplicate overwrites) or switches to CONTENT, and two or fewer readable bytes finish the request |
| ParseHttp.InterpretContent | code/http/parse_http.cpp:40-42 | in CONTENT the line is the body, the form is parsed, and the request finishes |
| ParseHttp.InterpretMovesPastRequestLine | code/http/parse_http.cpp:27-45 | the line step, with the database bound, never fails past the request line and never goes back to it |
| ParseHttp.InterpretRefusesOnlyBadRequestLines | code/http/parse_http.cpp:28-31 | the line step refuses exactly the lines that are not request lines |
| ParseHttp.ParseResult | code/http/parse_http.cpp:20-22 | nothing readable is a failure that changes nothing |
| ParseHttp.ParseLoop | code/http/parse_http.cpp:23-51 | Parse's loop over the readable bytes as a value; the ParseLoop lemmas state its properties |
| ParseHttp.ParseLoopPastRequestLine | code/http/parse_http.cpp:23-51 | once past the request line the loop cannot fail |
| ParseHttp.ParseLoopFailsOnlyOnFirstLine | code/http/parse_http.cpp:23-51 | from REQUEST_LINE the loop fails exactly when its first line is refused, and then changes nothing |
| ParseHttp.ParseFailsOnlyOnRequestLine | code/http/parse_http.cpp:18-54 | Parse fails exactly when nothing is readable or the first line is not a request line |
| ParseHttp.ParseFailureChangesNothing | code/http/parse_http.cpp:20-31 | a failed Parse leaves the request and the buffer as they were |
| ParseHttp.LeavesSuffixAfterLine | code/http/parse_http.cpp:50 | dropping a line with its CRLF and then whole lines leaves a suffix of the input |
| ParseHttp.LeavesSuffixIsSuffix | code/http/parse_http.cpp:50 | what is left is the input's tail |
| ParseHttp.ParseLoopConsumesLines | code/http/parse_http.cpp:23-51 | Parse consumes whole lines only: what it leaves is a suffix of the readable bytes |
| ParseHttp.ParseLoopRefusedLine | code/http/parse_http.cpp:29-31 | a refused line stops the loop with a failure and consumes nothing |
| ParseHttp.ParseLoopPartialLine | code/http/parse_http.cpp:47-49 | a line without CRLF is interpreted but left in the buffer, and the loop stops with success |
| ParseHttp.ParseLoopCompleteLine | code/http/parse_http.cpp:25-50 | a complete line is interpreted, consumed with its CRLF, and the loop goes on with the rest |
| ParseHttp.FindCRLFAfterLine | code/http/parse_http.cpp:25 | a line without CR followed by CRLF is found whole |
| ParseHttp.ParseRequestLineThen | code/http/parse_http.cpp:28-33 | a request line ended by CRLF stores its fields, maps the path, moves to HEADER and is consumed |
| ParseHttp.ParseHeaderThen | code/http/parse_http.cpp:34-39 | a header line ended by CRLF with more than two bytes left is stored and consumed, still in HEADER |
| ParseHttp.ParseBlankLineThen | code/http/parse_http.cpp:34-39 | the blank line in HEADER switches to CONTENT, and with nothing after it finishes the request |
| ParseHttp.ParseOneHeaderRequest | code/http/parse_http.cpp:18-54 | a request line, one header and the blank line parse successfully to those fields, consuming all the input |
| ParseHttp.HttpRequest.constructor | code/http/parse_http.cpp:11-16 | a new request is empty and in REQUEST_LINE |
| ParseHttp.HttpRequest.Init | code/http/parse_http.cpp:11-16 | every field is emptied and the state is REQUEST_LINE |
| ParseHttp.HttpRequest.GetPost | code/http/parse_http.cpp:72-78 | the value stored under key, or "" when there is none |
| ParseHttp.HttpRequest.ParseRequestLine | code/http/parse_http.cpp:88-100 | true exactly for a request line; then its fields are stored and the state is HEADER; otherwise nothing changes |
| ParseHttp.HttpRequest.ParsePath | code/http/parse_http.cpp:119-130 | only the path changes, to its mapped form |
| ParseHttp.HttpRequest.ParseHeader | code/http/parse_http.cpp:102-110 | a header is stored, or the state becomes CONTENT |
| ParseHttp.HttpRequest.ParseContent | code/http/parse_http.cpp:112-117 | the line becomes the body, the form is parsed and the state is FINISH |
| ParseHttp.HttpRequest.ParsePost | code/http/parse_http.cpp:132-150 | the request becomes the POST step of the old one |
| ParseHttp.HttpRequest.ParseFromUrlencoded | code/http/parse_http.cpp:152-197 | the loop over the body rewrites it and fills the pairs exactly as the splitter function says |
| ParseHttp.HttpRequest.ParseLine | code/http/parse_http.cpp:27-45 | one pass of Parse's switch: accepted exactly when the line step accepts, and then the request is the step's result; refused leaves it alone |
| ParseHttp.HttpRequest.Parse | code/http/parse_http.cpp:18-54 | the request and the remaining readable bytes are exactly what the parse function gives for the old ones; only readIdx moves |
| RespondHttp.SelectCode | code/http/respond_http.cpp:121-128 | the code Respond settles on from the target's status; SelectCodeCases states it case by case |
| RespondHttp.SelectCodeCases | code/http/respond_http.cpp:121-128 | 404 exactly for a missing or directory target (or a kept 404); 403 exactly for an unreadable file (or a kept 403); a readable file gets 200 for -1 and keeps any other code |
| RespondHttp.StatInto | code/http/respond_http.cpp:85 | stat fills in the file's status when the file exists and leaves it alone otherwise |
| RespondHttp.ErrorPagePath | code/http/respond_http.cpp:82-87 | codes with an error page get that page and every other code keeps the path |
| RespondHttp.ErrorPageOnlyForErrors | code/http/respond_http.cpp:22-26 | only 400, 403 and 404 change the path |
| RespondHttp.ErrorPageNamedAfterCode | code/http/respond_http.cpp:22-26 | the error page of 400, 403 or 404 is "/<code>.html" |
| RespondHttp.StatusCode | code/http/respond_http.cpp:30-35 | a known code is kept; any other becomes 400 |
| RespondHttp.StatusLine | code/http/respond_http.cpp:36 | "HTTP/1.1 ", the code, a space, its reason phrase and CRLF |
| RespondHttp.StatusLineReadsBack | code/http/respond_http.cpp:36 | the status line is "HTTP/1.1 ", the code's digits, a space, its reason phrase and CRLF, and its digits read back as the code |
| RespondHttp.LastIndexOf | code/http/respond_http.cpp:71 | `find_last_of`: the last position of c, or None when there is none |
| RespondHttp.FileType | code/http/respond_http.cpp:70-80 | the type for the suffix from the last '.', or "text/plain" |
| RespondHttp.FileTypeOfSuffix | code/http/respond_http.cpp:70-80 | a path ending in a known suffix gets that suffix's type, and every type is from the table or "text/plain" |
| RespondHttp.FileTypeWithoutDot | code/http/respond_http.cpp:72-74 | a path without '.' is "text/plain" |
| RespondHttp.HeaderBlock | code/http/respond_http.cpp:39-48 | the Connection line, the keep-alive parameters when kept alive, and the Content-type line |
| RespondHttp.ErrorStatus | code/http/respond_http.cpp:140-144 | the error body names a known code's reason and "Bad Request" otherwise |
| RespondHttp.ErrorBody | code/http/respond_http.cpp:137-146 | the error page's HTML: head, body tag, code, reason, message and tail |
| RespondHttp.ContentLength | code/http/respond_http.cpp:149 | "Content-length: ", the length's digits and the blank line |
| RespondHttp.ErrorContent | code/http/respond_http.cpp:135-151 | the Content-length line for the error body and then the body |
| RespondHttp.ContentLengthReadsBack | code/http/respond_http.cpp:149 | the Content-length line carries n's digits, which read back as n, followed by a blank line |
| RespondHttp.ErrorContentAnnouncesBody | code/http/respond_http.cpp:135-151 | the Content-length announced is exactly the length of the HTML body that follows |
| RespondHttp.ContentFor | code/http/respond_http.cpp:50-68 | corrected test against MAP_FAILED: a file that opens and maps a non-zero size gets its Content-length line; otherwise (open fails, mmap fails, or the file is empty) the "File NotFound!" error body |
| RespondHttp.ContentForAsWritten | code/http/respond_http.cpp:50-68 | as written, `*mmRet == -1`: the open failure gets the error body, a failed mmap (an empty file included) faults, a mapping whose first int is -1 gets the error body and is leaked, and any other mapping gets its Content-length line |
| RespondHttp.ContentAsWrittenAgrees | code/http/respond_http.cpp:60-65 | the program faults exactly when an opened file fails to map, leaks exactly a mapping the corrected test makes that starts with -1, and otherwise appends and maps what the corrected test does |
| RespondHttp.EmptyFileFaults | code/http/respond_http.cpp:60-61 | an opened file of size 0: mmap of length 0 fails and the program reads through MAP_FAILED; the corrected test gives the error body |
| RespondHttp.MinusOneHeadIsNotFound | code/http/respond_http.cpp:60-65 | a file that maps and starts with FF FF FF FF: the program answers "File NotFound!" with the mapping leaked; the corrected test serves the file |
| RespondHttp.Response | code/http/respond_http.cpp:120-133 | Respond as a value, with the corrected mmap test: the code, path, status, mapping and text it leaves; the Respond lemmas state its properties |
| RespondHttp.RespondStartsWithStatusLine | code/http/respond_http.cpp:120-133 | every response starts with the status line of its final code, one of 200, 400, 403 and 404 |
| RespondHttp.RespondMissingIsNotFound | code/http/respond_http.cpp:121-122 | a missing or directory target is answered 404 with the 404 page |
| RespondHttp.RespondEmptyPathIsNotFound | code/http/respond_http.cpp:121-122 | an empty path names the document root, a directory, so even a 400 becomes 404 |
| RespondHttp.RespondReadableFile | code/http/respond_http.cpp:126-128 | a readable file asked for with -1 is answered 200 and keeps its path; under the corrected test it is mapped exactly when it opens and a mapping of its non-zero size is made, and then the reply announces its size |
| RespondHttp.RespondUnreadableIsForbidden | code/http/respond_http.cpp:124-125 | a file others cannot read is answered 403 with the 403 page |
| RespondHttp.HttpResponse.File | code/http/respond_http.cpp:153-155 | whether a file is mapped, which stands for the mapped pointer |
| RespondHttp.HttpResponse.FileLen | code/http/respond_http.cpp:157-159 | the mapped file's size from its status |
| RespondHttp.HttpResponse.Code | code/http/respond_http.h:38-40 | the response's code |
| RespondHttp.HttpResponse.constructor | code/http/respond_http.cpp:89-95 | code -1, empty paths, no keep-alive, nothing mapped, zero status |
| RespondHttp.HttpResponse.UnmapFile | code/http/respond_http.cpp:113-118 | nothing is mapped afterwards and nothing else changes |
| RespondHttp.HttpResponse.Init | code/http/respond_http.cpp:101-111 | requires a non-empty root; unmaps, then sets code, keep-alive, path and root and zeroes the status |
| RespondHttp.HttpResponse.GetErrorHtml | code/http/respond_http.cpp:82-87 | the path becomes the code's error page, and the page is stat'ed exactly when there is one |
| RespondHttp.HttpResponse.WriteResponseLine | code/http/respond_http.cpp:28-37 | the code is coerced to a known one and exactly its status line is appended |
| RespondHttp.HttpResponse.WriteResponseHeader | code/http/respond_http.cpp:39-48 | exactly the Connection lines for the keep-alive flag and the Content-type line of the path are appended |
| RespondHttp.HttpResponse.WriteErrorContent | code/http/respond_http.cpp:135-151 | exactly the Content-length line and the error body for the code and message are appended |
| RespondHttp.HttpResponse.WriteResponseContent | code/http/respond_http.cpp:50-68 | corrected test: exactly ContentFor's content is appended, and the file is mapped exactly when it opens and a non-empty mapping is made |
| RespondHttp.HttpResponse.WriteReply | code/http/respond_http.cpp:129-132 | status line, header block and content (corrected test) are appended in that order |
| RespondHttp.HttpResponse.StatRequested | code/http/respond_http.cpp:121-128 | the code becomes the selected code and the status is what stat reports |
| RespondHttp.HttpResponse.Respond | code/http/respond_http.cpp:120-133 | the buffer gains exactly the response the model composes from the old fields (corrected mmap test), and the fields end as that response says |
| HttpConnection.Shared.constructor | code/http/http_conn.cpp:6-8 | the static trigger flag and root are fixed and the user count starts at 0 |
| HttpConnection.ToWrite | code/http/http_conn.cpp:76 | the bytes pending in both gather slots, the sum the loop's emptiness test adds |
| HttpConnection.WriteCount | code/http/http_conn.h:43-45 | ToWriteBytes' int: within the 32-bit range, and equal to the pending bytes below 2^31 |
| HttpConnection.WriteCountWraps | code/http/http_conn.h:43-45 | 2^31 pending bytes count as -2^31, and 2^32 as 0 |
| HttpConnection.Offered | code/http/http_conn.cpp:71 | writev offers the first slot or both slots, and with two slots everything pending |
| HttpConnection.Accepted | code/http/http_conn.cpp:71 | writev never takes more than it is offered |
| HttpConnection.Advance | code/http/http_conn.cpp:76-89 | after writev took len bytes the pending count drops by exactly len; within the first slot it shrinks that slot, beyond it the first slot is emptied and the second advanced by the excess |
| HttpConnection.WriteLoop | code/http/http_conn.cpp:68-92 | the loop stops on a failed writev (len <= 0) or, level-triggered, when the int count is at most 10240; edge-triggered it always ends on a failure |
| HttpConnection.WriteAllAtOnce | code/http/http_conn.cpp:76-90 | level-triggered, a writev that takes everything ends the loop with nothing left and no error |
| HttpConnection.WriteEdgeTriggeredEndsOnEmptyWrite | code/http/http_conn.cpp:70-90 | edge-triggered, even a complete transfer goes on to one more writev, which records errno |
| HttpConnection.HugeReplyStopsAfterOneWrite | code/http/http_conn.cpp:90 | level-triggered, with 2^31 bytes still pending after a writev the int count is negative, so the loop stops after that one call |
| HttpConnection.Taken | code/buffer/buffer.cpp:97-107 | one readv takes a prefix of what is waiting: all of it when it fits the room, otherwise exactly the room; anything within 65535 bytes fits |
| HttpConnection.ReadLoop | code/http/http_conn.cpp:57-66 | edge-triggered the loop ends on end of stream or EAGAIN; level-triggered it reads once and delivers what that call's readv takes, as bounded by the buffer's layout |
| HttpConnection.ReadLoopDeliversAll | code/http/http_conn.cpp:57-66 | edge-triggered, when no readv finds more than the scratch area holds, everything that arrived before EAGAIN is delivered, in order, whatever the layout |
| HttpConnection.LargeReadFitsOnce | code/buffer/buffer.cpp:97-113 | a fresh 1024-byte buffer takes 66000 waiting bytes in one readv and grows to hold exactly them |
| HttpConnection.ProcessReply | code/http/http_conn.cpp:100-104 | the reply Process prepares: 200 with the keep-alive flag when parsed, 400 and close otherwise |
| HttpConnection.ProcessReplyStatus | code/http/http_conn.cpp:94-104 | every reply Process prepares starts with its status line and has code 200, 400, 403 or 404 |
| HttpConnection.ProcessBadRequestIsNotFound | code/http/http_conn.cpp:101-104 | a malformed request line leaves the path empty, so the client gets 404, not the 400 Process asked for |
| HttpConnection.BadRequestLineLeavesRequestEmpty | code/http/http_conn.cpp:98-102 | a malformed request line fails the parse and leaves the request as it was |
| HttpConnection.BadRequestLineFails | code/http/http_conn.cpp:98 | a malformed request line fails the parse |
| HttpConnection.HttpConn.constructor | code/http/http_conn.cpp:10-14 | a new connection has socket -1, is closed, and has empty buffers and request; the gather list and slot count, which the constructor never sets, hold the values it is given |
| HttpConnection.HttpConn.Init | code/http/http_conn.cpp:20-29 | requires a positive socket; the count grows by one, both buffers are emptied and the connection is open |
| HttpConnection.HttpConn.Close | code/http/http_conn.cpp:31-39 | the file is unmapped; the count drops by one only if the connection was open, so a second Close changes nothing |
| HttpConnection.HttpConn.ToWriteBytes | code/http/http_conn.h:43-45 | the pending count is both slots' lengths, whatever the slot count, as an int: exact below 2^31 and wrapped modulo 2^32 beyond |
| HttpConnection.HttpConn.Read | code/http/http_conn.cpp:57-66 | for any sizes of what is waiting: returns the loop's count and its saved errno, and the read buffer gains exactly the delivered bytes, with each readv bounded by the buffer's layout at that call |
| HttpConnection.HttpConn.Sent | code/http/http_conn.cpp:76-89 | one writev's bookkeeping: the gather list advances by len and the write buffer loses exactly the bytes sent from it |
| HttpConnection.HttpConn.Write | code/http/http_conn.cpp:68-92 | returns the loop's last count and errno; the gather list ends where the loop says and the write buffer loses exactly the bytes sent from it |
| HttpConnection.HttpConn.PrepareReply | code/http/http_conn.cpp:100-112 | the response is the composed reply for the path, and the gather list covers the write buffer and, for a non-empty mapped file, the file |
| HttpConnection.HttpConn.ReplyInto | code/http/http_conn.cpp:100-104 | Init and Respond on the response: the write buffer gains exactly the reply's text and the response's fields are the reply's |
| HttpConnection.HttpConn.Gather | code/http/http_conn.cpp:105-112 | the first slot covers the write buffer's readable bytes; the second slot and a count of 2 are set only for a non-empty mapped file |
| HttpConnection.HttpConn.ReadRequest | code/http/http_conn.cpp:95-98 | the request is re-initialised; nothing readable gives false and changes nothing; otherwise Parse's result |
| HttpConnection.HttpConn.Process | code/http/http_conn.cpp:94-115 | true exactly when something was readable. With nothing readable, the request is initial and the buffers and the gather list are as they were (`Processed`). Otherwise the request and the unread rest are what Parse makes of the bytes, and the reply to that request (200 with the keep-alive flag, or 400 and close) is appended to the write buffer. The gather list then covers the write buffer and, when a non-empty file is mapped, the file |
| HttpConnection.HttpConn.Answer | code/http/http_conn.cpp:98-112 | the reply for the parsed request, 200 keeping the connection's keep-alive flag when it parsed and 400 with close otherwise, is appended to the write buffer, and the gather list covers the reply |
| WebServer.EventModes | code/server/server.cpp:45-68 | the two masks InitEventMode sets for a trigger mode, with the fall-through of cases 2 and 3; EventModesShape states their bits |
| WebServer.PortAccepted | code/server/server.cpp:73-76 | InitSocket tries only ports from 1024 to 65535 |
| WebServer.EventModesShape | code/server/server.cpp:45-68 | connections always get ONESHOT and RDHUP and the listen socket RDHUP; ET on connections exactly for modes other than 0, and on the listen socket exactly for modes other than 0 and 1; no other bit |
| WebServer.Classify | code/server/server.cpp:255-272 | Start's test order for one ready event; ClassifyPriority states the priorities |
| WebServer.ClassifyPriority | code/server/server.cpp:255-272 | the listen socket always accepts; on a connection a hang-up bit wins, then input, then output, and anything else is unexpected |
| WebServer.ListenPlan | code/server/server.cpp:140-155 | the accept loop as a value: the sockets added and the one refused; the ListenPlan lemmas state its properties |
| WebServer.ListenPlanAddsInOrder | code/server/server.cpp:140-155 | the accept loop adds the positive sockets it is given in order, and only while there is room |
| WebServer.ListenPlanRefusesOnlyWhenFull | code/server/server.cpp:147-150 | a socket is refused only when 65536 users are already served |
| WebServer.ListenPlanTriggerModes | code/server/server.cpp:143-154 | level-triggered, one connection at most per event; edge-triggered, all of them while they are positive and fit |
| WebServer.ListenStep | code/server/server.cpp:144-153 | one turn of the loop: a positive socket that finds room is added and the loop goes on only when edge-triggered |
| WebServer.ListenRun | code/server/server.cpp:143-154 | edge-triggered, a run of positive sockets that fit is added in order |
| WebServer.ListenStops | code/server/server.cpp:144-150 | how the loop ends after k turns: accept fails, the table is full, or the level-triggered single turn |
| WebServer.ReadCloses | code/server/server.cpp:227-230 | Read closes exactly when readv returned nothing or failed with anything but EAGAIN |
| WebServer.ReadOutcomes | code/server/server.cpp:222-232 | the end of the stream always closes; edge-triggered a read closes exactly when it did not end on EAGAIN; level-triggered a read that delivered something never closes |
| WebServer.WriteDecisionAsWritten | code/server/server.cpp:208-219 | as written: keep-alive completion processes again, bytes left after EAGAIN wait for output, and everything else closes |
| WebServer.WriteDecision | code/server/server.cpp:208-219 | corrected: bytes left after a writev that made progress also wait for output |
| WebServer.PartialWriteClosesAsWritten | code/server/server.cpp:203-220 | as written, a level-triggered writev of 60 of 100 bytes leaves 40 bytes and no error, and the connection is closed |
| WebServer.WriteNeverTruncates | code/server/server.cpp:203-220 | corrected: for a reply below 2^31 bytes, with bytes left a connection closes only after a failed writev that is not EAGAIN; with nothing left it closes exactly when not kept alive |
| WebServer.WriteDecisionsDiffer | code/server/server.cpp:208-219 | the two decisions differ only after a writev that made progress and left bytes; as written, everything except keep-alive completion and EAGAIN closes |
| WebServer.FourGiBReplyLooksSent | code/server/server.cpp:208 | with exactly 2^32 bytes pending the int count is 0, so a kept-alive connection goes back to processing with its reply unsent |
| WebServer.StaleSlotBlocksKeepAlive | code/server/server.cpp:203-219 | a first reply without a file keeps slot 1's uninitialised length; level-triggered, a stale length above 10240 makes one more writev of nothing, and the connection then waits for output or closes instead of processing again |
| WebServer.EpollAdd | code/server/epoller.cpp:11-18 | epoll ADD: a negative socket is refused, and the kernel refuses one already listed |
| WebServer.EpollMod | code/server/epoller.cpp:20-27 | epoll MOD: a negative socket is refused, and the kernel refuses one not listed |
| WebServer.EpollDel | code/server/epoller.cpp:29-34 | epoll DEL takes the socket off the list |
| WebServer.AddAllSnoc | code/server/epoller.cpp:11-18 | registering one more socket is one more epoll ADD |
| WebServer.AddAllLists | code/server/epoller.cpp:11-18 | each positive socket registered is listed and already listed sockets keep their masks |
| WebServer.ArmAllSnoc | code/server/server.cpp:188-190 | arming one more socket sets one more timer |
| WebServer.ArmAllArms | code/server/server.cpp:188-190 | each added socket has a timer expiring timeout after now, and the others keep theirs |
| WebServer.SlotsKept | code/server/server.cpp:187 | `m_users[fd]` changes the table only at fd and reuses an existing slot |
| WebServer.ReprHas | code/server/server.cpp:187 | a slot's objects belong to the table |
| WebServer.SlotOrigin | code/server/server.cpp:187 | in a table grown by the accept loop, a slot is an old one or was made since |
| WebServer.Server.constructor | code/server/server.cpp:5-36 | masks by trigger mode, root cwd + "/resources/", count 0, no users, no tasks; closed exactly when the port check or socket set-up fails; otherwise the listen socket is registered for input. It is also given what a new connection's uninitialised gather list holds |
| WebServer.Server.UserSlot | code/server/server.cpp:187 | `m_users[fd]`: the socket's slot exists afterwards; an existing one is kept, and a new one is fresh with the uninitialised gather list the server was given |
| WebServer.Server.OpenSlot | code/server/server.cpp:187 | HttpConn::Init on the slot: open, for fd, with empty buffers, and one more user |
| WebServer.Server.Register | code/server/server.cpp:188-191 | the socket is registered for input with the connection mask, and with a timeout its timer is set to now + timeout; the heap order is kept |
| WebServer.Server.OpenUser | code/server/server.cpp:187 | the slot is made if need be and opened for fd; only that slot changes |
| WebServer.Server.AddClient | code/server/server.cpp:185-194 | the slot is open for fd with empty buffers, one more user, registered for input, and with a timeout a timer at now + timeout; every other open slot stays open |
| WebServer.Server.CloseConn | code/server/server.cpp:196-201 | the socket leaves the interest list and the connection is closed, the count dropping only if it was open |
| WebServer.Server.ResetTime | code/server/server.cpp:178-183 | with a timeout only the socket's expiry changes, to now + timeout; without one the timer is untouched |
| WebServer.Server.ProcessRead | code/server/server.cpp:163-167 | the timer is reset and exactly one read task is queued |
| WebServer.Server.ProcessWrite | code/server/server.cpp:157-161 | the timer is reset and exactly one write task is queued |
| WebServer.Server.ProcessSlot | code/server/server.cpp:235 | HttpConn::Process on the slot: true exactly when it had something to read, and the slot is left as `Processed` says (parsed request, unread rest, prepared reply, gather list) |
| WebServer.Server.KeepProcess | code/server/server.cpp:234-240 | the slot is processed as `Processed` says. The socket is re-armed for output after a request was processed, with the gather list's first slot covering the write buffer, and for input otherwise |
| WebServer.Server.ProcessListen | code/server/server.cpp:140-155 | the table, the interest list, the timers and the count change exactly as the accept plan says. Every accepted socket's slot is open on that socket with empty buffers, old slots are kept, and the busy socket is the refused one |
| WebServer.Server.AcceptLoop | code/server/server.cpp:143-154 | the accept loop runs until a turn ends it. Then the admitted sockets (each slot open on its socket with empty buffers), the one turned away and the new state are exactly the accept plan's |
| WebServer.Server.Turn | code/server/server.cpp:144-153 | one turn of the accept loop keeps the loop's invariant |
| WebServer.Server.Admit | code/server/server.cpp:152 | adding one accepted socket extends the admitted run by that socket; the slots admitted before it stay open with empty buffers |
| WebServer.Server.ReadSlot | code/server/server.cpp:226 | HttpConn::Read on the socket's slot: the result is the read loop's, and the read buffer's contents are the old ones followed by the delivered bytes |
| WebServer.Server.Read | code/server/server.cpp:222-232 | closes exactly when the read got nothing or failed with anything but EAGAIN. Closing, the read buffer holds the old bytes and the delivered ones, and the count drops by one for an open connection. Otherwise the slot is processed as `Processed` says from those bytes, and the socket is re-armed for output when there was something to process and for input when not |
| WebServer.Server.WriteSlot | code/server/server.cpp:207 | HttpConn::Write on the socket's slot: the result is the write loop's. The gather list's first slot still covers the write buffer, which has lost exactly the bytes sent from it |
| WebServer.Server.Write | code/server/server.cpp:203-220 | corrected outcomes. Closing lowers the count for an open connection. Bytes left after progress or EAGAIN re-arm output, with the unsent rest of the write buffer and the gather list kept. Keep-alive completion processes again as `Processed` says, after the sent bytes are gone from the write buffer |
| WebServer.Server.AfterWrite | code/server/server.cpp:208-219 | the branches after writev, as WriteDecision decides them: closing (count lowered for an open connection), waiting for output with the gather list and write buffer kept, or processing again as `Processed` says |
| WebServer.Server.HandleEvent | code/server/server.cpp:252-272 | one ready event. The listen socket runs the accept loop (count, timers and opened slots as the plan says). A hang-up closes without touching the timers. Input and output queue a read or write task and, with a timeout, push the socket's expiry to now + timeout. Anything else changes nothing |

## Left out

- Threads: the thread pool (code/pool/thread_pool.h) is a task queue the server appends to. No worker runs concurrently, and the atomics are plain integers.
- The database: the query part of `UserVerify` is a function parameter. Only its empty-argument guard is modelled.
- Logging (code/log) is not part of this model.
- `epoll_wait` and `Start`'s outer loop: only the handling of one ready event (`HandleEvent`) is modelled. The time passed to `epoll_wait` comes from `GetNextTick`, and the remaining effect of the wait is the kernel's.
- Sockets: `accept`, `readv`, `writev`, `write` and `send` are sequences of results given as parameters. `InitSocket` is modelled as the port check and a success flag for the rest.
- `SendError`'s send and close: the refused socket is returned from `ProcessListen` instead.
- `SetFdNonBlock` and the linger option: they change only kernel state.
- The clock: `Clock::now()` is the integer parameter `now`, in milliseconds.
- Timer callbacks: `TimerNode`'s callback is an integer, and firing it records the node in the `fired` log. When the server fires a timer, `CloseConn` does not run.
- ONESHOT semantics of the kernel: the model records masks but not the disarming after each report.
- `IsKeepAlive`: `HttpRequest::IsKeepAlive` is declared but never defined, and `HttpConn::IsKeepAlive` is called but never declared. Keep-alive is therefore a parameter of `Process` and `Write`.
- `stat`, `open` and `mmap`: they are a map from full path to status, whether open succeeds, whether a non-empty mmap succeeds, and the int the first four bytes of a mapping hold. The other mapped bytes are not modelled, only their length. The descriptor `WriteReponseContent` opens is not modelled, so its leak on the error paths, which return before `close`, is not captured.
- RespondHttp.ContentFor, RespondHttp.Response, RespondHttp.RespondReadableFile, RespondHttp.HttpResponse.WriteResponseContent, RespondHttp.HttpResponse.WriteReply, RespondHttp.HttpResponse.Respond and everything that serves a file follow the corrected MAP_FAILED test of the respond_http.cpp:60-61 row in "## Findings". RespondHttp.ContentForAsWritten is the program's outcome: a fault for an empty file or a failed mmap, and "File NotFound!" with a leaked mapping for a file that starts with the int -1.
- WebServer.WriteNeverTruncates: proved for replies below 2^31 bytes. Beyond that the int count wraps; at 2^32 bytes it reads 0 (WebServer.FourGiBReplyLooksSent).
- Gather-list slot lengths are unbounded naturals. The size_t sum in the emptiness test at http_conn.cpp:76 would wrap only at 2^64 bytes, which is not modelled.
- Uninitialised gather lists: every new connection starts from the same arbitrary gather list, given to the Server constructor. In the program each new slot holds its own indeterminate values.
- ByteBuffer.Buffer: the byte vector is a `seq<char>` field that methods reassign. Aliasing into the storage through pointers (`Peek`, `BeginWrite`, the gather list) is modelled as offsets.
- The `HttpConn` destructor and the `HeapTimer` destructor: destruction is not modelled.
- `GetIP`, `GetPort`, `GetAddr`, `GetFd`: the address of a connection is not modelled; the socket number is a field.
- HeapTimers.HeapTimer.Adjust: the heap order is promised only when the new expiry is not earlier. The source's Siftdown-only repair does not restore order for an earlier expiry, and that case is left unproved.
- HeapTimers.HeapTimer.GetNextTick: the result is stated only when the remaining time fits an `int`; beyond that it is the wrapped value.
- HeapTimers.HeapTimer.SwapNode, HeapTimers.HeapTimer.Siftup and the methods that use them follow the corrected definitions in "## Findings".
- ByteBuffer.Buffer.MakeSpace, ByteBuffer.Buffer.EnsureWriteable, ByteBuffer.Buffer.Append, ByteBuffer.Buffer.AppendBuffer, ByteBuffer.Buffer.ReadFd, ByteBuffer.AppendCapacity and every member that appends follow the corrected growth of the buffer.cpp:140 row in "## Findings". The source grows one byte short, so its assertion at buffer.cpp:30 fails on any append that needs growth. An example is a readv of 1500 bytes into a fresh 1024-byte buffer. ByteBuffer.Buffer.MakeSpaceAsWritten and ByteBuffer.Buffer.EnsureWriteableAsWritten model the program's behaviour.
- WebServer.Server.Write and WebServer.Server.AfterWrite follow WriteDecision, the corrected half of the server.cpp:208-219 row in "## Findings". WriteDecisionAsWritten is the program's outcome: after a writev that made progress and left bytes, the program closes, while the model re-arms for output.
- ParseHttp.UrlScan: a '%' within two characters of the end reads past the string in the source. The model marks the result `undefined` instead of guessing the bytes.
- `std::regex`: the two patterns are grammar functions. ECMAScript `.` excludes line terminators, and a header value holding CR or LF is refused.
- RespondHttp.HttpResponse.Respond: requires that no file is mapped. Every caller goes through `Init`, which unmaps first.
- Where the code and the design comments disagree, the model follows the code:
  - `Process` initialises the response with code 200, so `Respond`'s "-1 becomes 200" branch is never taken from a connection.
  - `SwapNode` as written breaks the index map, contrary to its intent (see "## Findings").

## Findings

| source | as written | input that shows it | evidently intended | confidence | as-written member | corrected member |
|---|---|---|---|---|---|---|
| code/buffer/buffer.cpp:140 | growth resizes to writeIdx + len - 1, one byte short, so the assertion at line 30 fails | a 4-byte buffer holding "abcd" (readIdx 0, writeIdx 4), asked for 2 bytes: it grows to 5, with 1 writable byte | resize to writeIdx + len | not executed | ByteBuffer.ShortGrowthWitness | ByteBuffer.Buffer.EnsureWriteable |
| code/timer/heap_timer.cpp:4-14 | `size_t j >= 0` is always true; the loop never breaks; it swaps when the parent is earlier | the first Add into an empty heap: Siftup(0) computes j = (0 - 1) / 2 = 2^63 - 1 and indexes past the end | stop at the root, and swap only when the child is earlier than its parent | not executed | HeapTimers.FirstAddFaults | HeapTimers.HeapTimer.Siftup |
| code/timer/heap_timer.cpp:37-38 | after the swap, each id is pointed at the other slot, so both ids keep their old, now wrong, index | a heap of ids 1 and 2 at slots 0 and 1, SwapNode(0, 1): afterwards id 2 is at slot 0 but m_ref[2] is 1 | m_ref[heap[i].id] = i and m_ref[heap[j].id] = j | not executed | HeapTimers.SwapNodeAsWrittenBreaksIndex | HeapTimers.SwapKeepsIndex |
| code/http/respond_http.cpp:60-61 | `*mmRet == -1` reads the mapping's first int instead of comparing the pointer with MAP_FAILED | a readable empty file: mmap of length 0 fails, returns (void *)-1, and the dereference faults; also a file starting FF FF FF FF, answered "File NotFound!" with the mapping leaked | `if (mmRet == MAP_FAILED)` | not executed | RespondHttp.EmptyFileFaults | RespondHttp.ContentFor |
| code/server/server.cpp:208-219 | with bytes left and a writev that made progress, the connection is closed | level-triggered, a 100-byte reply of which writev takes 60: 40 bytes remain, ret is 60, and the connection is closed | wait for output again, as after EAGAIN | not executed | WebServer.PartialWriteClosesAsWritten | WebServer.WriteNeverTruncates |
