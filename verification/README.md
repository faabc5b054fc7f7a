# Verified models of Node's schedulers, queues, codecs and parsers

This project models, in Dafny, the parts of Node 0.4 in which a small specification (a sequence, a stack, a byte
stream, a decoder) is met by code that buffers, splices, caches, shares or cuts. Every module states the specification
on its own terms, models the code in the form it has (objects whose fields change, loops, arrays written in place, or
plain functions), and proves that the code meets the specification on every input and over every run.

| file | what it models |
|---|---|
| HttpChunked, HttpHeader | the chunked coding, its reader by section 3.6.1 of RFC 2616, and the header decisions of `_storeHeader` |
| HttpReader | a client's reader of whole messages, after sections 4.1 and 4.4 of RFC 2616 |
| HttpServer | responses that buffer themselves, and the connection that gives them the socket in the order of the requests |
| HttpWire | the responses of a run, read back from the wire by that reader |
| HttpAgent | the client's request queue over a bounded set of sockets |
| Net | a socket's write queue, and the byte pool shared by all sockets |
| LinkList, TimerSpec, TimerLaws, Timers | the intrusive rings, the idle timers as a machine, when an item fires, and the timers on the rings |
| Highlight, HighlightStyles, MergeTags | the highlighter's search through a match cache, what its tags mean, and the merging of two tag streams |
| Base64, Utf8, QueryString, Debugger | codecs and incremental parsers |
| Path, Url, Strings | dot segments |
| Common | small things that several modules use |
| NextTick | the queue behind `process.nextTick` and its wake-up flag |

How to read it. A class has a ghost view of its state, and its methods say what the new view is; what is promised about
whole runs is then proved of the views. Ghost fields such as `wire`, `kernel`, `accepted`, `dispatched`, `started` record
what went out. Nondeterminism is a parameter or an arbitrary choice: the kernel takes any part of a write, timeout
functions and callbacks are arbitrary scripts, events come in any order.

Where the code and its promise differ, the exact condition is proved:

- A query object survives `stringify` and `parse` if and only if it has no array of fewer than two strings.
- `urlResolveObject` gives the path of section 5.2.2 of RFC 3986 (not strict) if and only if its dot pass does not lose a
  slash, which cannot happen when only the first and last segments are empty; but a path that the code does not touch must
  have no dot segment (`//h/a/./b` keeps its dots), nor may a base that it does touch (a fragment alone resolves the base).
- The end of a response that is not the last can be found by a reader if and only if no field is taken for a length by the
  code's substring test and not by the reader (`X-Content-Length`).
- After `abort` of a request in progress somebody may wait needlessly if and only if its socket was still connecting.
- A timer list's callback always ends for timeouts of 2 ms and more; for 0 and 1 ms there are items that keep it going.

## Model

| member | source | states |
|---|---|---|
| HttpChunked.DecodeChunks | lib/http.js:606-622 | for all non-empty writes and clean trailer lines, whatever follows: a section 3.6.1 reader gets exactly the concatenated writes and stops exactly at the end of the message |
| HttpChunked.ChunkRead | lib/http.js:608-619 | the reader takes one chunk off the front of any stream and goes on with the rest |
| HttpChunked.SizeRead | lib/http.js:611-616 | a size line written by `toString(16)` is read back as the size |
| HttpChunked.TrailerRead | lib/http.js:629-646 | the reader skips any trailer and stops after the empty line |
| HttpHeader.StoreHeader | lib/http.js:427-518 | the exact header text: the caller's fields, then a Connection field only if there was none, and `Transfer-Encoding: chunked` only if the body has to be chunked, no length ever added; the message is the last exactly when it was to be, or its fields say close, or no field and no keep-alive, or it can only be ended by closing; otherwise it has no body, a length or announced chunks (section 4.4 of RFC 2616) |
| HttpHeader.CloseAnnounced | lib/http.js:487-511 | where the caller leaves it open, the client is told to close exactly if the message is the last, and that is exactly if keep-alive is not wanted or the end could not be found |
| HttpReader.HeadReads | lib/http.js:427-518 | a header of clean fields, whatever follows, is read back as its start line and exactly those fields |
| HttpReader.FramingDecided | lib/http.js:487-511 | a section 4.4 reader of the header finds chunks exactly where the code writes chunks, else the length given, else the close of the connection |
| HttpReader.EndFound | lib/http.js:439-511 | for a message with a body that is not the last, the reader has to wait for the close if and only if a field was mistaken for a length |
| HttpReader.EndNotFound | lib/http.js:439-461 | such a field is `X-Content-Length`, with any value |
| HttpReader.MessageReads | lib/http.js:427-713 | for every framing: a complete message of a handler that keeps its word about a length, followed by anything (or by the close), is read back as the fields sent, the body written and what follows |
| HttpServer.Response.Buffer | lib/http.js:400-424 | data joins the buffered bytes at their end, whether or not it is merged with the last piece |
| HttpServer.Response.WriteRaw | lib/http.js:376-397 | sent and buffered bytes together grow by the data; the wire gets what is sent, and only if the socket is this response's; then nothing stays buffered |
| HttpServer.Response.Send | lib/http.js:359-373 | the header goes out once, before the first piece, string or buffer |
| HttpServer.Response.WriteHead | lib/http.js:800-869 | no body for 1xx, 204 and 304; the header text; the end of the message can be found without closing unless it is the last |
| HttpServer.Response.SendPiece | lib/http.js:606-622 | one write or three for a buffer: the same chunk |
| HttpServer.Response.WriteBody | lib/http.js:589-626 | non-empty data joins the body, a message without a body ignores it, and sent plus buffered bytes stay the message |
| HttpServer.Response.EndBody | lib/http.js:649-703 | the data joins the body, then the message is complete, on the fast path as on the normal one |
| HttpServer.HotPath | lib/http.js:679-687 | the fast path's text is byte for byte the header, one write and the last chunk |
| HttpServer.Response.AddTrailers | lib/http.js:629-646 | trailers count until the message is finished, and not after |
| HttpServer.Response.Drain | lib/http.js:743-750 | everything buffered goes to the socket, in order |
| HttpServer.Response.Write | lib/http.js:589-626 | at any time before its end, by any response: the line of responses stays in order and no other response changes |
| HttpServer.Response.End | lib/http.js:649-713 | in any order: the line stays in order, the other messages keep their content, and a response that is not over by then has something buffered, so the test at line 707 finds a connection |
| HttpServer.Response.Prepare | lib/http.js:521-568 | status and fields set before the header is settled change nothing else |
| HttpServer.Response.Trailers | lib/http.js:629-646 | at any time before the end, the line stays in order and the trailer is the one added last |
| HttpServer.Connection.OnIncoming | lib/http.js:1085-1100 | a new response gets the socket if it is free, or stands last; `incoming` gets its request |
| HttpServer.Connection.Release | lib/http.js:1106-1110 | the request answered is the first of `incoming` (the assertion at line 1106) unless they were aborted |
| HttpServer.Connection.Finish | lib/http.js:1102-1121 | all finished responses that follow go out too, up to the last, which ends the connection; nobody is left waiting for a free socket |
| HttpServer.Connection.AssignSocket | lib/http.js:337-343 | the first in line gets the socket and sends what it has |
| HttpServer.Connection.Flush | lib/http.js:728-769 | buffered bytes go out; a finished response makes way; terminates by the length of the queue |
| HttpServer.Connection.Abort | lib/http.js:992-1006 | requests are forgotten, and what was sent stays sent |
| HttpServer.Connection.OnEnd | lib/http.js:1053-1071 | with half-open allowed, the last response in line becomes the last on the connection, and with none the socket is shut; otherwise it is shut and the requests are aborted |
| HttpServer.Run | lib/http.js:1085-1121 | requests, handlers and closes in any order: every request taken has its response, in order, with the header, coding, data and trailers that its handler gave up to its end, and marked last only by its header or by the client's end, all read off the events alone; the wire is the complete responses in request order, then a prefix of the present one, which is all it has while the socket is open; the socket is open and requests are taken until the client or the socket ends, or a last response was sent |
| HttpServer.HandlerActs | lib/http.js:589-713 | what one handler does changes its own response as the events say, and no other |
| HttpServer.WireInOrder | lib/http.js:728-769 | the same for every settled line of responses |
| HttpServer.BodyReadable | lib/http.js:649-713 | at the place on the wire where a finished chunked body begins, a section 3.6.1 reader gets what that handler wrote, and the next message follows |
| HttpWire.TaleDecided | lib/http.js:427-518 | whatever a handler does, its header decides the coding and marks a message that can only end by closing as the last |
| HttpWire.TellSpeaks | lib/http.js:571-713 | an event adds its data to the body the client is to get, until the end and in a response that has a body, and nothing else ever does |
| HttpWire.MessageReadable | lib/http.js:649-713 | at the place of any response that is over, the reader gets its fields and its body and is then at the next, whether the end is told by length, chunks or close |
| HttpWire.ResponsesRead | lib/http.js:1085-1121 | a whole run: a client that knows its requests and the wire alone reads back, in order, the fields and body of every response that is over, and is left with what was sent of the present one |
| HttpServer.TouchSettled | lib/http.js:376-397 | whatever one response does, the wire stays the responses' bytes one after the other |
| HttpServer.ReleaseSettled | lib/http.js:1102-1110 | letting a complete response go keeps the order and the list of requests |
| HttpServer.EndStep | lib/http.js:703-710 | a response that ends waits its turn, is let go, or is stuck on a closed socket |
| HttpAgent.Agent.Cycle | lib/http.js:1377-1412 | on return the queue is empty, or no socket is usable and there may be no more; the first usable socket got the first request; requests left in order; new sockets are connecting and have a request; terminates by queue length, then free slots |
| HttpAgent.Agent.EstablishNewConnection | lib/http.js:1177-1199 | one more socket within the bound, and it has the first request (the assertion at line 1199) |
| HttpAgent.Agent.AppendMessage | lib/http.js:1158-1168 | the request joins the end of the line, behind all dispatched and queued ones |
| HttpAgent.Agent.Assign | lib/http.js:1393-1398 | the first request leaves the queue and is tied to one socket |
| HttpAgent.Agent.Find | lib/http.js:1385-1392 | the first socket that has no message and is open or connecting, if there is one |
| HttpAgent.Agent.RemoveSocket | lib/http.js:1171-1174 | exactly that socket leaves the set |
| HttpAgent.Agent.OnConnect | lib/http.js:1183-1188 | the socket is open, and nobody waits needlessly afterwards |
| HttpAgent.Agent.OnError | lib/http.js:1207-1228 | the socket's request, or the first queued one, is told; the socket is dropped and the rest is dispatched |
| HttpAgent.Agent.OnClose | lib/http.js:1274-1300 | the socket is dropped and the rest is dispatched |
| HttpAgent.Agent.OnResponseEnd | lib/http.js:1331-1354 | the request and its socket are parted; without keep-alive the socket is closed and carries no request from then on, with it the socket is as open as before; no other socket is touched and the rest is dispatched; if `destroySoon` cannot close at once the assertion at line 1341 throws, and nothing has changed |
| HttpAgent.Agent.Detach | lib/http.js:346-350 | request and socket forget each other |
| HttpAgent.Agent.Abort | lib/http.js:931-947 | the request leaves the queue or gives up its socket; a second abort after being queued takes the last one off the queue; exactly when the socket was connecting, the queue may be left waiting |
| HttpAgent.Agent.Splice | lib/http.js:932-936 | the request leaves the queue or, if it is not there any more, the last one does |
| HttpAgent.FirstMoves | lib/http.js:1394-1396 | the first queued request is nowhere else, and the order is kept when it goes |
| HttpAgent.Run | lib/http.js:1158-1354 | in every run: at most `maxSockets` sockets; as many requests as were made, each queued, dispatched or withdrawn and never two of these, withdrawn by no more than the aborts and errors, and dispatched ones tied to their socket but for no more than the responses and aborts; no request is ever on a socket whose response ended without keep-alive; dispatch in the order of arrival; nobody waits needlessly as long as nothing is aborted, or after the next request |
| HttpAgent.Happens | lib/http.js:931-1354 | one event, at the socket or request it names: connected, dropped, closed or given up as its handler says; a request counts as made, and no other list grows but by its event |
| HttpAgent.LeftWaiting | lib/http.js:931-947 | a run that leaves somebody waiting beside a usable socket: one socket, two requests, the first aborted while it connects |
| Net.FitIsMost | lib/net.js:412-413 | of a string, as many whole characters as fit go to the pool |
| Net.Pool.Reserve | lib/net.js:407-410 | a new buffer when little room is left; every slice handed out keeps its bytes |
| Net.Pool.Fill | lib/net.js:412-423 | bytes land above everything handed out |
| Net.Pool.Put | lib/net.js:407-423 | as many characters as fit and not one less land in the pool, above everything handed out |
| Net.Pool.GiveBack | lib/net.js:456-462 | rolling `used` back keeps every slice below it |
| Net.Pool.Receive | lib/net.js:616-677 | received bytes are handed out as a slice that nothing changes later |
| Net.Socket.Stage | lib/net.js:405-441 | whole characters that fit go to the pool, the rest to the front of the queue, together the same bytes |
| Net.Socket.Send | lib/net.js:443-495 | whatever part the kernel takes, what it leaves is first in the queue, as a slice that keeps its bytes |
| Net.Socket.WriteOut | lib/net.js:389-496 | kernel bytes followed by queued bytes grow by exactly the data; true exactly when nothing was queued |
| Net.Socket.Enqueue | lib/net.js:337-363 | appended, or added to the last text with the same encoding: the same bytes, and `bufferSize` counts them |
| Net.Socket.Write | lib/net.js:294-379 | throws exactly after `end` or on a closed socket, and then changes nothing; else the data is accepted, and true means nothing is queued |
| Net.Socket.FlushFirst | lib/net.js:508-525 | one round takes the first chunk off, or leaves the queue non-empty with the watcher running |
| Net.Socket.Flush | lib/net.js:507-528 | true exactly when nothing is left; an end-of-file mark then has shut the sending side |
| Net.Socket.Shutdown | lib/net.js:839-863 | drops nothing; destroys the socket exactly when the other side had closed |
| Net.Socket.Destroy | lib/net.js:787-836 | abandons data exactly when something was queued |
| Net.Socket.End | lib/net.js:866-877 | the data is accepted first; the sending side shuts, or will once the queue is drained |
| Net.Socket.OnWritable | lib/net.js:600-608 | a socket to be destroyed when drained loses nothing |
| Net.Socket.OnConnect | lib/net.js:573-597 | what was queued while connecting goes out or has the watcher running |
| Net.Socket.DestroySoon | lib/net.js:779-785 | destroyed now or when drained, and nothing is dropped |
| Net.Socket.OnReadable | lib/net.js:611-677 | arriving bytes become a slice; a closed other side makes the socket unreadable and destroys it if it was shut; without half-open the sending side shuts too, and with it the socket, or its end is queued; no queued data is dropped |
| Net.OkGrows | lib/net.js:100-104 | what one socket puts in the pool does not disturb another |
| Net.Run | lib/net.js:294-528 | any events at any sockets sharing the pool: what each socket accepted is the encoded data of the events, in order, where nothing is refused before the socket begins to close; after an `end`, or the other side's end without half-open, the socket is shut or will be once drained; every socket not destroyed outright has given the kernel all it accepted except what it queues, sizes are counted, watchers run, and every slice ever handed out keeps its bytes |
| Net.ProgressOne | lib/net.js:294-379 | one event moves the account of its socket by its data, all or nothing, and no other account |
| LinkList.Init | lib/_linklist.js:22-25 | the object becomes an empty list; all other rings stay |
| LinkList.Peek | lib/_linklist.js:30-33 | the most idle item, or null |
| LinkList.Shift | lib/_linklist.js:38-42 | the most idle item is taken out; an empty list loses its own head |
| LinkList.Remove | lib/_linklist.js:47-58 | the item is in no ring; every other ring is unchanged |
| LinkList.Append | lib/_linklist.js:63-69 | the item leaves whichever ring held it and is last in this one; all others are unchanged |
| LinkList.IsEmpty | lib/_linklist.js:73-75 | true exactly for an empty sequence |
| LinkList.RingBypassed | lib/_linklist.js:48-54 | bypassing any item leaves the ring of the others |
| LinkList.RemoveKeepsRings | lib/_linklist.js:47-58 | on pointers: all rings stay well formed and disjoint |
| LinkList.InsertKeepsRings | lib/_linklist.js:65-68 | linking a detached item in behind the head puts it last |
| LinkList.AppendKeepsRings | lib/_linklist.js:63-69 | on pointers: all rings stay well formed and disjoint |
| LinkList.NextTells | lib/timers.js:120-133 | the next pointer tells a detached, a lone and a listed object apart, as `enroll` and `active` assume |
| TimerSpec.UnenrollKeeps | lib/timers.js:103-113 | lists stay ordered, a watcher is armed exactly for a non-empty list and no later than its oldest item is due |
| TimerSpec.EnrollKeeps | lib/timers.js:117-124 | the same invariant |
| TimerSpec.InsertKeeps | lib/timers.js:50-100 | the same invariant; what is put where is `TimerLaws.ActivePuts` |
| TimerSpec.ActiveKeeps | lib/timers.js:129-140 | the same invariant, for enrolled items and for an item inside its own timeout |
| TimerSpec.DoDues | lib/timers.js:103-140 | a call leaves every other item of a list as due as it was, and its own item no longer due |
| TimerSpec.NoneDue | lib/timers.js:74-79 | in an ordered list, if the oldest is not due then nobody is |
| TimerSpec.FiredKeeps | lib/timers.js:81-83 | firing the oldest, whatever its function calls, leaves fewer due items |
| TimerSpec.CallbackFires | lib/timers.js:66-90 | for timeouts of 2 ms and more: fires exactly the due items still due at their turn, oldest first, ends, leaves nobody due and the watcher right |
| TimerSpec.NeedNotEnd | lib/timers.js:74-85 | for timeouts of 0 and 1 ms an item that activates itself keeps the callback going for any number of rounds |
| TimerSpec.CallbackInKeeps | lib/timers.js:66-90 | a callback that ends, after however many rounds and for every timeout, leaves the invariant; below 2 ms it leaves an empty list |
| TimerSpec.ScheduleAll | lib/timers.js:66-90 | if timeout functions only touch their own item, every due item fires, in order |
| TimerSpec.StepKeeps | lib/timers.js:50-140 | the invariant over one step: time, a call, or a watcher of any list going off at any time, with a callback that ends |
| TimerSpec.RunKeeps | lib/timers.js:50-140 | the invariant in every reachable state |
| TimerSpec.Punctual | lib/timers.js:93-96 | while no watcher is overdue, no item has been idle longer than its timeout |
| TimerSpec.NotBeforeTime | lib/timers.js:75-79 | nobody fires before the time but for the last millisecond |
| TimerLaws.ActivePuts | lib/timers.js:50-140 | the item is last in the list of its timeout, new or not, and its time starts now; a watcher is armed for the first item of a list; the whole rest of the state |
| TimerLaws.EnrollPuts | lib/timers.js:117-124 | the item is alone with its new timeout, in no list, and the other items stay |
| TimerLaws.UnenrollTakes | lib/timers.js:103-113 | the item is nowhere, the other items stay, and the watcher is stopped only for a list left empty |
| TimerLaws.CallbackArms | lib/timers.js:75-89 | after a callback the watcher is stopped, or armed for exactly the moment the oldest item is due |
| TimerLaws.StepFires | lib/timers.js:66-90 | an item that waits and is left alone fires in a step if and only if the watcher of its list goes off when it is due; otherwise it waits on, its time unchanged |
| TimerLaws.FiresOnce | lib/timers.js:50-140 | in every run of calls, watchers and timeout functions about other items: it fires at the first watcher of its list that goes off when it is due, once, and at no other event |
| TimerLaws.SetTimeoutFires | lib/timers.js:148-190 | so does a timer set by `setTimeout`, counting from now, for every delay |
| TimerLaws.ClearedNeverFires | lib/timers.js:193-199 | a timer that was cleared does not fire in any run |
| Timers.Timers.Unenroll | lib/timers.js:103-113 | on the rings: the machine's step |
| Timers.Timers.Enroll | lib/timers.js:117-124 | on the rings: the machine's step |
| Timers.Timers.EnsureList | lib/timers.js:56-64 | on the rings: a list for each timeout value, made once |
| Timers.Timers.Insert | lib/timers.js:50-100 | on the rings: the machine's step |
| Timers.Timers.Active | lib/timers.js:129-140 | on the rings: the machine's step |
| Timers.Timers.FireOne | lib/timers.js:74-85 | on the rings: one round of the callback's loop |
| Timers.Timers.ListCallback | lib/timers.js:66-90 | on the rings: the machine's callback, with the same items fired in the same order |
| Timers.Timers.CallbackIn | lib/timers.js:66-90 | on the rings: the callback of any list, and whether it ends in so many rounds |
| Timers.Timers.SetTimeout | lib/timers.js:148-190 | a new item, last in the list of its delay, its time starting now |
| Timers.Timers.ClearTimeout | lib/timers.js:193-199 | on the rings: a timer with its function is taken out |
| Timers.Timers.Run | lib/timers.js:50-140 | on the rings: any run of time, calls and watchers is a run of the machine, with the same items fired event by event, up to a callback that does not end in its rounds |
| Timers.Timers.SetTimeoutAndRun | lib/timers.js:148-190 | on the rings: a timer beside any other calls and timers fires at the first watcher of its list that goes off when it is due, and at no other event |
| Highlight.SearchLater | doc/sh_main.js:176-184 | a match found earlier is the one a later search finds, as long as it was not passed |
| Highlight.BestIsLeast | doc/sh_main.js:185-191 | the chosen match has the least index and then the least pattern number |
| Highlight.BestSettled | doc/sh_main.js:188-190 | after a match at the current position the other patterns do not matter |
| Highlight.CacheLater | doc/sh_main.js:168-184 | the whole cache stays good when the position moves right |
| Highlight.Scanner.FindBest | doc/sh_main.js:156-192 | the cached search finds what a fresh search finds |
| Highlight.Scanner.Step | doc/sh_main.js:153-237 | a round with the cache equals a round without |
| Highlight.Scanner.Run | doc/sh_main.js:152-237 | so does any number of rounds |
| Highlight.Scanner.EmitMatch | doc/sh_main.js:198-235 | the text before the match and the match, or its parts, are output in order, and the stack follows; the styles are `HighlightStyles.RunPaints` |
| Highlight.RunTagsOk | doc/sh_main.js:93-131 | any run of rounds keeps the tags alternating, in order and their spans non-empty |
| Highlight.LineTagsOk | doc/sh_main.js:239-247 | after each line the tags are closed spans, as the merge demands, and the next line may begin |
| Highlight.LineScanned | doc/sh_main.js:194-196 | a line whose loop has ended is scanned to its end |
| Highlight.HighlightString | doc/sh_main.js:136-248 | over the whole text, each line scanned to its end with a new cache: the tags of fresh searches, whose meaning is `HighlightStyles.HighlightedMeans`, and spans as the merge demands |
| HighlightStyles.BestMeans | doc/sh_main.js:168-192 | the match taken is leftmost among all matches of all patterns, then of the first pattern; none is taken only if nothing matches |
| HighlightStyles.ApplyStands | doc/sh_main.js:219-235 | the stack is what the matches so far say, read backwards: an exit cancels the entry before it, an exit of all cancels everything |
| HighlightStyles.OutputPaints | doc/sh_main.js:93-131 | text put out has the style given, or that of the innermost environment, position by position; what was painted before stays |
| HighlightStyles.RunPaints | doc/sh_main.js:152-237 | any run within a line: its matches are the best ones in turn for the states they lead to, and every character has the style of the match or subexpression covering it, else of the environment |
| HighlightStyles.ReadsSpans | doc/sh_main.js:93-131 | the tags give every position the style of the span covering it |
| HighlightStyles.ScansUnique | doc/sh_main.js:152-196 | the matches of a line are determined by the line and the matches before it |
| HighlightStyles.HighlightedMeans | doc/sh_main.js:136-248 | the whole text: the style of every character, from the matches of its line and the environments entered and left before it; line ends have none |
| MergeTags.MergeTags | doc/sh_main.js:342-393 | the loops compute the merge of the originals with the spans; terminates although the split branch advances no index |
| MergeTags.MergeStep | doc/sh_main.js:357-380 | what one round pushes and leaves, the split included |
| MergeTags.PushRest | doc/sh_main.js:382-390 | the rest of either list is pushed in order |
| MergeTags.MergeOriginals | doc/sh_main.js:342-393 | the original tags come out unchanged and in order |
| MergeTags.MergeStyles | doc/sh_main.js:342-393 | every text position keeps its style |
| MergeTags.MergeCuts | doc/sh_main.js:342-393 | a span is cut nowhere but where an original tag stands |
| MergeTags.MergeSorted | doc/sh_main.js:342-393 | the result is in text order |
| MergeTags.FlattenNests | doc/sh_main.js:342-393 | the nesting is that of the originals |
| MergeTags.MergeCorrect | doc/sh_main.js:325-393 | all of it, for sorted well-nested originals and the highlighter's tags |
| Base64.Base64Slice | src/node_buffer.cc:305-374 | the output is the encoding of section 4 of RFC 4648, filled exactly |
| Base64.WriteGroup | src/node_buffer.cc:342-367 | the four characters of one group, padded at the end of the data |
| Base64.EncodeLength | src/node_buffer.cc:310-312 | four characters for each three bytes begun |
| Base64.TableIsAlphabet | src/node_buffer.cc:281-283 | the table is the alphabet of table 1 of RFC 4648 |
| Base64.SextetsSpell | src/node_buffer.cc:342-367 | the four groups of six bits spell the 24 bits of the three bytes |
| Base64.TakeChar | src/node_buffer.cc:617-645 | the next character of the alphabet, skipping all others, or none at the end |
| Base64.DecodeGroup | src/node_buffer.cc:614-647 | one round writes the next bytes of the meaning |
| Base64.DecodeTail | src/node_buffer.cc:631-646 | the second and third byte of a round, or the end of the text |
| Base64.DecodeInto | src/node_buffer.cc:608-648 | the loop writes the whole meaning and nothing else |
| Base64.Base64Write | src/node_buffer.cc:567-653 | for any encoding with characters inserted or padding stripped: exactly the bytes, no others changed, and the two errors exactly when they are due |
| Base64.RoundTrip | src/node_buffer.cc:305-374 | decoding an encoding restores every byte string |
| Base64.TextMeaning | src/node_buffer.cc:608-648 | so does decoding it with characters inserted or padding stripped |
| Base64.SizeSuffices | src/node_buffer.cc:75-97 | the reserved size is never too small for such text |
| Base64.SizeExact | src/node_buffer.cc:75-97 | it is exact with and without padding when nothing is inserted |
| Base64.RawSizeIs | src/node_buffer.cc:75-88 | without padding, the size is the number of bytes so many characters can encode, and one more for a single character beyond the groups of four |
| Utf8.StringDecoder.FindCut | lib/string_decoder.js:67-94 | the backward loop is the scan |
| Utf8.StringDecoder.Write | lib/string_decoder.js:32-112 | held-back bytes, the completed character and the rest, as specified |
| Utf8.ScanFinds | lib/string_decoder.js:67-94 | on well-formed bytes the scan finds exactly the character that is cut off |
| Utf8.WellFormedPrefix | lib/string_decoder.js:32-112 | cutting well-formed bytes anywhere and going on from what was cut off |
| Utf8.WriteDecodes | lib/string_decoder.js:32-112 | for well-formed bytes: one write emits the characters that became complete, and holds the rest |
| Utf8.WriteAll | lib/string_decoder.js:32-112 | any stream in any chunks: for arbitrary bytes what was emitted and what is held is the stream, and fewer bytes are held than announced; for well-formed ones the text is the decoding of its whole characters |
| QueryString.UnescapeBuffer | lib/querystring.js:42-105 | the reading of escapes one by one, in no more bytes than characters |
| QueryString.UnescapeInto | lib/querystring.js:47-100 | what the loop stores, running one position past the end |
| QueryString.Feed | lib/querystring.js:49-99 | one round of the state machine |
| QueryString.StoresMeaning | lib/querystring.js:42-105 | from every state: the stores are the meaning of what is pending and unread, then one superfluous byte |
| QueryString.UnescapedShrinks | lib/querystring.js:42-105 | never more bytes than characters |
| QueryString.EscapeRoundTrip | lib/querystring.js:108-115 | unescaping inverts escaping for all byte strings |
| QueryString.FormRoundTrip | lib/querystring.js:54-58 | unescaping with spaces inverts a form's encoding, where spaces are plus signs |
| QueryString.BrokenStays | lib/querystring.js:64-98 | text in which no percent sign is followed by two hex digits stands for itself |
| QueryString.EscapePlain | lib/querystring.js:113-115 | unreserved characters are not escaped |
| QueryString.EscapeAvoids | lib/querystring.js:113-115 | no separator survives escaping |
| QueryString.Parse | lib/querystring.js:163-187 | the loop over the pieces, as a fold |
| QueryString.PairCut | lib/querystring.js:173-175 | the key is everything before the first separator and the value everything after it, further separators included |
| QueryString.PairsRebuild | lib/querystring.js:177-183 | adding the pairs key by key rebuilds the object |
| QueryString.AddMore | lib/querystring.js:177-183 | more values for a key extend its array, making one first |
| QueryString.ParseStringify | lib/querystring.js:134-187 | parsing what was stringified gives the object back if and only if its arrays have two strings or more |
| Debugger.Protocol.Execute | lib/_debugger.js:84-126 | delivers the complete messages of the text so far, once each, and keeps the rest |
| Debugger.Protocol.NewRes | lib/_debugger.js:76-82 | starts over on the rest of the text; the mutual recursion terminates |
| Debugger.Protocol.ExecuteAll | lib/_debugger.js:84-126 | a sequence of chunks is read like their concatenation |
| Debugger.ReadExtends | lib/_debugger.js:84-126 | nothing depends on where the text is cut |
| Debugger.HeaderLength | lib/_debugger.js:94-101 | a length is read back wherever its line stands among clean header lines |
| Debugger.LinesJoin | lib/_debugger.js:94 | clean lines that were joined are split again |
| Debugger.FrameFirst | lib/_debugger.js:84-134 | a message with any such header, followed by anything, yields its body and its end |
| Debugger.FrameCut | lib/_debugger.js:84-134 | cut anywhere it is no message yet |
| Debugger.ReadFrames | lib/_debugger.js:84-134 | all complete messages in order, the rest kept |
| Debugger.Deliver | lib/_debugger.js:76-134 | whole frames and a cut one, in any chunks, through a fresh object: one response per message, in order, with its text |
| Path.NormalizeArray | lib/path.js:30-54 | the right-to-left splicing equals the left-to-right stack reading, for both values of `allowAboveRoot` |
| Path.ScanBack | lib/path.js:32-44 | the first loop: the names left and the count of names still to drop |
| Path.EvaluatePrefix | lib/path.js:30-54 | evaluation may be done piecewise |
| Path.Normalize | lib/path.js:229-246 | the normalized text of the stack reading |
| Path.NormalizedReads | lib/path.js:229-246 | root, place and trailing slash survive |
| Path.NormalizedShape | lib/path.js:229-246 | no empty segment between others, no `.` but alone, and `..` only in front of a relative path |
| Path.NormalizeIdempotent | lib/path.js:229-246 | normalizing twice changes nothing, on every path |
| Path.JoinInStages | lib/path.js:250-255 | the first arguments may be joined beforehand |
| Path.JoinedReads | lib/path.js:250-255 | the segments are those of a walk through all arguments one after the other, from the root if the first starts there, and a trailing slash is the last one's |
| Path.Resolve | lib/path.js:198-225 | the result of a sequence of `cd`, as doc/api/path.markdown promises |
| Path.ResolvedIsNormal | lib/path.js:198-225 | from an absolute directory: absolute and already normalized |
| Path.ResolveInStages | lib/path.js:198-225 | resolving in stages gives the same path |
| Url.ResolvePathname | lib/url.js:333-505 | the result path: the base for a wholly empty reference, the reference's own for a host without protocol or with another one, else the merge and the dot pass |
| Url.DotPass | lib/url.js:451-505 | the in-place countdown pass equals the stack reading with its slash rules |
| Url.RemoveDotsIsStack | lib/url.js:459-473 | the buffer algorithm of section 5.2.4 of RFC 3986 is the stack reading of the segments |
| Url.MergeIsTarget | lib/url.js:417-443 | the merged segments are the target path of sections 5.2.2 and 5.2.3 |
| Url.PassedSegments | lib/url.js:451-505 | on segments: the RFC's result if and only if no slash is lost |
| Url.PassAgrees | lib/url.js:444-505 | the pass gives what `remove_dot_segments` gives if and only if no slash is lost |
| Url.PassKeepsPath | lib/url.js:444-505 | the pass leaves a path alone if and only if it has no dot segment |
| Url.RemoveDotsKeepsPath | lib/url.js:338-372 | `remove_dot_segments` leaves an absolute path alone if and only if it has no dot segment, which is when a path that is not touched is right |
| Url.ResolveAgreesWithRfc | lib/url.js:333-505 | for a base with a slashed protocol and a host, the path of section 5.2.2 of RFC 3986 if and only if: the reference is wholly empty; or it brings its own path and that has no dot segment; or it has no host and path, and has a query or the base has no dot segment; or no slash is lost |
| Url.PlainPathsAgree | lib/url.js:417-505 | with no empty segment but the first and the last, no slash is lost |
| Url.LeadingSlashLost | lib/url.js:459-485 | resolving `/..//a` gives `/a`, the RFC has `//a` |
| Url.TrailingSlashLost | lib/url.js:487-489 | resolving `/a//.` gives `/a/`, the RFC has `/a//` |
| Url.BaseNotKept | lib/url.js:444-505 | a fragment alone, on `/a/./b`, gives `/a/b`, the RFC keeps the base |
| Url.DotsKept | lib/url.js:338-341 | `//h/a/./b` keeps its path on any base, the RFC has `/a/b` |
| NextTick.Process.NextTick | src/node.js:150-154 | the callback is queued last and a tick is asked for |
| NextTick.Process.TickCallback | src/node.js:127-148 | the batch queued at the start runs up to the first throw; what is left stays queued, and a tick is asked for |
| NextTick.Process.Tick | src/node.cc:248-276 | the flag is cleared before the batch, not after |
| NextTick.StepSound | src/node.js:127-154 | each step starts callbacks in the order of registration, only ones registered before it, and keeps a tick coming |
| NextTick.RunSound | src/node.cc:229-276 | over every run each callback starts at most once, in order, and no wake-up is lost |
| NextTick.WaitIsBounded | src/node.js:127-154 | the callback at position p starts within p + 1 ticks, however many throw |

## Left out

- V8 handles, libev watchers (a flag or a deadline here), OpenSSL, c-ares, the C http_parser, files, DNS, datagrams, terminals, REPL: foreign calls or I/O.
- lib/http.js: 100-continue, upgrades, the Expect header, the legacy Client, caller-supplied Transfer-Encoding, a second `writeHead`, writes after `end`, 'drain' events and return values of `write`.
- lib/http.js: text stands for its bytes, so encodings under which ASCII is not itself, and strings of different encodings merged by `_buffer`, are not captured; buffers carry no encoding.
- lib/http.js: the socket under a response closes between two calls, not within one; the test inside the loop of `_writeRaw` is then idle. A half-closed socket whose own end is still queued counts as closed. After a response marked last has finished no further request is taken.
- lib/http.js: status line and reason phrase are given text; `setHeader` and `removeHeader` are given by the fields they lead to.
- HttpReader: folded header lines and multipart/byteranges bodies; of several fields by one name the first counts.
- lib/http.js, Agent: parsers and 'upgrade'; `maxSockets` is fixed; a `destroySoon` that waits ends in the assertion at line 1341, and the socket's later fate is that of any socket; user code called from `assignSocket` does not call back into the agent.
- lib/net.js: write callbacks, file descriptors, kernel errors (a write of an empty buffer among them), `destroySoon` while connecting; handlers of 'connect' and 'drain' write after the event, not inside it. Base64 and hex are not among the encodings of the model, and surrogate pairs are encoded unit by unit.
- lib/timers.js: timeout functions that throw, `active` on an item removed before, delays of 0, intervals. The clock does not move during a callback.
- doc/sh_main.js: `sh_setHref`, the DOM, loading of scripts; a search function is any leftmost search.
- Base64.Base64Write: only text that is an encoding, with characters outside the alphabet inserted or with its padding stripped; shifts and masks are written as division and remainder, and the length is below 2^64.
- HttpServer.Response.Trailers: not after `end`, when `addTrailers` has no effect.
- LinkList.Remove: not on the head of a list that holds items, which would leave the items without a head.
- LinkList.Append: not with the head of a list that holds items as the item.
- HttpServer.Response.Write: not after `end`; what such a write would add behind the last chunk is not captured.
- HttpServer.Response.WriteHead: once per message, and without a Transfer-Encoding field of the caller's.
- HttpServer.Connection.OnIncoming: not after a last response has finished or the requests were aborted.
- HttpAgent.Agent.OnResponseEnd: the socket holds that request or none, as `detachSocket` asserts.
- Net.Socket.WriteOut: the kernel takes any part of what it is offered but does not fail.
- Net.Socket.DestroySoon: not while connecting.
- Timers.Timers.ListCallback: only for timeouts of 2 ms and more, where it always ends; `CallbackIn` has the others.
- Timers.Timers.Active: only on enrolled items, or on an item from inside its own timeout.
- Debugger.Protocol.Execute: only decimal lengths; other numerals that unary plus would accept count as NaN.
- Url.ResolvePathname: the base has a host and a protocol with slashes; a reference to another protocol has a host too.
- Utf8: ucs2 and base64 decoders; decoding is to scalar values rather than UTF-16 units.
- QueryString.Parse: the key `__proto__`, which makes no own property of an object, is like any other here.
- QueryString: keys and values are their UTF-8 bytes; separators are single characters; values are strings or arrays of strings.
- Debugger: JSON is opaque text; a length that is not decimal digits counts as NaN; the client's sequence numbers.
- Path: Windows paths, `dirname`, `basename`, `extname`, `relative`.
- Url: parsing and formatting, relative results without host, the branch for protocols without slashes; only the segment pass of resolution is modelled.
- NextTick: the idle watcher that spins the loop; a callback is what it registers and whether it throws.
- Buffers other than base64, streams, child processes, modules, crypto, console, benchmarks: nothing there would be harder than what is here.
