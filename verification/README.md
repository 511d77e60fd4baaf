# A verified model of cppsp-ng

cppsp-ng is a single-threaded, event-driven HTTP and WebSocket server library in C++. This project models its
state machines in Dafny and proves what they promise over every input and every run. Check it with
`dafny verify dfyconfig.toml`.

Each part has the same shape: a specification on byte strings or abstract states, laws about that specification,
and a class whose methods do what the C++ methods do and are proved to be steps of the specification.

| file | what it holds |
|---|---|
| `Bytes`, `Bits`, `StringBuilder` | bytes and memory searches, bitwise operators on integers, the growable output buffer |
| `HttpSpec`, `HttpReference` | the resumable request parser as a function, and an independent one-shot reading it is proved equal to |
| `RequestText` | what the literal bytes of a request say, part by part |
| `Session`, `Connection` | the connection as a state machine over reads and finished requests, and the object that drives the parser |
| `HttpParser` | the parser object: moving and growing buffer, offsets of recorded slices, the NUL patched behind Content-Length |
| `FrameSpec`, `WebSocketParser` | frames of section 5.2 of RFC 6455, masking of section 5.3, and the parser object |
| `WriterSpec`, `FrameWriter` | the double-buffered frame writer as a state machine and as an object |
| `CacheSpec`, `StaticCache` | the static file cache as a value, and the objects that follow it: intrusive list, map, reference counts, adaptive capacity |
| `UrlCodec`, `QueryString`, `HtmlEscape` | the codecs and escapers as loops over buffers |
| `RouteCache` | the set-associative route cache in front of the router |
| `Application` | one client from the stream through the query string and the route cache to the handlers |
| `Response` | header composition in reserved headroom, and what a reader makes of the result |

## Main results

1. **The connection depends on the bytes alone.** The resumable parser equals a one-shot reading that has no cursor
   (`HttpReference.ParserRefinesOneShot`), the parser object equals the resumable parser through every move, growth
   and patch of its buffer (`HttpParser.HTTPParser.ReadRequest`), a connection object driven over a whole stream goes
   where a run of the state machine goes (`Connection.ServeClient`), and any two runs over a stream hand over the same
   requests (`Session.ChunkingIndependence`).
   The source tests its size limit against all buffered bytes, pipelined ones included, so this holds while that test
   does not fire. On streams without malformed requests it holds only then (`Session.FittingIsExact`), as one stream
   read in two ways shows (`Connection.SizeTestExample`); `Session.EveryRunIsAPrefix` says what is left without the
   hypothesis.
   What the bytes say is stated without the parser's own helpers: a request built from its parts is read back part by
   part, and a stream of such requests one by one, up to the first that says `Connection: close`
   (`RequestText.WrittenReads`, `RequestText.StreamReads`, `Session.LastOrNot`).
2. **Messages arrive as they were sent**: appended ones through the writer, the stream and the parser
   (`WriterSpec.EndToEnd`; `FrameWriter.WriteAll` for the writer object), masked ones from a client through any reads (`WebSocketParser.ReceiveClient`). The buffer
   size is an int in the source, and a maxFrameSize is served if and only if it is at most 2^29
   (`WebSocketParser.SafeLimit`), although the source admits twice that.
3. **The static cache follows an abstract cache over every run** (`StaticCache.AnyRun`): whatever the sequence of
   operations and the answers of the disk, the linked objects are the abstract cache, whose invariant
   (`CacheSpec.StepSound`) is that the list holds exactly the loaded files in the order of their last loads, reference
   counts equal the references in existence, and no file is kept without reason. A tick evicts exactly the files loaded
   longest ago (`CacheSpec.TickEvictsOldest`). No object is deleted twice. A file is reloaded exactly when its modification
   time or size is no longer what it was, two seconds after its last check at the earliest
   (`CacheSpec.RefreshedPlainly`).
4. **Round trips** of the URL codec, of query strings through the index quadruples, and of the HTML escapers; and every
   spelling of a byte, a name or a value is understood (`UrlCodec.DecodeSpelling`, `QueryString.QuerySpelling`).
5. **The route cache is transparent exactly when no two targets clash** (`RouteCache.TransparentIff`): they never do
   when hosts hold no `#` and requests no NUL, and both kinds of clash are shown. Each set holds exactly its last four
   accepted inserts, and no key twice exactly when no key that fits holds a NUL (`RouteCache.HeldOnceIff`).
   `Application.ServeApplication` carries this from the bytes of a client to the handlers invoked, and
   `Application.ServeWritten` from requests written part by part.
6. **A composed header block reads back** with exactly the announced length (`Response.BlockReadsBack`). The source
   does not keep this when the headers are refused: the retry appends date and length a second time, and
   `Response.ResponseIsFramed` proves that the response is framed as intended if and only if there was no refusal.

Where the code and its comments differ, the model follows the code: `pop` evicts in order of last load although its
comment says least recently used, a file may be unloaded while it is referenced, and `reloadIfStale` calls `load`
and not `loadAndEvict`, so in the run theorem only timer ticks evict. The length of a static file is kept in an int, so
a file of 2^31 bytes or more is reloaded at every check (`CacheSpec.LengthIsKept`). Whether char is signed is left open, as
C++ leaves it (`UrlCodec.CHAR_IS_SIGNED` has no value): where it is, `urlEncode` escapes bytes from 128 on with a first
digit that is not hexadecimal (`UrlCodec.EncodeByteIs`), which its own decoder still reads (`UrlCodec.DecodeEncode`).

What the outside world does is an input: the bytes a read delivers, whether a write succeeds, what the disk answers
(`Disk`, `Stat`), the clock, the router, the hash function, and which handlers finish at once.

## Model

| member | source | states |
|---|---|---|
| HttpReference.ParserRefinesOneShot | include/cppsp-ng/httpparser.H:161-210 | the resumable loop of readRequest, run on any text, gives the verdict of an independent one-shot reading: header block up to the first empty line, lines between CR LF pairs, last Host and last Content-Length win, body only when the verb is not GET |
| HttpReference.RequestTakesSixBytes | include/cppsp-ng/httpparser.H:175-185 | a request that is not malformed takes at least six bytes of the stream, the measure behind the termination of pipelining |
| HttpReference.BareRequestIs | include/cppsp-ng/httpparser.H:167-185 | two spaces, any bytes but CR, and an empty line are a complete request; with nothing behind the spaces the bound of six bytes is attained |
| HttpReference.LinesAppend | include/cppsp-ng/httpparser.H:168-193 | the lines of a block of whole lines grow by exactly the next line, wherever the block came from |
| HttpReference.HeadOfAppend | include/cppsp-ng/httpparser.H:245-292 | what all the lines say about a request is what addHeader accumulates line by line |
| HttpSpec.AdvanceDoneGrows | include/cppsp-ng/httpparser.H:161-210 | a verdict is final: bytes that arrive behind a complete or malformed request change nothing of it |
| HttpSpec.AdvanceResumes | include/cppsp-ng/httpparser.H:167-210 | a partial read can be resumed: continuing at the saved position equals starting over on the longer text |
| HttpSpec.AtoiStopsAtNul | include/cppsp-ng/httpparser.H:281-284 | with a NUL behind a value, atoi reads the value and nothing behind it |
| Session.ChunkingIndependence | cppsp.C:206-220 | any two ways of cutting a stream into reads, with any delays of handlers, hand over the same requests (verb, path, host, headers, body, malformed flag), as long as no call of readRequest sees MAXREQUESTSIZE bytes |
| Session.SettledRunIsOneShot | cppsp.C:206-220 | the requests handed over are those of the one-shot reading of the whole stream, up to the first that ends the connection |
| Session.RunExact | cppsp.C:206-336 | after every prefix of every run, handled requests plus those still in the buffer and the stream make up the whole; once the size test has fired there is one malformed request behind a correct prefix and nothing more |
| Session.EveryRunIsAPrefix | cppsp.C:206-336 | with no hypothesis on sizes: what was handled is a prefix of the one-shot reading, apart from a last malformed request |
| Session.SizeTestDependsOnTheCut | include/cppsp-ng/httpparser.H:161-166 | why the hypothesis is needed: because the test counts pipelined bytes, one read that brings too much turns a good request malformed that a shorter read hands over |
| Session.FittingIsExact | cppsp.C:206-336 | the hypothesis is exact: on a stream without malformed requests, a settled run hands over the requests of the one-shot reading if and only if no call of readRequest sees MAXREQUESTSIZE bytes |
| Session.UnfitRunIsCutShort | include/cppsp-ng/httpparser.H:161-166 | a run in which the size test fires ends with one malformed request behind a correct prefix, whatever happens afterwards |
| Session.RunConcat | cppsp.C:206-336 | runs compose, and a composed run fits exactly when both parts do |
| Session.ShortStreamsFit | include/cppsp-ng/httpparser.H:161-166 | no run over a stream below MAXREQUESTSIZE bytes meets the size test, whatever the reads |
| Session.AnnouncementAgrees | cppsp.C:249-258 | the Connection line of the last response agrees with what requestCompleted then does if and only if its request is well formed, or is the first of the connection and the flag was left at close; a later malformed request is answered with keep-alive on a connection that closes |
| Session.SettleIsARun | cppsp.C:325-336 | the synchronous chain finish, requestCompleted, readRequest, processRequest is a finite run of finish events, so all theorems on runs cover it |
| Session.DispatchCoherent | cppsp.C:206-220 | a dispatch leaves either a partial request whose saved position is the parser's own, or an open request that, if kept alive, has consumed at least six bytes |
| HttpParser.CiEqual | include/cppsp-ng/httpparser.H:38-45 | true exactly when the lengths agree and each byte of the first string is outside 65 to 90 and equal to its partner, or inside and 32 below it |
| HttpParser.TrimRange | include/cppsp-ng/httpparser.H:235-244 | the two moving ends enclose exactly the trimmed slice, and stay inside the range given |
| HttpParser.SplitField | include/cppsp-ng/httpparser.H:267-277 | the offsets of the trimmed name and value around the first colon; nothing without a colon |
| HttpParser.IntactGrows | include/cppsp-ng/httpparser.H:156-159 | bytes placed behind a partial request change no recorded slice and no part of the head |
| HttpParser.IntactPatched | include/cppsp-ng/httpparser.H:281-284 | overwriting one byte behind all recorded slices leaves every one of them as received |
| HttpParser.FieldIntact | include/cppsp-ng/httpparser.H:267-291 | recording a field, with or without the NUL patch behind its value, keeps all recorded slices and every unread byte as received |
| HttpParser.RequestLineHead | include/cppsp-ng/httpparser.H:248-266 | the offsets recorded for a request line denote its verb and path, and the malformed flag is set exactly when a space is missing |
| HttpParser.HTTPParser.constructor | include/cppsp-ng/httpparser.H:95-98 | 4096 bytes, nothing buffered |
| HttpParser.HTTPParser.Reset | include/cppsp-ng/httpparser.H:102-106 | drops everything buffered and stands at the start of a request; the buffer keeps its size |
| HttpParser.HTTPParser.ClearRequest | include/cppsp-ng/httpparser.H:115-125 | the next request starts with exactly the bytes behind the one just read, and nothing of the old one is recorded |
| HttpParser.HTTPParser.BeginAddData | include/cppsp-ng/httpparser.H:127-154 | moving or doubling the buffer keeps the partial request, its parse position and every recorded slice; at least half of the resulting buffer is offered; the buffer doubles exactly when the partial request is over half of it |
| HttpParser.HTTPParser.Upsize | include/cppsp-ng/httpparser.H:108-113 | a new buffer of twice the size with the partial request at its front |
| HttpParser.HTTPParser.EndAddData | include/cppsp-ng/httpparser.H:156-159 | the received bytes, and only those, are added behind the buffered ones; the parse position stays |
| HttpParser.HTTPParser.AddHeader | include/cppsp-ng/httpparser.H:245-292 | the head changes as the line says, and at most one byte of the buffer changes, which belongs to no recorded slice and to no byte still to be read |
| HttpParser.HTTPParser.RecordField | include/cppsp-ng/httpparser.H:274-291 | a field is recorded with its offsets, Content-Length and Host also in their own variables |
| HttpParser.HTTPParser.PatchAndConvert | include/cppsp-ng/httpparser.H:281-284 | the number atoi reads in the patched buffer is that of the value alone, whatever follows it |
| HttpParser.HTTPParser.ReadRequest | include/cppsp-ng/httpparser.H:161-210 | on every buffer state the object ends in the position, verdict and body of the specification, and its invariant is kept |
| HttpParser.HTTPParser.ReadLines | include/cppsp-ng/httpparser.H:167-193 | the header loop computes the specification's step from any saved position |
| HttpParser.HTTPParser.FindNextCRLF | include/cppsp-ng/httpparser.H:211-215 | memmem from the saved position finds the pair the received bytes hold there, patched bytes notwithstanding |
| HttpParser.HTTPParser.HeadersDone | include/cppsp-ng/httpparser.H:175-187 | at the empty line: malformed without a request line, complete for GET or length 0, otherwise on to the body |
| HttpParser.HTTPParser.ReadContents | include/cppsp-ng/httpparser.H:194-208 | the body is the announced number of bytes, as received; an impossible length is malformed |
| HttpParser.HTTPParser.CopyRequest | cppsp.C:41-54 | the finished request cut out of the buffer is what was received, field by field |
| Connection.Connection.Begin | cppsp.C:190-196 | a reused connection object starts from the initial state with one read outstanding |
| Connection.Connection.StartRead | cppsp.C:197-205 | one recv is issued, never a second, into a space of at least half the buffer |
| Connection.Connection.ReadCB | cppsp.C:206-220 | a received chunk takes the object exactly where the session machine goes, through any chain of handlers that finish at once; the invariant keeps the buffer at 4096, 8192 or 16384 bytes and reads and open requests exclusive |
| Connection.Connection.ReadAndDispatch | cppsp.C:215-219 | readRequest followed by the handler or the next read is the machine's dispatch |
| Connection.Connection.ProcessRequest | cppsp.C:246-260 | the request handed over is the one read; if the handler finishes at once the chain goes on, and it terminates |
| Connection.Connection.RequestCompleted | cppsp.C:325-336 | finish stops a connection that is not kept alive, and continues any other with exactly the bytes behind the request, one request at a time in stream order |
| Connection.Connection.Stop | cppsp.C:325-342 | stopping leaves no read and no request open |
| Connection.Connection.Record | cppsp.C:246-258 | the request is recorded with its keep-alive verdict; the response's own flag follows it except for a malformed request |
| Connection.ServeClient | cppsp.C:190-336 | one client from accept to the end: whatever each read brings and whichever handlers finish at once, the object ends where a run of the state machine ends, and the requests handed over are those of the stream read as a whole when the reads fit, and only then if none of them is malformed |
| Connection.ServeShort | cppsp.C:190-336 | on a stream below MAXREQUESTSIZE bytes a new connection object hands over exactly the requests of the stream, with no further hypothesis |
| Connection.SizeTestExample | include/cppsp-ng/httpparser.H:161-166 | one stream on two new connection objects, in reads they offer room for: the first request is handed over well formed or malformed, depending only on how much the last read brings |
| Connection.KeepAliveOf | cppsp.C:41-54 | keep-alive unless the request is malformed or the value of its first field named connection, in any casing, is close, in any casing |
| Connection.HeaderValue | cppsp.C:24-31 | the value at the least index whose name matches, in any casing, or empty when none does |
| RequestText.WrittenReads | include/cppsp-ng/httpparser.H:161-291 | a text built from verb, path, header lines with any blanks around names and values, the announced length in decimal, and a body of at most 8192 bytes is read back part by part, whatever follows: a verb that is a casing of get gets no body, every other verb exactly the announced one; the host is the value of the last line whose name is a casing of host, and of no other |
| RequestText.GetReads | include/cppsp-ng/httpparser.H:183-185 | a get, in any casing, ends with its header block whatever length it announces |
| RequestText.BadLength | include/cppsp-ng/httpparser.H:194-199 | a length that is negative or above 8192 makes a request malformed whose verb is not a casing of get |
| RequestText.AtoiReads | include/cppsp-ng/httpparser.H:281-284 | blanks, a sign and digits give the number, nothing behind the digits counts, and without a digit it is 0 |
| RequestText.StreamReads | cppsp.C:206-336 | requests written one behind the other are read back one by one, up to the first that closes the connection |
| Session.LastOrNot | cppsp.C:326-336 | a request that is malformed, or whose first connection field says close, is the last of every longer stream; behind any other the requests of the rest follow |
| Session.FinishStops | cppsp.C:326-336 | finishing a request that is malformed or says close leaves the connection stopped; finishing any other goes on right behind it |
| Session.KeepsAliveIs | cppsp.C:51-53 | a connection is kept alive exactly by well-formed requests whose first field named connection, in any casing, is absent or has a value other than close, in any casing |
| FrameSpec.EncodeRoundTrip | websocket.C:117-173 | a written frame, whatever follows it, is read back with its opcode (four bits), its payload and fin set, if and only if it is within maxFrameSize; otherwise it is refused |
| FrameSpec.EncodeBytes | websocket.C:186-209 | a written frame in literal bytes: 128 plus the opcode, the length in its shortest form with the most significant byte first, the payload |
| FrameSpec.EncodeMaskedBytes | websocket.C:117-160 | a client's frame in literal bytes: the mask bit, the length form, the key, the masked payload |
| FrameSpec.MaskBits | include/cppsp-ng/websocket.H:113-130 | each bit of a masked byte is set when exactly one of the bits of the byte and of key byte i mod 4 is |
| FrameSpec.RfcFramesRead | websocket.C:117-173 | the fragmented text message of section 5.7 of RFC 6455 is read as the section has it |
| FrameSpec.RfcFramesWritten | websocket.C:186-209 | the single-frame text message and the two binary messages of section 5.7 of RFC 6455 are written as the section has them |
| FrameSpec.MaskTwice | include/cppsp-ng/websocket.H:113-130 | masking twice with the same key is the identity (section 5.3 of RFC 6455) |
| FrameSpec.MaskedRoundTrip | websocket.C:117-173 | one masked frame, in any of the three length forms wide enough and whatever follows it, is decoded to the payload the client masked, exactly when it is within the limit |
| FrameSpec.MaskedStreamRoundTrip | websocket.C:117-173 | any list of masked frames, with any keys, length forms, opcodes and fin bits, cut into any chunks, is delivered complete, in order, unmasked, and never refused |
| FrameSpec.ParseFrameGrows | websocket.C:117-173 | more bytes never change a complete or refused frame nor a size hint |
| FrameSpec.DrainAppend | websocket.C:113-173 | draining early and then the rest delivers what draining everything at once delivers |
| FrameSpec.FeedIsDrain | websocket.C:113-173 | the frames delivered, and whether the parser refuses, depend on the bytes and not on the chunks |
| FrameSpec.StreamRoundTrip | websocket.C:117-209 | any list of messages, written and cut into any chunks, is delivered complete, in order and unchanged |
| WebSocketParser.SafeLimit | websocket.C:79-105 | a maxFrameSize is served, with no int overflow in growing the buffer for any pending bytes in any buffer, if and only if it is at most 2^29 |
| WebSocketParser.ReceiveHugeHeader | websocket.C:79-105 | above 2^29: the first ten bytes of one frame, received by a new parser, make the next refill overflow the buffer size |
| WebSocketParser.ReceiveStream | include/cppsp-ng/websocket.H:26-53 | the documented loop over a whole stream, whatever each read brings: the frames handed out are those of the stream, there is always room, and at the default maxFrameSize the buffer never exceeds 32768 bytes |
| WebSocketParser.ReceiveClient | include/cppsp-ng/websocket.H:26-53 | a new parser with any limit it can serve hands out what the client masked, under any cutting |
| WebSocketParser.GrownSize | websocket.C:70-75 | the doubling loop in the range of int: a doubling that is enough and no larger than needed, and none exactly when the range is left |
| WebSocketParser.WebSocketParser.Upsize | websocket.C:70-77 | doubling until large enough, and no further, with the pending bytes at the front; it fails exactly when a doubling leaves the range of int |
| WebSocketParser.WebSocketParser.BeginAddData | websocket.C:79-105 | the pending bytes are kept, at least half the buffer is offered, the frame being received fits, and the growth bound is kept, unless the buffer size overflows, and exactly when it does |
| WebSocketParser.WebSocketParser.EndAddData | websocket.C:107-111 | the new bytes join the pending ones |
| WebSocketParser.WebSocketParser.Unmask | include/cppsp-ng/websocket.H:113-130 | the bytes of the range are masked in place with the key, and no other byte changes |
| WebSocketParser.WebSocketParser.Process | websocket.C:113-173 | delivers the frame the pending bytes start with; a complete frame changes the buffer only within its payload, an incomplete or refused one changes no byte |
| WebSocketParser.WebSocketParser.ReadHeader | websocket.C:117-153 | header and payload length of the 7-bit, 16-bit and 64-bit forms, once the header is complete |
| WebSocketParser.WebSocketParser.Deliver | websocket.C:162-173 | a complete frame is unmasked where it lies, once, and stepped over |
| WebSocketParser.WebSocketParser.Receive | include/cppsp-ng/websocket.H:26-53 | one turn of the documented reading loop delivers exactly the frames the bytes hold and leaves the parser waiting with the right size hint |
| WebSocketParser.WebSocketParser.DrainPending | include/cppsp-ng/websocket.H:45-51 | calling process until it returns false computes the drain of the pending bytes |
| FrameWriter.HtonllIsBigEndian | websocket.C:35-48 | swapping the converted halves stores a 64-bit length in network byte order |
| FrameWriter.FrameWriter.BeginAppend | websocket.C:176-185 | room for header and payload behind the buffer's end; nothing already appended changes |
| FrameWriter.FrameWriter.EndAppend | websocket.C:186-210 | the current buffer grows by exactly the encoded frame around the payload the caller put in place; the buffer in flight is untouched |
| FrameWriter.FrameWriter.WriteHeader | websocket.C:191-207 | the header bytes of section 5.2 of RFC 6455, with the shortest length form, and nothing else overwritten |
| FrameWriter.FrameWriter.BeginFlush | websocket.C:211-220 | exchanges the buffers, or remembers the flush when a write is in flight |
| FrameWriter.FrameWriter.WriteDone | websocket.C:220-231 | empties the written buffer and carries out a remembered flush, or closes after a failure |
| FrameWriter.WriteAll | websocket.C:176-232 | any possible sequence of appends, flushes and completions on a new writer object leaves it where the run of the state machine ends, so Conservation, NoLostFlush and EndToEnd hold of the object |
| FrameWriter.AppendMessage | websocket.C:176-210 | reserving, filling in the payload and counting it in appends exactly that message, and leaves the buffer in flight alone |
| WriterSpec.RunSound | websocket.C:176-232 | the invariant of every interleaving of appends, flushes and completions; closed exactly after a failed write |
| WriterSpec.Conservation | websocket.C:176-232 | sent, in flight and buffered bytes are exactly the appended frames in order if and only if no write has failed, and the idle buffer is empty when nothing is being written |
| WriterSpec.NoLostFlush | websocket.C:211-232 | before a failure everything flushed is sent when no write is outstanding, and otherwise sent, in flight or queued |
| WriterSpec.EndToEnd | websocket.C:117-232 | before a failure, whatever cuts the stream, the receiver has the first of the messages appended, in order: all that were flushed when no write is outstanding, and all of them when the buffers are empty |
| StaticCache.StaticFileManager.constructor | static_handler.C:132-151 | an empty cache with the documented limits after its first tick: the clock is set, the capacity is 112, and the object stands for the abstract cache's start |
| StaticCache.StaticFileManager.DoLoad | static_handler.C:282-320 | a failed load changes nothing; a successful one maps or opens the file by its size, keeps its length as an int, and counts the load; mmap's failure value passes for a mapping |
| StaticCache.StaticFileManager.Link | static_handler.C:247-255 | the file becomes the last of the list, which stays doubly linked and counted |
| StaticCache.StaticFileManager.Unlink | static_handler.C:259-275 | the file is taken out wherever it is in the list, and the rest stays linked both ways in order; the source's assertions hold |
| StaticCache.StaticFileManager.Splice | static_handler.C:272-275 | joining the neighbours of a node of a doubly linked chain gives the chain without it |
| StaticCache.StaticFileManager.Load | static_handler.C:243-256 | the file ends loaded, exactly when the disk allows it, last in the list and without an error, or unloaded and carrying the error; its length, modification time and check time are those of this load |
| StaticCache.StaticFileManager.Unload | static_handler.C:257-281 | exactly that file leaves the list, unmapped and closed; it is deleted, with its map entry, if and only if nobody refers to it |
| StaticCache.StaticFileManager.Delete | static_handler.C:277-280 | map entry and object go together, and the object had not been deleted before |
| StaticCache.StaticFileManager.Pop | static_handler.C:360-365 | the file at the front, loaded longest ago, is unloaded; referenced files survive as objects, and no other file changes |
| StaticCache.StaticFileManager.AddFile | static_handler.C:202-214 | a new unloaded object under its own path, and nothing else new in the abstract cache |
| StaticCache.StaticFileManager.GetFile | static_handler.C:193-201 | the object the map holds under the path, created if there is none |
| StaticCache.StaticFileManager.AddRef | static_handler.C:44-49 | one more reference to that file in the abstract cache, and nothing else |
| StaticCache.StaticFileManager.DropRef | static_handler.C:51-57 | one reference less; an unloaded file goes with its last reference and not before, in the objects and in the abstract cache |
| StaticCache.StaticFileManager.RemoveFile | static_handler.C:215-221 | object and map entry are deleted together |
| StaticCache.StaticFileManager.CreateHandler | static_handler.C:153-155 | the handler refers to the file of that path, found or new, and keeps it from being deleted; in the abstract cache exactly that file has one more reference |
| StaticCache.StaticFileManager.ReloadIfStale | static_handler.C:330-359 | in plain comparisons: a check within two seconds changes nothing; a loaded file that stat still finds with the same modification time and size only has its check time set, and no other loaded file does; one that stat does not find is unloaded with that error; in every other case the file ends loaded from the disk behind all others, or unloaded with the error; the object goes where the abstract cache goes, and afterwards the file was checked within two seconds |
| StaticCache.StaticFileManager.Recheck | static_handler.C:342-358 | a loaded file is unloaded with the error of stat, unloaded and loaded again behind the others, or left where it is with its check time set, as the disk says |
| StaticCache.StaticFileManager.Reload | static_handler.C:356-357 | the file leaves its place and, if the disk allows it, comes back loaded behind all others, else unloaded and carrying the error; the caller's reference keeps the object alive in between |
| StaticCache.StaticFileManager.RunHandler | static_handler.C:174-188 | the file is brought up to date as reloadIfStale says, in plain comparisons, and served exactly when it ends loaded; then it carries no error, has one more reference and the request is counted |
| StaticCache.StaticFileManager.TimerCB | static_handler.C:157-172 | with at least 50 requests for each load, on 32 bits, an eighth comes off the capacity but not below the minimum, and exactly as many files go from the front of the list as there are then too many, at most maxPurgePerCycle; the object goes where the abstract tick goes |
| StaticCache.StaticFileManager.Purge | static_handler.C:164-168 | the evicted files are a prefix of the list of exactly the stated length; of those, the unreferenced ones are deleted and the others unloaded |
| StaticCache.StaticFileManager.LoadAndEvict | static_handler.C:223-242 | a cache within its capacity stays within it, and the file just loaded is never the one evicted |
| StaticCache.StaticFileManager.GrowCapacity | static_handler.C:230-241 | an eighth is added, up to the maximum, exactly when loads are more than half the capacity and more than a fiftieth of the requests, on 32 bits |
| StaticCache.AnyRun | static_handler.C:38-281 | over every sequence of creating handlers, copying and destroying references, running handlers with any answer of the disk, and ticks, the object and the references end exactly where the abstract run of those operations ends; list, map, reference counts and limits are consistent and nothing is deleted twice |
| StaticCache.OneOp | static_handler.C:38-365 | each operation takes the object and the references in existence exactly where the abstract step takes them |
| CacheSpec.StepSound | static_handler.C:38-365 | every operation keeps the abstract invariant: the list holds exactly the loaded files, once each, in the order of their last loads; no loaded file carries an error; each file counts exactly the references to it; every file is loaded or referenced |
| CacheSpec.TickEvictsOldest | static_handler.C:157-172 | the files a tick evicts are exactly the first of the list, and every one of them was loaded last before every one that stays |
| CacheSpec.PoppedIs | static_handler.C:164-168 | n times pop in one step: the first n files of the list are unloaded, those of them nobody refers to are deleted, and all others are as they were |
| CacheSpec.LengthIsKept | static_handler.C:310-358 | a file that has not changed since it was loaded is found unchanged if and only if it is smaller than 2^31 bytes, because its length is kept in an int; a larger one is reloaded at every check |
| CacheSpec.TsCompareIs | static_handler.C:31-37 | the comparison is 0 exactly for equal times, negative exactly when the first is earlier in seconds, then nanoseconds, and positive exactly when the second is |
| CacheSpec.RefreshedPlainly | static_handler.C:330-359 | the abstract refresh, in plain comparisons: a check within two seconds changes nothing; a loaded file that stat still finds with the same modification time and size only has its check time set, and no other loaded file does; one that stat does not find is unloaded with that error; in every other case the file ends loaded from the disk behind all others, or unloaded with the error |
| CacheSpec.TickNumbers | static_handler.C:157-172 | the capacity and the number of evictions of a tick in literal numbers |
| UrlCodec.DecodeEncode | stringutils.C:48-105 | urlDecode undoes urlEncode on every byte string (section 2.1 of RFC 3986) |
| UrlCodec.DecodeSpelling | stringutils.C:32-72 | decoding reads every spelling of every byte: the byte itself unless it is 37 or 43, 43 for a space, or 37 and two hexadecimal digits in either case; a last percent sign with fewer than two bytes behind it stays |
| UrlCodec.EncodeByteIs | stringutils.C:89-101 | letters, digits and ~ ! * ( ) ' are written as they are, every other byte as 37 and two upper-case digits; where char is signed, a byte b from 128 on gets b / 16 + 32 as its first digit |
| UrlCodec.EncodeHasNoSeparator | stringutils.C:90-95 | an encoded string holds no reserved byte except the percent sign, exactly when no byte from 128 on is escaped with a stray first digit, as happens where char is signed; the bytes that then stray in are among ( ) * + , - . / and never & or = |
| UrlCodec.EncodeLength | stringutils.C:89-104 | the encoding is longer by two bytes for each escaped byte, which is what the counter adds up |
| UrlCodec.DoURLDecode | stringutils.C:48-72 | the pointer loop computes the recursive decoder on any input, whose meaning is DecodeSpelling, writes no more bytes than the input has and touches no other byte |
| UrlCodec.UrlDecode | stringutils.C:73-81 | appends the decoded input and returns its length |
| UrlCodec.UrlEncode | stringutils.C:83-105 | appends the encoded input, run by run, and returns the number of bytes appended |
| QueryString.QueryRoundTrip | stringutils.C:228-259 | any list of names and values, encoded, joined by = and &, parses back to the same list |
| QueryString.QuerySpelling | stringutils.C:228-259 | pieces between & that are empty, a name, or a name, = and a value, in any spelling, give exactly those names and values in order |
| QueryString.Split.constructor | include/cppsp-ng/split.H:35-40 | the pieces to come are those of the whole text |
| QueryString.Split.Read | include/cppsp-ng/split.H:41-52 | each call delivers the next piece, and false exactly when none is left |
| QueryString.ParsePair | stringutils.C:235-255 | the indices returned find the decoded name and value of the token in the buffer |
| QueryString.ParseQueryString | stringutils.C:227-259 | the indices appended find exactly the pairs of the query string in the growing buffer, whatever it already held, and the old indices find what they found before |
| Application.PathRoundTrip | cppsp.C:221-245 | a path without ?, followed by ? and a query built from names and values, gives back the path and exactly those names and values |
| Application.PathSpelling | cppsp.C:221-245 | a path without ?, followed by ? and any spelling of names and values, gives back the path and exactly those names and values |
| Application.CutPathIs | cppsp.C:225-245 | the path handed to the router is everything before the first ?, all of it exactly when there is none; then there are no query strings |
| Application.ParseQuery | cppsp.C:221-245 | the path is cut and the pairs are read through views of the string pool, whatever the pool held before |
| Application.ServeApplication | cppsp.C:190-336 | one client from the stream to the handlers: there is one handler and one list of pairs for each well-formed request handed over, in order; the pairs are those behind the first ? of its path, and unless requests clash the handler is the router's for its host and its path before the first ?; when the reads fit, as they always do on a short stream, those are the requests of the stream |
| Application.ServeWritten | cppsp.C:190-336 | requests written one behind the other, up to one that closes, in any cutting: the i-th handler is the router's for the i-th host and the i-th path before its first ?, unless two clash, and the i-th pairs are those behind it |
| Application.TargetsAre | cppsp.C:262-279 | the k-th target has the host of the k-th well-formed request and its path before the first ? |
| HtmlEscape.UnescapeEscape | stringutils.C:107-195 | a reader that knows &amp; &lt; &gt; &quot; and &apos; gets back the input, for text and for attribute values |
| HtmlEscape.EscapeHasNoMarkup | stringutils.C:107-195 | no < or > is left, and for attribute values no quote |
| HtmlEscape.EscapeKeeps | stringutils.C:107-195 | a text without & < > is left alone, and so is an attribute value that has no quote either |
| HtmlEscape.EscapedLength | stringutils.C:110-126 | the counting pass gives the exact length of the escaped text |
| HtmlEscape.Fill | stringutils.C:130-160 | the second pass fills exactly the counted bytes and leaves those before and behind them alone |
| HtmlEscape.Text | stringutils.C:107-161 | appends the escaped text and returns its length |
| HtmlEscape.Attribute | stringutils.C:163-195 | appending runs and entities gives the escaped attribute value |
| Bits.OrIsSumIffPow2 | route_cache.C:8-10 | the constructor's assertion accepts a positive size exactly when it is a power of two |
| Bits.AndMaskIsMod | route_cache.C:23-24 | masking any hash, also a negative one, with size - 1 is the remainder by size when size is a power of two |
| RouteCache.InsertHoldsLast | route_cache.C:32-43 | one more insert leaves the set holding exactly its last four accepted inserts, each in its slot |
| RouteCache.StoredReadsBack | route_cache.C:39-40 | a key copied over an older one reads back as the C string that was stored |
| RouteCache.MakeKeyInjective | cppsp.C:265-271 | hosts without # and any paths give different keys |
| RouteCache.RouteCache.constructor | route_cache.C:8-17 | for every size the assertion accepts, 0 included, every set is empty and the table has that size; lookups need at least one set |
| RouteCache.AssertionAccepts | route_cache.C:8-10 | in 32 bits and for every size that is not negative, the assertion accepts the powers of two and 0 |
| RouteCache.RouteCache.SetOf | route_cache.C:23-24 | the set of a key is its hash modulo the size, and in range |
| RouteCache.RouteCache.Find | route_cache.C:22-31 | a miss means none of the last four inserts of the set has the key; a hit returns the handler of one that has it |
| RouteCache.RouteCache.Insert | route_cache.C:32-43 | the set gains the item as its newest; a key that does not fit changes nothing |
| RouteCache.RouteCache.Dispatch | cppsp.C:264-284 | for any request, whatever its bytes, and any worker: with a router, the handler and the table are those of the specification, and for hosts without # and requests without NUL the handler is the router's and no key comes to be held twice; without one nothing is inserted and a miss gets the worker's own handler |
| RouteCache.ServeAll | cppsp.C:264-284 | every run of lookups on a new cache object follows the specification in its handlers and its table; the handlers are the router's whenever no two of its requests clash, and every key is in one slot whenever no request is lost |
| RouteCache.ServeFixed | cppsp.C:274-284 | a worker without a router answers every request of every run with its one handler |
| RouteCache.HeldOnceIff | route_cache.C:22-43 | a key is held in at most one slot of its set after every run of lookups of a set of targets if and only if none of them has a key that fits in a slot and holds a NUL; such a key is never found and so inserted at every lookup |
| RouteCache.SecondIsHit | cppsp.C:262-281 | looked up twice, a target is found the second time, with the router's handler, if and only if host and path have at most 254 bytes together and no NUL |
| RouteCache.ServeExplained | cppsp.C:264-284 | in every run each handler invoked is the router's for the request, or for an earlier one whose key, cut at its first NUL, is the request's key, fits in a slot, and falls in the same set |
| RouteCache.TransparentIff | cppsp.C:264-284 | every run of lookups of a set of targets invokes the router's handlers if and only if no two targets with such keys get different handlers from the router |
| RouteCache.PlainNeverClash | cppsp.C:265-271 | targets whose hosts hold no # and which hold no NUL never clash |
| RouteCache.HashExample | cppsp.C:265-277 | host a#/ with path /b, then host a with path /#/b: in a table of any size the second request gets the first one's handler |
| RouteCache.NulExample | route_cache.C:26-40 | host a with path / NUL x, then host a with path /: when both fall in the same set the second request gets the first one's handler |
| Response.Log10IsExact | cppsp.C:11-16 | the logarithm taken for the digit count brackets the number between powers of ten |
| Response.DecimalLength | cppsp.C:11-16 | the digit count is the number of digits written |
| Response.AtoiDecimal | cppsp.C:11-22 | the digits written read back as the number |
| Response.Itoa64 | cppsp.C:11-22 | the loop from the right writes exactly the decimal digits, at most 19, and leaves what is in front alone |
| Response.FastPathIsGeneral | cppsp.C:96-115 | the literals of the fast path are byte for byte the general prefix of the default status and content type |
| Response.FillPrefix | cppsp.C:124-136 | the copies of the general path fill the headroom up to its end with status line, Connection and Content-Type |
| Response.Response.Reset | cppsp.C:63-68 | headroom, defaults and no headers, whatever was composed before |
| Response.Response.AddHeader | cppsp.C:75-77 | appends behind the headers added so far |
| Response.Response.AddContentLengthHeader | cppsp.C:78-91 | appends the Content-Length line and the empty line, and gives the unused reserve back |
| Response.Response.ComposeHeaders | cppsp.C:92-138 | the whole block in order, from the filled headroom through the added headers, date and length to the empty line; nothing exactly when the first three lines exceed 160 bytes |
| Response.Response.Finish | cppsp.C:290-309 | the bytes written for a response, also when the headers are refused and the default exception handler takes over; that happens at most once |
| Response.Response.DefaultHandleException | cppsp.C:310-321 | the error page, with its message escaped, behind headers that always fit |
| Response.BlockEndsOnce | cppsp.C:92-138 | the first empty line of the block is its end if and only if none was added |
| Response.BlockReadsBack | cppsp.C:78-138 | read as header lines by the library's own rules, the block announces exactly the content length it was given |
| Response.BlockBytes | cppsp.C:92-138 | the block in literal bytes: status line, keep-alive or close, content type, what was added, the length in decimal, the empty line |
| Response.DefaultBytes | cppsp.C:56-62 | the default status, the status of the error page and the 160 bytes of headroom in literal bytes |
| Response.ErrorPageIs | cppsp.C:310-321 | the error page is the literal page around the escaped message |
| Response.ResponseIsFramed | cppsp.C:290-321 | a reader finds the intended content behind the first empty line if and only if the headers were not refused; after a refusal it is told the length of the discarded body |
| Response.RefusedExample | cppsp.C:290-321 | a status of 160 bytes, for which the reader is told the length of the body that was discarded and does not find the error page |

## Left out

- WebSocketParser.WebSocketParser.BeginAddData: says when the buffer size overflows and nothing about what C++ does then, which is undefined.
- HttpSpec.Atoi: is unbounded, where C leaves a number outside the range of int undefined.
- Response.Response.ComposeHeaders: a negative content length is excluded, because log10 of it is undefined in the source; log10 itself is taken as exact.
- Response.Response.Finish: the handler that takes over after a refusal is the default one; applications may install their own.
- RouteCache.RouteCache.constructor: a negative number of sets is left out, since it cannot be allocated.
- Application.ServeApplication: handlers are invoked after the connection has been served rather than within it; what they do to the response is not part of it.
- StaticCache.StaticFileManager.TimerCB: capacity and nLoaded are not wrapped at 32 bits, since their invariants keep them small; the two counters and their products are.
- FrameWriter.FrameWriter.EndAppend: a frame whose end would exceed 32 bits is not modelled.
- FrameWriter.HtonllIsBigEndian: the machine is little-endian, as the source's test decides at run time.
- The offsets the source keeps in separate integers and a vector are one record; accessors return copies of the bytes, so the lifetime of a string_view is not captured.
- HttpParser.HTTPParser.CopyRequest: is also run for a malformed request, whose parts the source does not look at.
- Sockets, epoll, timers, threads, sendfile, writev, mmap, stat and open: only their outcomes are modelled.
- The lifetime of a mapping or descriptor while a send is in flight: the source does not protect it from being unloaded.
- ws_init and the opening handshake, MIME types, dates (rfctime, rfctime2), optionParser, jsEscapeImpl, ci_compare, ObjectPool, scratchArea, RouteCache::enumerate, the accept loop: they would add only easy members.
- string_builder and sdbm are not part of this model's sources: the first is modelled as a buffer that reserves space behind its end, the second as an arbitrary function to the integers.
