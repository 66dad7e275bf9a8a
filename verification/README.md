# Relax: a verified model of its transport code and of send-once delivery

Relax connects chat bots to Slack over WebSockets and hands their events to an application through
Redis. Its own code is small; what has to be right sits in the libraries it ships with and in the
race between its instances. This project models these parts in Dafny and proves what they promise.

* `Frames`, `WsWriter`, `WsStream`, `WsReader`, `WsRoundTrip`, `WsSession`: the WebSocket
  connection of gorilla/websocket. The writer is a state machine over a fixed buffer that fragments,
  masks and interleaves with the control frames of other goroutines; the reader is a second one that
  reassembles, unmasks in pieces and skips what was not read. Writer states are tied to the frames on
  the wire, reader states to a function of the stream, and `WsSession.Exchange` joins both ends.
* `Edges`, `GuidedSearch`, `Koenig`, `Paths`, `Phases`, `Matching`, `Blocks`, `Oversize`: Hopcroft-Karp
  matching of goraph. The loops are proved against recursive specifications of the guide layers,
  the search and the phases. The result need not be a matching, because the last guide layer is not
  limited to free right nodes: `Oversize` gives a graph, `Phases.LargestIsMatching` the exact
  condition. It is always at least as large as any matching, so a result that is a matching is maximum;
  `Blocks` gives a condition on the graph alone under which it is one.
* `BufReader`, `BufWriter`, `ByteBuffer`: the buffered reader, the buffered writer and the growable
  buffer of bufio.v1, against a plain stream of bytes, a sink that may fail at any call, and a queue
  with an amortised cost.
* `Resp`, `Replies`: commands and nested replies of the Redis protocol on top of the buffered reader.
* `SendOnce`, `MutexKeys`: the send-only-once protocol of `slack/client.go` as interleaved steps of
  instances, a Redis server and a network that loses answers, with the retries of redis.v3. A lost
  answer to HSETNX silences an event and a lost answer to RPUSH duplicates it; both are shown by a run,
  and the exact conditions are proved.
* `Utf8`, `MockClock`, `ConnPool`, `Specs`: the UTF-8 validator of the autobahn server, the mock
  clock, the connection pool of redis.v3, and the parallel partition of ginkgo.

The methods follow the source's loops and fields and are named after its functions; a method with a
name of its own is a section of one of them, split off. A source of bytes is a list of chunks, so a
statement about it covers every way the bytes can arrive. A slice that a caller passes to be filled is
given by its length, and the bytes put into it are returned.

Where documentation and code disagree the model follows the code. `Conn.ReadMessage` documents that it
reads a message, but a connection that ends inside a data frame makes it return the part that arrived,
without an error: `messageReader.Read` turns the end of the stream into the end of the message
(`WsRoundTrip.CutStream` says exactly when). `LargestMatching` is named for a matching and may return
more edges than any matching has. `parseSlice` stops at the first error inside an array and leaves the
items behind it unread, so the next reply read from that connection is one of them (`Replies.ArrayStops`).
`Reserve` can refuse although the pool is empty (`ConnPool.EmptyPoolRefuses`).

Verify with `dafny verify dfyconfig.toml`.

## Model

| member | source | states |
|---|---|---|
| `Frames.MaskTwice` | Godeps/_workspace/src/github.com/gorilla/websocket/conn.go:128-134 | masking twice with the same key and position gives the bytes back |
| `Frames.MaskConcat` | Godeps/_workspace/src/github.com/gorilla/websocket/conn.go:128-134 | masking in chunks, the position carried modulo 4, is masking the whole |
| `Bytes.XorBit` | Godeps/_workspace/src/github.com/gorilla/websocket/conn.go:128-134 | each bit of a masked byte is set where the bits of the byte and of the key differ |
| `Frames.TextExamples` | Godeps/_workspace/src/github.com/gorilla/websocket/conn.go:333-384 | the text frames of section 5.7 of RFC 6455, plain, masked and fragmented, byte for byte |
| `Frames.ControlExamples` | Godeps/_workspace/src/github.com/gorilla/websocket/conn.go:249-304 | the ping and the masked pong of section 5.7, and a close frame with code 1000 |
| `Frames.LengthExamples` | Godeps/_workspace/src/github.com/gorilla/websocket/conn.go:346-367 | the headers of 256 bytes and of 64 KiB |
| `Frames.maskBytes` | Godeps/_workspace/src/github.com/gorilla/websocket/conn.go:128-134 | masks a part of a buffer in place, leaves the rest of it alone, and returns the next position |
| `WsWriter.Conn.constructor` | Godeps/_workspace/src/github.com/gorilla/websocket/conn.go:173-197 | a new connection satisfies the invariant: nothing sent, no open message, and a buffer of the wanted or the default size behind the header space |
| `WsWriter.Conn.WriteControl` | Godeps/_workspace/src/github.com/gorilla/websocket/conn.go:249-304 | bad type and long payload are refused in this order; a timeout exactly when the mutex was late; a control frame joins the wire whole, also inside a message of another goroutine; a network error only after a write that failed, which closes the network only when part of the frame was written; after a close frame, sent or tried, nothing is written; the invariant of the message writer survives |
| `WsWriter.Conn.write` | Godeps/_workspace/src/github.com/gorilla/websocket/conn.go:221-245 | with any control frames of other goroutines before it, the frame goes out whole, or the network is closed after a write that failed; a sent close frame blocks everything after it |
| `WsWriter.Conn.Close` | Godeps/_workspace/src/github.com/gorilla/websocket/conn.go:205-207 | closes the network without a close frame: nothing written changes, and no byte follows |
| `WsWriter.Conn.buildFrame` | Godeps/_workspace/src/github.com/gorilla/websocket/conn.go:333-367 | header, key and masked payload built backwards in the buffer are the encoding of one frame with the shortest length form |
| `WsWriter.Conn.flushFrame` | Godeps/_workspace/src/github.com/gorilla/websocket/conn.go:333-398 | on success exactly the buffered and extra bytes left as one frame; FIN ends the message and its writer; a control message that is too long is dropped and nothing is sent; after a close frame no byte is written, and numbers of finished writers stay behind; a new error has a new failed write, a close frame, or extra bytes of a client behind it |
| `WsWriter.FeedSync` | Godeps/_workspace/src/github.com/gorilla/websocket/conn.go:333-398 | flushing moves the bytes of the open message from the buffer to the wire, first frame with its type, later ones as continuations |
| `WsWriter.AddControl` | Godeps/_workspace/src/github.com/gorilla/websocket/conn.go:249-304 | a control frame between fragments neither changes the messages on the wire nor makes the sequence illegal |
| `WsWriter.TornFrame` | Godeps/_workspace/src/github.com/gorilla/websocket/conn.go:221-245 | a failed or partial write leaves whole frames and at most one cut frame at the end of the wire, one that may legally follow them; none after a close frame |
| `WsWriter.Conn.NextWriter` | Godeps/_workspace/src/github.com/gorilla/websocket/conn.go:314-331 | finishes an open message, also before it refuses a bad type, then opens a new one under a number no earlier writer had; sends nothing else, and never a byte after a close frame |
| `WsWriter.Conn.ncopy` | Godeps/_workspace/src/github.com/gorilla/websocket/conn.go:416-428 | a full buffer goes out as a frame that is not final, and nothing is sent before it is full; the result fits the free space; never a byte after a close frame |
| `WsWriter.Conn.writerWrite` | Godeps/_workspace/src/github.com/gorilla/websocket/conn.go:430-455 | all bytes join the message or an error is returned; a large write of a server goes out in one frame with what was buffered, other writes send only fragments that fill the buffer, and nothing when the bytes fit; a finished writer changes nothing; never a byte after a close frame |
| `WsWriter.Conn.Write` | Godeps/_workspace/src/github.com/gorilla/websocket/conn.go:457-459 | appends to the open message or returns an error with its cause; a finished writer gets an error and changes nothing; never a byte after a close frame |
| `WsWriter.Conn.WriteString` | Godeps/_workspace/src/github.com/gorilla/websocket/conn.go:461-477 | the same for strings, always through the buffer; a finished writer changes nothing |
| `WsWriter.Conn.ReadFrom` | Godeps/_workspace/src/github.com/gorilla/websocket/conn.go:479-502 | appends all a reader has left, for any chunks it delivers; a finished writer changes nothing; never a byte after a close frame |
| `WsWriter.Conn.CloseWriter` | Godeps/_workspace/src/github.com/gorilla/websocket/conn.go:504-509 | sends the rest of the message as its final frame; its number falls behind, and since no operation lowers the current number or takes back an issued one, it is never current again |
| `WsWriter.Conn.WriteMessage` | Godeps/_workspace/src/github.com/gorilla/websocket/conn.go:513-528 | sends exactly one message or control frame with these bytes, after finishing an open one; in a single frame when it fits the buffer or a server need not buffer it; every error has its cause; never a byte after a close frame, and earlier writers stay finished |
| `WsStream.ReadPart` | Godeps/_workspace/src/github.com/gorilla/websocket/conn.go:722-748 | reading a frame in pieces: what was delivered followed by what is left is always the whole content, unmasked across the cuts |
| `WsStream.NextLands` | Godeps/_workspace/src/github.com/gorilla/websocket/conn.go:699-715 | NextReader arrives at the next message boundary, with the same control replies, however little of the message before was read |
| `WsStream.HeaderFaults` | Godeps/_workspace/src/github.com/gorilla/websocket/conn.go:573-611 | for any first two bytes, each protocol error is reported exactly when their bits call for it and no earlier rule is broken; the mask flag is checked behind the length |
| `WsStream.HeaderAccepted` | Godeps/_workspace/src/github.com/gorilla/websocket/conn.go:565-642 | a header is accepted, or cut short, exactly when its bits and the bytes that follow say so; in particular no reserved bit is set |
| `WsStream.HeaderFields` | Godeps/_workspace/src/github.com/gorilla/websocket/conn.go:573-642 | opcode, end of message, length, key and rest of an accepted header by position; a 64-bit length becomes a signed number |
| `WsReader.Conn.readFull` | Godeps/_workspace/src/github.com/gorilla/websocket/conn.go:542-555 | exactly n bytes, or an unexpected EOF when the stream is shorter |
| `WsReader.Conn.readHeader` | Godeps/_workspace/src/github.com/gorilla/websocket/conn.go:565-642 | the checks of a frame header in their order; readFinal follows data frames only |
| `WsReader.Conn.advanceFrame` | Godeps/_workspace/src/github.com/gorilla/websocket/conn.go:557-684 | skips the rest of the frame, parses and checks the next header, and handles control frames as the stream function says |
| `WsReader.Conn.NextReader` | Godeps/_workspace/src/github.com/gorilla/websocket/conn.go:699-715 | starts the message the stream function finds, or keeps the error for ever; older readers become stale |
| `WsReader.Conn.Read` | Godeps/_workspace/src/github.com/gorilla/websocket/conn.go:722-762 | a stale reader gets EOF and changes nothing; a current one delivers the next bytes of its message for any sizes; the error for data inside a message is never reached |
| `WsReader.Conn.ReadMessage` | Godeps/_workspace/src/github.com/gorilla/websocket/conn.go:766-774 | the type and all bytes of the next message; a stream that ends inside a frame yields no error (see CutStream) |
| `WsRoundTrip.SessionRuns` | Godeps/_workspace/src/github.com/gorilla/websocket/conn.go:557-762 | for any stream: accepted frames obey sections 5.4 and 5.5 of RFC 6455 with the mask bit of the role, the delivered messages are theirs, the replies are those they call for, and a close frame is reported with its code and text |
| `WsRoundTrip.AcceptedLegal` | Godeps/_workspace/src/github.com/gorilla/websocket/conn.go:565-642 | any accepted frame is allowed by sections 5.4 and 5.5 after the ones before it, and afterwards readFinal is false exactly inside a fragmented message |
| `WsRoundTrip.HeaderInverse` | Godeps/_workspace/src/github.com/gorilla/websocket/conn.go:333-384 | parsing undoes the header and the three length encodings |
| `WsRoundTrip.FramesInverse` | Godeps/_workspace/src/github.com/gorilla/websocket/conn.go:557-642 | the reader recovers exactly the frames that were encoded, up to a close frame |
| `WsRoundTrip.RoundTrip` | Godeps/_workspace/src/github.com/gorilla/websocket/conn.go:314-762 | reading a legal sequence of frames delivers exactly its messages, answers exactly its pings and its close frame, and ends with the code and the text of the close frame |
| `WsRoundTrip.CloseTells` | Godeps/_workspace/src/github.com/gorilla/websocket/conn.go:671-680 | a close frame with fewer than two bytes stands for code 1005, any other one for the code in its first two bytes and the text behind them |
| `WsRoundTrip.FaultyStream` | Godeps/_workspace/src/github.com/gorilla/websocket/conn.go:565-642 | behind any legal frames, a header that is refused ends the session with its error; all earlier messages arrive and a protocol error is answered |
| `WsRoundTrip.CutStream` | Godeps/_workspace/src/github.com/gorilla/websocket/conn.go:729-738 | a stream cut inside a frame: all earlier messages and replies, then exactly this end: the cut message, as far as it arrived, is taken for a whole one if and only if the header was complete and the frame is a data frame |
| `WsRoundTrip.CutExample` | Godeps/_workspace/src/github.com/gorilla/websocket/conn.go:729-738 | three bytes of a text frame of length two end as a one-byte message |
| `WsSession.ReadMessages` | Godeps/_workspace/src/github.com/gorilla/websocket/conn.go:766-774 | the loop over ReadMessage returns every message of the stream in order |
| `WsSession.SkipMessages` | Godeps/_workspace/src/github.com/gorilla/websocket/conn.go:557-715 | a client that only asks for the next message sees the same types, sends the same replies and ends with the same error as one that reads everything |
| `WsSession.WireSession` | Godeps/_workspace/src/github.com/gorilla/websocket/conn.go:173-762 | what a writer leaves on the wire, in any of its states, also after a torn frame: the peer sees the messages and pings of its whole frames and the end the last one calls for |
| `WsSession.Exchange` | Godeps/_workspace/src/github.com/gorilla/websocket/conn.go:173-762 | both ends together: whatever was written in whatever pieces, in either role, with control frames between, the peer receives exactly the messages sent and answers exactly the pings, also after a writer error; over a connection that broke it receives all of them and at most one more message, cut short in the torn frame |
| `GuidedSearch.NewBipartiteGraph` | Godeps/_workspace/src/github.com/onsi/gomega/matchers/support/goraph/bipartitegraph/bipartitegraph.go:15-41 | distinct left and right nodes and distinct edges, one for each pair the callback accepts; fails when one call fails |
| `Edges.FindByNodes` | Godeps/_workspace/src/github.com/onsi/gomega/matchers/support/goraph/edge/edge.go:32-40 | finds the edge between two nodes in either order, or there is none |
| `Edges.SymDiffMember` | Godeps/_workspace/src/github.com/onsi/gomega/matchers/support/goraph/edge/edge.go:42-61 | toggling distinct edges is the symmetric difference |
| `Edges.SymmetricDifference` | Godeps/_workspace/src/github.com/onsi/gomega/matchers/support/goraph/edge/edge.go:42-61 | the result holds each edge that is in exactly one argument, once |
| `GuidedSearch.GuideLayersSound` | Godeps/_workspace/src/github.com/onsi/gomega/matchers/support/goraph/bipartitegraph/bipartitegraphmatching.go:91-161 | guide layers that exist are the layers of a breadth-first search by alternating steps; when there are none the search set is closed and reaches no free right node |
| `Matching.createSLAPGuideLayers` | Godeps/_workspace/src/github.com/onsi/gomega/matchers/support/goraph/bipartitegraph/bipartitegraphmatching.go:91-161 | the loops compute the guide layers of the specification |
| `Paths.DfsSucceeds` | Godeps/_workspace/src/github.com/onsi/gomega/matchers/support/goraph/bipartitegraph/bipartitegraphmatching.go:51-89 | below an unused part of the layers the backtracking search always finds a path |
| `Paths.DfsComplete` | Godeps/_workspace/src/github.com/onsi/gomega/matchers/support/goraph/bipartitegraph/bipartitegraphmatching.go:51-89 | the search is complete: when a path down the layers avoids the used nodes below its start, it finds one |
| `Paths.PhaseMaximal` | Godeps/_workspace/src/github.com/onsi/gomega/matchers/support/goraph/bipartitegraph/bipartitegraphmatching.go:20-40 | a phase is maximal: every path down the guide layers meets one of its paths |
| `Paths.PhaseShortest` | Godeps/_workspace/src/github.com/onsi/gomega/matchers/support/goraph/bipartitegraph/bipartitegraphmatching.go:91-161 | no alternating walk from a free left to a free right node has fewer nodes than there are guide layers, and where there is such a walk there are guide layers: the paths of a phase are shortest |
| `Paths.PhaseEmpty` | Godeps/_workspace/src/github.com/onsi/gomega/matchers/support/goraph/bipartitegraph/bipartitegraphmatching.go:20-40 | a phase finds no path if and only if there are no guide layers |
| `Matching.findDisjointSLAPHelper` | Godeps/_workspace/src/github.com/onsi/gomega/matchers/support/goraph/bipartitegraph/bipartitegraphmatching.go:51-89 | the recursive search with marking and unmarking returns the path of the specification and its edges |
| `Matching.findDisjointSLAP` | Godeps/_workspace/src/github.com/onsi/gomega/matchers/support/goraph/bipartitegraph/bipartitegraphmatching.go:42-49 | the path of the search from a start, and the marks of its nodes only |
| `Matching.maximalDisjointSLAPCollection` | Godeps/_workspace/src/github.com/onsi/gomega/matchers/support/goraph/bipartitegraph/bipartitegraphmatching.go:20-40 | the node-disjoint paths of one phase in order |
| `Paths.FlipPath` | Godeps/_workspace/src/github.com/onsi/gomega/matchers/support/goraph/bipartitegraph/bipartitegraphmatching.go:7-18 | toggling a path changes degrees at its two ends only |
| `Phases.FlipAllDegrees` | Godeps/_workspace/src/github.com/onsi/gomega/matchers/support/goraph/bipartitegraph/bipartitegraphmatching.go:7-18 | toggling the disjoint paths of a phase adds one edge for each and raises the degree of each end by one |
| `Phases.PhaseStep` | Godeps/_workspace/src/github.com/onsi/gomega/matchers/support/goraph/bipartitegraph/bipartitegraphmatching.go:7-18 | a phase keeps to the edges of the graph, each left node used at most once, and grows by exactly one edge per path; hence the loop ends |
| `Koenig.DeadEndOptimal` | Godeps/_workspace/src/github.com/onsi/gomega/matchers/support/goraph/bipartitegraph/bipartitegraphmatching.go:91-161 | where the search gives up, no matching is larger than the current edges (weak duality with the cover of the search set) |
| `Phases.LargestBounds` | Godeps/_workspace/src/github.com/onsi/gomega/matchers/support/goraph/bipartitegraph/bipartitegraphmatching.go:7-18 | the result is at least as large as every matching of the graph |
| `Phases.LargestIsMaximum` | Godeps/_workspace/src/github.com/onsi/gomega/matchers/support/goraph/bipartitegraph/bipartitegraphmatching.go:7-18 | if the result is a matching it is a maximum matching |
| `Phases.PhaseMatching` | Godeps/_workspace/src/github.com/onsi/gomega/matchers/support/goraph/bipartitegraph/bipartitegraphmatching.go:7-40 | a phase keeps a matching a matching if and only if all its paths start at free right nodes, the test lines 126-131 leave out of the last layer |
| `Phases.LargestIsMatching` | Godeps/_workspace/src/github.com/onsi/gomega/matchers/support/goraph/bipartitegraph/bipartitegraphmatching.go:7-40 | the result is a matching if and only if this holds in every phase |
| `Blocks.BlocksMatch` | Godeps/_workspace/src/github.com/onsi/gomega/matchers/support/goraph/bipartitegraph/bipartitegraphmatching.go:7-18 | when left nodes with a common neighbour have all neighbours in common, one phase suffices and the result is a largest matching |
| `Blocks.ComparedInBlocks` | Godeps/_workspace/src/github.com/onsi/gomega/matchers/support/goraph/bipartitegraph/bipartitegraph.go:15-41 | this holds when nodes are neighbours exactly if their values are equal, as for a callback that compares |
| `Blocks.CompleteInBlocks` | Godeps/_workspace/src/github.com/onsi/gomega/matchers/support/goraph/bipartitegraph/bipartitegraph.go:15-41 | and when every pair is accepted |
| `Oversize.LargestIsNoMatching` | Godeps/_workspace/src/github.com/onsi/gomega/matchers/support/goraph/bipartitegraph/bipartitegraphmatching.go:7-161 | a graph of nine nodes whose result has five edges, is no matching, and exceeds the four edges of any matching |
| `Matching.LargestMatching` | Godeps/_workspace/src/github.com/onsi/gomega/matchers/support/goraph/bipartitegraph/bipartitegraphmatching.go:7-18 | the loops compute the result these lemmas are about |
| `BufReader.Reader.constructor` | Godeps/_workspace/src/gopkg.in/bufio.v1/bufio.go:46-58 | at least sixteen bytes of buffer, and the whole source still to deliver |
| `BufReader.Reader.fill` | Godeps/_workspace/src/gopkg.in/bufio.v1/bufio.go:83-111 | never on a full buffer; loses nothing, and gains bytes unless it sets an error |
| `BufReader.Reader.Peek` | Godeps/_workspace/src/gopkg.in/bufio.v1/bufio.go:123-146 | the next bytes without consuming them, and the exact error for each argument |
| `BufReader.Reader.Read` | Godeps/_workspace/src/gopkg.in/bufio.v1/bufio.go:153-189 | the next bytes of the stream; what was returned followed by what is pending is constant; EOF only at the end |
| `BufReader.Reader.ReadByte` | Godeps/_workspace/src/gopkg.in/bufio.v1/bufio.go:193-205 | the next byte, or an error with nothing lost |
| `BufReader.Reader.ReadSlice` | Godeps/_workspace/src/gopkg.in/bufio.v1/bufio.go:273-307 | up to the first delimiter of the stream, or a full buffer without one, or the rest and EOF |
| `BufReader.SliceMeans` | Godeps/_workspace/src/gopkg.in/bufio.v1/bufio.go:273-307 | a slice ends in the delimiter and holds no other, fills the buffer without one, or is all that is left |
| `BufReader.Reader.ReadN` | Godeps/_workspace/src/gopkg.in/bufio.v1/bufio.go:318-337 | n bytes, or as many as buffer or stream allow with the matching error |
| `BufReader.Reader.ReadBytes` | Godeps/_workspace/src/gopkg.in/bufio.v1/bufio.go:397-436 | up to the first delimiter of the stream, whatever the size of the buffer |
| `BufReader.BytesMeans` | Godeps/_workspace/src/gopkg.in/bufio.v1/bufio.go:397-436 | the same for ReadBytes, without a limit |
| `BufReader.BytesStep` | Godeps/_workspace/src/gopkg.in/bufio.v1/bufio.go:397-436 | the fragments of ReadBytes join to what one search of the stream finds |
| `BufReader.Reader.ReadLine` | Godeps/_workspace/src/gopkg.in/bufio.v1/bufio.go:355-388 | a line without its end, whether CR LF, LF alone or the end of the stream; or a prefix that fills the buffer but for a CR that is put back; or EOF on the empty stream only |
| `BufReader.LineMeans` | Godeps/_workspace/src/gopkg.in/bufio.v1/bufio.go:355-388 | what ReadLine makes of any stream, in terms of its bytes and the size of the buffer |
| `BufReader.LineFits` | Godeps/_workspace/src/gopkg.in/bufio.v1/bufio.go:355-388 | a first line whose end fits the buffer is read in one piece |
| `BufReader.SplitLineMeans` | Godeps/_workspace/src/gopkg.in/bufio.v1/bufio.go:355-388 | the line of the stream holds no LF, and with its end CR LF, LF or nothing and the rest it makes up the stream |
| `BufReader.OneLine` | Godeps/_workspace/src/gopkg.in/bufio.v1/bufio.go:355-388 | and this determines the line |
| `BufReader.PrefixStep` | Godeps/_workspace/src/gopkg.in/bufio.v1/bufio.go:355-388 | a prefix is never empty, and what it leaves completes the same line |
| `BufReader.JoinStep` | Godeps/_workspace/src/gopkg.in/bufio.v1/bufio.go:355-388 | fragments join to the line of the stream for every buffer size, also when CR LF straddles the buffer |
| `BufReader.Reader.JoinLine` | Godeps/_workspace/src/gopkg.in/bufio.v1/bufio.go:355-388 | a client that joins fragments gets exactly the bytes up to the next CR LF, LF or end of the stream, which are removed, or the end |
| `Resp.appendArgs` | Godeps/_workspace/src/gopkg.in/redis.v3/parser.go:20-32 | appends the RESP encoding of the arguments |
| `Resp.FormatIntRoundTrip` | Godeps/_workspace/src/gopkg.in/redis.v3/parser.go:20-32 | a formatted 64-bit number is short, has no line feed and parses back |
| `Resp.ParseIntMeans` | Godeps/_workspace/src/gopkg.in/redis.v3/parser.go:82-82 | exactly the decimal numbers in range are accepted, with one sign at most, and have the value of their digits by place |
| `Resp.LineOfMeans` | Godeps/_workspace/src/gopkg.in/redis.v3/parser.go:36-45 | a line is returned exactly when one fits the buffer; otherwise the reader is too small or at its end |
| `Resp.CommandExample` | Godeps/_workspace/src/gopkg.in/redis.v3/parser.go:20-32 | the bytes of GET k |
| `Resp.readLine` | Godeps/_workspace/src/gopkg.in/redis.v3/parser.go:36-45 | one line of the stream, or an error when it does not fit the buffer |
| `Resp.readN` | Godeps/_workspace/src/gopkg.in/redis.v3/parser.go:47-69 | n bytes however large compared with the buffer |
| `Resp.parseReq` | Godeps/_workspace/src/gopkg.in/redis.v3/parser.go:73-109 | the request the stream function finds, with every error and every out-of-range panic |
| `Resp.ReqRoundTrip` | Godeps/_workspace/src/gopkg.in/redis.v3/parser.go:20-109 | parseReq undoes appendArgs for any byte strings and leaves exactly what follows |
| `Resp.PipelineRoundTrip` | Godeps/_workspace/src/gopkg.in/redis.v3/parser.go:20-109 | concatenated commands parse back one by one |
| `Resp.ReqLines` | Godeps/_workspace/src/gopkg.in/redis.v3/parser.go:73-87 | for any first line: an inline command, a bad number, a panic on an empty line or a negative count |
| `Resp.ArgLines` | Godeps/_workspace/src/gopkg.in/redis.v3/parser.go:88-107 | for any line in the place of an argument: its bytes, end of stream, a wrong first byte, a bad number, or a panic |
| `Resp.ReqStops` | Godeps/_workspace/src/gopkg.in/redis.v3/parser.go:86-107 | a command whose arguments go wrong after some good ones fails as the first wrong one does, and the next byte to read is the one behind that |
| `Replies.parseReply` | Godeps/_workspace/src/gopkg.in/redis.v3/parser.go:113-158 | the reply the stream function finds; the recursion ends on the bytes left |
| `Replies.parseSlice` | Godeps/_workspace/src/gopkg.in/redis.v3/parser.go:160-173 | n replies in a row, a nil one as a nil item, any other error ends them |
| `Replies.ReplyRoundTrip` | Godeps/_workspace/src/gopkg.in/redis.v3/parser.go:113-173 | any finite tree of replies comes back as sent, inner nulls as nil, and exactly its bytes are consumed; with an error reply in it, the first error comes back and everything behind that error is left |
| `Replies.ArrayStops` | Godeps/_workspace/src/gopkg.in/redis.v3/parser.go:160-173 | the first item with an error is the error of the array; the items behind it are left on the connection, where the next reply is read |
| `Replies.ItemsFail` | Godeps/_workspace/src/gopkg.in/redis.v3/parser.go:160-173 | the same for an item that cannot be read for any other reason |
| `Replies.ReplyLines` | Godeps/_workspace/src/gopkg.in/redis.v3/parser.go:113-158 | for any first line: error, status, number, null, bad number, unknown type, or a panic |
| `Replies.BulkMeans` | Godeps/_workspace/src/gopkg.in/redis.v3/parser.go:135-144 | for any announced length: the bytes, end of stream, a bad number, or a panic |
| `Replies.ReplyExample` | Godeps/_workspace/src/gopkg.in/redis.v3/parser.go:113-158 | one reply of each type in bytes |
| `ByteBuffer.Buffer.constructor` | Godeps/_workspace/src/gopkg.in/bufio.v1/buffer.go:18-24 | the zero value is an empty queue |
| `ByteBuffer.Buffer.NewBuffer` | Godeps/_workspace/src/gopkg.in/bufio.v1/buffer.go:403-403 | a queue holding the bytes of the slice |
| `ByteBuffer.Buffer.Truncate` | Godeps/_workspace/src/gopkg.in/bufio.v1/buffer.go:62-72 | keeps the first n unread bytes, or panics exactly when n is out of range |
| `ByteBuffer.Buffer.makeSpace` | Godeps/_workspace/src/gopkg.in/bufio.v1/buffer.go:87-105 | 64 bytes, slide, or double: the contents stay, and the invariant bounds the bytes moved by bytes read plus capacity, and the capacity by five times the need; the unread bytes are moved exactly when there is no room behind them |
| `ByteBuffer.Buffer.grow` | Godeps/_workspace/src/gopkg.in/bufio.v1/buffer.go:81-108 | room for n bytes behind the unread ones, with the same bounds; states the new peak and the bytes moved |
| `ByteBuffer.Buffer.Grow` | Godeps/_workspace/src/gopkg.in/bufio.v1/buffer.go:115-121 | n more bytes fit without allocation; panics exactly for negative n; states the new peak and the bytes moved |
| `ByteBuffer.Buffer.Write` | Godeps/_workspace/src/gopkg.in/bufio.v1/buffer.go:126-130 | appends to the queue, at the stated cost; WriteString is the same on bytes |
| `ByteBuffer.Buffer.WriteByte` | Godeps/_workspace/src/gopkg.in/bufio.v1/buffer.go:227-232 | appends one byte to the queue, at the stated cost |
| `ByteBuffer.Buffer.Read` | Godeps/_workspace/src/gopkg.in/bufio.v1/buffer.go:252-268 | takes the next bytes off the queue; EOF exactly when it is empty and bytes were asked for |
| `ByteBuffer.Buffer.Next` | Godeps/_workspace/src/gopkg.in/bufio.v1/buffer.go:274-286 | takes as many bytes as there are, up to n |
| `ByteBuffer.Buffer.ReadByte` | Godeps/_workspace/src/gopkg.in/bufio.v1/buffer.go:290-301 | takes one byte or reports EOF |
| `ByteBuffer.Buffer.ReadBytes` | Godeps/_workspace/src/gopkg.in/bufio.v1/buffer.go:363-383 | takes up to the first delimiter, or everything with EOF |
| `ByteBuffer.Buffer.UnreadByte` | Godeps/_workspace/src/gopkg.in/bufio.v1/buffer.go:346-355 | puts back the byte read last that is still in front of the read position, only after a read |
| `BufWriter.Writer.constructor` | Godeps/_workspace/src/gopkg.in/bufio.v1/bufio.go:519-532 | an empty buffer of the wanted or the default size |
| `BufWriter.Writer.flush` | Godeps/_workspace/src/gopkg.in/bufio.v1/bufio.go:553-574 | for any short or failing write: sink followed by buffer is unchanged; unsent bytes move to the front; a failure of the sink is always reported and never invented |
| `BufWriter.Writer.Flush` | Godeps/_workspace/src/gopkg.in/bufio.v1/bufio.go:548-551 | without error the sink holds everything accepted |
| `BufWriter.Writer.writeAll` | Godeps/_workspace/src/gopkg.in/bufio.v1/bufio.go:586-608 | sink followed by buffer grows by exactly the bytes reported; all of them unless the sink failed or was short; nothing is sent while the bytes fit the buffer; after an error the sink never changes |
| `BufWriter.Writer.Write` | Godeps/_workspace/src/gopkg.in/bufio.v1/bufio.go:586-608 | the same, large writes straight to the sink |
| `BufWriter.Writer.WriteString` | Godeps/_workspace/src/gopkg.in/bufio.v1/bufio.go:656-672 | the same, always through the buffer |
| `BufWriter.Writer.WriteByte` | Godeps/_workspace/src/gopkg.in/bufio.v1/bufio.go:611-621 | the same for one byte |
| `SendOnce.InvRun` | Godeps/_workspace/src/gopkg.in/redis.v3/redis.go:39-80 | over every run: each attempt is a request of its own, run at most once and given up before the next is sent (PersistsRun says when a call stops trying); each key is created by one request, the only one answered true; who is in the sending branch holds the grant of its key |
| `SendOnce.PersistsRun` | Godeps/_workspace/src/gopkg.in/redis.v3/redis.go:39-80 | over every run: a call ends only after an answer, a failure that is not retried, a crash, or six lost attempts at its request, and there is no seventh |
| `SendOnce.DropsAreRetried` | Godeps/_workspace/src/gopkg.in/redis.v3/redis.go:39-80 | when only messages are lost, and no call loses all six attempts, every key ends up claimed, and a winner whose grant was not lost has done its sending: its event is in the queue |
| `SendOnce.AtMostOnce` | slack/client.go:294-361 | in every run two calls that entered the sending branch have different mutex keys |
| `SendOnce.WinnerIff` | Godeps/_workspace/src/gopkg.in/redis.v3/redis.go:39-80 | once nobody waits, a claimed key has a sender if and only if the answer to its granting HSETNX was not lost |
| `SendOnce.QueueContents` | Godeps/_workspace/src/gopkg.in/redis.v3/redis.go:39-80 | an event is queued as often as Redis ran its RPUSH; at most once unless the first attempt was given up; exactly once when that was answered |
| `SendOnce.ExactlyOnce` | slack/client.go:294-361 | when no step fails, each key has its sender and its effect happened exactly once, also for commands to Slack and registrations |
| `SendOnce.NotStuck` | slack/client.go:294-361 | a run without failures always has a next step until all calls ended |
| `SendOnce.WorkFalls` | slack/client.go:294-361 | and every such step lowers the work left |
| `SendOnce.LostAnswerSilences` | Godeps/_workspace/src/gopkg.in/redis.v3/redis.go:39-80 | a run in which the answer to HSETNX is lost and nobody sends |
| `SendOnce.LostAnswerDuplicates` | Godeps/_workspace/src/gopkg.in/redis.v3/redis.go:39-80 | a run in which the answer to RPUSH is lost and the event is queued twice |
| `SendOnce.FailedPushLosesEvent` | Godeps/_workspace/src/gopkg.in/redis.v3/redis.go:39-80 | a run in which RPUSH fails without a retry: the key is taken and the event in no queue |
| `SendOnce.CrashLosesEvent` | slack/client.go:294-361 | a run in which the winner crashes and nobody sends |
| `MutexKeys.FamiliesDisjoint` | slack/client.go:326-326 | keys of events, commands and registrations never coincide |
| `MutexKeys.CommandsDistinct` | slack/client.go:426-426 | different command ids have different keys |
| `MutexKeys.EventsShareKey` | slack/client.go:326-326 | two events share a key if and only if they agree or one channel id continues the other past a colon |
| `MutexKeys.EventsCollide` | slack/client.go:326-326 | two different events with one key: channel C with timestamp 1:2, channel C:1 with timestamp 2 |
| `MutexKeys.EventsDistinct` | slack/client.go:326-326 | without colons in the channels, or in the timestamps, keys are distinct |
| `Utf8.DecodeIs` | Godeps/_workspace/src/github.com/gorilla/websocket/examples/autobahn/server.go:237-246 | a table step is the step by the meaning of the states |
| `Utf8.DecodeBounded` | Godeps/_workspace/src/github.com/gorilla/websocket/examples/autobahn/server.go:237-246 | before a rejection x fits a character, so the 32-bit rune never overflows |
| `Utf8.RejectAbsorbs` | Godeps/_workspace/src/github.com/gorilla/websocket/examples/autobahn/server.go:225-229 | a rejected byte is never made good |
| `Utf8.RunChar` | Godeps/_workspace/src/github.com/gorilla/websocket/examples/autobahn/server.go:237-246 | one encoded character leads from accept to accept with its scalar value in x |
| `Utf8.Examples` | Godeps/_workspace/src/github.com/gorilla/websocket/examples/autobahn/server.go:208-246 | the characters of section 7 of RFC 3629, and the edges of the scalar values |
| `Utf8.AcceptsUtf8` | Godeps/_workspace/src/github.com/gorilla/websocket/examples/autobahn/server.go:208-246 | the decoder accepts exactly the encodings of sequences of scalar values (RFC 3629, sections 3 and 4) |
| `Utf8.Validator.Read` | Godeps/_workspace/src/github.com/gorilla/websocket/examples/autobahn/server.go:176-192 | an invalid stream is reported once no continuation can be valid, at the latest at its end; while nothing is reported some continuation is valid; EOF only for a valid one |
| `Utf8.Copy` | Godeps/_workspace/src/github.com/gorilla/websocket/examples/autobahn/server.go:176-192 | the verdict on a stream does not depend on its chunks, the sizes of the reads, or whether EOF comes with the last bytes |
| `MockClock.Mock.runNextTimer` | Godeps/_workspace/src/github.com/facebookgo/clock/clock.go:98-124 | fires one of the earliest timers if it is due |
| `MockClock.DueMultiples` | Godeps/_workspace/src/github.com/facebookgo/clock/clock.go:310-317 | a ticker is due at every multiple of its period and at no other time |
| `MockClock.SettledMultiple` | Godeps/_workspace/src/github.com/facebookgo/clock/clock.go:310-317 | afterwards it waits for its first multiple that is not due |
| `MockClock.DueOnce` | Godeps/_workspace/src/github.com/facebookgo/clock/clock.go:278-286 | a timer fires once, at its deadline, when that is not after the target |
| `MockClock.NeverBack` | Godeps/_workspace/src/github.com/facebookgo/clock/clock.go:75-93 | the values of the clock during Add never fall if and only if Add does not go back (d is not negative) and no due deadline lies in the past |
| `MockClock.PastDeadline` | Godeps/_workspace/src/github.com/facebookgo/clock/clock.go:75-93 | a timer set in the past moves the clock back although Add goes forward |
| `MockClock.NegativeAdd` | Godeps/_workspace/src/github.com/facebookgo/clock/clock.go:75-93 | a negative duration moves it back without any deadline |
| `MockClock.Mock.Add` | Godeps/_workspace/src/github.com/facebookgo/clock/clock.go:75-93 | every due timer fires once, every ticker at each multiple due, in order of time; the clock passes through exactly their times and ends at the target |
| `ConnPool.InvRun` | Godeps/_workspace/src/gopkg.in/redis.v3/pool.go:49-98 | over every run: the counter is listed connections, reservations and refusals to undo; each listed connection is free or in use, in one place; the limit holds |
| `ConnPool.WithinLimit` | Godeps/_workspace/src/gopkg.in/redis.v3/pool.go:49-56 | listed connections and reservations never exceed the size, although the counter overshoots by the refusals |
| `ConnPool.ReserveGranted` | Godeps/_workspace/src/gopkg.in/redis.v3/pool.go:49-56 | over every run: a reservation is granted if and only if listed connections, reservations and refusals not yet undone are fewer than the size |
| `ConnPool.FirstReservations` | Godeps/_workspace/src/gopkg.in/redis.v3/pool.go:49-56 | the first reservations of a new pool are granted up to the size, and no more |
| `ConnPool.EmptyPoolRefuses` | Godeps/_workspace/src/gopkg.in/redis.v3/pool.go:49-56 | a run in which a refusal not yet undone makes an empty pool refuse, so that two goroutines wait for a connection nobody holds |
| `ConnPool.WhereItIs` | Godeps/_workspace/src/gopkg.in/redis.v3/pool.go:205-260 | over every run: what a goroutine did last says where it is; it waits only after a refusal was undone |
| `ConnPool.ChannelOrder` | Godeps/_workspace/src/gopkg.in/redis.v3/pool.go:151-260 | over every run: connections are handed out in the order in which they were given back or replaced |
| `ConnPool.SendNeverBlocks` | Godeps/_workspace/src/gopkg.in/redis.v3/pool.go:234-260 | a goroutine that gives a connection back finds room in the channel |
| `ConnPool.FreeDistinct` | Godeps/_workspace/src/gopkg.in/redis.v3/pool.go:151-260 | every free connection is a member of the list that nobody uses, and no two are the same |
| `ConnPool.FoundInList` | Godeps/_workspace/src/gopkg.in/redis.v3/pool.go:66-98 | Remove and Replace always find the connection, so they never panic |
| `ConnPool.UsedOnce` | Godeps/_workspace/src/gopkg.in/redis.v3/pool.go:205-232 | no two goroutines get the same connection |
| `Specs.RangeIs` | Godeps/_workspace/src/github.com/onsi/ginkgo/internal/spec/index_computer.go:3-55 | a node's range lies between two boundaries, so ranges touch and shares differ by at most one |
| `Specs.SharesCover` | Godeps/_workspace/src/github.com/onsi/ginkgo/internal/spec/specs.go:101-108 | the trimmed lists of all nodes concatenate to the whole list |
| `Specs.SpecList.TrimForParallelization` | Godeps/_workspace/src/github.com/onsi/ginkgo/internal/spec/specs.go:101-108 | a node keeps exactly its share |

## Left out

- Caller slices: bytes are passed and returned as values, so overlap between a caller's slice and the buffers is not modelled.
- bufio.v1 Reader: UnreadByte, UnreadRune, ReadRune, Reset and WriteTo; network errors other than EOF, and EOF together with data.
- Streams that stay empty for one hundred reads in a row (io.ErrNoProgress): the buffered reader keeps its bytes on them, the parsers and the WebSocket reader are stated for streams without such a stall.
- gorilla/websocket uses the standard bufio package, which is not part of this model; its read path is that of bufio.v1.
- Read limits: the reader has none set (readLimit is 0), because readLength is not reset when a skipped message ends.
- WebSocket handshake, TLS, deadlines and custom ping and pong handlers: a deadline of WriteControl is the parameter that says whether the mutex was obtained in time, and the default handlers answer pings and ignore pongs. Replies are collected in order; their own write errors are ignored by the source as well.
- Texts of error messages, also in the close frame that reports a protocol error: the reason is kept as a value.
- A 64-bit frame length with the top bit set is modelled as the source treats it, as an empty payload.
- WsWriter.Conn.WriteControl: waiting for the mutex and the write deadline are one boolean; the other goroutines run at any time a frame waits for the mutex.
- WsWriter: `write` closes the network whenever a buffer was not written in full, also when no byte of it was; WriteControl closes it only when part of the frame was written. A network that reports an error after writing a whole buffer is not modelled.
- redis.v3 parser: parseSlice is the only multi-bulk parser; parseStringSlice, parseZSlice and the other ones differ in the items they accept. Allocation failures for huge lengths are not modelled.
- Resp.FormatIntRoundTrip: covers the 64-bit numbers that commands and replies hold.
- Map iteration in SymmetricDifference: the order of the resulting edges is left open.
- ByteBuffer: ReadFrom, WriteTo and runes; the slide of ReadFrom is not amortised. Running out of memory is not modelled.
- BufWriter: ReadFrom, WriteRune and Reset.
- SendOnce and ConnPool are state machines on values, one step for each atomic action of the source, since their point is the interleaving; ParallelizedIndexRange, edge sets and graphs are values as well.
- SendOnce: Redis is one server that executes HSETNX and RPUSH atomically and never loses a write; JSON encoding and the environment variables are fixed values; the length check on the answer of RPUSH has no effect in the source. A mutex key for an event without a timestamp is made from the clock and counts as a key of its own call.
- Client restarts, heartbeats and sessions of slack/client.go: two loops can restart the same client, so no single-session claim holds.
- Utf8.RunChar: states the value of x at the end of each character; x after a rejected byte is not stated, since nothing reads it.
- MockClock: receivers are ready whenever a timer fires, callbacks leave the timers alone, and periods are positive; with a period of zero Add never ends. The slice of timers is a map by identity, since sorting leaves the order of equal times open.
- ConnPool: Close, idle expiry by wall clock, the rate limit of dialing, and the window between sending a replacement connection and listing it, which are one step here.
- Specs: random shuffling, focus and skips.
- Logging, reporters, command line tools, HTTP calls and JSON: input and output without an algorithm of their own.
