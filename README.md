# async_nostd in Dafny

A model of the byte-level protocol logic and the sequential bookkeeping of
async_nostd, a freestanding (no_std) Rust web server. The server serves one
HTML page over HTTP and runs a WebSocket echo terminal. Its own runtime
provides an allocator, a task table, a scheduler and an fd registry driven by
ppoll.

The model covers these parts:

- **Bytes** (`bytes.dfy`): the shared vocabulary. `byte` is 0..255, XOR is
  defined bit by bit, and there are ASCII literals and big-endian integers.
- **Syscall** (`syscall.dfy`): the numeric helpers of the syscall crate.
  - `format_usize`, with its digit loop and in-place swap reversal over a
    20-byte array;
  - the bytes `write_isize` emits;
  - `htons`/`ntohs`;
  - the timespec splits of `ppoll_timeout` and `nanosleep_ns`, with Rust's
    truncating `/` and `%`.
- **Crypto** (`crypto.dfy`):
  - SHA-1 as in section 6.1 of FIPS 180-4: padding, the message schedule over
    an 80-word array, 80 rounds on `bv32` words whose `+` wraps like
    `wrapping_add`, and the big-endian digest;
  - Base64 with the alphabet and padding of section 4 of RFC 4648.
- **Parsing** (`parsing.dfy`):
  - the header lookup `find_header_value`;
  - the WebSocket frame parser and builder of section 5.2 of RFC 6455, with
    the masking of section 5.3 done in place on an array.
- **WebSocket** (`websocket.dfy`):
  - the opening handshake of section 4.2.2 of RFC 6455: key trimming, the
    accept value, the 101 response and the welcome frame;
  - the receive loop of `accept_and_run`, written as a step function over the
    loop's state (`buf_acc`, `frag_opcode`, `frag_payload`). Each step returns
    the frames sent and whether the socket was closed.
- **Http** (`http.dfy`): `http_response_headers` and the routing in
  `handle_http_connection`.
- **Tasks, IoRegistry, Scheduler, Runtime, Allocator, Executor**: the runtime
  tables as classes whose methods update their fields. The loops that scan the
  tables are value methods beside them.
  - the fd→waiters registry and its dispatch after ppoll;
  - the generation-checked slot table and the handle encoding;
  - the LIFO schedule stack with its bounded node pool;
  - `TASK_TABLE` and `NEXT_HANDLE`;
  - the bump allocators;
  - the argv number parser;
  - the task storage of the standalone executor in `src/`.

The model follows the code, not an idealised server:

- Echoes always go out as binary frames (opcode 2).
- A Close frame is answered by closing the socket; no Close frame is sent back.
- Unmasked client frames are accepted.
- `GET /wsx` is routed to the WebSocket handler, because routing is a bare
  prefix match.
- When no CR LF follows a header value, the value loses the buffer's last byte.

Integers are unbounded. Where a usize or u64 width matters, it is either a
precondition (for example `n <= USIZE_MAX`) or written out (as in the 32-bit
generation mask). The exception is the received frame length. A header whose
`pos + payload_len` passes 2^64 makes `frame_total` overflow, and the source
panics there. That header is modelled explicitly (`Parsing.FrameOverflows`):
the parser reports the panic, and the receive loop stops and ends the
connection. The results of system
calls (mmap, eventfd, ppoll's revents, what a task's poll returns) are
parameters.

## Model

| member | source | states |
|---|---|---|
| Bytes.XorTwice | crates/utils/parsing.rs:78-83 | XOR with the same key byte twice gives the byte back, so masking is an involution |
| Bytes.XorBitsTwice | crates/utils/parsing.rs:81 | bitwise XOR over k bits applied twice leaves the k low bits |
| Bytes.BigEndianRoundTrip | crates/utils/crypto.rs:26-28 | writing v in n big-endian bytes and reading them back gives v when v < 256^n |
| Bytes.AppendBigEndian | crates/utils/parsing.rs:101-104 | the `for i in (0..8).rev()` push loop appends the n low-order bytes of v, most significant first |
| Bytes.ToBigEndianAt | crates/utils/parsing.rs:103 | byte i of the big-endian form is `(v >> 8(n-1-i)) & 0xff` |
| Syscall.DecimalValue | crates/syscall/lib.rs:150-170 | the decimal digits read back as n, and only 0 starts with the digit `0` |
| Syscall.Decimal | crates/syscall/lib.rs:150-170 | the decimal representation has at least one byte, and every byte is a digit |
| Syscall.DecimalLength | crates/syscall/lib.rs:150-170 | the representation has at most k digits exactly when n < 10^k |
| Syscall.DecimalFitsUsize | crates/syscall/lib.rs:151 | a usize has at most 20 digits, so the 20-byte buffer suffices |
| Syscall.LowDigitsReversed | crates/syscall/lib.rs:156-168 | for n > 0 the least-significant-first digits, reversed, are the decimal representation |
| Syscall.FormatUsize | crates/syscall/lib.rs:150-170 | the first len bytes of the 20-byte buffer are the decimal digits of n (`0` for zero), 1 <= len <= 20, the rest stay 0 |
| Syscall.WriteLowDigits | crates/syscall/lib.rs:156-162 | the digit loop writes the digits least significant first into the array and leaves the rest 0 |
| Syscall.ReverseInPlace | crates/syscall/lib.rs:163-168 | the swap loop reverses the first len array cells in place and changes nothing after them |
| Syscall.Reverse | crates/syscall/lib.rs:163-168 | the reversal has the same length and holds element len-1-k at k |
| Syscall.WriteIsize | crates/syscall/lib.rs:179-186 | a negative n is written as `-` and the digits of abs(n), any other n as its digits |
| Syscall.WriteIsizeValue | crates/syscall/lib.rs:179-186 | the output starts with `-` exactly for negative n, and the digits after it read back as abs(n) |
| Syscall.Swap16Twice | crates/syscall/lib.rs:304-309 | swapping the two bytes of a u16 twice gives it back |
| Syscall.HtonsWireOrder | crates/syscall/lib.rs:304-306 | in little-endian memory, htons(x) holds x's two bytes in network (big-endian) order |
| Syscall.NtohsHtons | crates/syscall/lib.rs:304-309 | ntohs(htons(x)) == x and htons(ntohs(x)) == x |
| Syscall.TruncMod | crates/syscall/lib.rs:202 | Rust's `%`: a == (a / b) * b + r, with r taking the sign of a |
| Syscall.PpollTimespec | crates/syscall/lib.rs:200-203 | sec * 1000 + nsec / 10^6 == ms, nsec is a whole number of milliseconds, and 0 <= nsec < 10^9 for ms >= 0 (sign of ms otherwise) |
| Syscall.NanosleepTimespec | crates/syscall/lib.rs:343-347 | sec * 10^9 + nsec == nanos with 0 <= nsec < 10^9 |
| Syscall.Htons | crates/syscall/lib.rs:304-306 | htons swaps the two bytes: the low byte of the result is x's high byte and the other way round |
| Syscall.Ntohs | crates/syscall/lib.rs:307-309 | ntohs swaps the two bytes in the same way |
| Syscall.TruncDiv | crates/syscall/lib.rs:200-203 | Rust's `/`, rounding toward zero: for a >= 0 the remainder a - b*q is in [0, b), for a < 0 the remainder b*q - a is in [0, b) |
| Crypto.PadZeroCount | crates/utils/crypto.rs:23-25 | fewer than 64 zero bytes bring the length plus 0x80 to 56 modulo 64 |
| Crypto.PadSpec | crates/utils/crypto.rs:19-28 | the padded message is the input, 0x80, zeros, then a big-endian bit length reading back as 8 * n; its length is a multiple of 64 and 9 to 72 bytes more than n |
| Crypto.PadBlocks | crates/utils/crypto.rs:19-31 | the padded message splits into whole 64-byte chunks |
| Crypto.PadMessage | crates/utils/crypto.rs:19-28 | the push loops build exactly the padded message |
| Crypto.SchedulePrefix | crates/utils/crypto.rs:32-41 | the first m schedule words do not depend on how many more are computed |
| Crypto.ScheduleSpec | crates/utils/crypto.rs:32-41 | W[0..16] are the chunk's big-endian words and W[i] = rotl1(W[i-3]^W[i-8]^W[i-14]^W[i-16]) for 16 <= i < 80 |
| Crypto.Schedule | crates/utils/crypto.rs:32-41 | the schedule computed up to n has n words |
| Crypto.FillSchedule | crates/utils/crypto.rs:32-41 | the two loops fill the 80-word array with the schedule of the chunk |
| Crypto.ExpandSchedule | crates/utils/crypto.rs:39-41 | the expansion loop turns the first 16 words into the full 80-word schedule |
| Crypto.CompressChunk | crates/utils/crypto.rs:43-75 | the 80 rounds (f and K by rounds 0-19, 20-39, 40-59, 60-79) then the wrapping adds give the next hash state |
| Crypto.HashChunk | crates/utils/crypto.rs:31-76 | one iteration of the chunk loop is the compression of that chunk |
| Crypto.Sha1Digest | crates/utils/crypto.rs:12-85 | sha1 returns the 20-byte digest h0..h4 big-endian of the compressed padded message |
| Crypto.DigestBytes | crates/utils/crypto.rs:78-84 | the digest has 20 bytes |
| Crypto.Sha1 | crates/utils/crypto.rs:12-85 | the digest of an input whose bit length fits in a u64 has 20 bytes |
| Crypto.AlphabetChar | crates/utils/crypto.rs:89 | every table entry is in the RFC 4648 alphabet and is never `=` |
| Crypto.Sextet | crates/utils/crypto.rs:97-100 | each 6-bit index is below 64 |
| Crypto.SextetsRecombine | crates/utils/crypto.rs:96-100 | the four sextets, most significant first, recombine to the 24-bit group |
| Crypto.EncodeGroup | crates/utils/crypto.rs:92-102 | a full group gives four alphabet characters |
| Crypto.Base64Append | crates/utils/crypto.rs:92-102 | when len(a) is a multiple of 3, base64(a ++ b) == base64(a) ++ base64(b) |
| Crypto.Base64Length | crates/utils/crypto.rs:88-121 | the output has 4 * ceil(n / 3) characters |
| Crypto.Base64Padding | crates/utils/crypto.rs:103-119 | every character is from the alphabet except a trailing `==` (n mod 3 = 1) or `=` (n mod 3 = 2) |
| Crypto.Base64OfDigest | crates/utils/crypto.rs:103-119 | a 20-byte digest encodes to 28 characters ending in exactly one `=` |
| Crypto.Base64Step | crates/utils/crypto.rs:92-102 | each loop iteration extends the encoding of the prefix by one group |
| Crypto.EncodeTail | crates/utils/crypto.rs:103-119 | one or two leftover bytes become the padded last group |
| Crypto.PushGroup | crates/utils/crypto.rs:93-100 | the loop body appends the four characters of one group |
| Crypto.Base64Encode | crates/utils/crypto.rs:88-121 | base64_encode returns the Base64 encoding of its input |
| Crypto.Base64 | crates/utils/crypto.rs:88-121 | the encoding's length is a multiple of 4, it is empty exactly for empty input, and each character is from the alphabet or `=` |
| Parsing.FirstMatch | crates/utils/parsing.rs:9-11 | a match found is at or after the start and leaves at least one byte after the name |
| Parsing.FirstMatchIsFirst | crates/utils/parsing.rs:9-26 | the scan returns the first position where the name occurs with a byte after it, or none when there is no such position |
| Parsing.SkipSeparatorsSpec | crates/utils/parsing.rs:12-15 | the value starts after the maximal run of `:` and ` ` |
| Parsing.LineEndSpec | crates/utils/parsing.rs:16-22 | the value stops at the first CR LF, or one byte before the end when none follows |
| Parsing.HeaderValueSpec | crates/utils/parsing.rs:7-28 | the lookup fails exactly when the name (case-sensitive, anywhere) never occurs with a byte after it; otherwise the value is the subslice between the separators and the line end, and it holds no CR LF |
| Parsing.HeaderValue | crates/utils/parsing.rs:7-28 | a value found is no longer than the request |
| Parsing.FindHeaderValue | crates/utils/parsing.rs:7-28 | the three loops compute that value |
| Parsing.Unmask | crates/utils/parsing.rs:78-83 | masking keeps the length |
| Parsing.UnmaskTwice | crates/utils/parsing.rs:78-83 | masking twice with the same key gives the data back |
| Parsing.BigEndianTwo | crates/utils/parsing.rs:48 | a 2-byte field is `buf[pos] << 8 \| buf[pos+1]` |
| Parsing.FramePayload | crates/utils/parsing.rs:74-84 | the payload has the announced length |
| Parsing.ReadPayloadLength | crates/utils/parsing.rs:41-59 | the length part reports an incomplete header exactly when the extended field is missing, and otherwise the announced length and its end |
| Parsing.UnmaskInPlace | crates/utils/parsing.rs:78-83 | the in-place loop XORs byte i with key[i & 3] |
| Parsing.CopyPayload | crates/utils/parsing.rs:74-84 | the copied, unmasked payload is the frame's payload |
| Parsing.ParseWebsocketFrame | crates/utils/parsing.rs:31-86 | parse_websocket_frame panics exactly when `frame_total` overflows (FrameOverflows); otherwise it returns the frame at the front of the buffer, or None while it is incomplete |
| Parsing.ParseFrame | crates/utils/parsing.rs:31-86 | a frame is returned exactly when the header is complete and the frame's end is within the buffer; its total is within the buffer and its payload has the announced length |
| Parsing.OverflowNeedsHugeLength | crates/utils/parsing.rs:50-69 | only the 8-byte length form can overflow `frame_total`, with a length of at least 2^64 - 14; a buffer below 2^64 bytes then never holds the frame |
| Parsing.OverflowExtends | crates/utils/parsing.rs:31-69 | once the header overflows, more bytes after it still overflow: waiting for data does not avoid the panic |
| Parsing.HugeFrameOverflows | crates/utils/parsing.rs:50-69 | the 14-byte header `82 FF FF*8` plus a key overflows: `frame_total` wraps to 13, which is below the payload offset 14, so the slice at line 75 has start > end |
| Parsing.ParseFrameHeader | crates/utils/parsing.rs:36-72 | fin is bit 7 and the opcode the low nibble of byte 0; n = 2 + (0, 2 or 8) + (4 if masked) + payload length, and n <= len(buf) |
| Parsing.ParseFrameLength | crates/utils/parsing.rs:44-59 | the payload length is the 7-bit value below 126, or the 2-byte field for 126, or the 8-byte field for 127, big-endian |
| Parsing.ParseFramePayload | crates/utils/parsing.rs:74-84 | a masked payload byte i is the wire byte XOR key[i mod 4]; an unmasked payload is copied verbatim |
| Parsing.ParseFrameIgnoresTail | crates/utils/parsing.rs:69-85 | bytes after the frame do not change the result |
| Parsing.ParseFrameNeedsWholeFrame | crates/utils/parsing.rs:32-34 | every proper prefix of a frame parses to None, so a partial frame is never returned |
| Parsing.BuildWebsocketFrame | crates/utils/parsing.rs:89-108 | build_websocket_frame emits 0x80 \| opcode, an unmasked 1-, 3- or 9-byte length field, then the payload |
| Parsing.BuildFrame | crates/utils/parsing.rs:89-108 | the frame starts with a FIN byte and an unmasked length byte, and ends with the payload |
| Parsing.ParseBuildRoundTrip | crates/utils/parsing.rs:89-108 | for opcode < 16, parsing a built frame (followed by any bytes) gives back (its length, FIN, the opcode, the payload) |
| Parsing.ClientFrame | crates/utils/parsing.rs:36-72 | a client frame is header, length field, key and payload long |
| Parsing.LengthFieldReadBack | crates/utils/parsing.rs:44-59 | the parser reads back the length that the builder's length field encodes (thresholds 126 and 65536) |
| Parsing.ParseClientFrame | crates/utils/parsing.rs:31-86 | parsing a masked client frame recovers FIN, opcode and the unmasked payload |
| Parsing.ClientFrameBytes | crates/utils/parsing.rs:36-72 | the header, mask key and masked payload of a client frame sit where the parser reads them |
| WebSocket.TrimLeadingSpec | crates/websocket/lib.rs:195-197 | only a run of 0x20 bytes is removed from the front, stopping at a non-space |
| WebSocket.TrimTrailingSpec | crates/websocket/lib.rs:198-200 | only a run of 0x20 bytes is removed from the end, stopping at a non-space |
| WebSocket.TrimKeySpec | crates/websocket/lib.rs:194-200 | the trimmed key is a slice of the key with spaces, and only spaces, cut off at both ends |
| WebSocket.TrimKeyBytes | crates/websocket/lib.rs:194-200 | the two trim loops compute the trimmed key |
| WebSocket.AcceptValue | crates/websocket/lib.rs:201-205 | the accept value has 28 characters ending in exactly one `=` |
| WebSocket.ComputeAccept | crates/websocket/lib.rs:201-205 | the accept value is base64(sha1(trim(key) ++ the RFC 6455 GUID)) |
| WebSocket.SendWsPayload | crates/websocket/lib.rs:154-171 | send_ws_payload's frame is build_websocket_frame with opcode 2 (first byte 0x82) |
| WebSocket.AcceptAndOpen | crates/websocket/lib.rs:190-246 | without a Sec-WebSocket-Key nothing is sent; otherwise the 101 response and then the welcome frame |
| WebSocket.HandshakeLayout | crates/websocket/lib.rs:192-246 | nothing is sent exactly when the key header is missing; otherwise the fixed 101 head, the 28-character accept, an empty line, then a final binary frame carrying the welcome text |
| WebSocket.OpenedLayout | crates/websocket/lib.rs:207-210 | the 101 response and the welcome frame split into head, accept, blank line and a frame that parses back |
| WebSocket.WelcomeFrame | crates/websocket/lib.rs:245-246 | the welcome frame parses back as a final binary frame carrying the welcome text |
| WebSocket.OnFrame | crates/websocket/lib.rs:326-389 | handling one frame sends at most one frame, sends nothing when it closes, and keeps frag_opcode a data opcode |
| WebSocket.Drain | crates/websocket/lib.rs:271-390 | the inner loop never grows the buffered bytes and keeps frag_opcode a data opcode; an overflowing header ends the connection |
| WebSocket.HandleFrame | crates/websocket/lib.rs:326-389 | the fragment bookkeeping, echo, close, pong and ignore branches compute OnFrame |
| WebSocket.ReceiveChunk | crates/websocket/lib.rs:261-395 | one iteration of the receive loop computes Step: an empty chunk closes, otherwise append and handle every complete frame, stopping at an overflowing header |
| WebSocket.Step | crates/websocket/lib.rs:261-395 | an empty chunk closes and sends nothing; the buffered bytes and fragment payload never grow by more than the chunk; frag_opcode stays a data opcode |
| WebSocket.OnFrameAnyBuf | crates/websocket/lib.rs:326-389 | handling a frame does not look at the bytes still buffered |
| WebSocket.DrainLeavesPartial | crates/websocket/lib.rs:271-323 | unless a close ended it, the loop stops only at a buffer holding no complete frame, and it leaves an unread suffix of the buffer |
| WebSocket.DrainAppend | crates/websocket/lib.rs:267-323 | bytes arriving later do not change how the frames already complete are handled |
| WebSocket.DrainFirstExtended | crates/websocket/lib.rs:305-323 | the first frame of a buffer is handled alike when more bytes follow it |
| WebSocket.StepSplit | crates/websocket/lib.rs:261-323 | receiving a then b sends the same frames and ends in the same state as receiving a ++ b |
| WebSocket.DrainIdle | crates/websocket/lib.rs:256-274 | with nothing buffered and no fragment open, the loop does nothing |
| WebSocket.DrainFirst | crates/websocket/lib.rs:305-323 | a buffer starting with a complete frame: that frame is drained and handled first |
| WebSocket.EchoMessage | crates/websocket/lib.rs:347-350 | a final masked text or binary frame is echoed once, as a binary frame carrying the unmasked payload |
| WebSocket.FragmentedEcho | crates/websocket/lib.rs:327-356 | a first data frame and a final continuation are echoed once, as one binary frame carrying both payloads |
| WebSocket.FirstFragment | crates/websocket/lib.rs:351-356 | a non-final data frame opens a fragmented message, resets its payload, and sends nothing |
| WebSocket.FinalFragment | crates/websocket/lib.rs:327-344 | a final continuation echoes the concatenation and clears the fragment state |
| WebSocket.PingPong | crates/websocket/lib.rs:366-385 | a ping is answered by exactly one frame 0x8A carrying the same payload |
| WebSocket.CloseEnds | crates/websocket/lib.rs:361-365 | a close frame closes the socket, nothing is sent, and later bytes are never handled |
| WebSocket.UnmaskedAccepted | crates/websocket/lib.rs:299-320 | an unmasked text frame is echoed like a masked one |
| WebSocket.StrayContinuationIgnored | crates/websocket/lib.rs:327-331 | a continuation with no message open changes nothing and sends nothing |
| WebSocket.ContinuationAppends | crates/websocket/lib.rs:333-344 | a non-final continuation appends its payload to the open message and sends nothing |
| WebSocket.FinalContinuation | crates/websocket/lib.rs:333-344 | a final continuation clears the fragment state and echoes the concatenation as one binary frame if the message was text or binary, else sends nothing |
| WebSocket.DataFrame | crates/websocket/lib.rs:347-358 | in any state, a final text or binary frame is echoed and leaves the state as it was; a non-final one opens a new message with its payload, dropping any open one |
| WebSocket.ControlFrame | crates/websocket/lib.rs:360-389 | in any state, opcode 8 closes without sending, 9 sends one pong (0x8A) with the payload, and every other non-data opcode is ignored |
| WebSocket.HugeFrameEnds | crates/websocket/lib.rs:305-313 | a chunk starting with the overflowing header ends the connection without sending and without handling any later frame |
| Http.HttpResponseHeaders | crates/http/lib.rs:14-44 | the header block is `HTTP/1.1 ` status `\r\nContent-Type: ` type `\r\nContent-Length: ` decimal(len) `\r\n\r\n` |
| Http.HeadersLayout | crates/http/lib.rs:14-44 | the block starts with the status line and ends with an empty line; the Content-Length digits before it read back as the length and have no leading zero unless it is 0 |
| Http.RouteByPrefix | crates/http/lib.rs:54-66 | the index is served exactly for `GET / ` or `GET /HTTP`; the WebSocket handler gets every other request starting `GET /term` or `GET /ws` |
| Http.RouteOf | crates/http/lib.rs:54-66 | every route other than NotFound needs a request starting with `GET /` |
| Http.WsxIsWebSocket | crates/http/lib.rs:60-66 | `GET /wsx` is routed to the WebSocket handler |
| Http.HandleHttpConnection | crates/http/lib.rs:46-74 | an empty read closes without a reply; otherwise the routed 200, upgrade or 404 reply |
| Http.HandleRequest | crates/http/lib.rs:46-74 | the reply is CloseOnly exactly for an empty read, and Upgrade exactly when a non-empty read routes to WebSocket |
| Http.ResponseFraming | crates/http/lib.rs:48-72 | CloseOnly iff the read is empty, Upgrade iff it routes to WebSocket; every response is a header block whose Content-Length is the length of the body after it (INDEX_HTML with 200, the 10-byte `Not Found\n` with 404) |
| IoRegistry.FindFd | crates/runtime/io_registry.rs:56-61 | the index found holds the fd and no earlier entry does |
| IoRegistry.RegisteredSpec | crates/runtime/io_registry.rs:54-68 | an existing fd entry gets the waker appended with its events unchanged; a new fd is appended as {fd, events, [waker]}; fds stay unique, the waiter count grows by one, and other entries are unchanged |
| IoRegistry.Registered | crates/runtime/io_registry.rs:54-68 | the table grows by at most one entry, old entries keep their fds and events, and some entry for the fd ends with the waker |
| IoRegistry.WaiterCountAppend | crates/runtime/io_registry.rs:62-67 | appending an entry adds its waiters to the count |
| IoRegistry.WithoutSpec | crates/runtime/io_registry.rs:70-72 | retain removes exactly the entries for the fd; the kept entries are the old entries at strictly increasing indices (`KeptIndices`), so their order is kept; fds stay unique, and nothing changes when the fd is absent |
| IoRegistry.WithoutMembers | crates/runtime/io_registry.rs:72 | an entry is kept exactly when it was there and is for another fd |
| IoRegistry.WithoutUnique | crates/runtime/io_registry.rs:72 | retain keeps fds unique |
| IoRegistry.Without | crates/runtime/io_registry.rs:72 | retain never grows the table, and keeps its length exactly when no entry is for the fd |
| IoRegistry.WithoutInOrder | crates/runtime/io_registry.rs:72 | the kept entries are the old entries at the indices KeptIndices lists |
| IoRegistry.KeptIndicesIncreasing | crates/runtime/io_registry.rs:72 | the kept indices are in range, strictly increasing, and each is for another fd |
| IoRegistry.KeptIndicesComplete | crates/runtime/io_registry.rs:72 | every index whose entry is for another fd is kept |
| IoRegistry.DispatchSpec | crates/runtime/lib.rs:144-159 | the dispatch keeps the table's length, fds and events; a ready fd's waiters are emptied and every entry whose fd is not ready is unchanged; the taken waiters are `ReadyWaiters`: each ready fd's old waiters in the order of the polled fds, a repeated fd giving nothing the second time; the taken waiters plus those left equal the waiters before |
| IoRegistry.DrainSpec | crates/runtime/lib.rs:146-156 | a ready fd has its waiter list swapped out to empty and returned; every other entry is unchanged; with no entry for the fd nothing changes and nothing is returned |
| IoRegistry.Drain | crates/runtime/lib.rs:146-156 | the swap keeps the table's length, fds and events, and the waiters taken plus those left equal the waiters before |
| IoRegistry.Dispatch | crates/runtime/lib.rs:144-159 | the dispatch keeps the table's length, fds and events |
| IoRegistry.DispatchCounts | crates/runtime/lib.rs:144-159 | each entry's waiters are kept or emptied, a ready fd's are emptied, and no waiter is lost or made up |
| IoRegistry.DispatchEmpties | crates/runtime/lib.rs:144-159 | dispatching further fds empties exactly the entries of the fds ready so far and returns their waiters in poll order |
| IoRegistry.Registry.constructor | crates/runtime/io_registry.rs:14-15 | the registry starts empty with EVENTFD -1 |
| IoRegistry.Registry.EnsureEventfd | crates/runtime/io_registry.rs:18-34 | a stored fd (>= 0) is returned without creating one; otherwise a created fd is stored and returned, and a failed creation gives -1 |
| IoRegistry.Registry.CloseEventfd | crates/runtime/io_registry.rs:47-52 | EVENTFD becomes -1 |
| IoRegistry.Registry.RegisterFdWaker | crates/runtime/io_registry.rs:54-68 | the table becomes the registered table (see RegisteredSpec) and fds stay unique |
| IoRegistry.Registry.UnregisterFd | crates/runtime/io_registry.rs:70-77 | the entries for the fd are removed and the eventfd is ensured for the signal |
| IoRegistry.Registry.DispatchReady | crates/runtime/lib.rs:144-156 | skipping the eventfd slot, the waiters of each ready fd are taken out, in order |
| IoRegistry.FindEntry | crates/runtime/io_registry.rs:56-61 | the scan finds the first entry for the fd |
| IoRegistry.Retain | crates/runtime/io_registry.rs:72 | the retain loop keeps exactly the entries for other fds |
| IoRegistry.DispatchFrom | crates/runtime/lib.rs:144-157 | the loop over the polled fds computes the dispatch |
| IoRegistry.TakeWaiters | crates/runtime/lib.rs:150-155 | the scan and swap of one ready fd compute Drain |
| Scheduler.HandleRoundTrip | crates/runtime/scheduler.rs:119-194 | for slot < 1024 the handle `slot << 32 \| gen & 0xFFFFFFFF` fits in 64 bits and decodes back to slot and gen mod 2^32 |
| Scheduler.Handle | crates/runtime/scheduler.rs:119 | the handle's slot part is the slot and its low part is the generation mod 2^32 |
| Scheduler.EmptySlots | crates/runtime/scheduler.rs:84-92 | the lazily created table has MAX_TASK_SLOTS = 1024 empty slots of generation 0 |
| Scheduler.FirstEmpty | crates/runtime/scheduler.rs:102-108 | the slot found is empty and all earlier ones are full |
| Scheduler.RegisterSpec | crates/runtime/scheduler.rs:94-119 | registration keeps the free-list invariant, fails (the panic) exactly when the free list is empty and all slots are full, pops the free list or else takes the lowest empty slot, stores the task, increments that slot's generation, returns the handle of the old generation, and changes no other slot |
| Scheduler.Register | crates/runtime/scheduler.rs:82-120 | the table keeps its length and the free list does not grow; a failed registration changes nothing; a handle returned names a slot that holds the task |
| Scheduler.PollSafeSpec | crates/runtime/scheduler.rs:191-221 | the invariant is kept; a stale generation or an empty slot gives Ready with nothing changed; Ready empties the slot and pushes its index on FREE_SLOTS; Pending keeps the task; generations never change |
| Scheduler.PollSafe | crates/runtime/scheduler.rs:191-221 | the table keeps its length and every generation; Pending changes nothing |
| Scheduler.FreshHandleAccepted | crates/runtime/scheduler.rs:116-217 | a handle just returned passes the generation check and its task is polled |
| Scheduler.StaleHandleRejected | crates/runtime/scheduler.rs:116-205 | once the slot's generation is 2 past a handle's (registered again), that handle gets Ready with nothing changed |
| Scheduler.WrappedGenerationRejected | crates/runtime/scheduler.rs:116-205 | once a slot's generation has reached 2^32, a handle just registered there holds its task but fails the generation check, so the task is never polled |
| Scheduler.SlotScheduler.constructor | crates/runtime/scheduler.rs:37-38 | SLOTS starts absent and FREE_SLOTS empty |
| Scheduler.SlotScheduler.RegisterTask | crates/runtime/scheduler.rs:82-120 | register_task creates the table on first use and then registers as RegisterSpec states |
| Scheduler.SlotScheduler.PollTaskSafe | crates/runtime/scheduler.rs:191-221 | poll_task_safe updates the table and free list as PollSafeSpec states |
| Scheduler.NewSlots | crates/runtime/scheduler.rs:86-90 | the creation loop builds 1024 empty slots |
| Scheduler.FindEmptySlot | crates/runtime/scheduler.rs:102-108 | the scan finds the lowest empty slot |
| Scheduler.TaskStack.constructor | crates/runtime/scheduler.rs:15-17 | the schedule stack and node pool start empty |
| Scheduler.TaskStack.AllocNode | crates/runtime/scheduler.rs:40-62 | a pooled node is reused when there is one |
| Scheduler.TaskStack.FreeNode | crates/runtime/scheduler.rs:64-80 | a node is pooled only while fewer than FREELIST_MAX = 256 are pooled, so the pool never exceeds 256 |
| Scheduler.TaskStack.WakeHandle | crates/runtime/scheduler.rs:122-136 | wake_handle pushes the handle on top of the stack, using a pooled node if any |
| Scheduler.TaskStack.TakeScheduledTask | crates/runtime/scheduler.rs:138-155 | take_scheduled_task pops the most recently woken handle, or returns None on an empty stack, and pools the node |
| Runtime.StoredSpec | crates/runtime/lib.rs:226-229 | the task lands at idx; the table grows just enough, new cells before it are None, other old cells are unchanged |
| Runtime.Stored | crates/runtime/lib.rs:226-229 | the task lands at idx and the table never shrinks |
| Runtime.PadAndStore | crates/runtime/lib.rs:228-229 | the padding loop and the store compute that table |
| Runtime.PollTableSpec | crates/runtime/lib.rs:235-265 | no table, an index out of range (handle 0 included) or an empty slot gives Ready with nothing changed; otherwise Ready leaves the slot None and Pending puts the task back in the same slot; the length never changes |
| Runtime.PollTable | crates/runtime/lib.rs:235-265 | polling never creates or removes the table, and Pending leaves it as it was |
| Runtime.Runtime.constructor | crates/runtime/lib.rs:66-82 | empty table, NEXT_HANDLE 1, EVENT_PENDING 0, empty stack and registry |
| Runtime.Runtime.WakeHandle | crates/runtime/lib.rs:195-206 | the handle is pushed on the stack, EVENT_PENDING grows by one, and the eventfd is signalled exactly when it was 0 |
| Runtime.Runtime.TakeScheduledTask | crates/runtime/lib.rs:208-219 | the most recently woken handle is popped, or None for an empty stack |
| Runtime.Runtime.RegisterTask | crates/runtime/lib.rs:221-233 | the handle is NEXT_HANDLE, which grows by one; the task is stored at handle - 1 with None padding; the handle is woken |
| Runtime.Runtime.PollTask | crates/runtime/lib.rs:235-265 | poll_task's result and table are as PollTableSpec states |
| Runtime.Runtime.RegisterFdWaker | crates/runtime/lib.rs:111-122 | this file's copy registers as RegisteredSpec states |
| Runtime.Runtime.DispatchAndWake | crates/runtime/lib.rs:144-159 | after ppoll, the waiters of each ready fd except the eventfd are taken out and each is woken in order, so the last one ends on top of the stack |
| Runtime.Runtime.WakeAll | crates/runtime/lib.rs:157 | waking each waker in order pushes them all, the last on top, and counts each in EVENT_PENDING |
| Runtime.DigitRun | crates/runtime/lib.rs:315-321 | the digit run is within 64 bytes, all digits, and stops at a non-digit unless the limit or the end is reached |
| Runtime.ParseCStringUsize | crates/runtime/lib.rs:309-324 | None for a null pointer or a non-digit first byte, else the value of the leading digit run of at most 64 bytes |
| Runtime.ParsedUsize | crates/runtime/lib.rs:309-324 | a number is parsed exactly for a non-null string starting with a digit |
| Runtime.ParseDecimal | src/runtime.rs:93-111 | the digits of a usize followed by a NUL parse back to that number |
| Allocator.AlignUpSpec | src/runtime.rs:28-31 | align_up(x, a) is a multiple of a, x <= r < x + a, and no smaller multiple of a is >= x |
| Allocator.AlignUp | src/runtime.rs:29-31 | rounding up moves x by less than a |
| Allocator.ClearLowBitsRoundsDown | src/runtime.rs:30 | clearing the k low bits rounds down to a multiple of 2^k |
| Allocator.AlignUpIsMask | crates/runtime/allocator.rs:33 | for a = 2^k, `(x + a - 1) & !(a - 1)` equals the rounding AlignUp uses |
| Allocator.BumpSpec | crates/runtime/allocator.rs:25-47 | size 0 gives `align` and moves nothing; a block that fits is aligned, starts at the rounded-up cursor, and moves the cursor to its end <= HEAP_END; otherwise null with the cursor unchanged; the cursor never goes back |
| Allocator.Bump | crates/runtime/allocator.rs:14-48 | the cursor never goes back; when it moves, the block starts at or after the old cursor, ends at the new cursor, and stays within HEAP_END and usize |
| Allocator.BumpSaturating | src/runtime.rs:36-56 | when the cursor moves, the block starts at or after the old cursor and the new cursor stays within the heap end |
| Allocator.SaturatingAgrees | src/runtime.rs:44-55 | below the top of the address space the saturating `unwrap_or(usize::MAX)` allocates like `checked_add` |
| Allocator.BlocksDisjoint | crates/runtime/allocator.rs:41-47 | a block allocated after another starts at or after the first one's end |
| Allocator.BumpHeap.constructor | crates/runtime/allocator.rs:7-9 | HEAP_START, HEAP_CUR and HEAP_END start at 0 |
| Allocator.BumpHeap.InitHeap | src/runtime.rs:16-26 | the region is recorded (start = cur = mapped, end = mapped + 16 MiB) only when HEAP_START is 0 and the mapping succeeded |
| Allocator.BumpHeap.Alloc | crates/runtime/allocator.rs:14-48 | initialise on first use, then allocate from the cursor as BumpSpec states |
| Allocator.BumpHeap.AllocSaturating | src/runtime.rs:36-56 | MmapAllocator::alloc: the same result as Alloc |
| Allocator.BumpHeap.Dealloc | crates/runtime/allocator.rs:49 | dealloc changes nothing |
| Executor.FirstSome | src/executor.rs:37-41 | the slot found holds a task and all earlier slots are empty |
| Executor.CountSome | src/executor.rs:58-61 | the number of stored tasks is at most the number of slots, and 0 exactly when every slot is empty |
| Executor.CountSomeAppend | src/executor.rs:58-61 | pushing Some(task) adds one to the number of stored tasks |
| Executor.CountSomeTake | src/executor.rs:39-99 | taking a task out of a slot removes one from the number of stored tasks |
| Executor.CountSomeZero | src/executor.rs:34-89 | no task is stored exactly when the count is 0, and otherwise the scan finds one |
| Executor.TaskStorage.constructor | src/executor.rs:17-21 | no storage and a zero count |
| Executor.TaskStorage.StoragePush | src/executor.rs:23-32 | the storage is created if absent, Some(task) is appended and the old length is returned |
| Executor.TaskStorage.StorageTakeFirst | src/executor.rs:34-44 | the lowest-index task is taken and None is left there, the length and other slots unchanged; None when no slot holds a task |
| Executor.TaskStorage.EnqueueTask | src/executor.rs:58-62 | the task is appended and TASKS_REMAINING grows by exactly one, keeping it the number of stored tasks |
| Executor.TaskStorage.WorkerStep | src/executor.rs:86-107 | the worker exits exactly when the counter is 0; otherwise it takes the first task, decrements the counter on Ready and keeps it equal to the stored tasks, and Pending is the panic |
| Executor.FindTask | src/executor.rs:37-41 | the scan finds the lowest-index slot holding a task |

## Left out

- System calls and I/O are parameters or absent: the socket reads and writes,
  `fcntl`, the partial-write loops around the handshake and `send_ws_payload`,
  mmap, eventfd creation and writes, and ppoll itself.
  - `DispatchAndWake` models the part of `ppoll_and_schedule` after ppoll
    returned a positive count; the fd snapshot and the early returns are
    not modelled.
  - The revents are a parameter.
- Threads, atomics, spinlocks and the CAS retry loops: every operation is one
  sequential step. The races these constructs admit are not modelled, for
  example two `ensure_eventfd` callers racing, or a `free_node` check and
  increment interleaving.
- `INDEX_HTML` is an opaque parameter (its content is an embedded file).
- The test vector of section 1.3 of RFC 6455 (`dGhlIHNhbXBsZSBub25jZQ==` gives
  `s3pPLMBiTxaQ9kYGzzhZRbK+xOo=`) is not proved: it needs 160 SHA-1 rounds
  evaluated symbolically.
- The eventfd write in scheduler.rs's `wake_handle` and `signal_eventfd` is
  I/O. `Runtime.Runtime.WakeHandle` models only the decision to signal.
- `is_handle_scheduled` and `dump_scheduled` in scheduler.rs are diagnostics
  and are not modelled.
- The worker loop of crates/executor/lib.rs and the thread spawning of
  src/executor.rs (`spawn_raw`, `start_workers`) are not modelled. `wait_all`
  is a spin on the counter; its exit condition is the one
  `Executor.TaskStorage.WorkerStep` states. The worker loop is modelled one
  iteration at a time.
- Executor.TaskStorage.WorkerStep: a `Spin` result is only shown to require
  an empty scan. That it never happens while the counter is positive follows
  from `Executor.CountSomeZero`, not from the method's contract.
- Machine-width overflow is a precondition rather than wrap-around. The
  members concerned follow.
- Runtime.ParseCStringUsize: requires the digit run's value to fit in a usize;
  `acc * 10` is not wrapped.
- Scheduler.FreshHandleAccepted: requires a generation below 2^32. Past it,
  a fresh handle is rejected; `Scheduler.WrappedGenerationRejected` states
  that case.
- Runtime.Runtime.RegisterTask: NEXT_HANDLE is unbounded and does not wrap.
- Allocator.BumpHeap.Alloc: requires the heap end below usize::MAX; the
  rounding `cur + align - 1` is not wrapped.
- Parsing.ParseBuildRoundTrip: requires a payload below 2^64 bytes, as does
  `Parsing.BuildFrame`. The parser itself models the u64 overflow of
  `frame_total`.
- Parsing.ParseWebsocketFrame: the panic is the `panics` flag. A debug build's
  overflow panic at line 69 and a release build's reversed-slice panic at
  line 75 are not told apart.
- WebSocket.Drain: the overflow panic is modelled as closing this connection.
  The panic handler exits the process, which also ends every other connection
  and the server; that is not modelled.
- Crypto.Sha1Digest: requires an input below 2^61 bytes, so that the bit
  length fits in a u64.
- Scheduler.PollSafeSpec: `poll_task_safe`'s range check `slot_idx >=
  slots.len()` is not modelled. The `& 0x3FF` mask already keeps the index
  below 1024, so the check never fires.
- Scheduler.SlotScheduler.PollTaskSafe: requires SLOTS to exist, since
  `poll_task_safe` unwraps it and would panic before any task was registered.
- Scheduler.RegisterSpec: the `expect("No free task slots")` panic is a
  registration without a handle (None), with the table unchanged.
- Runtime.PollTableSpec: handle 0 is treated as out of range, because
  `handle - 1` wraps to usize::MAX in a release build. A debug build would
  panic there instead.
- Executor.TaskStorage.WorkerStep: the Pending panic is a `Panic` result, and
  the task taken is then lost.
