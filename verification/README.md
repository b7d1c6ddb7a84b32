# A Dafny model of the `Atom\ws` WebSocket server

This project models the two classes of a small PHP WebSocket server:

- `WebsocketServer` owns a listening socket and a registry of connections (`$clients`). Its `listen` loop runs `socket_select` over all registered sockets. When the listening socket is ready, it accepts and answers the opening handshake, then registers the new connection. When a client socket is ready, it receives up to 2048 bytes, decodes them with `unmask`, and passes the text to the connection's message handler. A failed receive unregisters the client.
- `Websocket` wraps one client socket. It has a single `message` handler slot and a `send` that writes one text frame.

The model consists of pure functions over immutable values:

- `php.dfy` (`Php`): the PHP built-ins the code relies on. These are `substr` clipping, integer-to-decimal conversion, and `null` as `Option`.
- `frames.dfy` (`Frames`): the server's frame decoder (`Unmask`) and the bytes `send` writes (`SendBytes`). Both are related to an independent reading of RFC 6455 section 5.2 frames: `Serialize` and `Parse`, with masking as in section 5.3.
- `handshake.dfy` (`Handshake`):
  - the leftmost-match semantics of the pattern `Sec-WebSocket-Key: (.*)\r\n`;
  - the accept token of RFC 6455 section 4.2.2;
  - the five-line `101 Switching Protocols` reply.
- `websocket.dfy` (`Websocket`): the connection object, its `on` and its `send`.
- `registry.dfy` (`Registry`): `$clients` as an insertion-ordered sequence of `(key, connection)` entries. New keys come from a counter that only grows, as PHP's `$a[] = x` does. It also models `$read` as built by `array_map` and narrowed by `socket_select`, plus `unset`, `$clients[$key]` and `array_search`.
- `server.dfy` (`WebsocketServer`): the server record, `on`, and one iteration of the `listen` loop as a pure transition `Step(server, env)`.
  - Everything the operating system supplies is a field of `env`: the poll result, the accept and handshake outcome, each socket's receive outcome, and SHA-1 and base64.
  - Everything the iteration does to the outside is returned as an ordered list of effects: the handshake reply written, and each handler invocation with its arguments.
  - `Run` chains iterations until one returns.

The main properties proved:

- **Decoding.**
  - The decoder returns the payload of every well-formed masked client frame, whatever its length layout.
  - It looks at nothing of the header but the 7-bit length marker.
- **Sending.**
  - `send` writes a valid frame for payloads of up to 125 bytes.
  - For longer payloads it writes a misframed header (see Findings). The corrected encoder always writes a valid frame.
- **Handshake.**
  - The key is taken from the leftmost line the pattern matches, whatever precedes it, and the reply carries the token of that key.
  - The reply is exactly the five header lines and a blank line.
  - Without the header, the reply still goes out, carrying the token of the GUID alone.
- **One iteration.**
  - A poll failure reports `[code] reason` and leaves the loop.
  - A failed handshake reply skips the whole iteration.
  - A completed handshake appends exactly one entry at a fresh key and calls the connect handler with it.
  - The dispatch removes exactly the clients whose receive failed, and calls the disconnect handler once for each.
  - It calls a message handler exactly for the clients that are owed one.
  - A message handler that the connect handler installs on the new connection is called on every later successful receive on that connection, as long as no receive on it has failed in between.
- **A whole run.** Every iteration keeps the registry invariant: keys ascending and below the counter, and no socket registered twice. Over a run, the registry holds 1 (the sentinel for the listening socket) plus the completed handshakes minus the receive failures. A client dropped after a failed receive never reappears: its key is never handed out again.

Behaviours of the code kept as written:

- `send` does not refuse payloads over 125 bytes. It writes a corrupted length byte instead.
- `unmask` has no bounds checks. Short buffers are decoded the way PHP's `substr` and `ord("")` make them decode.
- A request without a `Sec-WebSocket-Key` line is still answered. The key is `null`, which concatenates as the empty string.
- A failed handshake reply makes the loop `continue`. This skips the dispatch to every other ready client in that iteration, not just the new connection.
- When `socket_accept` fails, the listening socket stays in `$read` and goes through `socket_recv` like a client. If that receive fails, the listening socket's own entry is unset and never polled again (`StepAcceptFailureDropsListener`).
- The disconnect handler is called with no arguments.
- Only a failed receive (`false`) counts as a disconnect. A peer that closes its end normally makes `socket_recv` return 0 and set the buffer to `null`, which decodes as the empty text. That client is never unset, and its message handler is called with an empty text in every iteration in which its socket polls readable (`WebsocketServer.StepClosedPeer`).
- `socket_select` needs at least one socket. Once the registry is empty (the sentinel was dropped and every client failed), `listen` ends (`WebsocketServer.Step`).

## Model

| member | source | states |
|---|---|---|
| Php.DecimalRoundTrip | src/ws/WebsocketServer.php:48 | The decimal text of an error code reads back as that code. |
| WebsocketServer.ErrorMessage | src/ws/WebsocketServer.php:48 | The error message is `[`, then the code's digits (which read back as the code), then `] `, then the reason text. |
| Websocket.New | src/ws/Websocket.php:10-12 | A new connection wraps the given socket and has no message handler. |
| Websocket.On | src/ws/Websocket.php:18-25 | "message" fills the connection's handler slot. Any other event name leaves the connection unchanged. The socket never changes. |
| Websocket.OnLastWins | src/ws/Websocket.php:20-24 | Registering twice for "message" keeps only the second handler. |
| Websocket.Send | src/ws/Websocket.php:14-16 | `send` writes on the connection's own socket: byte 0x81, one length byte equal to the payload length mod 256, then the payload unchanged. For payloads of at most 125 bytes, this parses as one unmasked FIN text frame carrying the payload. |
| Frames.SendBytes | src/ws/Websocket.php:15 | The written length byte is the payload length mod 256, because `chr` keeps the low 8 bits. |
| Frames.SendShortIsFrame | src/ws/Websocket.php:15 | Up to 125 bytes, `send`'s bytes are exactly the standard 7-bit-length frame. They parse back as FIN, opcode 1, unmasked, with the payload. |
| Frames.SendLongIsMisframed | src/ws/Websocket.php:15 | From 126 bytes on, `send`'s bytes never parse back as the text frame carrying the payload. |
| Frames.SendTwoHundredBytes | src/ws/Websocket.php:15 | A 200-byte payload gets length byte 200. That byte announces a masked frame of 72 bytes, and the bytes do not parse as a frame. |
| Frames.EncodeFrame | src/ws/Websocket.php:15 | The corrected encoder: its bytes always parse back as the unmasked FIN text frame carrying the payload. It agrees with `send` up to 125 bytes. |
| Frames.Unmask | src/ws/WebsocketServer.php:125-147 | The key offset is 4 for marker 126, 10 for marker 127, and 2 otherwise. The output has one byte per byte after the 4-byte key. Each output byte is the data byte XOR key byte i mod 4. A buffer that ends at or before the end of the key gives empty output. |
| Frames.UnmaskMaskedFrame | src/ws/WebsocketServer.php:125-147 | On any well-formed masked frame (7-, 16- or 64-bit length), the decoder returns exactly the frame's payload. |
| Frames.UnmaskRoundTrip | src/ws/WebsocketServer.php:125-147 | A client frame that masks a payload with any key decodes back to that payload. |
| Frames.UnmaskIgnoresHeader | src/ws/WebsocketServer.php:126-139 | The decoder validates nothing else. Two buffers that agree on the 7-bit marker and on every byte from the key onwards decode identically, whatever byte 0, the mask bit and the extended length hold. |
| Frames.MaskTwice | src/ws/WebsocketServer.php:142-144 | XOR masking with a 4-byte key is its own inverse. |
| Handshake.HeaderValue | src/ws/WebsocketServer.php:158 | A captured header value never contains a newline, because `.` does not match one. |
| Handshake.HeaderValueIsLeftmostMatch | src/ws/WebsocketServer.php:158 | A value is found iff the pattern matches somewhere. The value is the group of the leftmost match. |
| Handshake.HeaderValueAtStart | src/ws/WebsocketServer.php:158 | A key line at the start of the request is captured exactly, whatever follows it. |
| Handshake.HeaderValueAfter | src/ws/WebsocketServer.php:158 | Text in which no match of the pattern begins may precede the rest of a request without changing the captured value. |
| Handshake.Response | src/ws/WebsocketServer.php:163-167 | The reply is exactly five lines: the `101 Switching Protocols` status line, `Upgrade: websocket`, `Connection: Upgrade`, `Sec-WebSocket-Version: 13`, and `Sec-WebSocket-Accept: ` followed by the token. A blank line ends it. |
| Handshake.HandshakeResponse | src/ws/WebsocketServer.php:158-167 | The reply carries the token of the captured key. When the pattern does not match, it carries the token of the GUID alone, because the missing key is `null` and concatenates as the empty string. |
| Handshake.HandshakeForKey | src/ws/WebsocketServer.php:158-167 | Whatever precedes it, the leftmost line the pattern matches supplies the key: the reply carries base64(SHA-1(value + GUID)) for that line's value. |
| Handshake.HandshakeWithoutKey | src/ws/WebsocketServer.php:158-162 | A request without a key line still gets a reply, carrying base64(SHA-1(GUID)). |
| Registry.Remove | src/ws/WebsocketServer.php:91 | `unset` keeps exactly the entries with other keys, and an absent key changes nothing. |
| Registry.RemoveCount | src/ws/WebsocketServer.php:91 | With unique keys, unsetting a present key removes exactly one entry. |
| Registry.RemoveAscending | src/ws/WebsocketServer.php:91 | Unsetting keeps the remaining keys in insertion order. |
| Registry.Lookup | src/ws/WebsocketServer.php:100 | `$clients[$key]` is an entry stored under that key. It is `null` exactly when no entry has the key. |
| Registry.LookupAfterRemove | src/ws/WebsocketServer.php:91-100 | Unsetting one key does not change what another key finds. |
| Registry.ReadSet | src/ws/WebsocketServer.php:40-44 | `$read` holds, under each registered element's key, the sockets reported ready, and every ready registered socket is in it. |
| Registry.ReadSetAscending | src/ws/WebsocketServer.php:40-44 | `$read` keeps the registry's key order. |
| Registry.IndexOfSocket | src/ws/WebsocketServer.php:76 | `array_search` gives the first position holding the socket, or nothing when no position holds it. |
| WebsocketServer.Create | src/ws/WebsocketServer.php:18-27 | A constructed server keeps its address, port and listening socket, and has no clients and no handlers. |
| WebsocketServer.StartListening | src/ws/WebsocketServer.php:34-36 | `listen` puts the listening socket into `$clients` at the next key and advances the counter; nothing else changes. When the listening socket is not yet registered, the registry invariant survives. |
| WebsocketServer.StartedServer | src/ws/WebsocketServer.php:34-36 | After construction and the start of `listen`, the registry holds only the listening socket's sentinel at key 0, and is valid. |
| WebsocketServer.On | src/ws/WebsocketServer.php:110-123 | "connection", "disconnect" and "error" each fill their own slot. Any other name changes nothing. |
| WebsocketServer.OnLastWins | src/ws/WebsocketServer.php:110-123 | The last registration for an event wins. |
| WebsocketServer.OnCommutes | src/ws/WebsocketServer.php:110-123 | Registrations for different events do not interfere. |
| WebsocketServer.Buffer | src/ws/WebsocketServer.php:83-84 | The receive buffer holds at most 2048 bytes: a prefix of what is pending, and all of it when it fits. |
| WebsocketServer.Request | src/ws/WebsocketServer.php:153 | The handshake request holds at most 5000 bytes: a prefix of what is waiting, and all of it when it fits. |
| WebsocketServer.Registered | src/ws/WebsocketServer.php:66-72 | The registered connection wraps the accepted socket. Its message handler is the one the connect handler installed on the shared `$ws` object, and there is none when no connect handler is set. |
| WebsocketServer.Step | src/ws/WebsocketServer.php:38-106 | An iteration leaves the loop exactly when the registry is empty (`socket_select` refuses an empty `$read`) or the poll fails. When it leaves, the server is unchanged. On an empty registry no handler is called. |
| WebsocketServer.StepPollFailure | src/ws/WebsocketServer.php:44-52 | With a non-empty registry, a failed poll calls the error handler (if set) once with `[code] reason`. The loop then returns with the server unchanged. |
| WebsocketServer.StepIdle | src/ws/WebsocketServer.php:54 | When the registry is not empty but none of its sockets is ready, nothing happens and the loop goes round again. |
| WebsocketServer.StepHandshakeFailure | src/ws/WebsocketServer.php:57-79 | A failed handshake write registers nothing and reports the error. It skips the dispatch to every other ready client. |
| WebsocketServer.AcceptPhase | src/ws/WebsocketServer.php:57-79 | The accept stage touches only the registry and the counter. It either leaves the registry as it was, or appends the accepted connection at the next key and advances the counter by one. An abandoned stage changes nothing, and `$read` only ever loses elements. |
| WebsocketServer.AcceptPhaseConnects | src/ws/WebsocketServer.php:61-77 | A completed handshake appends exactly the new connection at the next key, with the message handler the connect handler installed, and calls the connect handler with the fresh connection. `$read` then is the old `$read` with the listening socket's position spliced out: every remaining element came from it, is not the listening socket and has a key below the old counter. |
| WebsocketServer.StepConnect | src/ws/WebsocketServer.php:57-79 | A completed handshake increments the key counter and registers the new connection with the message handler the connect handler installed. The new connection survives the iteration, and every other entry was registered before. Effects start with the reply and the connect call; after those come only disconnect and message calls. |
| WebsocketServer.StepAcceptFailureDropsListener | src/ws/WebsocketServer.php:57-98 | When the accept fails and receiving on the listening socket fails, the sentinel's key is unset and the disconnect handler fires. |
| WebsocketServer.Dispatch | src/ws/WebsocketServer.php:81-105 | The dispatch loop only unsets entries: every entry after it was there before, and nothing but the registry changes. |
| WebsocketServer.DispatchRegistry | src/ws/WebsocketServer.php:81-98 | The dispatch loop keeps exactly the entries whose key saw no failed receive, keeps their order, and changes nothing else. |
| WebsocketServer.DispatchCount | src/ws/WebsocketServer.php:81-98 | With unique keys, each failed receive shrinks the registry by exactly one. |
| WebsocketServer.DispatchMessages | src/ws/WebsocketServer.php:81-105 | A message call with connection `ws` and payload `p` happens iff some ready element's receive succeeded, its key finds `ws`, `ws` has a handler, and `p` is the decoded buffer. |
| WebsocketServer.DispatchDisconnects | src/ws/WebsocketServer.php:87-97 | The loop calls only disconnect and message handlers. The disconnect handler is called once per failed receive. |
| WebsocketServer.StepMessages | src/ws/WebsocketServer.php:38-105 | In a whole iteration, the message calls are exactly the ones owed to the dispatched elements, judged by the registry as it was before the iteration. |
| WebsocketServer.StepDisconnects | src/ws/WebsocketServer.php:38-105 | Each iteration calls the disconnect handler (if set) exactly once per receive failure it handles. |
| WebsocketServer.StepDropsFailed | src/ws/WebsocketServer.php:87-97 | A client whose receive failed is gone after the iteration, and the next `$read` holds nothing under its key. |
| WebsocketServer.StepKeepsAbsent | src/ws/WebsocketServer.php:38-106 | An iteration never registers a key below the counter, and the counter never goes back. |
| WebsocketServer.Run | src/ws/WebsocketServer.php:38-106 | A run of `listen` never changes the address, the port, the listening socket or the handler slots, and the key counter never goes back. |
| WebsocketServer.RunKeepsAbsent | src/ws/WebsocketServer.php:38-106 | Over any run, a key that is below the counter and not registered stays unregistered. |
| WebsocketServer.DroppedForever | src/ws/WebsocketServer.php:87-106 | A client whose receive failed stays unset through every later iteration: its key is in no later registry and in no later `$read`. |
| WebsocketServer.StepDelivers | src/ws/WebsocketServer.php:81-104 | A registered client other than the listening socket, whose socket is ready and whose receive succeeds, gets its message handler called with its key, its connection and the decoded buffer. This holds in every iteration that reaches the dispatch loop. |
| WebsocketServer.StepKeepsEntry | src/ws/WebsocketServer.php:38-106 | An entry whose receive does not fail in an iteration is still registered after it. |
| WebsocketServer.RunKeepsEntry | src/ws/WebsocketServer.php:38-106 | An entry stays registered through any run in which no receive on it fails. |
| WebsocketServer.ConnectThenMessage | src/ws/WebsocketServer.php:66-104 | A message handler that the connect handler installs on `$ws` is called with the decoded buffer in any later iteration in which the new socket is ready, its receive succeeds and the dispatch loop is reached. This holds after any number of iterations in between, provided none of them saw a receive on it fail. |
| WebsocketServer.StepClosedPeer | src/ws/WebsocketServer.php:84-104 | A receive that returns 0 bytes (a peer that closed its end) does not unset the client. Its message handler is called with an empty text. |
| WebsocketServer.StepPreservesValid | src/ws/WebsocketServer.php:38-105 | Every iteration keeps the registry invariant: keys ascending and below the counter, and sockets distinct. It never touches the address, the listening socket or the handler slots. |
| WebsocketServer.StepCount | src/ws/WebsocketServer.php:38-105 | Registry size after an iteration plus the receive failures it handled equals the size before plus one if a handshake completed. |
| WebsocketServer.RunInvariant | src/ws/WebsocketServer.php:38-106 | Across any sequence of iterations, the invariant holds, and the size equals the starting size plus handshakes minus failures. |
| WebsocketServer.ListenCount | src/ws/WebsocketServer.php:30-106 | From `listen` on, the registry holds 1 + N − K entries: the sentinel, plus N completed handshakes, minus K failed receives. |

## Left out

- Socket I/O itself is not modelled: `socket_create`, `bind`, `listen`, `set_option`, `set_nonblock`, `socket_select`, `accept`, `read`, `write` and `recv`. Each call's outcome is an input of the iteration, and the model makes no claim about failures at construction.
- SHA-1, `pack('H*', …)` and base64 are taken as given functions (`Handshake.Crypto`); their internals are library code.
- The handshake read retries without bound until `socket_read` succeeds (WebsocketServer.php:151-155). The model takes the text waiting at the first successful read as an input, and `Request` cuts it to the 5000 bytes that read returns. A read that never succeeds would make the loop hang forever, and that is not represented.
- The `echo` banner (line 32) and the `socket_close` after the loop (line 107) are output and teardown with no effect on the modelled state. The close is unreachable anyway, because the loop only leaves by `return`.
- Handler execution is not modelled. Handlers are identified, and each invocation is recorded as an effect with its arguments. One action of a handler is modelled: the connect handler may install a message handler on the connection it is handed (`Accepted.installs`), and the registered connection then carries it. Other handler actions are not modelled. These include a message handler calling `on` again, code outside the loop calling `on` on a connection it kept, calls to the server's `on`, and `send`.
- The bytes a handler writes with `Websocket::send` are returned as a `Write` value; whether that write fails is not modelled, since `send` ignores the result.
- `socket_last_error` and `socket_strerror` are inputs: the failure's code and reason text.
- Frames.Parse: does not reject 16- or 64-bit extended lengths that a shorter form could have carried. It also does not reject a 64-bit length with the top bit set. Neither check matters to the server, which never reads the length.
- WebsocketServer.StepConnect, WebsocketServer.StepPreservesValid, WebsocketServer.StepCount, WebsocketServer.RunInvariant, WebsocketServer.StepDelivers, WebsocketServer.ConnectThenMessage, WebsocketServer.StepMessages, WebsocketServer.ListenCount, WebsocketServer.StepKeepsEntry, WebsocketServer.RunKeepsEntry, WebsocketServer.StepClosedPeer: assume the accepted socket is new. It must be neither the listening socket nor one the registry already holds. The operating system guarantees this for live sockets, and the model does not track socket lifetimes.
- WebsocketServer.Step: on an empty registry the loop ends with no handler called. This is what the `ValueError` that PHP 8's `socket_select` throws does. Under PHP 7, `socket_select` instead warns and returns `false`, which would call the error handler first.

## Findings

| source | as written | input that shows it | evidently intended | confidence | as-written member | corrected member |
|---|---|---|---|---|---|---|
| src/ws/Websocket.php:15 | The length byte is `chr(strlen($out))`, i.e. the payload length mod 256, whatever the length | `send` of 200 bytes writes length byte 200: the mask bit is set and the 7-bit length is 72, so no RFC 6455 reader recovers the payload | Payloads over 125 bytes use the 16-bit (marker 126) or 64-bit (marker 127) extended length of RFC 6455 section 5.2 | high (proved; not executed) | Frames.SendBytes | Frames.EncodeFrame |
