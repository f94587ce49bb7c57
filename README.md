# Clank WebSocket server core, modelled in Dafny

Clank is a small single-class PHP WebSocket server (`Clank\Clank`). It
listens on a TCP socket and answers each opening handshake with a
`101 Switching Protocols` response. It then keeps a list of connected
clients, decodes the frames they send, and reports everything to four
overridable callbacks: `onOpen`, `onMessage`, `onError` and `onClose`.

This project models the protocol logic of that class:

- `bytes.dfy` (module `Bytes`): bytes, exclusive or, and big-endian length fields.
- `text.dfy` (module `Text`): PHP's `trim`, CR LF normalisation, and `explode`/`implode` on a single separator.
- `frame.dfy` (module `Frame`): the frame codec.
  - `Mask` builds the server frame of RFC 6455 section 5.2.
  - `Unmask` is a method proved against the specification function `Unmasked`; its byte loop is the method `UnmaskLoop`. It decodes a client frame, with the masking of section 5.3.
  - The as-written `MaskAsWritten` is kept beside `Mask`.
- `request.dfy` (module `Request`): the header-reading loop of the opening handshake. `ParseHeaders` is a method proved against `HeadersOf`, the left fold of the lines' entries.
- `handshake.dfy` (module `Handshake`): the text of the handshake response of RFC 6455 section 4.2.2.
  - The accept value is base64(SHA-1(key + GUID)).
  - SHA-1 and base64 enter as the function parameter `accept`.
- `server.dfy` (module `Server`): the client registry of the run loop.
  - The registry is the class `Server.Server`. It holds the registered clients, the sockets watched by `select`, the handshake responses sent, and the last accepted socket.
  - Each callback invocation is recorded in an event log.
  - The step methods are `Accept` (with `Register` for the handshake outcome), `ReadFailed`, `ReadData` and `DrainReadable`. `Iteration` is one pass of the loop body, built from them.
  - The invariant `Valid` says three things:
    - no client is registered twice;
    - the registered clients are exactly those that got `onOpen` and no `onClose`;
    - every connection is opened at most once and closed at most once, after it was opened.
- `wrappers.dfy` (module `Wrappers`): `Option`.

Bytes are integers 0..255. Strings are sequences of characters, one character per byte.

## Model

| member | source | states |
|---|---|---|
| Bytes.XorTwice | Clank/clank.php:98 | XOR with the same mask byte twice gives the byte back |
| Bytes.XorZero | Clank/clank.php:98 | a zero mask byte leaves a byte unchanged |
| Bytes.Xor | Clank/clank.php:98 | the exclusive or of two bytes is zero exactly when they are equal |
| Bytes.BeBytes | Clank/clank.php:82 | the big-endian field of the given width encodes exactly the value `unmask` reads back |
| Bytes.BeBytesOfValue | Clank/clank.php:86-89 | a big-endian field is determined by the value it encodes (the inverse direction) |
| Bytes.BeValue | Clank/clank.php:82-89 | a big-endian field of n bytes holds a value below 256^n |
| Text.Trim | Clank/clank.php:234 | the trimmed text neither starts nor ends with whitespace |
| Text.TrimIsInfix | Clank/clank.php:234 | `trim` keeps the infix s[i..j] and everything outside it is whitespace |
| Text.TrimEmptyIffBlank | Clank/clank.php:261 | the trimmed buffer is empty exactly when every byte is whitespace |
| Text.NormalizeNewlines | Clank/clank.php:224 | replacing CR LF by LF never lengthens the text and leaves text without CR unchanged |
| Text.Split | Clank/clank.php:224 | `explode` yields at least one piece, no piece holds the separator, and joining the pieces gives the text back |
| Text.SplitJoin | Clank/clank.php:224 | splitting the join of separator-free pieces gives those pieces back |
| Text.SplitUnique | Clank/clank.php:224 | two separator-free piece lists with the same join are equal |
| Text.Lines | Clank/clank.php:224 | the request splits into at least one line, none holding LF |
| Text.LinesOfCrlfJoin | Clank/clank.php:224 | lines joined with CR LF are read back as exactly those lines |
| Frame.LengthFieldEnd | Clank/clank.php:58-63 | the length field ends at offset 2, 4 or 10 |
| Frame.Signed64 | Clank/clank.php:86-89 | a 64-bit pattern is read as the signed 64-bit integer congruent to it modulo 2^64, as PHP's shifts produce |
| Frame.Mask | Clank/clank.php:54-66 | the frame starts with 0x81. Up to 125 bytes it is `[0x81, L] + text`. From 126 to 65535 bytes the marker is 126 with a 2-byte big-endian length. From 65536 bytes the marker is 127 with an 8-byte big-endian length. The payload follows unchanged and no mask key is emitted |
| Frame.MaskAsWritten | Clank/clank.php:58-65 | as written, the frame agrees with `Mask` up to 125 bytes, and in the 2-byte case on a big-endian host. From 65536 bytes the length field is only 4 bytes long |
| Frame.LongLength | Clank/clank.php:86-89 | the 8-byte length read from a frame long enough to hold it is bytes 2..9 |
| Frame.ReadHeader | Clank/clank.php:77-94 | the mask key sits at offset 2, 4 or 10; with offset 2 the length is 0..125, with offset 4 it is below 65536 |
| Frame.XorMask | Clank/clank.php:97-99 | masking keeps the length of the data |
| Frame.Substr | Clank/clank.php:80-92 | `substr` yields at most the requested count, and exactly the requested slice when the text is long enough |
| Frame.Produced | Clank/clank.php:97-98 | the loop emits the declared length when that many bytes are present, and never more than are present |
| Frame.Unmasked | Clank/clank.php:76-101 | the decoded text is never longer than the declared length, and is exactly that long when the frame holds the whole payload |
| Frame.Unmask | Clank/clank.php:76-101 | the byte loop of `unmask` computes exactly `Unmasked(payload)` |
| Frame.UnmaskLoop | Clank/clank.php:96-100 | the loop yields one byte per declared position that is present, and byte k is data[k] XOR masks[k mod 4] |
| Frame.UnmaskLoopResult | Clank/clank.php:79-100 | the loop's output over the `substr` cuts is the decoded payload |
| Frame.SubstrsOfFrame | Clank/clank.php:80-92 | `substr` cuts the mask key and the data right after the length field |
| Frame.ClientFrame | Clank/clank.php:77-94 | a client frame is four bytes longer than the server frame, starts with 0x81 and has the mask bit set |
| Frame.ClientFrameParts | Clank/clank.php:77-94 | a client frame is the server header with the mask bit set, then the key, then the payload masked with the key |
| Frame.XorMaskInvolution | Clank/clank.php:98 | masking twice with the same key gives the data back |
| Frame.ServerFrameRoundTrip | Clank/clank.php:54-94 | reading a server frame the way `unmask` does finds the text's length, and the text right after the length field |
| Frame.ClientFrameHeader | Clank/clank.php:77-94 | a client frame announces the same length at the same place as the server frame |
| Frame.UnmaskClientFrame | Clank/clank.php:76-101 | unmasking the client frame of any payload under any key gives the payload back |
| Frame.FourByteLengthMisread | Clank/clank.php:63 | 65536 bytes sent with the 4-byte field are read back as 2^48 bytes, while `Mask` is read back as 65536 |
| Frame.LongFieldValue | Clank/clank.php:86-89 | the eight bytes 00 01 00 00 00 00 00 00 are read as the length 2^48 |
| Frame.LongFieldAsWritten | Clank/clank.php:63 | as written, 65536 zero bytes get marker 127 and a reader takes 00 01 00 00 00 00 00 00 for the 8-byte length |
| Frame.HostOrderLengthMisread | Clank/clank.php:61 | on a little-endian host, 300 bytes sent with `S` are read back as 11265 bytes, while `Mask` is read back as 300 |
| Request.IsRequestLine | Clank/clank.php:227 | only a line of at least three characters is a request line, and every line starting with GET, get or Get is one |
| Request.IsEmptyPhp | Clank/clank.php:233 | a text that `empty()` calls empty has at most one character, and that character is 0 |
| Request.SplitField | Clank/clank.php:232 | no value exactly when the line has no colon. Otherwise the name holds no colon and name + ":" + value is the line |
| Request.Binding | Clank/clank.php:227-235 | a line starting with GET in any case is kept whole under "". Any other kept line is its name, a colon and a value: the name is non-empty in PHP's sense and holds no colon, the untrimmed value after the colon is non-empty in PHP's sense, and the stored value is that value trimmed |
| Request.HeaderLineBinding | Clank/clank.php:232-234 | a `name:value` line with non-empty parts and a colon-free name is read back as the name and the trimmed value |
| Request.SplitFieldAtColon | Clank/clank.php:232 | a colon-free name followed by a colon splits exactly there |
| Request.ParseHeaders | Clank/clank.php:223-236 | the header-reading loop computes the left fold `HeadersOf` over the request's lines |
| Request.FoldLast | Clank/clank.php:234 | one more entry either sets the name it writes or leaves the map's entry for other names as it was |
| Request.FoldPresent | Clank/clank.php:226-236 | a name is in the folded map exactly when some entry writes it |
| Request.FoldValue | Clank/clank.php:226-236 | the value under a name is that of the last entry writing it |
| Request.HeaderPresent | Clank/clank.php:226-236 | a name is in the header map exactly when some line binds it |
| Request.HeaderValue | Clank/clank.php:226-236 | the value under a name comes from the last line that binds it, and no later line binds it |
| Request.LastBindingWins | Clank/clank.php:234 | a binding that no later line overrides is the value in the map |
| Request.HeaderNames | Clank/clank.php:227-235 | every name in the header map is "" (the request line) or a non-empty name without a colon |
| Handshake.ResponseLines | Clank/clank.php:175-182 | the response has six lines |
| Handshake.Response | Clank/clank.php:185 | the response ends with CR LF CR LF |
| Handshake.ResponseReadsBack | Clank/clank.php:175-185 | split into lines, the response is exactly the six lines followed by the empty line that ends the header |
| Handshake.AcceptAnswersKey | Clank/clank.php:170-179 | the accept line carries the digest of the text formed by the key the request last set with the GUID appended |
| Handshake.AcceptWithoutKey | Clank/clank.php:171-179 | with no line setting `Sec-WebSocket-Key`, the key reads as the empty string and the accept line carries the digest of the GUID alone |
| Handshake.ProtocolEchoesRequest | Clank/clank.php:180 | the protocol line echoes the request's last `Sec-WebSocket-Protocol` value |
| Handshake.ProtocolFallsBackToVersion | Clank/clank.php:180 | without a protocol header, the protocol line echoes the last `Sec-WebSocket-Version` value |
| Handshake.ProtocolDefault | Clank/clank.php:180 | without either header, the protocol line says "13" |
| Server.Remove | Clank/clank.php:254-257 | removing an absent socket changes nothing. Removing a present one shortens the registry by one and adds no entry |
| Server.IndexOf | Clank/clank.php:254 | `array_search` finds the first position holding the socket |
| Server.RemoveCutsFirst | Clank/clank.php:254-257 | removal cuts out exactly the first occurrence; the other entries keep their order |
| Server.RemoveFromDistinct | Clank/clank.php:254-257 | on a duplicate-free registry, removal keeps it duplicate-free and takes out exactly that socket |
| Server.Skipped | Clank/clank.php:261 | a whitespace-only buffer is always skipped, and a skipped buffer trims to at most one byte |
| Server.Message | Clank/clank.php:261-264 | no message exactly when the buffer is all whitespace or trims to "0"; otherwise the message is the untrimmed buffer, decoded |
| Server.MessageAsWritten | Clank/clank.php:261-264 | as written, the same buffers are skipped as by `Message`, and the two deliver the same text whenever trimming leaves the buffer unchanged |
| Server.BlankNeverDelivered | Clank/clank.php:261-263 | an empty or whitespace-only buffer never reaches `onMessage` |
| Server.MessageOfClientFrame | Clank/clank.php:261-264 | a buffer holding exactly one whole client frame is delivered as exactly the text it carries |
| Server.TrimmedFrameLosesSpace | Clank/clank.php:261 | "Hi " under the all-zero key is delivered as "Hi" when trimmed first, and as "Hi " when decoded untrimmed |
| Server.CountsAppend | Clank/clank.php:244-258 | one more callback moves exactly one open or close count of one connection |
| Server.TracksOpen | Clank/clank.php:242-244 | registering a fresh socket with its `onOpen` keeps the registry invariant |
| Server.TracksError | Clank/clank.php:246 | `onError` keeps the registry invariant |
| Server.TracksClose | Clank/clank.php:254-258 | unregistering a client with its `onClose` keeps the registry invariant |
| Server.HandshakeSent | Clank/clank.php:186 | the handshake succeeds exactly when the send did not fail, and every such outcome also passes the as-written test |
| Server.HandshakeSentAsWritten | Clank/clank.php:186 | as written, every send outcome passes the test |
| Server.SendFailureUnnoticed | Clank/clank.php:186 | as written, every send outcome passes the handshake test, including `false` |
| Server.Server.constructor | Clank/clank.php:207 | the loop starts watching only the listening socket, with no clients and no callbacks |
| Server.Server.Accept | Clank/clank.php:219-248 | a request without `Sec-WebSocket-Key` is abandoned: no response and no callback. Otherwise the response for its headers is sent; on success the client is appended once and `onOpen` fires, on failure only `onError` fires; the invariant holds afterwards |
| Server.Server.Register | Clank/clank.php:241-248 | the response is sent; a successful send registers the client once and fires `onOpen`, a failed one fires only `onError`; the invariant holds afterwards |
| Server.Server.ReadFailed | Clank/clank.php:253-259 | the failed socket leaves the registry, the others keep their order, `onClose` fires for it only if it was registered, and the invariant holds |
| Server.Server.ReadFailedAsWritten | Clank/clank.php:253-259 | as written, the socket is removed, and `onClose` is reported for the last accepted socket |
| Server.Server.ReadData | Clank/clank.php:261-264 | `onMessage` fires with the decoded frame exactly when the trimmed buffer is neither empty nor "0"; the invariant holds |
| Server.Server.DrainReadable | Clank/clank.php:252-265 | after the readable sockets are processed, the registered clients are exactly the earlier ones whose reads did not fail (membership, not order); the callbacks are appended to the earlier log; the invariant holds |
| Server.Server.Iteration | Clank/clank.php:218-265 | the readable sockets are read exactly when the listener was not ready, or the new request carried a key and its handshake was sent (the `continue`s skip them otherwise); the clients afterwards are the earlier ones plus the accepted client when it was registered, less those whose reads failed. The accepted socket becomes the last accepted one, is watched only when registered, and gets a response only when its request carried the key. A pass that ends early leaves the clients as they were, and logs only `onError` after a failed handshake; a full pass starts its log with `onOpen` for a registered client. The invariant holds |
| Server.StaleCloseBreaksRegistry | Clank/clank.php:258 | as written, a read failure of any socket other than the last accepted client closes that client while it stays registered, breaking the invariant |
| Server.ListenerReadClosesNewClient | Clank/clank.php:219-258 | as written, when the listening socket's read fails in the same iteration, a newly opened client is closed at once and stays registered |

## Left out

- Socket I/O is not modelled: `socket_create`, `bind`, `listen`, non-blocking mode, `socket_select`, `socket_accept`, `socket_read` and `socket_send` (Clank/clank.php:196-223, 157, 186). What a read returned and what a send returned are inputs of the step methods.
- The endless `while` and `socket_select` (Clank/clank.php:208-216) are left out. `Iteration` models one pass after `select` reported sockets, including the `continue`s at lines 238 and 247; the `continue` when `select` reports nothing is a pass that changes nothing.
- SHA-1 and base64 (Clank/clank.php:170-172) are library calls. Their composition is the parameter `accept`, and every statement holds for every such function.
- `send` (Clank/clank.php:155-158) is `Mask` followed by a socket write. Only `Mask` is modelled.
- Left out as bootstrap: the constructor's extension check, `set_time_limit` and the configuration merge (Clank/clank.php:36-44).
- Left out: the empty callback bodies, and the demo application that overrides them.
- Callbacks are recorded in an event log rather than called. The extra `[]` argument passed to `onClose` is dropped.
- The read limits of 2048 and 4096 bytes are not modelled: requests and buffers have any length. A frame longer than one 4096-byte read arrives in several buffers, each decoded on its own; only a buffer holding one whole frame is covered by `MessageOfClientFrame`.
- Time is not modelled. The byte loop of `unmask` (Clank/clank.php:97) counts up to the declared length even after the data runs out, as `UnmaskLoop` does; a frame declaring 2^62 bytes in its 8-byte field keeps the single-threaded server in that loop for that many steps.
- `socket_read` returns "" rather than `false` when a client closes cleanly. The model reads that as the empty buffer, which `ReadData` skips, so as written such a client is never unregistered (Clank/clank.php:253-263).
- Out-of-range string offsets in `unmask` read as the empty string. That is PHP's behaviour, with a warning, so a short frame decodes to fewer bytes.
- PHP turns numeric header names into integer array keys. The model keeps every name as a string, which changes no lookup the server makes.
- Frame.Mask: requires a length below 2^63; larger texts cannot be addressed by PHP strings.
- Frame.MaskAsWritten: the host byte order is a parameter, because `S` follows the machine.
- Server.Server.Accept and Server.Server.ReadFailed: `sockets`, the set `select` watches, is modelled as written. It only grows (Clank/clank.php:243), so failed sockets stay watched.
- Server.Server.Accept: a socket abandoned for lack of `Sec-WebSocket-Key` is not closed (Clank/clank.php:238), as written.
- Server.Server.Accept: the test `empty($headers)` (Clank/clank.php:237) is subsumed by the key test.
- Server.HandshakeSent: a partial send counts as success, as in the source.
- Server.Server.DrainReadable: states which clients remain registered and the invariant after the loop, not their order and not the exact log. The per-step methods state order and log.
- Server.Server.Iteration: after a full pass, states which clients remain and the log's prefix up to `onOpen`, but not the clients' order nor the entries the reads append. Those come from `DrainReadable`, which states only membership.
- Handshake.ResponseReadsBack: requires no CR at all in the echoed protocol and the digest, although a lone CR not followed by LF would also read back.

## Findings

| source | as written | input that shows it | evidently intended | confidence | as-written member | corrected member |
|---|---|---|---|---|---|---|
| Clank/clank.php:61 | the 2-byte length is packed with `S`, machine byte order | a 300-byte text on a little-endian host: the field is 2C 01, which `unmask` reads as 11265 | network byte order (`n`), as RFC 6455 section 5.2 requires and `unmask` reads | not executed | Frame.MaskAsWritten, Frame.HostOrderLengthMisread | Frame.Mask, Frame.ServerFrameRoundTrip |
| Clank/clank.php:63 | after marker 127 only a 4-byte `N` length is written | 65536 zero bytes: read back with the 8-byte rule as 2^48 | an 8-byte big-endian length (RFC 6455 section 5.2) | not executed | Frame.MaskAsWritten, Frame.FourByteLengthMisread | Frame.Mask, Frame.ServerFrameRoundTrip |
| Clank/clank.php:258 | `onClose` receives `$client`, the socket accepted last, not the socket whose read failed | one iteration that accepts a client: the listening socket's failed read closes the new client, which stays registered | `onClose($socket)`, only for a registered client | not executed | Server.Server.ReadFailedAsWritten, Server.StaleCloseBreaksRegistry, Server.ListenerReadClosesNewClient | Server.Server.ReadFailed |
| Clank/clank.php:261 | the raw frame is trimmed before it is unmasked | "Hi " under the mask key 00 00 00 00: the masked trailing space is stripped and "Hi" is delivered | trim only to test for a blank buffer, then decode the frame as read | not executed | Server.MessageAsWritten, Server.TrimmedFrameLosesSpace | Server.Message, Server.MessageOfClientFrame |
| Clank/clank.php:186 | the handshake reports `socket_send(...) >= 0`, and in PHP 8 `false >= 0` holds | `socket_send` returns `false`: the client is still registered and `onOpen` fires | success only when the send succeeded, so that `onError` can fire | not executed | Server.HandshakeSentAsWritten, Server.SendFailureUnnoticed | Server.HandshakeSent, Server.Server.Register |
