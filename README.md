# quick-debug, modelled in Dafny

quick-debug is a small telemetry sink. Application code plots named
values, and every browser dashboard connected over WebSocket receives
them as they are produced. The dashboard can send configuration values
back, and these update variables the application registered. The native
library (C++, header only) has these parts:

- a hand-written WebSocket engine: the handshake, frame encoding and
  decoding, the client registry and broadcast;
- a producer/publisher queue;
- the `;`-separated message formats;
- fixed-capacity strings and padding helpers;
- a grouped timer, a memory tracker and a latency monitor;
- an exponential moving average and a CSV recorder;
- listener lists (`Event`, `GlobalEvent`);
- the UDP timeout helper of the socket layer.

The dashboard client (TypeScript) keeps a list of tracked addresses. It
sends configuration messages to them, and records incoming values to
export them as CSV.

The project models all of these parts as values and as classes with
state, and proves what each operation promises. Each module follows one
source file:

| module | models |
|---|---|
| `Common`, `Decimal`, `TextOrder`, `ByteOrder`, `Fields` | C++ `char`/`std::string`, C strings, decimal text, `std::map` iteration order, byte order, split and join |
| `WebSocketFrame`, `Base64`, `Handshake`, `WebSocketServer` | `WebSocketServer.hpp`: frames (RFC 6455, section 5.2), masking (section 5.3), the opening handshake (section 4.2.2), Base64 (RFC 4648, section 4), registry and broadcast |
| `Entities` | `Entities.hpp`: the plot, configuration and recording messages |
| `ConcurrentQueue` | `ConcurrentQueue.hpp` |
| `FixedString`, `StrFormat` | `FixedString.hpp`, `StrFormat.hpp` |
| `QuickDebug` | `QuickDebug.hpp`: the facade, message dispatch to bound variables, the publisher loop |
| `GroupTimer` | both copies of `Analysis.h`: group tree, flattening, averaging, totals, memory peaks |
| `LatencyMonitor` | `LatencyMonitor.hpp` |
| `Statistics`, `CsvTable` | `Statistics.hpp`: `EMA` and `Logger` with its CSV layout |
| `Events` | `Events.hpp` |
| `SocketCompat` | `SocketCompat.hpp`: `SetUdpTimeout` |
| `RecordingManager` | `RecordingManager.ts`, which shares `CsvTable` |
| `IpDataStore` | `IpDataStore.ts` and its older copy in `store.ts` |

Where the source departs from RFC 6455, the model follows the source:

- **Extended payload length.** Section 5.2 of RFC 6455 requires the
  16-bit and 64-bit extended payload length in network byte order. The
  source copies the `uint16_t`/`uint64_t` in host order
  (WebSocketServer.hpp:127-134), so the model fixes a little-endian host,
  and `WebSocketFrame.ExtendedLengthByteOrderMismatch` shows what a
  network-order reader then sees. The decoder does reverse the octets,
  so it reads network order.
- **Handshake without a key.** Section 4.2.1 of RFC 6455 makes the
  `Sec-WebSocket-Key` header mandatory in an opening handshake. When it
  is missing, the source adds 19 to `npos`, which wraps to 18, reads a
  key from offset 18 and answers the handshake with it
  (WebSocketServer.hpp:392-394, `Handshake.MissingKeyReadsFromOffset18`).

## Model

| member | source | states |
|---|---|---|
| WebSocketFrame.LengthCode | quick-debug-native/Libs/QuickDebug/WebSocketServer.hpp:117-124 | the 7-bit length field is the size itself exactly when the size is below 126, and a marker value below 128 otherwise |
| WebSocketFrame.BuildControlData | quick-debug-native/Libs/QuickDebug/WebSocketServer.hpp:99-124 | the header is filled as FIN 1, RSV1-3 0, opcode 1 (text), mask 0, and the length code of the message size |
| WebSocketFrame.PackedHeaderBits | quick-debug-native/Libs/QuickDebug/WebSocketServer.hpp:99-108 | with the fields allocated from the least significant bit, the first octet is 0x81 and the second has the mask bit clear and the length code in its low 7 bits |
| WebSocketFrame.ServerHeaderBits | quick-debug-native/Libs/QuickDebug/WebSocketServer.hpp:110-126 | every server frame starts with a final, unreserved text-frame octet, and the second octet is unmasked and carries the length code |
| WebSocketFrame.EncodeFrameParts | quick-debug-native/Libs/QuickDebug/WebSocketServer.hpp:126-136 | a server frame is the two header octets, then the extended length (none, 2 or 8 octets), then the payload octets |
| WebSocketFrame.ReadHostOrderLength | quick-debug-native/Libs/QuickDebug/WebSocketServer.hpp:127-134 | a reader using the same host order recovers the size from the header and the extended length the server writes, and the rest follows unchanged |
| WebSocketFrame.ServerFrameRoundTrip | quick-debug-native/Libs/QuickDebug/WebSocketServer.hpp:98-137 | reading a server frame in host order gives back the declared message size and the octets of the message up to its first NUL |
| WebSocketFrame.DeclaredSizeMatchesPayload | quick-debug-native/Libs/QuickDebug/WebSocketServer.hpp:117-150 | the declared size equals the number of payload octets sent through `strlen` exactly when the message holds no NUL |
| WebSocketFrame.ExtendedLengthByteOrderMismatch | quick-debug-native/Libs/QuickDebug/WebSocketServer.hpp:127-325 | a network-order reader sees the 16-bit host-order length with its octets swapped: 300 reads as 11265 |
| WebSocketFrame.Decode | quick-debug-native/Libs/QuickDebug/WebSocketServer.hpp:313-357 | a decoded message never contains NUL, because it is read back as a C string |
| WebSocketFrame.ReceiveFrame | quick-debug-native/Libs/QuickDebug/WebSocketServer.hpp:313-357 | the receive loop's imperative unmasking into a NUL-terminated buffer yields exactly `Decode` of the chunk |
| WebSocketFrame.UnmaskPayload | quick-debug-native/Libs/QuickDebug/WebSocketServer.hpp:345-353 | the fresh buffer holds payload octet `i` XOR key octet `i mod 4` for every `i` below the length, then a terminating 0 |
| WebSocketFrame.MaskInvolutive | quick-debug-native/Libs/QuickDebug/WebSocketServer.hpp:346-352 | masking is its own inverse: applying the same 4-octet key twice restores the payload |
| WebSocketFrame.UnmaskAfter | quick-debug-native/Libs/QuickDebug/WebSocketServer.hpp:345-352 | whatever precedes them, a masking key followed by a payload masked with it unmasks to the payload |
| WebSocketFrame.ReadNetworkOrderLength | quick-debug-native/Libs/QuickDebug/WebSocketServer.hpp:316-333 | the decoder reads a network-order extended length: a size below 126 with the key at offset 2, 126 with a 16-bit length and the key at 4, or 127 with a 64-bit length and the key at 10 |
| WebSocketFrame.ClientFrameRoundTrip | quick-debug-native/Libs/QuickDebug/WebSocketServer.hpp:313-357 | any masked client frame with a non-empty payload is decoded to that payload as text, cut at its first NUL |
| WebSocketFrame.EmptyFrameIgnored | quick-debug-native/Libs/QuickDebug/WebSocketServer.hpp:335-338 | a frame declaring length 0 yields no message |
| WebSocketFrame.UnmaskedFrameIgnored | quick-debug-native/Libs/QuickDebug/WebSocketServer.hpp:340-343 | a non-empty frame whose mask bit is clear yields no message |
| Base64.AlphabetIsRfcTable | quick-debug-native/Libs/QuickDebug/WebSocketServer.hpp:419-422 | the encoder's 64-character table is the alphabet of Table 1 in section 4 of RFC 4648 |
| Base64.SplitIsSextets | quick-debug-native/Libs/QuickDebug/WebSocketServer.hpp:433-436 | the masks and shifts on three octets give their four 6-bit groups, most significant first |
| Base64.SplitGroup | quick-debug-native/Libs/QuickDebug/WebSocketServer.hpp:433-450 | `char_array_4` receives the four 6-bit groups of `char_array_3` |
| Base64.AppendSymbols | quick-debug-native/Libs/QuickDebug/WebSocketServer.hpp:438-453 | the loop appends the table symbols of the first `k` entries of `char_array_4` |
| Base64.ZeroFill | quick-debug-native/Libs/QuickDebug/WebSocketServer.hpp:445-446 | the leftover positions of `char_array_3` are set to 0 and the octets before them are kept |
| Base64.AppendPadding | quick-debug-native/Libs/QuickDebug/WebSocketServer.hpp:455-456 | the padding loop appends exactly `n` `=` characters |
| Base64.EmitGroup | quick-debug-native/Libs/QuickDebug/WebSocketServer.hpp:432-441 | a full group in `char_array_3` extends the encoding of the octets before it to the encoding up to its end |
| Base64.EmitFinalGroup | quick-debug-native/Libs/QuickDebug/WebSocketServer.hpp:444-458 | the last one or two octets, zero-filled, add `i + 1` symbols and `3 - i` pads, which completes the encoding of all the input |
| Base64.EncodeBase64 | quick-debug-native/Libs/QuickDebug/WebSocketServer.hpp:418-462 | the `while (in_len--)` loop returns the RFC 4648 encoding of its input |
| Base64.EncodeLength | quick-debug-native/Libs/QuickDebug/WebSocketServer.hpp:418-462 | the encoding of `n` octets has length 4·⌈n/3⌉ |
| Base64.EncodeShape | quick-debug-native/Libs/QuickDebug/WebSocketServer.hpp:418-462 | the encoding is alphabet symbols followed by exactly (3 − n mod 3) mod 3 `=` characters |
| Base64.EncodeAppend | quick-debug-native/Libs/QuickDebug/WebSocketServer.hpp:430-442 | encoding splits at every boundary between whole groups of three octets |
| Base64.DecodeEncode | quick-debug-native/Libs/QuickDebug/WebSocketServer.hpp:418-462 | decoding the encoding gives back the octets, so the encoding is lossless |
| Base64.DigestEncoding | quick-debug-native/Libs/QuickDebug/WebSocketServer.hpp:476 | a 20-octet SHA-1 digest encodes to 28 characters whose last and only pad is one `=` |
| Handshake.FindFrom | quick-debug-native/Libs/QuickDebug/WebSocketServer.hpp:390-392 | `find` returns the first position at or after the start where the pattern occurs, or none when it never does |
| Handshake.FindLineBreak | quick-debug-native/Libs/QuickDebug/WebSocketServer.hpp:393 | `find_first_of("\r\n", from)` returns the first CR or LF at or after `from`, or none |
| Handshake.FirstNonSpace | quick-debug-native/Libs/QuickDebug/WebSocketServer.hpp:411 | `find_first_not_of(' ')`: the first non-space position, or none when the rest is all spaces |
| Handshake.LastNonSpace | quick-debug-native/Libs/QuickDebug/WebSocketServer.hpp:414 | `find_last_not_of(' ')`: the last non-space position below the bound |
| Handshake.TrimStripsSpaces | quick-debug-native/Libs/QuickDebug/WebSocketServer.hpp:410-416 | `Trim` removes exactly the leading and the trailing spaces, and the result neither starts nor ends with a space |
| Handshake.TrimOnlySpaces | quick-debug-native/Libs/QuickDebug/WebSocketServer.hpp:411-413 | a string of spaces only, the empty one included, is returned unchanged |
| Handshake.TrimNoEdgeSpaces | quick-debug-native/Libs/QuickDebug/WebSocketServer.hpp:410-416 | a string that neither starts nor ends with a space is returned unchanged |
| Handshake.AcceptKeyIsEncodedDigest | quick-debug-native/Libs/QuickDebug/WebSocketServer.hpp:464-478 | the accept key is the Base64 of SHA-1 of key plus GUID, untouched by `Trim`: 28 characters ending in `=` |
| Handshake.KeyStartInRange | quick-debug-native/Libs/QuickDebug/WebSocketServer.hpp:390-394 | when the upgrade header is present the key start lies within the request, so `substr` does not throw |
| Handshake.ReplyIffUpgrade | quick-debug-native/Libs/QuickDebug/WebSocketServer.hpp:390-407 | a 101 reply is sent exactly when the request contains `Upgrade: websocket` |
| Handshake.KeyStartAfterAttribute | quick-debug-native/Libs/QuickDebug/WebSocketServer.hpp:391-392 | the key starts right after the first `Sec-WebSocket-Key: ` |
| Handshake.KeyEndsAtLineBreak | quick-debug-native/Libs/QuickDebug/WebSocketServer.hpp:393-394 | a key free of CR and LF that is followed by one is taken whole |
| Handshake.KeyOfRequest | quick-debug-native/Libs/QuickDebug/WebSocketServer.hpp:391-394 | the key is the text after the first key attribute up to the first CR or LF |
| Handshake.ReplyForKey | quick-debug-native/Libs/QuickDebug/WebSocketServer.hpp:386-407 | the reply to such a request is exactly the 101 response whose accept value is the Base64 SHA-1 of that key and the GUID |
| Handshake.MissingKeyReadsFromOffset18 | quick-debug-native/Libs/QuickDebug/WebSocketServer.hpp:392-394 | without a key attribute, `npos + 19` wraps to 18, so the key is read from offset 18 up to the next line break and a reply is still sent |
| WebSocketServer.BroadcastReachesEstablished | quick-debug-native/Libs/QuickDebug/WebSocketServer.hpp:139-144 | a broadcast sends one frame of the message to each established client, in registry order, and to no one else |
| WebSocketServer.BroadcastSendsAppend | quick-debug-native/Libs/QuickDebug/WebSocketServer.hpp:140-143 | the sends of a broadcast over two registries joined are the sends over each, in order |
| WebSocketServer.Established | quick-debug-native/Libs/QuickDebug/WebSocketServer.hpp:141 | the established clients are exactly the registry entries whose flag is set |
| WebSocketServer.RemoveSocketMembers | quick-debug-native/Libs/QuickDebug/WebSocketServer.hpp:368-370 | cleanup keeps exactly the entries of the other sockets |
| WebSocketServer.RemoveSocketAppend | quick-debug-native/Libs/QuickDebug/WebSocketServer.hpp:368-370 | cleanup keeps the others' relative order: it distributes over concatenation |
| WebSocketServer.RemoveAbsentSocket | quick-debug-native/Libs/QuickDebug/WebSocketServer.hpp:368-370 | cleanup of a socket not in the registry leaves the registry unchanged |
| WebSocketServer.RemoveSocketIdempotent | quick-debug-native/Libs/QuickDebug/WebSocketServer.hpp:368-370 | cleaning up a socket twice is cleaning it up once |
| WebSocketServer.WebSocketServer.constructor | quick-debug-native/Libs/QuickDebug/WebSocketServer.hpp:482-485 | a new server is not running and has no clients and no sends |
| WebSocketServer.WebSocketServer.Start | quick-debug-native/Libs/QuickDebug/WebSocketServer.hpp:67-75 | `Start` on a running server fails with nothing changed; otherwise it sets the port and the running flag |
| WebSocketServer.WebSocketServer.Stop | quick-debug-native/Libs/QuickDebug/WebSocketServer.hpp:77-84 | `Stop` on a stopped server fails; otherwise it clears the running flag; nothing else changes |
| WebSocketServer.WebSocketServer.AcceptClient | quick-debug-native/Libs/QuickDebug/WebSocketServer.hpp:237-239 | an accepted connection is appended to the registry, not established |
| WebSocketServer.WebSocketServer.SendWebMessage | quick-debug-native/Libs/QuickDebug/WebSocketServer.hpp:98-137 | one send of the header, the extended length and the payload up to its first NUL |
| WebSocketServer.WebSocketServer.BroadcastMessage | quick-debug-native/Libs/QuickDebug/WebSocketServer.hpp:139-144 | the sends are those of `BroadcastSends` on the registry; the registry and the flags are unchanged |
| WebSocketServer.WebSocketServer.ReceiveChunk | quick-debug-native/Libs/QuickDebug/WebSocketServer.hpp:302-357 | the first chunk of a client is answered by the handshake and marks it established, and the owner is told it connected; later chunks are decoded as frames |
| WebSocketServer.WebSocketServer.CleanupClientSocket | quick-debug-native/Libs/QuickDebug/WebSocketServer.hpp:365-370 | the registry loses every entry of the socket and keeps the others in order |
| WebSocketServer.KeepOtherSockets | quick-debug-native/Libs/QuickDebug/WebSocketServer.hpp:368-370 | the `remove_if` pass yields the entries of the other sockets in order |
| WebSocketServer.FirstChunkEstablishes | quick-debug-native/Libs/QuickDebug/WebSocketServer.hpp:237-311 | a client is established after its first chunk, whether or not the handshake was answered |
| Entities.CreatePlotMessage | quick-debug-native/Libs/QuickDebug/Entities.hpp:32-47 | the plot message has the type, the graph name read as a C string and the value text, with one separator between each |
| Entities.PlotMessageFields | quick-debug-native/Libs/QuickDebug/Entities.hpp:32-47 | split at `;`, a plot message gives back exactly `1`, the graph name and the value text |
| Entities.CreateConfigurationVariableMessage | quick-debug-native/Libs/QuickDebug/Entities.hpp:49-66 | with no bound key the configuration message is exactly `2;` |
| Entities.ConfigurationMessageFields | quick-debug-native/Libs/QuickDebug/Entities.hpp:49-66 | split at `;`, the configuration message is `2`, then every bound key once in ascending order, then an empty last field |
| Entities.CreateStartRecordingMessage | quick-debug-native/Libs/QuickDebug/Entities.hpp:68-81 | the start message is `3`, `1` and the name read as a C string, with a separator between each |
| Entities.StartRecordingMessageFields | quick-debug-native/Libs/QuickDebug/Entities.hpp:68-81 | split at `;`, the start message gives back exactly `3`, `1` and the name |
| Entities.CreateStopRecordingMessage | quick-debug-native/Libs/QuickDebug/Entities.hpp:83-94 | the stop message splits into exactly `3` and `0`: it has no name field |
| Entities.MessageKindsDiffer | quick-debug-native/Libs/QuickDebug/Entities.hpp:32-94 | the four builders start with `1;`, `2;` and `3;1;`, and the stop message is exactly `3;0` |
| ConcurrentQueue.ConcurrentQueue.constructor | quick-debug-native/Libs/QuickDebug/Common/ConcurrentQueue.hpp:10-48 | a new queue is empty |
| ConcurrentQueue.ConcurrentQueue.Push | quick-debug-native/Libs/QuickDebug/Common/ConcurrentQueue.hpp:18-27 | the item is appended at the back and the size grows by one |
| ConcurrentQueue.ConcurrentQueue.Pop | quick-debug-native/Libs/QuickDebug/Common/ConcurrentQueue.hpp:29-44 | on a non-empty queue, returns the front item and removes only it; the size falls by one |
| ConcurrentQueue.PushThenPopAll | quick-debug-native/Libs/QuickDebug/Common/ConcurrentQueue.hpp:18-44 | pushing items one after another and then popping until empty yields them in the same order |
| FixedString.Kept | quick-debug-native/Libs/QuickDebug/Common/FixedString.hpp:53-57 | a copy keeps at most the capacity's worth of the source's C string, a prefix of it, all of it when it is shorter, and never a NUL |
| FixedString.Image | quick-debug-native/Libs/QuickDebug/Common/FixedString.hpp:53-66 | after a copy the buffer holds the kept characters and then NUL in every slot up to and including index SIZE |
| FixedString.ImageReadsKept | quick-debug-native/Libs/QuickDebug/Common/FixedString.hpp:20-66 | reading a copied buffer back as a C string gives exactly the kept characters |
| FixedString.CopyOfStoredValue | quick-debug-native/Libs/QuickDebug/Common/FixedString.hpp:39-48 | assigning a buffer's own value to it again gives the same buffer |
| FixedString.FixedString.constructor | quick-debug-native/Libs/QuickDebug/Common/FixedString.hpp:8-10 | the default constructor gives an all-zero buffer and the empty value |
| FixedString.FixedString.FromText | quick-debug-native/Libs/QuickDebug/Common/FixedString.hpp:12-18 | constructing from a string gives the copied buffer and its kept value |
| FixedString.FixedString.Assign | quick-debug-native/Libs/QuickDebug/Common/FixedString.hpp:39-48 | after assignment the buffer depends only on the assigned string, so assigning the same string twice is the same as assigning it once |
| FixedString.FixedString.SafeCopy | quick-debug-native/Libs/QuickDebug/Common/FixedString.hpp:53-67 | `strncpy` of the clamped length and `memset` of the rest leave exactly the copied buffer, terminated at index SIZE |
| FixedString.FixedString.Value | quick-debug-native/Libs/QuickDebug/Common/FixedString.hpp:20-36 | `c_str`, `const char*` and `std::string` all show the buffer up to its first NUL, never more than SIZE characters |
| FixedString.FixedString.Length | quick-debug-native/Libs/QuickDebug/Common/FixedString.hpp:24-26 | `length()` is at most SIZE in every state |
| StrFormat.PadR | quick-debug-native/Libs/QuickDebug/Common/StrFormat.hpp:6-22 | for text no longer than the padding, the result has exactly `padding` characters: spaces, then the text, and it is the text itself when no room is left; the other copy at quick-debug-native/Libs/Analysis.h:92-108 is modelled by the same member. |
| StrFormat.PadL | quick-debug-native/Libs/QuickDebug/Common/StrFormat.hpp:24-39 | for text no longer than the padding, the result has exactly `padding` characters: the text, then spaces, and it is the text itself when no room is left; the other copy at quick-debug-native/Libs/Analysis.h:110-125 is modelled by the same member. |
| QuickDebug.FindChar | quick-debug-native/Libs/QuickDebug/QuickDebug.hpp:132-133 | `find(';')` is the first position of the separator, or `npos` when there is none |
| QuickDebug.Substr | quick-debug-native/Libs/QuickDebug/QuickDebug.hpp:132-133 | `substr(pos, count)` is a prefix of the text from `pos` on, no longer than `count`, and it is cut short only where the text ends |
| QuickDebug.KeyValueSplit | quick-debug-native/Libs/QuickDebug/QuickDebug.hpp:132-133 | the key is the text before the first `;` and the value the text after it; with no `;`, `npos + 1` wraps to 0 and both are the whole message |
| QuickDebug.KeyIsFirstField | quick-debug-native/Libs/QuickDebug/QuickDebug.hpp:132 | the key is the first `;`-separated field of the message |
| QuickDebug.ClientMessageReachesKey | quick-debug-native/Libs/QuickDebug/QuickDebug.hpp:132-133 | a message the client builds as `key;value` is read back as that key and value when the key has no `;` |
| QuickDebug.SkipSpace | quick-debug-native/Libs/QuickDebug/QuickDebug.hpp:151 | `stoi` first skips leading white space: the rest is a suffix that does not start with a space |
| QuickDebug.DigitPrefix | quick-debug-native/Libs/QuickDebug/QuickDebug.hpp:151 | the digits `stoi` reads are the longest run of decimal digits at the front |
| QuickDebug.StoINatToText | quick-debug-native/Libs/QuickDebug/QuickDebug.hpp:151 | the decimal text of any value an `int` holds is read back by `stoi` as that value |
| QuickDebug.StoINegative | quick-debug-native/Libs/QuickDebug/QuickDebug.hpp:151 | a minus sign before such a text is read as the negated value, down to the least `int` |
| QuickDebug.StoIRejectsNonNumber | quick-debug-native/Libs/QuickDebug/QuickDebug.hpp:151 | a text whose first character is no space, sign or digit makes `stoi` throw `invalid_argument` |
| QuickDebug.UnknownKeyKeepsTargets | quick-debug-native/Libs/QuickDebug/QuickDebug.hpp:135-151 | a key nobody registered returns with every variable unchanged, and a value that fails to parse changes no variable |
| QuickDebug.OnlyOwnTargetChanges | quick-debug-native/Libs/QuickDebug/QuickDebug.hpp:139-162 | a known key changes no variable but the one its binding points to |
| QuickDebug.IntBindingReceives | quick-debug-native/Libs/QuickDebug/QuickDebug.hpp:148-153 | an integer binding receives the number sent for its key |
| QuickDebug.StringBindingReceives | quick-debug-native/Libs/QuickDebug/QuickDebug.hpp:154-159 | a string binding receives the value cut to 32 characters |
| QuickDebug.Popped | quick-debug-native/Libs/QuickDebug/QuickDebug.hpp:96-99 | one drain pass pops ⌈n/2⌉ of `n` queued items, never more than `n` |
| QuickDebug.PoppedMeetsSize | quick-debug-native/Libs/QuickDebug/QuickDebug.hpp:96 | the count popped is where the rising counter meets the falling size: at least half, at most half and one, one or more whenever anything is queued |
| QuickDebug.QuickDebug.constructor | quick-debug-native/Libs/QuickDebug/QuickDebug.hpp:178-186 | the facade starts with the default configuration (no web server, port 8126), no bindings, an empty queue and a stopped server |
| QuickDebug.QuickDebug.RegisterRecvFloat | quick-debug-native/Libs/QuickDebug/QuickDebug.hpp:48-52 | inserts or overwrites the binding of the key with tag 1 and the variable's address |
| QuickDebug.QuickDebug.RegisterRecvInt | quick-debug-native/Libs/QuickDebug/QuickDebug.hpp:57-61 | inserts or overwrites the binding of the key with tag 2 and the variable's address |
| QuickDebug.QuickDebug.RegisterRecvString | quick-debug-native/Libs/QuickDebug/QuickDebug.hpp:66-70 | inserts or overwrites the binding of the key with tag 3 and the variable's address |
| QuickDebug.QuickDebug.Configure | quick-debug-native/Libs/QuickDebug/QuickDebug.hpp:75-77 | stores the configuration and changes nothing else |
| QuickDebug.QuickDebug.StartupWith | quick-debug-native/Libs/QuickDebug/QuickDebug.hpp:84-111 | with the server running, nothing changes; otherwise the configuration is stored and the server starts on its port |
| QuickDebug.QuickDebug.StartupAsWritten | quick-debug-native/Libs/QuickDebug/QuickDebug.hpp:79-82 | `Startup()` as written starts on a value-initialised configuration, so what `Configure` stored is replaced and the port is 8126; a running facade keeps its configuration, port and web-server flag, and the flag is never set, since the defaults ask for no web server |
| QuickDebug.QuickDebug.Startup | quick-debug-native/Libs/QuickDebug/QuickDebug.hpp:73-82 | `Startup()` as documented: a stopped facade starts with the stored configuration on its port, and the web server starts exactly when that configuration asks for it; a running one changes nothing |
| QuickDebug.QuickDebug.Plot | quick-debug-native/Libs/QuickDebug/QuickDebug.hpp:32-43 | as written: pushes exactly one plot message onto the queue; a stopped facade is first started through `Startup()`, which resets the configuration to the defaults and listens on 8126; a running one keeps its configuration and port; the web-server flag is kept either way |
| QuickDebug.QuickDebug.PlotIntended | quick-debug-native/Libs/QuickDebug/QuickDebug.hpp:32-43 | as evidently intended: the same push, and a stopped facade starts on the configured port, the configuration kept, and starts the web server when the configuration asks for it |
| QuickDebug.QuickDebug.PlotAndSend | quick-debug-native/Libs/QuickDebug/QuickDebug.hpp:22-27 | as written: a stopped facade is started through `Startup()` with the default configuration on 8126, then exactly the broadcast sends of the plot message are added; the web-server flag is kept |
| QuickDebug.QuickDebug.OnClientConnected | quick-debug-native/Libs/QuickDebug/QuickDebug.hpp:124-129 | pushes exactly one configuration message built from the current bindings |
| QuickDebug.QuickDebug.OnMessageReceived | quick-debug-native/Libs/QuickDebug/QuickDebug.hpp:131-164 | the outcome and the variables afterwards are those of the dispatch of the message on the bindings and variables before |
| QuickDebug.QuickDebug.OnMessageReceivedCaught | quick-debug-native/Libs/QuickDebug/QuickDebug.hpp:131-164 | as evidently intended, with the parse guarded: every message returns, the variables are those of the dispatch, and a message that fails to parse leaves them all as they were |
| QuickDebug.MalformedIntThrows | quick-debug-native/Libs/QuickDebug/QuickDebug.hpp:148-152 | a registered integer sent a value that does not start with a space, sign or digit makes `std::stoi` throw, and no variable is written |
| QuickDebug.MalformedFloatThrows | quick-debug-native/Libs/QuickDebug/QuickDebug.hpp:142-147 | a registered float sent a value `std::stof` rejects makes the handler throw, and no variable is written |
| QuickDebug.MalformedIntAsWritten | quick-debug-native/Libs/QuickDebug/QuickDebug.hpp:148-152 | as written, a facade with an integer bound to `n` that receives `n;abc` throws out of the handler |
| QuickDebug.MalformedIntCaught | quick-debug-native/Libs/QuickDebug/QuickDebug.hpp:131-164 | with the parse guarded, the same message returns and the bound integer keeps its value |
| QuickDebug.QuickDebug.DrainPass | quick-debug-native/Libs/QuickDebug/QuickDebug.hpp:96-99 | one pass pops the first ⌈n/2⌉ queued items in FIFO order and broadcasts each in turn; the rest stay queued |
| QuickDebug.QuickDebug.PopAndBroadcast | quick-debug-native/Libs/QuickDebug/QuickDebug.hpp:97-98 | pops the front item and broadcasts it, extending the sends of the items popped before it |
| QuickDebug.QuickDebug.ShutdownAsWritten | quick-debug-native/Libs/QuickDebug/QuickDebug.hpp:113-121 | a stopped facade is left alone; a running one stops its server and then throws at the `join` of the detached publisher thread |
| QuickDebug.QuickDebug.Shutdown | quick-debug-native/Libs/QuickDebug/QuickDebug.hpp:113-116 | shutting down without joining detached threads stops the server and returns |
| QuickDebug.ConfigureThenPlotAsWritten | quick-debug-native/Libs/QuickDebug/QuickDebug.hpp:75-92 | as written, `Configure` followed by the first `Plot` (the model's `Plot`) starts the server on port 8126, whatever port was configured |
| QuickDebug.ConfigureThenPlot | quick-debug-native/Libs/QuickDebug/QuickDebug.hpp:73-92 | with `Startup()` using the stored configuration (`PlotIntended`), the first `Plot` starts the server on the configured port |
| QuickDebug.StartThenShutdownAsWritten | quick-debug-native/Libs/QuickDebug/QuickDebug.hpp:102-121 | as written, shutting down a started facade throws |
| QuickDebug.StartThenShutdown | quick-debug-native/Libs/QuickDebug/QuickDebug.hpp:113-116 | without the joins, shutting down a started facade stops it and returns |
| GroupTimer.PathOf | quick-debug-native/Libs/QuickDebug/Common/Analysis.h:105-122 | a timer name splits at every `>` into at least one group name, none of which holds a `>` |
| GroupTimer.AddTime | quick-debug-native/Libs/QuickDebug/Common/Analysis.h:48-122 | finding or creating the groups along a path keeps the root's own time and adds the first name to its sub-groups, keeping all the others |
| GroupTimer.AddTimeOnlyAtPath | quick-debug-native/Libs/QuickDebug/Common/Analysis.h:48-122 | after appending time to a path, the group at that path has gained exactly that time and every other group, ancestors and siblings included, has the time it had (a created group starts at 0) |
| GroupTimer.ChildTimes | quick-debug-native/Libs/QuickDebug/Common/Analysis.h:105-122 | looking a path up in the sub-group that `operator[]` yields is looking up the longer path in the parent |
| GroupTimer.AddTimeCreatesPath | quick-debug-native/Libs/QuickDebug/Common/Analysis.h:105-122 | after appending, every group along the timer name exists |
| GroupTimer.RegisterExistingPath | quick-debug-native/Libs/QuickDebug/Common/Analysis.h:42-46 | registering a timer whose groups already exist leaves the tree unchanged |
| GroupTimer.ApplyAppend | quick-debug-native/Libs/QuickDebug/Common/Analysis.h:149-164 | writing the entries of two walks one after the other is writing the second into the map the first produced |
| GroupTimer.ApplyLastWins | quick-debug-native/Libs/QuickDebug/Common/Analysis.h:149-164 | after the writes a name is present exactly when it was before or some entry names it; it then holds the time of the last such entry, and an unnamed key keeps its old value |
| GroupTimer.Flatten | quick-debug-native/Libs/QuickDebug/Common/Analysis.h:149-164 | the output map is the input map overwritten, in name order and depth first, with each group's time under its own name |
| GroupTimer.FlattenEach | quick-debug-native/Libs/QuickDebug/Common/Analysis.h:151-162 | the loop over the given sub-group names writes each one's entry and then its descendants' entries |
| GroupTimer.PreorderOfFrom | quick-debug-native/Libs/QuickDebug/Common/Analysis.h:151-162 | the walk from one name on is that name's entry, its own sub-groups, then the walk from the next name on |
| GroupTimer.FlatMapTimes | quick-debug-native/Libs/QuickDebug/Common/Analysis.h:149-164 | a name is flattened exactly when some group of that name occurs in the tree, and it gets the time of the last such group in walk order, so a later group of the same name overwrites an earlier one |
| GroupTimer.FlatMaps | quick-debug-native/Libs/QuickDebug/Common/Analysis.h:85-88 | one flattened map per group, in order |
| GroupTimer.MapAddAt | quick-debug-native/Libs/QuickDebug/Common/Analysis.h:90-93 | adding two maps name by name holds a name exactly when either does, with the sum of the two values (a missing one counts as 0) |
| GroupTimer.SumsAreTotals | quick-debug-native/Libs/QuickDebug/Common/Analysis.h:84-94 | the running sums hold a name exactly when one of the flattened maps has it, and hold the name's total over those maps |
| GroupTimer.DivideAll | quick-debug-native/Libs/QuickDebug/Common/Analysis.h:96-99 | dividing every sum keeps exactly the same names |
| GroupTimer.Average | quick-debug-native/Libs/QuickDebug/Common/Analysis.h:82-102 | with no groups the result is empty; otherwise it is the per-name sums of the flattened groups, each divided by the group count; the other copy at quick-debug-native/Libs/Analysis.h:134-154, quick-debug-native/Libs/Analysis.h:208-223 is modelled by the same member. |
| GroupTimer.AverageValues | quick-debug-native/Libs/QuickDebug/Common/Analysis.h:82-102 | an averaged name is one that some group has after flattening, and its value is its summed time divided by the group count, truncated toward zero as `long long` division does |
| GroupTimer.SumFlattened | quick-debug-native/Libs/QuickDebug/Common/Analysis.h:85-94 | the first loop leaves the sums of all the flattened groups |
| GroupTimer.AddFlattened | quick-debug-native/Libs/QuickDebug/Common/Analysis.h:87-93 | one pass flattens the next group into an empty map and adds it to the running sums |
| GroupTimer.AddInto | quick-debug-native/Libs/QuickDebug/Common/Analysis.h:90-93 | `resMap[name] += time` over a flattened map adds the two maps name by name |
| GroupTimer.AddEach | quick-debug-native/Libs/QuickDebug/Common/Analysis.h:90-93 | the same, for the loop over the map's names in turn |
| GroupTimer.DivideEach | quick-debug-native/Libs/QuickDebug/Common/Analysis.h:96-99 | `second /= groupCount` over every summed name divides them all |
| GroupTimer.DivideKeys | quick-debug-native/Libs/QuickDebug/Common/Analysis.h:96-99 | the same, for the loop over the names in turn |
| GroupTimer.SumTimesAppend | quick-debug-native/Libs/Analysis.h:174-206 | the time total of two walks is the sum of their totals |
| GroupTimer.PrintGroup | quick-debug-native/Libs/QuickDebug/Common/Analysis.h:124-147 | the newer walk returns the sum of the direct sub-groups' times only, because the nested call's result is dropped |
| GroupTimer.PrintEach | quick-debug-native/Libs/QuickDebug/Common/Analysis.h:126-144 | the loop over the given sub-group names sums their own times |
| GroupTimer.PrintGroupLegacy | quick-debug-native/Libs/Analysis.h:174-206 | the older walk returns the sum of the times of every group below, at any depth |
| GroupTimer.PrintEachLegacy | quick-debug-native/Libs/Analysis.h:176-203 | its loop sums each sub-group's time and the total below it |
| GroupTimer.PrintGroupTotalsDiffer | quick-debug-native/Libs/QuickDebug/Common/Analysis.h:142-143 | the two versions disagree on a two-level tree: the newer total is 1 where the older one is 6 |
| GroupTimer.GroupTimer.constructor | quick-debug-native/Libs/QuickDebug/Common/Analysis.h:23-37 | the static base group starts value-initialised: no sub-groups, time 0 |
| GroupTimer.GroupTimer.RegisterTimer | quick-debug-native/Libs/QuickDebug/Common/Analysis.h:42-46 | registering creates the groups of the timer name, read up to its first NUL, and changes no time |
| GroupTimer.GroupTimer.AppendTime | quick-debug-native/Libs/QuickDebug/Common/Analysis.h:48-54 | the time is added to the group the timer name, read up to its first NUL, leads to, the groups being created as needed; the other copy at quick-debug-native/Libs/Analysis.h:68-76, quick-debug-native/Libs/Analysis.h:157-172 is modelled by the same member. |
| GroupTimer.GroupTimer.PrintTracked | quick-debug-native/Libs/QuickDebug/Common/Analysis.h:56-71 | the overall sum printed is the newer walk's total, and the tree is emptied exactly when `clearTimers` is set |
| GroupTimer.GroupTimer.PrintTrackedLegacy | quick-debug-native/Libs/Analysis.h:78-90 | the older overall sum covers every group, and the tree is left as it is |
| GroupTimer.GroupTimer.GetAndReset | quick-debug-native/Libs/QuickDebug/Common/Analysis.h:75-80 | the old tree is handed out and an empty one takes its place; the other copy at quick-debug-native/Libs/Analysis.h:127-132 is modelled by the same member. |
| GroupTimer.MemoryTracker.constructor | quick-debug-native/Libs/QuickDebug/Common/Analysis.h:290-294 | the store starts empty |
| GroupTimer.MemoryTracker.Snapshot | quick-debug-native/Libs/QuickDebug/Common/Analysis.h:297-300 | the key is present afterwards; it holds the larger of the stored value (0 when missing) and the new one; every other key keeps its value; the other copy at quick-debug-native/Libs/Analysis.h:29-32 is modelled by the same member. |
| GroupTimer.MemoryTracker.Reset | quick-debug-native/Libs/QuickDebug/Common/Analysis.h:309-312 | the store is emptied; the other copy at quick-debug-native/Libs/Analysis.h:41-44 is modelled by the same member. |
| GroupTimer.SnapshotKeepsMaximum | quick-debug-native/Libs/QuickDebug/Common/Analysis.h:297-300 | a snapshot never lowers a stored peak, always reaches the new value, and is one of the two |
| LatencyMonitor.Micros | quick-debug-native/Libs/QuickDebug/LatencyMonitor.hpp:70-146 | `duration_cast<microseconds>` truncates toward zero: the microseconds times 1000 fall short of a non-negative difference, or exceed a negative one, by less than 1000 nanoseconds |
| LatencyMonitor.FindName | quick-debug-native/Libs/QuickDebug/LatencyMonitor.hpp:49-92 | `find_if` with `strcmp` yields the first reading whose name equals the given one as a C string, or the end when none does |
| LatencyMonitor.FindIf | quick-debug-native/Libs/QuickDebug/LatencyMonitor.hpp:49-51 | the search loop stops at exactly that position |
| LatencyMonitor.FindNameUnique | quick-debug-native/Libs/QuickDebug/LatencyMonitor.hpp:49-51 | a position before which no name matches and at which one matches (or that is the end) is the one `find_if` returns |
| LatencyMonitor.PrevWith | quick-debug-native/Libs/QuickDebug/LatencyMonitor.hpp:58-67 | the backward walk settles on the closest earlier frame holding the name: every frame strictly between holds none, and with no such frame there is none earlier at all |
| LatencyMonitor.TrimmedKeepsNewest | quick-debug-native/Libs/QuickDebug/LatencyMonitor.hpp:156-158 | dropping erases only the smallest frame timestamps until 50 remain (all of them when fewer), and keeps the rest unchanged |
| LatencyMonitor.Touch | quick-debug-native/Libs/QuickDebug/LatencyMonitor.hpp:33-112 | `operator[]` creates a missing frame empty and leaves every existing frame as it was |
| LatencyMonitor.ElapsedAntisymmetric | quick-debug-native/Libs/QuickDebug/LatencyMonitor.hpp:77-100 | swapping the two names only flips the sign of the reported time, and a name against itself reports 0 |
| LatencyMonitor.ElapsedNonNegative | quick-debug-native/Libs/QuickDebug/LatencyMonitor.hpp:77-100 | with readings appended in clock order, a name whose first reading comes no later never shows a negative time |
| LatencyMonitor.Hops | quick-debug-native/Libs/QuickDebug/LatencyMonitor.hpp:113-124 | one plotted hop per pair of consecutive readings, in order, named `prev->name` with the time between them |
| LatencyMonitor.HopsAddUp | quick-debug-native/Libs/QuickDebug/LatencyMonitor.hpp:113-124 | with a monotonic clock the plotted hops add up to the time from the first reading to the last, less under one microsecond per hop |
| LatencyMonitor.LatencyMonitor.constructor | quick-debug-native/Libs/QuickDebug/LatencyMonitor.hpp:162-165 | the limit starts at 100 frames and both maps start empty |
| LatencyMonitor.LatencyMonitor.SetMaxBufferSize | quick-debug-native/Libs/QuickDebug/LatencyMonitor.hpp:26-28 | the limit becomes the given count and nothing else changes |
| LatencyMonitor.LatencyMonitor.TakeTimestampMeasurement | quick-debug-native/Libs/QuickDebug/LatencyMonitor.hpp:30-37 | the reading is appended to its frame, which is created when missing, and then old frames are dropped |
| LatencyMonitor.LatencyMonitor.MeasureTimeDelta | quick-debug-native/Libs/QuickDebug/LatencyMonitor.hpp:42-75 | the result is the time from the name's reading in the closest earlier frame holding it to its reading in this frame; 0 when the frame is unknown, is the first one, lacks the name, or no earlier frame has it |
| LatencyMonitor.LatencyMonitor.MeasureElapsedTime | quick-debug-native/Libs/QuickDebug/LatencyMonitor.hpp:77-100 | the frame is created if missing; the result is the time from the first `begin` reading to the first `end` reading, 0 when either is missing |
| LatencyMonitor.LatencyMonitor.SendTimestampMeasurement | quick-debug-native/Libs/QuickDebug/LatencyMonitor.hpp:109-128 | the frame's hops are plotted through the facade: its queue grows by one plot message per hop, in order, a stopped facade comes up on the default configuration, and the frame is created if missing and erased afterwards exactly when asked |
| LatencyMonitor.PlotHops | quick-debug-native/Libs/QuickDebug/LatencyMonitor.hpp:112-124 | each `QuickDebug::Plot(prev->name, latency)` call appends that hop's plot message; with no hop the facade's running flag, configuration, port and web-server flag are unchanged; otherwise the web-server flag is kept and it runs, on port 8126 if it was stopped, and no variable, client or send changes |
| LatencyMonitor.LatencyMonitor.EraseTimestamp | quick-debug-native/Libs/QuickDebug/LatencyMonitor.hpp:130-132 | the frame is removed and nothing else changes |
| LatencyMonitor.LatencyMonitor.StartMeasurement | quick-debug-native/Libs/QuickDebug/LatencyMonitor.hpp:135-137 | the stopwatch of that name is (re)started at the current time, with frame timestamp -1 |
| LatencyMonitor.LatencyMonitor.StopMeasurement | quick-debug-native/Libs/QuickDebug/LatencyMonitor.hpp:139-147 | a name never started reads 0; otherwise the time since its start, and the stopwatch stays |
| LatencyMonitor.LatencyMonitor.ClearOldTimestampData | quick-debug-native/Libs/QuickDebug/LatencyMonitor.hpp:150-159 | nothing changes up to the limit; beyond it the oldest frames are dropped until 50 remain |
| LatencyMonitor.DeltaOfFrame | quick-debug-native/Libs/QuickDebug/LatencyMonitor.hpp:44-74 | for a frame that exists, the search and backward walk compute the delta above |
| LatencyMonitor.DeltaAt | quick-debug-native/Libs/QuickDebug/LatencyMonitor.hpp:47-74 | the same for a frame that is not the first |
| LatencyMonitor.NothingBefore | quick-debug-native/Libs/QuickDebug/LatencyMonitor.hpp:47-58 | the first frame has no earlier frame holding the name |
| LatencyMonitor.WalkBack | quick-debug-native/Libs/QuickDebug/LatencyMonitor.hpp:58-74 | the backward loop from a frame holding the name returns its delta |
| LatencyMonitor.ClosestEarlier | quick-debug-native/Libs/QuickDebug/LatencyMonitor.hpp:58-67 | when no frame strictly between holds the name, the frame where the walk stops is the closest earlier one, or there is none |
| LatencyMonitor.HopsOf | quick-debug-native/Libs/QuickDebug/LatencyMonitor.hpp:113-124 | the plotting loop produces exactly the hops |
| LatencyMonitor.StartThenStop | quick-debug-native/Libs/QuickDebug/LatencyMonitor.hpp:135-147 | a stopwatch started at one time and read at another shows the time in between |
| LatencyMonitor.DeltaBetweenTwoFrames | quick-debug-native/Libs/QuickDebug/LatencyMonitor.hpp:42-75 | of two frames with one reading of a name each, the later reports the time between them and the earlier reports 0 |
| Statistics.StepNoWrap | quick-debug-native/Libs/QuickDebug/Statistics.hpp:18-22 | neither `uint32_t` step of `Update` wraps around, so the new average is exactly the old one less its share plus the new value's share |
| Statistics.StepBetween | quick-debug-native/Libs/QuickDebug/Statistics.hpp:18-22 | the new average always lies between the old average and the new value |
| Statistics.StepFixedPoint | quick-debug-native/Libs/QuickDebug/Statistics.hpp:18-22 | feeding the current average back in leaves it unchanged |
| Statistics.StepStaysAtZero | quick-debug-native/Libs/QuickDebug/Statistics.hpp:11-22 | from the initial 0, a value below the weight never moves the average, because both divisions truncate |
| Statistics.DropMonotone | quick-debug-native/Libs/QuickDebug/Statistics.hpp:19 | the part of the average that is kept never shrinks as the average grows |
| Statistics.EMA.constructor | quick-debug-native/Libs/QuickDebug/Statistics.hpp:15-33 | an instantiation's average starts at 0 |
| Statistics.EMA.Update | quick-debug-native/Libs/QuickDebug/Statistics.hpp:18-22 | the average takes one step toward the value and the new average is returned |
| Statistics.EMA.Set | quick-debug-native/Libs/QuickDebug/Statistics.hpp:28-30 | the average becomes the given value |
| CsvTable.RowCells | quick-debug-native/Libs/QuickDebug/Statistics.hpp:118-124 | a value line has one cell per key |
| CsvTable.MaxLength | quick-debug-native/Libs/QuickDebug/Statistics.hpp:108-114 | the maximum number of values is at least every key's count and equal to one of them, and 0 with no keys |
| CsvTable.MaxLengthStep | quick-debug-native/Libs/QuickDebug/Statistics.hpp:110-114 | one more key raises the maximum to its count exactly when that count is larger |
| CsvTable.SplitJoinAfter | quick-debug-native/Libs/QuickDebug/Statistics.hpp:102-125 | fields that each end in a separator they do not contain read back as themselves plus an empty last field |
| CsvTable.JoinAfterAvoids | quick-debug-native/Libs/QuickDebug/Statistics.hpp:102-125 | joining fields that avoid a character, with another separator, gives text that avoids it |
| CsvTable.RowCellsPlain | quick-debug-native/Libs/QuickDebug/Statistics.hpp:117-125 | cells of plain data hold neither comma nor newline |
| CsvTable.EveryValueWritten | quick-debug-native/Libs/QuickDebug/Statistics.hpp:108-125 | every recorded value appears: the key's `i`-th value is the key's cell on value line `i`, and that line is written |
| Statistics.RowLines | quick-debug-native/Libs/QuickDebug/Statistics.hpp:117-126 | one value line per value index up to the maximum |
| Statistics.LinesHaveNoNewline | quick-debug-native/Libs/QuickDebug/Statistics.hpp:98-126 | with a description free of newlines and plain data, no line of the file holds a newline of its own |
| Statistics.CsvReadsBack | quick-debug-native/Libs/QuickDebug/Statistics.hpp:36-126 | reading the file back yields its comment line, header line and value lines; the header reads back as the keys in order, and each value line as each key's value at that index, or an empty cell when the key has fewer values |
| Statistics.WriteHeader | quick-debug-native/Libs/QuickDebug/Statistics.hpp:101-106 | the header is every key followed by a comma |
| Statistics.MaxValues | quick-debug-native/Libs/QuickDebug/Statistics.hpp:108-114 | the loop finds the maximum number of values of any key |
| Statistics.WriteRow | quick-debug-native/Libs/QuickDebug/Statistics.hpp:118-124 | one value line: each key's value at that index or nothing, each followed by a comma |
| Statistics.WriteCsv | quick-debug-native/Libs/QuickDebug/Statistics.hpp:98-126 | the text written is the comment line, the header when anything was recorded, then every value line, each ending in a newline |
| Statistics.WriteRows | quick-debug-native/Libs/QuickDebug/Statistics.hpp:117-126 | the value lines are appended after what was already written |
| Statistics.RowLinesStep | quick-debug-native/Libs/QuickDebug/Statistics.hpp:117-126 | writing one more value line appends that line and a newline |
| Statistics.Logger.constructor | quick-debug-native/Libs/QuickDebug/Statistics.hpp:142-144 | the recorder starts disabled with an empty description and store |
| Statistics.Logger.StartRecording | quick-debug-native/Libs/QuickDebug/Statistics.hpp:44-58 | while recording nothing changes; otherwise recording starts with the description read as a C string and an empty store |
| Statistics.Logger.StopRecording | quick-debug-native/Libs/QuickDebug/Statistics.hpp:60-70 | when not recording nothing changes and no file is written; otherwise recording stops, the file named by the time stamp, the path and `.csv` is written with the CSV text of the store unless it cannot be opened, and the store is emptied either way |
| Statistics.Logger.Record | quick-debug-native/Libs/QuickDebug/Statistics.hpp:72-77 | while recording the value is appended to the key's list, which is created when missing; otherwise nothing changes |
| Statistics.Logger.RecordNumber | quick-debug-native/Libs/QuickDebug/Statistics.hpp:79-84 | the same with the number's decimal text |
| Statistics.Logger.WriteToCSV | quick-debug-native/Libs/QuickDebug/Statistics.hpp:86-130 | a file that opens receives the CSV text under the time-stamped name; one that does not receives nothing |
| Statistics.RecordKeepsPlain | quick-debug-native/Libs/QuickDebug/Statistics.hpp:72-84 | recording a plain key and value keeps the store plain, so the file still reads back |
| Events.Removed | quick-debug-native/Libs/QuickDebug/Common/Events.hpp:87-92 | the remaining listeners are never more than before |
| Events.RemovedMembers | quick-debug-native/Libs/QuickDebug/Common/Events.hpp:87-92 | a listener remains exactly when it was registered and the removal test does not select it |
| Events.RemovedConcat | quick-debug-native/Libs/QuickDebug/Common/Events.hpp:87-92 | removal keeps the order: it distributes over concatenation |
| Events.UntilNoThrow | quick-debug-native/Libs/QuickDebug/Common/Events.hpp:64-109 | when no listener throws, every listener is called |
| Events.UntilFirstThrow | quick-debug-native/Libs/QuickDebug/Common/Events.hpp:64-109 | otherwise the calls are the listeners up to and including the first that throws |
| Events.RangesRemove | quick-debug-native/Libs/QuickDebug/Common/Events.hpp:21-51 | `std::ranges::remove` keeps the length and moves exactly the listeners not removed, in order, to the front |
| Events.CallUntilThrow | quick-debug-native/Libs/QuickDebug/Common/Events.hpp:64-109 | the loop calls the listeners in order up to the first that throws, and an exception leaves it exactly when some listener throws |
| Events.GlobalEvent.constructor | quick-debug-native/Libs/QuickDebug/Common/Events.hpp:34-40 | the static list starts empty |
| Events.GlobalEvent.AddListener | quick-debug-native/Libs/QuickDebug/Common/Events.hpp:16-18 | the listener is appended |
| Events.GlobalEvent.RemoveListener | quick-debug-native/Libs/QuickDebug/Common/Events.hpp:20-22 | the length stays, since the result of `remove` is dropped and nothing is erased; the front of the list holds the listeners other than the given one, in order |
| Events.GlobalEvent.Invoke | quick-debug-native/Libs/QuickDebug/Common/Events.hpp:24-31 | every listener is called in order, and the ones that throw are exactly the ones logged |
| Events.Event.constructor | quick-debug-native/Libs/QuickDebug/Common/Events.hpp:71-76 | a new event has no listeners |
| Events.Event.AddListener | quick-debug-native/Libs/QuickDebug/Common/Events.hpp:46-57 | `AddListener` and `+=` append the listener |
| Events.Event.RemoveListener | quick-debug-native/Libs/QuickDebug/Common/Events.hpp:50-62 | `RemoveListener` and `-=` keep the length, and the front holds the other listeners in order |
| Events.Event.Invoke | quick-debug-native/Libs/QuickDebug/Common/Events.hpp:64-68 | the listeners are called in order until one throws, and the exception propagates exactly when one does |
| Events.VoidEvent.constructor | quick-debug-native/Libs/QuickDebug/Common/Events.hpp:112-117 | a new event has no listeners |
| Events.VoidEvent.AddListener | quick-debug-native/Libs/QuickDebug/Common/Events.hpp:82-98 | `AddListener` and `+=` append the listener |
| Events.VoidEvent.RemoveListener | quick-debug-native/Libs/QuickDebug/Common/Events.hpp:86-103 | as written, erase-remove drops every listener whose stored callable has the same type as the given one |
| Events.VoidEvent.RemoveSameListener | quick-debug-native/Libs/QuickDebug/Common/Events.hpp:86-93 | as evidently intended, erase-remove drops exactly the given callable |
| Events.VoidEvent.Invoke | quick-debug-native/Libs/QuickDebug/Common/Events.hpp:105-109 | the listeners are called in order until one throws, and the exception propagates exactly when one does |
| Events.AddThenRemoveSame | quick-debug-native/Libs/QuickDebug/Common/Events.hpp:82-93 | removing exactly the callable just added, when it was not registered before, restores the list |
| Events.RemovedNoneMatch | quick-debug-native/Libs/QuickDebug/Common/Events.hpp:87-92 | when the test selects nothing, removal keeps every listener |
| Events.RemoveByTypeDropsOthers | quick-debug-native/Libs/QuickDebug/Common/Events.hpp:89-90 | as written, removing one plain function also removes another plain function, while removing by identity keeps it |
| SocketCompat.TimeoutAsWritten | quick-debug-native/src/Libs/QuickDebug/Sockets/SocketCompat.hpp:69-71 | as written, the seconds are the whole seconds and the microseconds always lie below one second, but they come from a 32-bit product that wraps |
| SocketCompat.Timeout | quick-debug-native/src/Libs/QuickDebug/Sockets/SocketCompat.hpp:69-71 | as evidently intended, the two fields together are exactly the timeout, with the microseconds below one second and the seconds the whole seconds |
| SocketCompat.AgreeWhileNoWrap | quick-debug-native/src/Libs/QuickDebug/Sockets/SocketCompat.hpp:69-71 | up to 4294967 ms both splits agree |
| SocketCompat.WrapsPastBound | quick-debug-native/src/Libs/QuickDebug/Sockets/SocketCompat.hpp:71 | at 4294968 ms the written split gives 704 microseconds where 968000 are meant |
| SocketCompat.SetUdpTimeout | quick-debug-native/src/Libs/QuickDebug/Sockets/SocketCompat.hpp:63-74 | as written: on Windows the milliseconds themselves are passed; elsewhere a `timeval` of the whole seconds and microseconds below one second, taken from the wrapping split |
| SocketCompat.SetUdpTimeoutExactWhileNoWrap | quick-debug-native/src/Libs/QuickDebug/Sockets/SocketCompat.hpp:69-71 | while `msec * 1000` fits in 32 bits the `timeval` passed as written adds up to the timeout exactly |
| SocketCompat.SetUdpTimeoutMissesPastBound | quick-debug-native/src/Libs/QuickDebug/Sockets/SocketCompat.hpp:71 | at 4294968 ms the value passed as written is `{4294, 704}`, where the intended one is `{4294, 968000}` |
| SocketCompat.SetUdpTimeoutIntended | quick-debug-native/src/Libs/QuickDebug/Sockets/SocketCompat.hpp:63-74 | as evidently intended: on Windows the milliseconds; elsewhere a `timeval` that always adds up to the timeout |
| RecordingManager.Flows | quick-debug-client/src/lib/entities/RecordingManager.ts:38-72 | each flow is listed once, in the order it first occurs |
| RecordingManager.FlowsAreTheFlows | quick-debug-client/src/lib/entities/RecordingManager.ts:38-47 | a name is listed exactly when some record has that flow |
| RecordingManager.FlowData | quick-debug-client/src/lib/entities/RecordingManager.ts:38-47 | a flow's column never holds more values than there are records |
| RecordingManager.StatsCountFlows | quick-debug-client/src/lib/entities/RecordingManager.ts:24-33 | the statistics have an entry exactly for each flow that occurs, holding the number of its records; a flow without an entry has no records |
| RecordingManager.SumOverIgnores | quick-debug-client/src/lib/entities/RecordingManager.ts:24-33 | an entry outside the flows summed does not change the sum |
| RecordingManager.SumOverBump | quick-debug-client/src/lib/entities/RecordingManager.ts:26-31 | counting one more record of a flow raises the sum by one |
| RecordingManager.StatsAddUp | quick-debug-client/src/lib/entities/RecordingManager.ts:24-33 | the per-flow counts add up to the number of records, the `total` field |
| RecordingManager.GatherStats | quick-debug-client/src/lib/entities/RecordingManager.ts:24-33 | `gatherStats` returns the per-flow counts, the flows in the `Map`'s first-insertion order, and the record count |
| RecordingManager.GroupedColumns | quick-debug-client/src/lib/entities/RecordingManager.ts:38-47 | the grouped object has a column exactly for each flow, holding that flow's values in record order |
| RecordingManager.Exported | quick-debug-client/src/lib/entities/RecordingManager.ts:49-56 | the kept flows are never more than the flows |
| RecordingManager.ExportedFlows | quick-debug-client/src/lib/entities/RecordingManager.ts:49-56 | an empty export list keeps every flow; otherwise exactly the flows that are listed are kept, each once and in first-occurrence order |
| RecordingManager.RowLines | quick-debug-client/src/lib/entities/RecordingManager.ts:75-81 | one value line per row index below the longest column |
| RecordingManager.ColumnsAreExportedFlows | quick-debug-client/src/lib/entities/RecordingManager.ts:38-56 | the kept flows list every kept column once, and each column still holds its flow's values |
| RecordingManager.CsvReadsBack | quick-debug-client/src/lib/entities/RecordingManager.ts:59-82 | reading the CSV back yields its header line and value lines; the header reads back as `Time` and the kept flows in order, and line `i` as its index and each flow's `i`-th value or an empty cell |
| RecordingManager.ColumnsArePlain | quick-debug-client/src/lib/entities/RecordingManager.ts:49-56 | deleting columns keeps the text plain |
| RecordingManager.LinesHaveNoNewline | quick-debug-client/src/lib/entities/RecordingManager.ts:66-81 | with plain values no line holds a newline of its own |
| CsvTable.NumberIsPlain | quick-debug-client/src/lib/entities/RecordingManager.ts:76 | a row index's decimal text holds neither delimiter |
| RecordingManager.GroupEntries | quick-debug-client/src/lib/entities/RecordingManager.ts:38-47 | the `reduce` loop builds the grouped columns and the flows in first-occurrence order |
| RecordingManager.DeleteUnexported | quick-debug-client/src/lib/entities/RecordingManager.ts:49-56 | the deletion keeps the whole object for an empty export list, and otherwise exactly the listed columns, with their order |
| RecordingManager.DeleteUnlisted | quick-debug-client/src/lib/entities/RecordingManager.ts:51-55 | for a non-empty export list the loop deletes every column not listed |
| RecordingManager.Longest | quick-debug-client/src/lib/entities/RecordingManager.ts:59-62 | the `reduce` finds the length of the longest kept column |
| RecordingManager.WriteHeaderLine | quick-debug-client/src/lib/entities/RecordingManager.ts:68-73 | the header is `Time,` and then every kept flow followed by a comma |
| RecordingManager.WriteRowLine | quick-debug-client/src/lib/entities/RecordingManager.ts:76-80 | a value line is the row index and a comma, then each flow's value at that index or nothing, each followed by a comma |
| RecordingManager.WriteRowLines | quick-debug-client/src/lib/entities/RecordingManager.ts:75-81 | the value lines are appended after the header |
| RecordingManager.RowLinesStep | quick-debug-client/src/lib/entities/RecordingManager.ts:75-81 | writing one more value line appends that line and a newline |
| RecordingManager.ConvertToCsv | quick-debug-client/src/lib/entities/RecordingManager.ts:36-84 | as evidently intended, `convertToCSV` returns the header line and every value line, each ending in a newline |
| RecordingManager.Lookup | quick-debug-client/src/lib/entities/RecordingManager.ts:40-43 | `acc[name]` on the object begun as `{}` is an own array exactly for the names already created, an inherited member exactly for the other names `Object.prototype` supplies, and `undefined` otherwise |
| RecordingManager.GroupEntriesAsWritten | quick-debug-client/src/lib/entities/RecordingManager.ts:38-47 | as written, the `reduce` over `{}` throws exactly when some flow is named like an inherited property, since `acc[flow]` is then truthy and has no `push`; otherwise it builds the grouped columns and the first-occurrence order |
| RecordingManager.ExportGroups | quick-debug-client/src/lib/entities/RecordingManager.ts:49-84 | from the grouped columns, the deletion of unexported flows and the written lines give exactly the intended CSV text |
| RecordingManager.ConvertToCsvAsWritten | quick-debug-client/src/lib/entities/RecordingManager.ts:36-84 | as written, `convertToCSV` yields no text exactly when some flow is named like an inherited property, and otherwise the same CSV as the map version |
| RecordingManager.InheritedNameBreaksExport | quick-debug-client/src/lib/entities/RecordingManager.ts:40-43 | exporting a recording of one record of flow `toString` as written yields no text |
| RecordingManager.InheritedNameExportsInMap | quick-debug-client/src/lib/entities/RecordingManager.ts:36-84 | grouped in a map, that same recording exports as `Time,toString,` and `0,5,` |
| RecordingManager.RecordingManager.constructor | quick-debug-client/src/lib/entities/RecordingManager.ts:88-99 | a new manager is not recording, has no active recording and no finished recordings |
| RecordingManager.RecordingManager.StartRecording | quick-debug-client/src/lib/entities/RecordingManager.ts:110-115 | an active recording is finished first and appended to the finished ones; then a new, empty one with the given name is active and `isRecording` is set |
| RecordingManager.RecordingManager.EndRecording | quick-debug-client/src/lib/entities/RecordingManager.ts:117-134 | an active recording is appended to the finished ones and recording stops; with none active nothing changes |
| RecordingManager.RecordingManager.RecordValue | quick-debug-client/src/lib/entities/RecordingManager.ts:136-140 | while a recording is active the record is appended to it; otherwise nothing changes |
| RecordingManager.CandidateInjective | quick-debug-client/src/lib/entities/RecordingManager.ts:234 | different indexes give different numbered names |
| RecordingManager.CandidatesBelowSize | quick-debug-client/src/lib/entities/RecordingManager.ts:233-235 | the numbered names below `n` are `n - 1` different names |
| RecordingManager.TakenCandidatesBounded | quick-debug-client/src/lib/entities/RecordingManager.ts:233-235 | all of them can be taken only if there are at least that many names stored, so the loop ends |
| RecordingManager.GetUniqueRecordingName | quick-debug-client/src/lib/entities/RecordingManager.ts:226-238 | the name returned is not stored; it is the name itself when that is free, and otherwise the first numbered candidate that is free (with `UnnamedRecording` as the stem for an empty name) |
| IpDataStore.ClearConnectionState | quick-debug-client/src/lib/entities/IpDataStore.ts:29-36 | afterwards every entry is `Disconnected`, and address, enabled flag and socket of every entry are as they were, in the same order; the other copy at quick-debug-client/src/lib/store.ts:319-326 is modelled by the same member. |
| IpDataStore.ClearedAreDetermined | quick-debug-client/src/lib/entities/IpDataStore.ts:29-36 | those two facts fix the result: any two lists meeting them are equal |
| IpDataStore.FirstIndexOf | quick-debug-client/src/lib/entities/IpDataStore.ts:63-65 | `find` then `indexOf` locates the first entry with the address, and finds none exactly when no entry has it |
| IpDataStore.WithoutFirst | quick-debug-client/src/lib/entities/IpDataStore.ts:61-71 | with no such entry the list is unchanged, otherwise it is one entry shorter |
| IpDataStore.HavingConcat | quick-debug-client/src/lib/entities/IpDataStore.ts:61-71 | the entries of one address in two joined lists are those of the first list, then those of the second |
| IpDataStore.HavingSplice | quick-debug-client/src/lib/entities/IpDataStore.ts:65 | splicing out one entry leaves, for any address, the entries before and after it |
| IpDataStore.RemoveKeepsOtherAddresses | quick-debug-client/src/lib/entities/IpDataStore.ts:61-71 | removing an address keeps every entry of every other address, in order |
| IpDataStore.RemoveDropsOnlyFirst | quick-debug-client/src/lib/entities/IpDataStore.ts:61-71 | only the first entry with the address goes; the later ones stay, in order |
| IpDataStore.AddThenRemove | quick-debug-client/src/lib/entities/IpDataStore.ts:57-71 | adding an address not yet tracked and removing it gives the list back |
| IpDataStore.MessageText | quick-debug-client/src/lib/entities/IpDataStore.ts:88 | `Key;Value`: the key, one separator, then the value |
| IpDataStore.MessageTextSplits | quick-debug-client/src/lib/entities/IpDataStore.ts:88 | split at `;`, the text gives back a key that has no `;` whole, followed by the value's fields |
| IpDataStore.Sends | quick-debug-client/src/lib/entities/IpDataStore.ts:85-90 | never more sends than entries |
| IpDataStore.SendsReachSockets | quick-debug-client/src/lib/entities/IpDataStore.ts:85-90 | every send carries the message, and a socket is sent to exactly when some entry holds it and it has a `send` |
| IpDataStore.SendsIgnoreState | quick-debug-client/src/lib/entities/IpDataStore.ts:85-90 | who is sent to does not depend on the connection states or on whether entries are enabled |
| IpDataStore.IpIterator.constructor | quick-debug-client/src/lib/entities/IpDataStore.ts:38-43 | the walk starts at index 0 over a snapshot of the list |
| IpDataStore.IpIterator.Next | quick-debug-client/src/lib/entities/IpDataStore.ts:45-54 | before the end `next` yields the entry at the index and moves on; past the end it reports done and rewinds to 0 |
| IpDataStore.IpDataStore.constructor | quick-debug-client/src/lib/entities/IpDataStore.ts:22-27 | the loaded list, or the two loopback defaults, with every state cleared to `Disconnected` |
| IpDataStore.IpDataStore.FromStoreModule | quick-debug-client/src/lib/store.ts:46-52 | the copy in `store.ts`: its own three defaults, and again every state cleared |
| IpDataStore.IpDataStore.AddIp | quick-debug-client/src/lib/entities/IpDataStore.ts:57-59 | the entry is appended at the end and the others are unchanged; the other copy at quick-debug-client/src/lib/store.ts:73-75 is modelled by the same member. |
| IpDataStore.IpDataStore.RemoveIp | quick-debug-client/src/lib/entities/IpDataStore.ts:61-71 | the first entry with the address is spliced out (nothing changes when there is none), and the socket closed is exactly that entry's; the other copy at quick-debug-client/src/lib/store.ts:77-87 is modelled by the same member. |
| IpDataStore.IpDataStore.Update | quick-debug-client/src/lib/entities/IpDataStore.ts:77-79 | the list stays as it is |
| IpDataStore.IpDataStore.Iterator | quick-debug-client/src/lib/entities/IpDataStore.ts:38-44 | a fresh walk over the current list, from the start |
| IpDataStore.IpDataStore.SendMessageToAll | quick-debug-client/src/lib/entities/IpDataStore.ts:85-90 | the sends are those of the entries before the first whose socket is still connecting, one per entry whose socket has a `send`, in list order, each with `Key;Value`; the loop ends with an exception exactly when such an entry exists; the other copy at quick-debug-client/src/lib/store.ts:101-106 is modelled by the same member. |
| IpDataStore.FirstStalled | quick-debug-client/src/lib/entities/IpDataStore.ts:86-88 | the first entry whose `send` throws because its socket is still connecting, with none before it, or the length when there is none |
| IpDataStore.NoneConnectingSendsAll | quick-debug-client/src/lib/entities/IpDataStore.ts:85-90 | when no socket is still connecting, the loop runs to the end and sends to every socket that has a `send` |
| IpDataStore.LoadedStoreSends | quick-debug-client/src/lib/entities/IpDataStore.ts:22-90 | clearing the states on load does not change who is sent to |
| IpDataStore.AddIpSendsLast | quick-debug-client/src/lib/entities/IpDataStore.ts:57-90 | after `addIp` of an entry with a working socket the message also goes to it, last |
| Common.FromBytesToBytes | quick-debug-native/Libs/QuickDebug/WebSocketServer.hpp:313-357 | a `std::string` built from received bytes holds exactly those bytes |
| Common.CStrOfNulFree | quick-debug-native/Libs/QuickDebug/QuickDebug.hpp:151-157 | a text without NUL is its own C-string view |
| Common.CStrStopsAtNul | quick-debug-native/Libs/QuickDebug/Common/FixedString.hpp:53-67 | appending a terminating NUL does not change the C-string view |
| Common.TruncDiv | quick-debug-native/Libs/QuickDebug/Common/Analysis.h:96-99 | C++ integer division: the quotient is truncated toward zero, and the remainder lies below the divisor with the sign of the dividend |
| Decimal.NatToTextRoundTrip | quick-debug-native/Libs/QuickDebug/Statistics.hpp:79-84 | reading the decimal text of a number gives the number back |
| Decimal.NatToTextInjective | quick-debug-native/Libs/QuickDebug/Statistics.hpp:79-84 | different numbers have different decimal texts |
| TextOrder.LessTotal | quick-debug-native/Libs/QuickDebug/Entities.hpp:49-66 | the byte-wise order `std::map<std::string, …>` iterates in is total |
| TextOrder.LessTransitive | quick-debug-native/Libs/QuickDebug/Entities.hpp:49-66 | and transitive |
| TextOrder.SortedKeysComplete | quick-debug-native/Libs/QuickDebug/Entities.hpp:49-66 | iterating a string-keyed map visits exactly its keys |
| TextOrder.SortedKeysSorted | quick-debug-native/Libs/QuickDebug/Entities.hpp:49-66 | in strictly ascending order, so each key once |
| TextOrder.SortedIntsComplete | quick-debug-native/Libs/QuickDebug/LatencyMonitor.hpp:150-159 | iterating an integer-keyed map visits exactly its keys |
| TextOrder.MinInt | quick-debug-native/Libs/QuickDebug/LatencyMonitor.hpp:157 | `begin()->first` is the smallest key |
| ByteOrder.LeRoundTrip | quick-debug-native/Libs/QuickDebug/WebSocketServer.hpp:127-129 | reading back the octets of a little-endian store gives back the value reduced to that many octets |
| ByteOrder.BeRoundTrip | quick-debug-native/Libs/QuickDebug/WebSocketServer.hpp:318-325 | the same holds for network order |
| ByteOrder.ReadBackSwapped | quick-debug-native/Libs/QuickDebug/WebSocketServer.hpp:127-325 | a two-octet network-order read of a little-endian store sees the value with its octets swapped |
| Fields.SplitJoin | quick-debug-native/Libs/QuickDebug/Entities.hpp:32-47 | fields without the separator survive a join followed by a split |
| Fields.JoinSplit | quick-debug-native/Libs/QuickDebug/Entities.hpp:32-47 | joining a split gives the original text back |
| WebSocketFrame.Mask | quick-debug-native/Libs/QuickDebug/WebSocketServer.hpp:346-351 | unmasking keeps the payload length |
| WebSocketServer.RemoveSocket | quick-debug-native/Libs/QuickDebug/WebSocketServer.hpp:365-370 | the registry after `remove_if` and `erase` is never larger |
| WebSocketServer.BroadcastSends | quick-debug-native/Libs/QuickDebug/WebSocketServer.hpp:139-144 | a broadcast sends never more frames than there are clients, and every frame is the encoded message |
| QuickDebug.DigitsReadBack | quick-debug-native/Libs/QuickDebug/QuickDebug.hpp:151 | `stoi` of a digit string whose value fits an `int` returns that value |

## Left out

- SHA-1 is not computed. `Handshake` takes it as a function-valued parameter, and the properties hold for any digest function.
- Sockets, threads, mutexes, condition variables and waiting are not modelled. Each operation is one atomic step, with received chunks, clock readings and file opening as parameters. `accept`/`select` polling and timeouts are left out.
- Floating point is not modelled. `std::stof` is a parameter that may fail. Plotted values, and the values the TypeScript client records, are kept as their text.
- LatencyMonitor.LatencyMonitor.SendTimestampMeasurement: the `static_cast<float>` of each latency, which rounds counts above 2^24 µs, and its `std::to_string` are the `floatText` parameter rather than modelled.
- Host byte order is fixed as little-endian (see above).
- ConcurrentQueue.ConcurrentQueue.Pop: the blocking wait on an empty queue is a precondition (a non-empty queue), because waiting belongs to the threads left out.
- ConcurrentQueue.ConcurrentQueue.Size, `Statistics.EMA.Get`, `QuickDebug.QuickDebug.IsRunning` and `WebSocketServer.WebSocketServer.IsRunning` are reads of one field, and `IpDataStore.Loaded` picks the stored list or the defaults (`store.ts`:328-330). Their bodies are their contract.
- StrFormat.PadR and `StrFormat.PadL` require the text to fit, as the source's `assert` does. A negative padding is excluded by the `nat` type.
- `GroupTimer` uses unbounded integers for the `long long` times, so overflow of the sums is not modelled.
- `std::map<const char*, …>` keys in `LatencyMonitor` compare pointers. The model compares the C strings, which is what two uses of the same literal share.
- The iteration order of the `Logger`'s `std::unordered_map` is a parameter `order`. The proofs hold for every order that lists each key once.
- `Object.entries` lists integer-like keys first, in ascending order. `RecordingManager` lists flows in the order they first occur.
- `std::ranges::remove` leaves moved-from listeners after the kept ones. The model only says that the length stays and describes the front of the list.
- `std::function` has no `==`, so the removal in `GlobalEvent` and `Event<T>` would not compile once instantiated. The model compares listener identities there.
- Exceptions that do not derive from `std::exception` are not modelled. Neither is the payload type of an event, which no listener in the model inspects.
- IndexedDB is not modelled: `storeRecording`, `getAllRecordings`, `deleteRecording`, `deleteAllRecordings` and `openDatabase`. `GetUniqueRecordingName` takes the stored names as a set, and the model is synchronous. `storeRecording` also renames the stored recording in place (`recording.name = uniqueName`). That object is the one `endRecording` appended to `finishedRecordings`, so a finished recording's name can change after `EndRecording`. This rename is not modelled.
- The TypeScript models treat strings as sequences of 8-bit characters.
- `GlobalEvent<T>` is one object for one payload type, and static members in C++ are fields of one object per class.
- Svelte stores (`subscribe`, notification) and `localStorage` are not modelled. The stored list is a parameter of the constructor.
- `IpDataStore` entries are values, so aliasing between the list and outside references to its entries is not modelled. A `close()` that throws is not modelled either.
- `InitWebServer` (httplib), the web-server thread and all console output are not modelled.
- The facade's message and client-connected handlers are called directly rather than registered with the server.
- QuickDebug.ValueOf, `QuickDebug.QuickDebug.OnMessageReceived` and `QuickDebug.Dispatch` require the message to be shorter than `npos`, a bound no `std::string` exceeds. It makes the `size_t` wrap of `find(';') + 1` expressible.
- QuickDebug.QuickDebug.OnMessageReceived: a `Fail` outcome stands for the `std::stof`/`std::stoi` exception leaving the handler. The model stops there. It does not follow the exception through the server's call of the handler (`WebSocketServer.hpp`:356-357) and out of the detached client thread, where `std::terminate` ends the host program (see Findings).
- IpDataStore.IpDataStore.SendMessageToAll: whether a socket is still connecting is a parameter `connecting`, since the browser's ready state is not modelled. A `send` on a closing or closed socket, which the browser discards without an exception, counts as a send.
- WebSocketFrame.Decode: a frame whose header or declared payload runs past the octets received gives `Incomplete`. The source does not compare the two and reads past `bytesRead` into whatever the 4096-octet receive buffer still holds (`WebSocketServer.hpp`:346-351). The model does not track that stale content.
- Entities.DefaultConfig is a constant: the value-initialised `QuickDebugConfig`.

## Findings

| source | as written | input that shows it | evidently intended | confidence | as-written member | corrected member |
|---|---|---|---|---|---|---|
| quick-debug-native/src/Libs/QuickDebug/Sockets/SocketCompat.hpp:71 | `tv_usec = (msec * 1000) % 1000000` multiplies two 32-bit unsigned values, which wraps | `msec = 4294968` gives `tv_usec = 704` | the microseconds of the milliseconds left after the whole seconds, `(msec % 1000) * 1000`, here 968000 | not executed | SocketCompat.SetUdpTimeout, SocketCompat.SetUdpTimeoutMissesPastBound | SocketCompat.SetUdpTimeoutIntended, SocketCompat.AgreeWhileNoWrap |
| quick-debug-native/Libs/QuickDebug/Common/Events.hpp:89-90 | `target<void()>()` and `target<void>()` are both null for these callables, so only the callable types are compared | two plain functions `f`, `g` registered; `-= f` removes both | remove only the listener that was passed | not executed | Events.VoidEvent.RemoveListener, Events.RemoveByTypeDropsOthers | Events.VoidEvent.RemoveSameListener, Events.AddThenRemoveSame |
| quick-debug-client/src/lib/entities/RecordingManager.ts:38-47 | the grouping accumulator is `{}`, so a flow named like a property of `Object.prototype` finds that property and `push` throws | one record with flow `toString` and value 5 | group into a map with no inherited names, which exports `Time,toString,` and `0,5,` | not executed | RecordingManager.ConvertToCsvAsWritten, RecordingManager.InheritedNameBreaksExport | RecordingManager.ConvertToCsv, RecordingManager.InheritedNameExportsInMap |
| quick-debug-native/Libs/QuickDebug/QuickDebug.hpp:79-82 | `Startup()` passes a value-initialised configuration to `Startup(cfg)`, which overwrites what `Configure` stored | `Configure` with port 9000, then the first `Plot` starts on port 8126 | start with the stored configuration, as the comment on `Configure` says | not executed | QuickDebug.QuickDebug.StartupAsWritten, QuickDebug.ConfigureThenPlotAsWritten | QuickDebug.QuickDebug.Startup, QuickDebug.ConfigureThenPlot |
| quick-debug-native/Libs/QuickDebug/QuickDebug.hpp:113-121 | `Shutdown` joins the publisher thread that `Startup` detached, and `join` on a thread that is not joinable throws `std::system_error` | `Plot` once, then `Shutdown` | stop the server without joining detached threads | not executed | QuickDebug.QuickDebug.ShutdownAsWritten, QuickDebug.StartThenShutdownAsWritten | QuickDebug.QuickDebug.Shutdown, QuickDebug.StartThenShutdown |
| quick-debug-native/Libs/QuickDebug/QuickDebug.hpp:148-151 | `std::stof`/`std::stoi` throw on a value that is no number; nothing in `OnMessageReceived`, in the server's call of the handler (`WebSocketServer.hpp`:356-357) or in the detached client thread catches it, so `std::terminate` ends the host program | a client sends `n;abc` while `n` is bound to an integer | drop the malformed value and keep running | not executed | QuickDebug.QuickDebug.OnMessageReceived, QuickDebug.MalformedIntAsWritten | QuickDebug.QuickDebug.OnMessageReceivedCaught, QuickDebug.MalformedIntCaught |
