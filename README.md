# twipo-synchro core, modelled in Dafny

twipo-synchro mirrors the in-game "Twipo" timeline of a visual novel to a phone
browser. The game writes binary messages on the program's standard input. The
program keeps the list of tweeps it has received, broadcasts every change as a
JSON event to the connected WebSocket clients, and forwards the clients' reply
choices back to the game as 12-byte frames. This project models the sequential
logic underneath the async plumbing and proves what it promises.

- `wire.dfy` (`Wire`): bytes, 16- and 32-bit fields, `Result`/`Option`.
- `utf8.dfy` (`Utf8`): UTF-8 encoding of a string, and a decoder standing for
  `std::str::from_utf8`, with its round trip.
- `text.dfy` (`Text`): ASCII lowercasing, substring containment (`str::contains`)
  and decimal formatting with its parser.
- `sc3.dfy` (`SC3`): the game's string encoding (`SC3String::read_from_stdin`).
  It has the decoder as a function and as the byte-at-a-time loop. It also has an
  encoder written per token, so that decoding can be proved to invert it.
- `tweep.dfy` (`Tweeps`): the tweep record (`Tweep::read_from_stdin`). The record
  is read as five fixed fields followed by 3 + count strings.
- `state.dfy` (`State`): the shared tweep list and the sink registry as a class
  `Hub`, and the broadcast-and-prune pass of `read_stdin`.
- `game.dfy` (`Game`): the message loop of `read_stdin`. It dispatches on the tag
  (CLEA, TWEP, STRP) and turns an unknown tag into a fatal desync.
- `http.rs` is modelled in two files:
  - `http.dfy` (`Http`): response formatting, the WebSocket upgrade handshake and
    the routing of `handle_connection`;
  - `session.dfy` (`Session`): `handle_websocket`, that is the replay, then the
    registration, then the reply loop with its three checks and the 12-byte frame.

How the model represents the system:
- Standard input is a `seq<byte>` plus a read position.
- A `read_exact` that runs out of input is the error `UnexpectedEof`.
- Native-endian fields (`from_ne_bytes`, `to_ne_bytes`) are fixed as little-endian.
- A marker's offset is `content.len()` in the source. In Rust that is the UTF-8
  byte length of the content, so the model uses `Utf8Len`.
- The charset table is a `seq<char>` parameter.
- SHA-1 and base64 are function parameters.
- The result of `httparse` is an input: `Option<string>` for the path, and a
  sequence of (name, value bytes) headers.
- The result of `serde_json` for a client message is an input too: `Option<TweepReply>`, where `None` is an undecodable message.
- Which sends fail is a parameter:
  - during a broadcast, the set of failing sinks;
  - during a replay, the position of the first failing send.

## Model

| member | source | states |
|---|---|---|
| Wire.U16AtLE16 | src/game.rs:109 | a 16-bit field read back with `from_ne_bytes` is the value written |
| Wire.U32AtLE32 | src/game.rs:116 | a 32-bit field read back is the value written |
| Utf8.DecodeEncode | src/http.rs:216 | `from_utf8` accepts the encoding of any string and returns that string |
| Text.OccursContains | src/http.rs:219 | a needle that occurs at some position is contained |
| Text.ContainsOccurs | src/http.rs:219 | a contained needle occurs at some position it returns (with the previous row, containment iff occurrence) |
| Text.DecimalRoundTrip | src/http.rs:137-143 | the decimal form of a number printed by `format!` parses back to it |
| SC3.Serialize | src/game.rs:20-32 | the serialised offset is the marker's offset |
| SC3.SerializeRoundTrip | src/game.rs:20-32 | the "op" name and offset determine the marker again |
| SC3.Normalize | src/game.rs:60-65 | U+3000 becomes `' '`; every other table entry is kept |
| SC3.CodepointBits | src/game.rs:55-59 | the source's `((hi << 8) \| lo) - 0x8000` (computed on 16 bits, where the value fits) equals the model's code `(hi - 0x80) * 256 + lo` for every high byte from 0x80 |
| SC3.CodepointInjective | src/game.rs:55-59 | distinct byte pairs name distinct table entries, and a high byte in 0x80..=0xFE names one of the first 0x7F00 |
| SC3.ReadSC3String | src/game.rs:43-76 | the loop returns exactly the decoder function's result, and a success ends past the start and within the input |
| SC3.DecodeOneToken | src/game.rs:51-69 | after one marker or character code, decoding continues from the right position, with the marker at the content's UTF-8 length or the normalised character appended |
| SC3.DecodeWellFormed | src/game.rs:44-75 | in a decoded string, marker offsets never decrease and none exceeds the content's UTF-8 length |
| SC3.DecodeFromWellFormed | src/game.rs:48-73 | the marker invariant holds for the state accumulated mid-loop |
| SC3.DecodeAt | src/game.rs:43-76 | the bytes of any valid token list, wherever they stand, decode to its rendering and end just past the terminator |
| SC3.DecodeEncode | src/game.rs:43-76 | the same, between any prefix and suffix |
| SC3.DecodeIsEncoding | src/game.rs:43-76 | every successful decode read the encoding of some valid token list and returned its rendering (with `DecodeAt`, decoding and encoding are inverse) |
| SC3.DecodeTruncated | src/game.rs:50 | input that ends inside a string after whole tokens fails with end of input |
| SC3.DecodeTruncatedGlyph | src/game.rs:50-57 | input that ends right after the high byte of a character code fails with end of input too |
| SC3.DecodeNeedsTerminator | src/game.rs:70 | without a 0xFF ahead no decode succeeds |
| SC3.DecodeUnknownToken | src/game.rs:71 | a byte outside the known tokens fails with "Unknown string token" |
| SC3.DecodeUnknownCodepoint | src/game.rs:60-67 | a code past the end of the table fails with "Unknown codepoint" |
| SC3.DecodeExamples | src/game.rs:52-70 | `00 FF` is an empty string with one line break at 0; `80 00 FF` is the first table entry, or fails on an empty table |
| Tweeps.ReadTweep | src/game.rs:93-126 | the record reader returns exactly the record decoder's result |
| Tweeps.ReadReplies | src/game.rs:109-113 | the reply loop returns exactly `count` strings read one after another, or the first error |
| Tweeps.DecodeTweepFields | src/game.rs:115-125 | a read record has the fixed fields as sent, exactly `count` replies, `differentDay` iff the day field is non-zero, and replies not yet possible |
| Tweeps.DecodeStringsAt | src/game.rs:105-113 | `n` encoded strings, one after another, read back as their renderings |
| Tweeps.DecodeTweepAt | src/game.rs:93-126 | the bytes the game writes for a record read back as that record, ending just past it |
| Tweeps.DecodeEncodeTweep | src/game.rs:93-126 | the same, between any prefix and suffix |
| Tweeps.RenderAllAt | src/game.rs:111-113 | the `i`-th reply read is the rendering of the `i`-th reply written |
| State.SurvivingMembers | src/game.rs:183-195 | a sink stays registered iff it was registered and its send did not fail |
| State.SurvivingAppend | src/game.rs:190-195 | pruning works piece by piece, so survivors keep their relative order |
| State.SurvivingIdempotent | src/game.rs:183-195 | a second prune with the same failures removes nothing more |
| State.DeliverAt | src/game.rs:185-189 | the `i`-th send of a pass goes to the `i`-th surviving sink |
| State.Hub.SendAll | src/game.rs:185-189 | the first loop sends to every sink whose send succeeds, in order, and collects exactly the positions of the failing sinks in ascending order |
| State.Hub.RemoveDescending | src/game.rs:190-195 | removing those positions from the back leaves exactly the sinks at the other positions, in order |
| State.Hub.Broadcast | src/game.rs:183-195 | after the pass the registry is the old one minus the failing sinks, in order; each survivor has received the event; the tweeps are unchanged |
| Game.ParseMessageProgress | src/game.rs:137-181 | a message that is read moves the reader forward within the input |
| Game.ParseMessageDesync | src/game.rs:178-180 | the loop desyncs iff four bytes are there and they are none of the three tags |
| Game.FirstIndex | src/game.rs:163 | `find` returns the first tweep with the id, or nothing iff no tweep has it |
| Game.FindTweep | src/game.rs:163-168 | the search loop returns the first position with the id |
| Game.Apply | src/game.rs:140-177 | CLEA empties the list; TWEP appends at the end and keeps the earlier entries; STRP with an unknown id does nothing; STRP with a known id sets the flag of the first match only |
| Game.SetReplyPossibleKeepsRecords | src/game.rs:162-169 | STRP changes only the flag: ids, strings and replies are kept |
| Game.ReadStdinStep | src/game.rs:137-195 | one loop turn: on error nothing changes; an STRP for an unknown id changes nothing and sends nothing; otherwise the list becomes `Apply` of the event and the event is broadcast with failing sinks pruned |
| Game.ParseEncodeMessage | src/game.rs:138-177 | each message the game can write reads back as the event it stands for, ending just past it |
| Game.ParseTweepMessage | src/game.rs:146-151 | a TWEP message reads back as that record's tweep |
| Game.ParseSetReplyPossibleMessage | src/game.rs:153-160 | an STRP message reads back as its id and `possible != 0` |
| Http.ResponseHeadFields | src/http.rs:137-143 | the header read line by line has the status line, the content type, and a `Content-Length` that parses back |
| Http.WriteResponseBody | src/http.rs:130-147 | the bytes written are the header (valid UTF-8), then the body unchanged; `Content-Length` is the body's byte length |
| Http.TextResponseFields | src/http.rs:149-163 | a text response carries `; charset=utf-8` after the content type and the text's UTF-8 length |
| Http.ErrorResponseFields | src/http.rs:165-173 | an error response is an HTML page whose body is `<h1>{code} {status}</h1>`, under that status |
| Http.UpgradeHeadFields | src/http.rs:175-186 | the upgrade response is status 101 with `Sec-WebSocket-Accept` set to the token |
| Http.UpgradeHeadConnection | src/http.rs:180-183 | the upgrade response says `Connection: Upgrade` |
| Http.UpgradeHeadProtocol | src/http.rs:180-183 | the upgrade response says `Upgrade: websocket` |
| Http.FindHeader | src/http.rs:208-211 | the header found is the first whose lowercased name is the one asked for, and nothing is found iff no header has it |
| Http.ListedValuePasses | src/http.rs:213-221 | the value check is containment: a value with the expected token among others passes |
| Http.HandleUpgradeRequest | src/http.rs:188-249 | it upgrades iff all three required headers pass and a key exists; an upgrade is `(101, true)` with the accept token `base64(sha1(key ++ GUID))`; otherwise the response is a 400 error and the result is `(400, false)` |
| Http.HandleConnection | src/http.rs:271-315 | `/img/<name>` gives 200 with the image, or 404; `/websocket` answers as the handshake does (101 with the accept response iff the header checks pass and a key exists, otherwise 400 with the error page); `/` and `/index.js` give 200 with their text; any other path gives 404; no path gives 400; only `/websocket` can upgrade |
| Session.Replayed | src/http.rs:72-75 | the replay is one tweep event per stored tweep, in list order |
| Session.ReplayedCount | src/http.rs:72-75 | all tweeps are replayed unless a send fails, and then exactly those before it |
| Session.Join | src/http.rs:72-76 | the client receives the replay of the stored tweeps in order; it is registered iff every send succeeded; nothing else changes |
| Session.JoinedReceivesBroadcast | src/http.rs:76 | a registered sink whose send succeeds receives the next broadcast, after all earlier sinks |
| Session.ReplyFrame | src/http.rs:117-122 | a reply frame is 12 bytes |
| Session.DecodeReplyFrameRoundTrip | src/http.rs:117-122 | the game reads the frame back as the tweep id and reply index |
| Session.ValidateReply | src/http.rs:91-115 | a reply is accepted iff its type is "reply", some tweep has its id, and the index is within the first such tweep's replies; an accepted reply gives the frame; each failure names its cause |
| Session.AcceptedCount | src/http.rs:78-115 | the loop forwards a prefix of accepted messages and stops at the first message that is not accepted |
| Session.Frames | src/http.rs:117-124 | each forwarded message writes exactly 12 bytes |
| Session.ServeReplies | src/http.rs:78-125 | the bytes written are the frames of the accepted prefix, and the loop stops with the cause of the first rejection |
| Session.FramesDecode | src/http.rs:117-124 | the `k`-th 12-byte frame written decodes to the `k`-th message's ids |
| Session.ForwardedAreAnswerable | src/http.rs:91-124 | every frame forwarded to the game names an existing tweep and one of its replies |

## Left out

- src/images.rs, src/installer.rs, src/main.rs and res/index.js are not part of this model. They hold image cropping through an external crate, interactive installation, start-up wiring and the browser page.
- The async runtime is not modelled: locks, task spawning and the interleaving of connections. Each handler is a sequential step on explicit state.
- SHA-1 and base64 are function parameters, so the model does not state their contents. The accept token is stated as their composition over the key and the GUID of section 1.3 of RFC 6455.
- httparse and serde_json are inputs: the parsed path and headers, and an already-decoded client message (`None` when decoding fails).
- The request accumulation loop of `handle_connection` (src/http.rs:253-269) is left out; only its outcome enters the model. It re-reads until httparse completes or fails, with no size bound.
- Byte order: fields are read and written native-endian in the source. The model fixes little-endian.
- Lowercasing is ASCII only. `to_lowercase` also maps non-ASCII letters, which affects header values holding such letters; header names are ASCII tokens.
- Logging (`eprintln!`, including the user-agent lookup) has no effect on state and is left out.
- The error returned by `close()` on a pruned sink, and errors when writing a response, are not modelled. A failed response write ends the connection in the source.
- `Game.ReadStdinStep` is one turn of the `read_stdin` loop. The unbounded loop is its repetition and is not a member of its own. An unknown tag (`panic!`) is the result `Desync`.
- Session.ServeReplies: a failed write or flush of a frame on standard output is not modelled; the model assumes every accepted frame is written whole. In the source such a failure ends the reply loop with an I/O error, possibly after part of a frame.
- Session.ServeReplies takes one snapshot of the tweep list for the whole loop. The source locks the list again for each message, so tweeps that arrive in between are not seen by the model.
- Session.Join models a failed replay send by its position (`firstFailure`); the rest of the session then never starts.
- The JSON text of the events is not modelled. An event is the datatype `State.Event`, and serialisation of a marker is `SC3.Serialize`.
- In `handle_connection` the branch for a path starting `/img/` with no suffix is dead code: `get(5..)` always succeeds after a `/img/` prefix. The model folds it into the image lookup.
