# A verified model of the nanooctopus WebSocket engine

This Dafny project models the server-side WebSocket engine of nanooctopus
(`nanooctopus_server/src/web_socket/`): the payload masker, the frame controller with its frame
reader, and the `WebSocket` wrapper around an inner socket. In the terms of RFC 6455 it is about
masking (section 5.3), the reassembly of fragmented messages (5.4), the answers to control frames and
the close handshake (5.5), and the form of a server's own frames (5.1). It proves which inputs are
accepted and what is delivered of them, what is sent, and where the read position and the state stand
over whole runs; where the code departs from its evident intent it proves exactly when. Checks the code
does not make, such as refusing unmasked client frames, are not claimed.

## How it is built

The code changes state step by step, so the model does too. `PayloadMasker`, `FrameController`,
`FrameReader`, `WebSocket` and the inner `Socket` are classes; buffers are arrays changed in place;
the loops of the source are loops here. Each method is proved equal to a function of the old state,
and the theorems are about those functions.

| file | content |
|---|---|
| `prelude.dfy`, `frames.dfy` | bytes, lengths, frames, headers, the codec parameter |
| `word_mask.dfy`, `masker.dfy`, `masker_laws.dfy` | word-wise masking, in place, and its laws |
| `wire.dfy`, `socket.dfy` | the transport: unread input, history, schedule |
| `frame_protocol.dfy`, `frame_controller.dfy` | control frames and frame reading: functions, then classes |
| `session.dfy`, `web_socket.dfy` | the WebSocket's operations: functions, then the class |
| `reading.dfy` | piecemeal reading refines taking a message in one go |
| `masked_frames.dfy`, `masked_messages.dfy` | masked frames and messages read piecemeal by the code as written |
| `messages.dfy`, `reassembly.dfy`, `ping_erasure.dfy` | the message grammar, reassembly, the effect of Pings |
| `rejections.dfy`, `wire_sync.dfy`, `sync_runs.dfy` | rejected frames, and where the read position stands |
| `runs.dfy`, `monitor.dfy`, `conformance.dfy` | whole runs, an observer of the history, accounting |
| `shutdown.dfy`, `close_rules.dfy` | closing; how many Close frames a run sends, and data sent after one |
| `loopback.dfy` | one WebSocket feeding another |
| `operations.dfy` | what each operation answers and does, every constant written out; socket errors; what stays unchanged |
| `codec_witness.dfy` | a toy codec showing that the assumption on the codec can be met |

Points a reader should know:

- **Transport.** The input is a finite byte sequence. Every call on the inner socket draws a `Fate`
  from a schedule: how many bytes a read may return (at least one when there is one), or that the
  call fails and how many bytes are lost. A theorem over all schedules covers all short reads and all
  I/O errors. A socket that was closed or aborted fails every later call.
- **Header codec.** The codec lives in the external crate edge_ws and is a parameter. `Lawful` is all
  that is assumed: a written header is read back, whatever follows. Payload calls of the codec
  (read a whole payload and unmask it; write a payload, nothing if it is empty) are contracts on
  the same byte stream. Theorems that do not mention `Lawful` hold for any codec and any input bytes.
- **Alignment.** The slice function that splits a buffer at word boundaries promises no particular
  split, so every split is covered, for 32-bit and 64-bit little-endian words.
- **Lengths.** `usize` is 64 bits wide. The buffer of a write and the payload of a frame are shorter
  than 2^64.
- **Masking key.** A key is kept as its four big-endian bytes.
- **Offset rule.** `AsWritten` is the code. `Additive` is the intended form, in which the offset keeps
  counting; it is labelled as such and used to show what a one-line change would give.
- **Tidy reads.** Under the code's offset rule the bytes of a masked frame depend on how it is read.
  Theorems about whole messages therefore state everything but the bytes (their number, the ending, the
  type, flags, state, wire and history) for every run, and the bytes themselves for tidy ones: a read that
  leaves bytes of its masked frame unread takes a multiple of four. Unmasked frames, and the intended
  offset rule, are always tidy. `masked_frames.dfy` and `masked_messages.dfy` say exactly what other runs do.
- **`hide` and `{:induction false}`.** Proofs hide definitions they do not need to stay fast, and
  induct only where their body does.

## Where the code differs from what it says

- `masker.rs:137-138` says the offset accounts for all bytes processed; it is assigned from the current
  chunk only. `ChunkRefinesBytewiseExactly`, `StreamExactly`, `StreamExactlyForEveryAlignment`,
  `MaskedFramesReadExactly`, `FullBuffersReadExactly`, `ShortReadsReadExactly` and
  `MaskedMessagesReadExactly` give the exact condition, from one chunk to whole frames and messages; `ChunksOfNineDependOnAlignment` is a concrete case, taken from the sizes in
  the source's own test.
- `frame_controller.rs:190-198` and `171-173` absorb an awaited Pong or Close without reading its
  payload, which is then taken for frames: `PongPayloadIsParsed`, `CloseResponsePayloadIsParsed`.
- A wait, read or handshake that rejects a frame (`mod.rs:217-227`, `241-266`, `307-310`) takes its header
  only and leaves the session Ready; the next operation takes the payload for headers. `SyncKeptExactly`
  says exactly when the read position is lost, `HandshakeStrandsPayload`, `RejectedPayloadIsDelivered` and
  `RejectedPayloadContinues` what comes of it, and `RunStaysInSync` covers every run in which it is not.
- `mod.rs:307-310` does not record a Close met inside a message, although `mod.rs:148-152` describes the
  state as "has received a close frame": `PeerCloseNoticedExactly`, `ReadErrorsExactly`,
  `PendingMessageKeepsState`, `MidMessageCloseStaysReady`.
- Section 5.5.1 of RFC 6455 forbids data after a Close. `mod.rs:327-330` looks at the state alone, which a
  Close sent inside a message or by a failed handshake leaves Ready: `DataAfterCloseExactly`,
  `ReadyAfterCloseExactly`, `StaysReadyExactly`, `WritesAfterFailedHandshake`.
- `mod.rs:365-370` repeats the handshake after the peer's Close was already answered: `OneCloseExactly`,
  `CloseSendsExactly`, `TwoCloseFrames`.
- `mod.rs:205-228` starts the wait for the peer's Close wherever the read position is, also in the middle of
  a frame: `HandshakeInsideFrame`.
- `mod.rs:205-228` does not look at the state; a handshake that completes over a closed session moves the
  state back: `MovesBackExactly`.
- `frame_controller.rs:340-343` explains Ok(0) by completion or by an empty buffer; it also occurs at end
  of stream inside a frame: `MeaningOfZero`, `StreamEndsInsideFrame`.

## Model

| member | source | states |
|---|---|---|
| WordMask.WordMaskByte | nanooctopus_server/src/web_socket/masker.rs:143-166 | For every phase n and both word sizes, byte k of the rotated and widened key is key byte (n + k) mod 4 |
| WordMask.WordXorIsBytewise | nanooctopus_server/src/web_socket/masker.rs:88-94 | XOR of a loaded machine word with a mask is XOR of each of its bytes |
| Masker.XorPlain | nanooctopus_server/src/web_socket/masker.rs:88-94 | The plain word loop masks its stretch in place as a bytewise pass from the mask's phase would, and touches nothing else |
| Masker.XorByFour | nanooctopus_server/src/web_socket/masker.rs:105-122 | The loop over four words at a time with its remainder has the same effect |
| Masker.PayloadMasker.constructor | nanooctopus_server/src/web_socket/masker.rs:18-23 | A new masker starts at offset 0 |
| Masker.PayloadMasker.NextMaskByte | nanooctopus_server/src/web_socket/masker.rs:46-50 | Returns the key byte of the current phase and advances by one |
| Masker.PayloadMasker.MaskSmallChank | nanooctopus_server/src/web_socket/masker.rs:73-77 | Masks exactly the given stretch bytewise from the current offset and advances by its length |
| Masker.PayloadMasker.MaskAligned | nanooctopus_server/src/web_socket/masker.rs:131-135 | The aligned part continues the current phase, for either word loop |
| Masker.PayloadMasker.MaskChankImpl | nanooctopus_server/src/web_socket/masker.rs:124-140 | For every split: prefix and aligned part follow the old offset, suffix byte j uses key byte (p + a + j) mod 4, and the offset becomes the chunk length |
| Masker.PayloadMasker.MaskChank | nanooctopus_server/src/web_socket/masker.rs:88-94 | The same for the plain form |
| Masker.PayloadMasker.MaskChankSimd | nanooctopus_server/src/web_socket/masker.rs:105-122 | The same for the four-at-a-time form |
| MaskerLaws.ChunkRefinesBytewiseExactly | nanooctopus_server/src/web_socket/masker.rs:73-140 | The fast form agrees with the bytewise form for all keys and bytes iff the offset is 0 mod 4 or the suffix is empty, and leaves the right phase behind iff the offset is 0 mod 4 |
| MaskerLaws.ChunkMaskedTwice | nanooctopus_server/src/web_socket/masker.rs:205-233 | Masking twice with fresh maskers of one key, through any two forms, words and splits, restores the buffer |
| MaskerLaws.AdditiveStream | nanooctopus_server/src/web_socket/masker.rs:137-139 | With the intended additive offset, streaming through any cuts and splits equals one bytewise pass |
| MaskerLaws.StreamExactly | nanooctopus_server/src/web_socket/masker.rs:124-140 | From any starting offset, the code as written streams chunks of given shapes correctly for all keys and bytes iff each prefix and aligned part meets the right offset and each suffix starts at 0 mod 4 |
| MaskerLaws.StreamExactlyForEveryAlignment | nanooctopus_server/src/web_socket/masker.rs:124-140 | Chunks of given lengths come out right for all alignments, keys and bytes iff every non-empty chunk starts a multiple of four bytes into the stream |
| MaskerLaws.ChunksOfNineDependOnAlignment | nanooctopus_server/src/web_socket/masker.rs:292-345 | Any eleven bytes in chunks of nine are masked right for every key under one alignment, and wrong for some key under another |
| FrameControllers.FrameController.SendBack | nanooctopus_server/src/web_socket/frame_controller.rs:419-443 | Returns a control payload unmasked under the given type, or the first error met |
| FrameControllers.FrameController.ProcessControlFrames | nanooctopus_server/src/web_socket/frame_controller.rs:154-205 | The loop ends on every finite input and computes the controller's step: flags, wire, history and result |
| FrameControllers.FrameController.WaitDataFrame | nanooctopus_server/src/web_socket/frame_controller.rs:209-231 | A reader for the first frame of a message, within bounds, or the error |
| FrameControllers.FrameController.SendPing | nanooctopus_server/src/web_socket/frame_controller.rs:243-264 | Sends a Ping and awaits its Pong, nothing while one is awaited |
| FrameControllers.FrameController.SendClose | nanooctopus_server/src/web_socket/frame_controller.rs:276-300 | Sends a Close and awaits its response, nothing while one is awaited |
| FrameControllers.FrameReader.ReceiveFramePayload | nanooctopus_server/src/web_socket/frame_controller.rs:346-401 | The loop ends, computes the reader's step, changes only the first n bytes of the buffer, and keeps masker offset plus remaining length within the frame's length |
| Reading.FinishedExactly | nanooctopus_server/src/web_socket/frame_controller.rs:414-416 | A reader is finished iff reading on completes the message and takes nothing off any wire |
| WebSockets.WebSocket.constructor | nanooctopus_server/src/web_socket/mod.rs:178-186 | A new WebSocket is Ready, has no message pending and sends Binary |
| WebSockets.WebSocket.SetSendFrameType | nanooctopus_server/src/web_socket/mod.rs:190-192 | Changes the type of later writes and nothing else |
| WebSockets.WebSocket.WaitMessage | nanooctopus_server/src/web_socket/mod.rs:236-266 | Computes the session's step; a pending message is reported without touching the wire |
| WebSockets.WebSocket.Read | nanooctopus_server/src/web_socket/mod.rs:282-319 | Computes the session's step; only the first n bytes of the buffer change |
| WebSockets.WebSocket.Write | nanooctopus_server/src/web_socket/mod.rs:327-348 | One unmasked, unfragmented frame of the current type, or the error |
| WebSockets.WebSocket.Flush | nanooctopus_server/src/web_socket/mod.rs:351-357 | Flushes the inner socket when Ready |
| WebSockets.WebSocket.CloseHandshake | nanooctopus_server/src/web_socket/mod.rs:205-228 | Close, flush, wait for the peer's Close; the new session and result |
| WebSockets.WebSocket.Close | nanooctopus_server/src/web_socket/mod.rs:365-387 | Graceful close after a completed handshake, abort after a failed one; the new session and result |
| WebSockets.WebSocket.Abort | nanooctopus_server/src/web_socket/mod.rs:389-398 | Aborts the inner socket unless already closed |
| WebSockets.WebSocket.CheckReady | nanooctopus_server/src/web_socket/mod.rs:406-426 | ConnectionReset unless Ready, otherwise the inner socket's answer |
| Reading.DrainIsWholeMessage | nanooctopus_server/src/web_socket/frame_controller.rs:346-401 | For any input bytes, buffers, alignments and short reads, reading until no message is pending gives the ending, number of bytes, flags, wire, history and end state of taking the message in one step, and with tidy reads its bytes |
| Reading.ScheduleIndependence | nanooctopus_server/src/web_socket/frame_controller.rs:360-378 | Two runs over one input with different schedules, buffers, alignments and words give the same ending, number of bytes, flags, state, remaining input and history, and if both are tidy the same bytes |
| Reading.DrainsAlike | nanooctopus_server/src/web_socket/frame_controller.rs:361-378 | The offset rule, the machine word and the starting offset show in nothing but the contents of the bytes delivered |
| MaskedFrames.FrameIsStreamed | nanooctopus_server/src/web_socket/frame_controller.rs:361-378 | In every run the bytes delivered of a masked frame are its masker's stream over the chunks read |
| MaskedFrames.MaskedFramesReadExactly | nanooctopus_server/src/web_socket/frame_controller.rs:361-378 | The code as written delivers every masked frame of a given length unharmed under given buffers and schedule iff the chunks read keep the masker in phase |
| MaskedFrames.FullBuffersReadExactly | nanooctopus_server/src/web_socket/frame_controller.rs:361-378 | Without short reads, buffers of one length deliver every masked frame of n bytes unharmed under every alignment iff n is at most that length or the length is a multiple of four |
| MaskedFrames.ShortReadsReadExactly | nanooctopus_server/src/web_socket/frame_controller.rs:361-378 | Under every schedule of short reads exactly the masked frames of at most one byte are delivered unharmed |
| MaskedMessages.MaskedMessagesReadExactly | nanooctopus_server/src/web_socket/mod.rs:282-319 | User reads of the code as written deliver every message of masked fragments of given lengths as the joined fragments, under given buffers and short reads, iff the chunks read of each fragment keep its masker in phase |
| Reading.MeaningOfZero | nanooctopus_server/src/web_socket/mod.rs:307-318 | With room in the buffer and no I/O error, Ok(0) iff the message will never give another byte: complete with its final frame consumed if none is pending afterwards, end of stream inside a frame if one is |
| Reading.ZeroUnderFaults | nanooctopus_server/src/web_socket/frame_controller.rs:360-383 | Whatever fails, Ok(0) with a message pending is end of stream inside a frame; inside a frame Ok(0) iff the call is granted and nothing is left; after a successful read a pending reader is never finished |
| Reading.StreamEndsInsideFrame | nanooctopus_server/src/web_socket/frame_controller.rs:366-369 | A stream that ends behind the header of a non-empty frame: Ok(0) with the message pending |
| Reading.ReadFailsExactly | nanooctopus_server/src/web_socket/mod.rs:307-310 | Without I/O errors a read fails with an error iff the message breaks off with it before giving another byte |
| Reading.TypeIsStable | nanooctopus_server/src/web_socket/mod.rs:104-117 | Once a wait has named a message's type, waiting again gives the same type and changes nothing, also after reads while the message is pending |
| Messages.PingIsAnswered | nanooctopus_server/src/web_socket/frame_controller.rs:182-188 | A Ping of at most 125 bytes is answered by an unmasked Pong with its unmasked payload, and processing goes on behind it |
| Operations.ControlFrameExactly | nanooctopus_server/src/web_socket/frame_controller.rs:168-202 | For every control frame: longer than 125 bytes it is rejected with only its header taken; an unawaited Ping or Close is answered with its own payload, unmasked; an awaited Pong or Close is absorbed with its payload left; an unawaited Pong is rejected |
| Operations.ControlFrameCutShort | nanooctopus_server/src/web_socket/frame_controller.rs:419-431 | A Ping or unawaited Close whose payload ends with the stream is not answered; the rest of the input is taken and the frame counts as malformed |
| Reassembly.PongPayloadIsParsed | nanooctopus_server/src/web_socket/frame_controller.rs:190-198 | An awaited Pong whose payload, with what is behind it, spells the frames of a message delivers that message, as if the peer had sent it |
| Shutdown.CloseResponsePayloadIsParsed | nanooctopus_server/src/web_socket/frame_controller.rs:168-181 | After an awaited Close a further handshake completes iff the first frame spelled by its payload and what is behind it, Pings aside, is a valid Close |
| Reassembly.MessageIsReceived | nanooctopus_server/src/web_socket/frame_controller.rs:346-401 | A word of the fragmentation grammar with Pings interleaved is received whole, with the first frame's type, and the wire is left at the next header |
| Reassembly.RecogniserEquivalence | nanooctopus_server/src/web_socket/frame_controller.rs:209-231 | On whole frames a message completes iff the frames start with a word of the section 5.4 grammar |
| Reassembly.ReadsCompleteExactlyOnMessages | nanooctopus_server/src/web_socket/mod.rs:282-319 | The same equivalence for user reads under any masks, buffers, alignments and short reads |
| Reassembly.ZeroReadExactlyOnEmptyMessages | nanooctopus_server/src/web_socket/mod.rs:282-319 | On whole frames a read at a message boundary gives Ok(0) iff the frames start with a message without payload |
| Reassembly.ReassemblyRoundTrip | nanooctopus_server/src/web_socket/tests/mod.rs:535-610 | For the encoder's frames of any message, with any masks and Pings, waiting gives the type and reading gives as many bytes as the fragments have, and with tidy reads the joined fragments, whatever the buffers and short reads; nothing else of the session changes |
| Reassembly.PingErasure | nanooctopus_server/src/web_socket/frame_controller.rs:182-188 | Deleting all valid Pings from a legal input changes neither type, ending, number of bytes nor session, nor with tidy reads the bytes; the output loses exactly one Pong per Ping, in order |
| PingErasures.PingsAreInvisible | nanooctopus_server/src/web_socket/frame_controller.rs:160-188 | Deleting all valid Pings from any whole frames, legal or not, changes neither what waiting gives nor ending, number of bytes, flags, state and pending message, nor with tidy reads the bytes |
| Rejections.RejectedPayloadIsDelivered | nanooctopus_server/src/web_socket/mod.rs:241-266 | A wait that rejects a frame leaves the session Ready; if the frame's payload, with what is behind it, spells a message, that message is delivered next |
| SyncRuns.RejectedPayloadContinues | nanooctopus_server/src/web_socket/mod.rs:307-310 | A read that rejects a frame inside a message leaves the session Ready in front of the frame's payload; if that, with what is behind it, spells a legal tail, it completes the message |
| SyncRuns.SyncKeptExactly | nanooctopus_server/src/web_socket/mod.rs:199-398 | On whole frames without I/O errors an operation begun in sync, a handshake between frames, keeps the read position iff it does not take the header alone of a frame with a payload; which frame that is follows from the unread frames before the call |
| SyncRuns.HandshakeStrandsPayload | nanooctopus_server/src/web_socket/mod.rs:217-227 | A handshake that meets a one-byte text frame ends Ready with that byte as unread input |
| SyncRuns.RunStaysInSync | nanooctopus_server/src/web_socket/mod.rs:199-398 | After any run on whole frames, failing waits, reads and handshakes included as long as no frame with a payload is rejected, the unread input is exactly the rest of the current frame as the reader counts it and then whole frames; bytes delivered and missing add up to the payloads of the data frames started; the input lost exactly headers, delivered bytes and answered control payloads; with tidy reads the delivered bytes are those payloads in order |
| Monitors.ControlFramesFollow | nanooctopus_server/src/web_socket/frame_controller.rs:154-205 | Control frame processing keeps to an observer's rules of sections 5.5.1 to 5.5.3, its flags agree with the observer's, and it sends a Close iff it reports the peer's without having awaited one |
| Conformance.RunConforms | nanooctopus_server/src/web_socket/mod.rs:199-399 | Every run, with any errors, has a history the observer accepts, ending with the controller's own flags |
| Conformance.OutputIsWholeFrames | nanooctopus_server/src/web_socket/mod.rs:327-348 | Every frame completed in a run is unmasked, unfragmented and, if a control frame, has a payload of at most 125 bytes; without a write error the output is exactly these frames |
| Conformance.LedgersBalance | nanooctopus_server/src/web_socket/frame_controller.rs:168-202 | Whatever fails, local closes equal responses plus one if awaited, and Close frames completed equal local closes plus answered ones; Pings sent equal accepted Pongs plus forgiven Pings plus one if awaited |
| Conformance.NoPongAwaited | nanooctopus_server/src/web_socket/frame_controller.rs:242-264 | In every run of WebSocket operations no Pong is ever awaited |
| Shutdown.RunMovesForward | nanooctopus_server/src/web_socket/mod.rs:144-156 | Along every run the state only moves from Ready to WsClosed to Closed |
| Shutdown.MovesBackExactly | nanooctopus_server/src/web_socket/mod.rs:205-228 | The state moves back iff a handshake completes over a closed session; on a wire that still works, iff the peer's next frame, Pings aside, is then a valid Close |
| Shutdown.SilentOnceShut | nanooctopus_server/src/web_socket/mod.rs:241-427 | Once not Ready, any run of data operations gives ConnectionReset each time and changes nothing; once Closed, close and abort give Ok and change nothing |
| Shutdown.CloseOutcomeExactly | nanooctopus_server/src/web_socket/mod.rs:365-387 | Without I/O errors close ends in Closed, gracefully and with Ok iff the peer's next frame, Pings aside, is a valid Close |
| Shutdown.HandshakeCompletesExactly | nanooctopus_server/src/web_socket/mod.rs:205-228 | Without I/O errors the handshake completes iff the peer's next frame, Pings aside, is a Close of at most 125 bytes, whatever follows it; both flags are then false; otherwise it gives InvalidFrame |
| Shutdown.HandshakeInsideFrame | nanooctopus_server/src/web_socket/mod.rs:205-228 | Begun while a frame is half read, the handshake takes the rest of its payload and what is behind it for headers: it completes iff the first frame these spell, Pings aside, is a valid Close, and fails if no header can be read |
| Shutdown.ClosedByPeerClearsFlags | nanooctopus_server/src/web_socket/frame_controller.rs:168-181 | Whatever the input, a reported peer close leaves both flags false |
| Shutdown.PeerCloseNoticedExactly | nanooctopus_server/src/web_socket/mod.rs:241-302 | At a message boundary, without I/O errors, a read or a wait leaves WsClosed iff the peer's next frame, Pings aside, is a valid Close; both flags are then false |
| Shutdown.ReadErrorsExactly | nanooctopus_server/src/web_socket/mod.rs:282-310 | On whole frames without I/O errors, exactly when a read fails and with which error: between the frames of a message and at a boundary the next frame behind Pings and empty fragments decides (ConnectionReset for a valid Close, InvalidFrame for any other misplaced or oversized frame and for the end of the stream); inside a frame never |
| Shutdown.PendingMessageKeepsState | nanooctopus_server/src/web_socket/mod.rs:307-310 | With a message pending no read or wait changes the state Ready, whatever arrives or fails |
| Shutdown.MidMessageCloseStaysReady | nanooctopus_server/src/web_socket/mod.rs:307-310 | A Close between two fragments is reported as a reset while the state stays Ready |
| Shutdown.TwoCloseFrames | nanooctopus_server/src/web_socket/mod.rs:365-370 | The exact history of a close after the peer's Close: two Close frames are sent |
| CloseRules.CloseSendsExactly | nanooctopus_server/src/web_socket/frame_controller.rs:276-300 | In any session, the handshake, and close unless already closed, complete one more Close frame iff no response is awaited and the two writes do not fail |
| CloseRules.OneCloseExactly | nanooctopus_server/src/web_socket/mod.rs:365-370 | Whatever fails, a run sends at most one Close frame iff at most one of its operations starts a handshake with no response awaited or answers the peer's Close |
| CloseRules.ReadyAfterCloseExactly | nanooctopus_server/src/web_socket/mod.rs:199-399 | A session is Ready after a Close frame was sent iff some read met a Close inside a message or some handshake failed with its Close sent |
| CloseRules.StaysReadyExactly | nanooctopus_server/src/web_socket/mod.rs:205-310 | Without I/O errors these are exactly a handshake whose next frame, Pings aside, is no valid Close, and between the frames of a message a read with a Close inside the message before any byte of it |
| CloseRules.DataAfterCloseExactly | nanooctopus_server/src/web_socket/mod.rs:327-348 | Whatever fails, a run sends a data frame after a Close iff an operation leaves the session Ready despite a Close and a later write in state Ready gets its header out |
| CloseRules.WritesAfterFailedHandshake | nanooctopus_server/src/web_socket/mod.rs:205-228 | The exact history of a handshake that meets a data frame, and a write after it |
| Loopback.LoopbackDelivers | nanooctopus_server/src/web_socket/mod.rs:282-348 | The output of any list of writes and type changes, fed to a second WebSocket, is delivered one message per write with type and bytes, empty ones included, for the code as written |
| Operations.WaitAnswersExactly | nanooctopus_server/src/web_socket/mod.rs:241-266 | At a message boundary without I/O errors, the answer of waiting for every frame that may come next: the type, ConnectionReset for a Close of at most 125 bytes, InvalidFrame for anything else and for the end of the stream |
| Operations.HandshakeExactly | nanooctopus_server/src/web_socket/mod.rs:205-228 | The exact history and unread input of a handshake: a Close with bytes 03 E8 unless a response is awaited, a flush, the answered Pings, the header of the frame met; nothing else of the session changes |
| Operations.SendCloseExactly | nanooctopus_server/src/web_socket/frame_controller.rs:276-300 | The two writes of a Close frame with any code, or the first that fails; the flag is set iff both are granted |
| Operations.SendPingExactly | nanooctopus_server/src/web_socket/frame_controller.rs:243-264 | A bare Ping header is sent unless one is outstanding; the flag is set iff it was granted |
| Operations.WriteExactly | nanooctopus_server/src/web_socket/mod.rs:327-348 | A write in state Ready succeeds iff both its calls are granted, and then adds one whole unmasked frame of the current type; otherwise Socket; nothing else of the session changes |
| Operations.FlushExactly | nanooctopus_server/src/web_socket/mod.rs:351-357 | A flush in state Ready succeeds iff the inner flush does, and then is in the history; nothing else of the session changes |
| Operations.CheckReadyExactly | nanooctopus_server/src/web_socket/mod.rs:406-426 | A readiness check in state Ready gives the inner socket's answer or its error and leaves no trace |
| Operations.AbortExactly | nanooctopus_server/src/web_socket/mod.rs:389-398 | Abort of a session that is not closed: if the inner abort is granted, Ok, Closed, socket shut ungracefully, unread input kept; otherwise Socket and the session as it was |
| Operations.SocketErrorsExactly | nanooctopus_server/src/web_socket/mod.rs:71-82 | Every operation takes input from the front only and only adds to the history; over an open socket it reports a socket error iff one of its calls on the inner socket failed |
| Operations.FieldsKept | nanooctopus_server/src/web_socket/mod.rs:178-398 | Which fields of the session each operation leaves alone, for any input and schedule |
| Operations.EveryCutIsCovered | nanooctopus_server/src/web_socket/masker.rs:126-127 | Every split of a stretch into prefix, whole words of four or eight bytes, and suffix is covered, and no other |

## Left out

- Frame header byte codec: external crate; a parameter with one law instead.
- Async scheduling: every operation has exclusive access, so awaits are sequential socket calls.
- HTTP server, endpoint handlers, handler macro, socket trait re-exports, demos, scripts, benches, logging: glue over other crates.
- Error display and kind mappings, `erase`, the close code table: one branch each; only the code of a normal closure is used.
- Payload length check: it compares a `usize` with the largest `usize` and never fails on 64-bit targets.
- 32-bit truncation of the 64-bit payload length, and big-endian targets.
- The value of an inner readiness check: taken from the schedule.
- What a failed write put on the wire: a write error is recorded in the history without its bytes.
- MaskChankImpl: the old offset plus the prefix stays below 2^64, as it does for the reader; beyond that the source panics or wraps, depending on the build.
- ReassemblyRoundTrip: the bytes are stated for tidy reads; what other reads of masked messages deliver is the subject of MaskedMessagesReadExactly.
- MaskedMessagesReadExactly: no Pings between the fragments; they draw from the schedule as well.
- PingErasure: compares the bytes of tidy runs only.
- ScheduleIndependence: compares the bytes of tidy runs only.
- RunStaysInSync: a failing wait, read or handshake is covered without I/O errors, which may lose any number of bytes, and a handshake between frames; Pings of the controller are not part of these runs.
- OutputIsWholeFrames: says nothing of the bytes on the wire once a write has failed.
