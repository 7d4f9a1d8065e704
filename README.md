# IDotMatrixXLedFx relay core in Dafny

The relay listens for WLED realtime UDP datagrams from LedFx. It paints
them into a 32x32 RGB frame and pushes that frame to an iDotMatrix LED
display over Bluetooth Low Energy. The display accepts a PNG, framed in
its own transfer format and written in 512-byte pieces.

This project models that path:

- **Datagram decoding** (`core_ultra_simple.py`, `process_wled_packet`).
  Protocol 4 ("DNRGB") carries a tag byte, a reserved byte, a big-endian
  start index and RGB triples. The module `Wled` gives the meaning of one
  datagram as a pure function on the row-major 1024-pixel list. In
  `LedReceiver`, the class `SimpleLedReceiver` keeps the frame in an
  `array2<Rgb>` and updates it in place with the loop of `process_wled_packet`. That
  loop is proved against the pure function.
- **One tick of the main loop** (`run`). It reads up to ten datagrams
  from the non-blocking socket and applies them in arrival order. If any
  was accepted, it flattens the frame and sends it, and it counts the
  frame only when the send succeeded. The socket is a sequence of
  pending datagrams.
- **Image framing** (`idm_display.py`, `create_image_payloads`). The PNG
  is cut into 65535-byte fragments. Each fragment gets a 5-byte header
  (total size as `<H`, a zero `<H`, continuation flag 0 or 2) and the PNG
  length as `<I`. `struct.pack` range errors are a `Result`. The loop
  that extends the byte buffer is a method proved against a recursive
  definition. Lemmas prove:
  - when framing succeeds;
  - the payload's length;
  - its exact byte layout;
  - that stripping the 9-byte prefixes gives the PNG back.
- **Sending a frame** (`main.py`, `send_frame`). The BLE peripheral is an
  object that logs the writes it acknowledged. A write may fail. The
  wrapper's class-level state (frame counter, last send time,
  notifications flag) is one object. The proofs cover:
  - the exact write sequence on success: the 10-byte frame header, then
    the 512-byte chunks whose concatenation is the framed image;
  - a proper prefix of that sequence when a write fails;
  - nothing written when framing fails.

The PNG encoder (PIL) is a function parameter. The clock is a parameter
`now`.

Points of the code worth knowing:

- The 4-byte PNG length follows the header of every fragment, not only
  of the first (`idm_display.py:20-25`).
- `IDMDisplayWrapper._frame_counter` goes up before anything can fail
  (`main.py:23`). Only `SimpleLEDReceiver.frame_count` counts successful
  sends (`core_ultra_simple.py:107-108`). `Tick` proves the second
  counter, `SendFrame` the first.
- The frame header is a separate write before the chunks. It is not part
  of the first chunk (`main.py:49-54`).
- `struct.pack('<H', total_size)` overflows as soon as the PNG has 65535
  bytes (`IdmDisplay.PayloadsOkIff`). A successful framing therefore
  never has more than one fragment, and the continuation flag 2 never
  reaches the link (`IdmDisplay.FragmentCount`, `IdmDisplay.PayloadLayout`).

## Model

| member | source | states |
|---|---|---|
| Bytes.PackU16 | idm_display.py:22 | `<H` packing succeeds iff the value is below 2^16; the two bytes read back little-endian as the value; otherwise the error names format `H` and the value |
| Bytes.PackU32 | idm_display.py:23 | `<I` packing succeeds iff the value is below 2^32; the four bytes read back little-endian as the value; otherwise the error names format `I` |
| Chunking.Chunks | idm_display.py:15 | every slice of the comprehension is non-empty and at most `n` long, and all but the last are exactly `n` long |
| Chunking.ChunksConcat | idm_display.py:15 | concatenating the slices gives back the input |
| Chunking.ChunkAt | idm_display.py:15 | slice `i` is `s[i*n : i*n+n]` cut at the end of `s`, and starts inside `s` |
| Chunking.ChunkCount | idm_display.py:15-16 | the number of slices is the ceiling of `len / n`, and zero exactly for the empty input |
| Chunking.ChunkLengthsDependOnLengthOnly | main.py:46 | slice boundaries depend only on the input's length, never on its contents |
| IdmDisplay.PackHeader | idm_display.py:22 | `<HHB` header packing succeeds iff the total size fits 16 bits; then it has 5 bytes: the total size little-endian, two zero bytes and the flag; otherwise it fails with the total size's `H` error |
| IdmDisplay.TotalSize | idm_display.py:15-16 | `total_size` is the PNG length plus the ceiling of `len / 65535` |
| IdmDisplay.ContinuationFlag | idm_display.py:22 | the flag byte is 0 for the first fragment and 2 for every later one |
| IdmDisplay.FrameFragments | idm_display.py:20-25 | framing fragments `i..` succeeds iff none remain or both the total size fits `<H` and the PNG length fits `<I`; a failure carries the `H` error when the total size is too large (it is packed first), otherwise the `I` error |
| IdmDisplay.ImagePayloads | idm_display.py:12-27 | `create_image_payloads` returns a buffer iff the PNG is empty or `total_size` fits 16 bits; otherwise it raises the `H` error for `total_size` |
| IdmDisplay.CreateImagePayloads | idm_display.py:12-27 | the in-place buffer loop returns exactly the recursive framing of all fragments, including its error |
| IdmDisplay.PayloadsOkIff | idm_display.py:15-22 | framing succeeds iff the PNG is shorter than 65535 bytes (the empty PNG included); a failure carries `OutOfRange('H', total_size)` |
| IdmDisplay.FragmentCount | idm_display.py:15-16 | the fragment count is the ceiling of `len / 65535`, zero only for the empty PNG, and at most one whenever framing succeeds |
| IdmDisplay.FrameFragmentsLength | idm_display.py:20-25 | framing fragments `i..` adds 9 bytes per fragment to their total length |
| IdmDisplay.PayloadLength | idm_display.py:12-27 | a successful payload is the PNG length plus 9 bytes per fragment |
| IdmDisplay.StripFrameFragments | idm_display.py:20-25 | removing the 9-byte prefix before each framed fragment gives back the fragments concatenated |
| IdmDisplay.PayloadRoundTrip | idm_display.py:12-27 | stripping the prefixes from a successful payload gives back the PNG |
| IdmDisplay.PayloadLayout | idm_display.py:20-25 | a successful non-empty payload is: total size `len+1` as `<H`, two zero bytes, flag 0, the PNG length as `<I`, then the PNG |
| IdmDisplay.FrameHeader | idm_display.py:53-55 | the frame header is 10 bytes whose first two bytes are its own length, little-endian |
| IdmDisplay.EnableNotifications | idm_display.py:41-50 | the synchronous notification setup always reports success |
| DisplayWrapper.FrameWritesCarryPayload | main.py:46-54 | a frame's writes are the header and then one write per 512-byte chunk. Every write goes to the write characteristic of the display service. Chunk writes carry 1..512 bytes, all full but the last, and together exactly the framed image |
| DisplayWrapper.FrameWrites | main.py:46-54 | a frame takes one write more than it has 512-byte chunks, and the first write carries the frame header |
| DisplayWrapper.CarriedChunks | main.py:53-54 | the chunk writes carry the chunks' concatenation, in order |
| DisplayWrapper.FrameWritesPrefix | main.py:49-54 | the header and the first `i` chunk writes are a proper prefix of the frame's writes while chunks remain, and all of them once none remain |
| DisplayWrapper.Peripheral.WriteRequest | main.py:50 | an acknowledged write is appended to the link log; a refused one leaves it unchanged |
| DisplayWrapper.WriteFrame | main.py:46-54 | the link log grows by all of the frame's writes when every write succeeds, and otherwise by a proper prefix ending at the failed write |
| DisplayWrapper.IdmDisplayWrapper.constructor | main.py:15-17 | the counter and send time start at 0, and notifications start disabled |
| DisplayWrapper.IdmDisplayWrapper.SendFrame | main.py:19-57 | the counter goes up by one and notifications are on, whatever happens. A framing error writes nothing. Otherwise the log grows by all of the frame's writes (success) or by a proper prefix of them (failure). The send time moves to `now` only on success |
| Wled.StartIndex | core_ultra_simple.py:42 | the start index is bytes 2 and 3 big-endian, below 2^16 |
| Wled.Accepted | core_ultra_simple.py:38-39 | a datagram is handled iff it has at least 4 bytes and byte 0 is the DNRGB tag 4 |
| Wled.LedCount | core_ultra_simple.py:43-45 | the triple count is the number of complete triples after the 4-byte header |
| Wled.WriteLeds | core_ultra_simple.py:46-58 | writing triples from `i` on sets exactly the covered pixels at or past `start + i` to their triple, and leaves the others |
| Wled.ApplyPacket | core_ultra_simple.py:36-64 | after a datagram, each covered pixel holds its triple and every other pixel keeps its value |
| Wled.ApplyAll | core_ultra_simple.py:93-98 | the drained datagrams are applied in arrival order; when none is accepted the frame is unchanged |
| Wled.ApplyAllSnoc | core_ultra_simple.py:93-98 | draining one more datagram applies it after all earlier ones |
| Wled.AnyAcceptedSnoc | core_ultra_simple.py:96-97 | `frame_updated` after one more datagram is the old value or that datagram's acceptance |
| Wled.TripleInBounds | core_ultra_simple.py:50-52 | a triple index below the triple count never reads past the datagram, so the `continue` branch is dead |
| Wled.CoveredInGrid | core_ultra_simple.py:54-57 | a covered pixel's row and column are inside the grid, so the row guard always holds |
| Wled.RejectedLeavesFrame | core_ultra_simple.py:38-39 | a datagram shorter than 4 bytes or with a tag other than 4 leaves the frame unchanged |
| Wled.AcceptedWithoutEffect | core_ultra_simple.py:45-48 | an accepted datagram whose start is past the frame, or that has no complete triple, leaves the frame unchanged |
| Wled.ApplyPacketIdempotent | core_ultra_simple.py:46-58 | applying the same datagram twice gives the frame of applying it once |
| Wled.ReservedByteIgnored | core_ultra_simple.py:42-43 | the effect of a datagram does not depend on byte 1 |
| Wled.TruncationHarmless | core_ultra_simple.py:95 | cutting a datagram to the 4096 bytes `recvfrom` returns does not change its effect |
| Wled.LastWriterWins | core_ultra_simple.py:93-98 | of two datagrams, the later one decides every pixel it covers; elsewhere the earlier one or the old value shows |
| Wled.ScenarioThreePixels | core_ultra_simple.py:36-60 | `[4,0,0,0,255,0,0,0,255,0,0,0,255]` paints pixels 0, 1 and 2 red, green and blue and leaves the rest |
| Wled.ScenarioLastPixel | core_ultra_simple.py:46-58 | a datagram starting at 1023 with two triples paints only pixel (31,31); the second triple is dropped |
| Wled.ScenarioUnknownTag | core_ultra_simple.py:38-39 | a datagram with tag 7 is rejected and changes nothing |
| LedReceiver.Flatten | core_ultra_simple.py:70 | the flattened frame has 1024 pixels, and pixel (x, y) is at index `y * 32 + x` |
| LedReceiver.SimpleLedReceiver.constructor | core_ultra_simple.py:24-25 | the frame starts black and the frame count at 0 |
| LedReceiver.SimpleLedReceiver.ProcessWledPacket | core_ultra_simple.py:36-64 | returns true iff the datagram has at least 4 bytes and tag 4; the frame buffer afterwards is the datagram applied to the one before |
| LedReceiver.SimpleLedReceiver.SendFrameSimple | core_ultra_simple.py:66-78 | sends the flattened frame with the outcome `send_frame` promises, and reports whether it raised |
| LedReceiver.SimpleLedReceiver.ReceiveOne | core_ultra_simple.py:95-98 | one receive step applies datagram `i` after the earlier ones, and raises `frame_updated` iff it was accepted |
| LedReceiver.SimpleLedReceiver.Drain | core_ultra_simple.py:89-103 | reads `min(pending, 10)` datagrams and leaves the rest in the socket. The frame is those datagrams applied in order. `frame_updated` is true iff one of them was accepted |
| LedReceiver.SimpleLedReceiver.Tick | core_ultra_simple.py:88-108 | drains as above, sends the frame iff a datagram was accepted and touches nothing on the link otherwise, and counts the frame iff the send succeeded |

## Left out

- Sockets: binding, `setblocking` and `close` are not modelled. The queue
  of pending datagrams stands in for the socket, and an empty queue is
  `BlockingIOError`. Other receive errors (`core_ultra_simple.py:101-103`)
  are not modelled, because they depend on the operating system.
- Datagrams in the queue are taken to be what `recvfrom(4096)` returns.
  `Wled.TruncationHarmless` shows that cutting them to 4096 bytes changes
  nothing.
- Pacing in `run`: the clock, the 33 ms interval, the sleep, FPS logging
  and the `KeyboardInterrupt` cleanup are left out. They are timing and
  I/O. `Tick` models one due tick.
- PNG encoding: PIL's `Image` building and PNG writer are a function
  parameter. The round trip from pixels to PNG and back is therefore not
  stated. An exception from the encoder is not modelled.
- The sparse dictionary form of `pixels` in `send_frame`
  (`main.py:33-35`) is not modelled, because the relay always passes the
  dense list.
- `enable_notifications_async` and the notification callback are left
  out, because the relay never calls them.
- Logging calls are left out, because they have no effect on state.
- The `except` branch of `process_wled_packet` (`core_ultra_simple.py:62-64`)
  is not modelled, because nothing in the body can raise for a byte
  string.
- Bluetooth discovery, connection and the program entry point are left
  out. They are outside these files, or I/O.
- The `y < 32` guard is kept in `ProcessWledPacket`. `Wled.CoveredInGrid`
  shows it always holds.
- Concurrency is not modelled: the Python program is single-threaded.
