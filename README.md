# SLIP framing and pan/tilt streaming, modelled in Dafny

The firmware reads two potentiometers (pan and tilt) on an RP2040. It
oversamples each one with the ADC and packs both readings into a six-byte
packet. Each packet is framed with SLIP byte stuffing (RFC 1055: END = 0xC0,
ESC = 0xDB, ESC_END = 0xDC, ESC_ESC = 0xDD, and no leading END) and written
to a USB serial link. The crate also has a streaming SLIP decoder. It holds
a fixed buffer of `MAX_LEN` bytes, takes bytes from a reader, and hands out
one decoded frame at a time.

The model has two modules.

- `Slip` (`slip.dfy`) covers the codec.
  - `EncodeSlip` is the encoder. It is a loop that writes into a caller's
    array and is proved against the reference function `Encoded`.
  - The decoder's scan is specified as a left-to-right fold (`Step` and
    `Run`). `ScanBuffer` is that fold started from the initial state over
    the valid bytes of the buffer.
  - `Decoder` is a class. It has the `buf` array of `maxLen` bytes (the Rust
    const generic `MAX_LEN`) and the `bufIndex` cursor. Its `ReadSync` scans,
    un-escapes into `res` and compacts `buf` in place, in one loop. Its
    `Read` first stores a chunk from the reader.
  - The new state after each call is stated exactly: the contents of `res`,
    the whole memory of `buf`, and `bufIndex`. The round trip (decoding an
    encoded frame) and the decoder's corner cases are lemmas.
- `PanTilt` (`pantilt.dfy`) covers one iteration of the streaming loop.
  - `AdcOversample` sums a burst with a 32-bit `usize` and takes the floor
    mean as two little-endian bytes.
  - The iteration assembles the packet and encodes it into the 11-byte
    frame buffer.
  - It is proved that this buffer always suffices, and that the frame
    decodes back to the two readings.

Bytes are the newtype `Byte` and ADC samples are the newtype `U16`. A
`usize` is 32 bits wide, as on the RP2040.

## Model

| member | source | states |
|---|---|---|
| Slip.Stuff | src/slip.rs:15-28 | The wire bytes for one payload byte: ESC ESC_END for END, ESC ESC_ESC for ESC, otherwise the byte itself. Proved: two bytes exactly when the byte is reserved, never an END, and starting with ESC exactly when escaped. |
| Slip.StuffAll | src/slip.rs:13-29 | Definition: the stuffing of every payload byte, concatenated in input order. |
| Slip.Encoded | src/slip.rs:10-33 | Definition: the stuffed body followed by one END, with no leading END. |
| Slip.Step | src/slip.rs:58-83 | Definition: one pass of `read_sync`'s loop on the scan variables. After END nothing changes. Otherwise `read_amount` grows by one: END ends the frame, ESC sets the escape, an escaped ESC_END or ESC_ESC emits END or ESC, any other escaped byte is dropped, and an unescaped byte is emitted. |
| Slip.Run | src/slip.rs:57-84 | Definition: `Step` applied to the bytes from index 0 on, in order. |
| Slip.Compacted | src/slip.rs:59-61 | The buffer memory after `read_sync`. If a frame ended, the bytes after it move down to index 0 and the rest of memory keeps its old bytes. Otherwise the memory is unchanged. Proved: the length never changes. |
| PanTilt.Sum | src/pantilt.rs:84-88 | Definition: the sum of the samples, accumulated from the first sample on as the loop does. |
| PanTilt.Packet | src/pantilt.rs:52 | Definition: `[0x01, 0x01, pan[0], pan[1], tilt[0], tilt[1]]`. |
| Slip.EncodeSlip | src/slip.rs:10-34 | Needs an output array at least as long as the encoded frame. Writes exactly `Encoded(input)` at its start and leaves every later byte untouched. Returns `|input| + ReservedCount(input) + 1`. |
| Slip.StuffInto | src/slip.rs:14-28 | One pass of the encoder loop. Writes the stuffing of one byte at `offset`: ESC ESC_END for END, ESC ESC_ESC for ESC, otherwise the byte itself. Advances the offset by that length and changes nothing else. |
| Slip.EncodedLength | src/slip.rs:10-33 | The frame is `|s| + ReservedCount(s) + 1` bytes long. At most `|s|` bytes are reserved, so the frame is at most `2*|s| + 1` bytes. |
| Slip.EndOnlyAtLast | src/slip.rs:15-31 | The frame ends with END, and no earlier byte of it is END. |
| Slip.EncodedExamples | src/slip.rs:13-31 | Concrete frames: `[]` gives `[END]`; END gives ESC ESC_END END; ESC gives ESC ESC_ESC END; other bytes are copied in order, then END. |
| Slip.ScanBuffer | src/slip.rs:57-91 | The scan ends iff the valid bytes contain END. If it ends, it consumes exactly up to and including the first END. If not, it consumes every byte. The decoded output is strictly shorter than the bytes consumed when a frame ends, so `write_amount < read_amount <= buf_index`. |
| Slip.DecodeEncoded | src/slip.rs:57-88 | Scanning an encoded frame followed by any bytes ends. It consumes exactly the frame, yields exactly the payload, and leaves no escape pending. |
| Slip.PartialFrameWaits | src/slip.rs:57-91 | A proper prefix of a frame has no END. It is consumed entirely and no frame ends. |
| Slip.NoEndLeavesBuffer | src/slip.rs:57-91 | With no END among the valid bytes, no frame ends, every byte is scanned and the buffer memory is unchanged. |
| Slip.ReadSyncRoundTrip | src/slip.rs:57-91 | Suppose the valid bytes are a frame of payload `S` followed by `T`. Then the scan yields `S`, the new `buf_index` is `|T|`, and after compaction `T` is at the front of the buffer. |
| Slip.EscThenEnd | src/slip.rs:64-67 | ESC then END ends the frame, and the ESC emits nothing. |
| Slip.EscThenOther | src/slip.rs:68-77 | ESC then a byte that is not ESC_END, ESC_ESC, ESC or END drops both bytes and clears the escape. |
| Slip.EscThenEsc | src/slip.rs:66-67 | ESC ESC emits nothing and leaves the escape pending. |
| Slip.Decoder.constructor | src/slip.rs:43-49 | The buffer is `maxLen` zero bytes and the cursor is 0. |
| Slip.Decoder.ReadSync | src/slip.rs:51-92 | Returns the decoded length if a frame ended, otherwise 0. Lowers `bufIndex` by the bytes consumed, or leaves it unchanged. `res` becomes the decoded bytes followed by its old contents. `buf` becomes `Compacted` of its old memory, so only the first frame is consumed. `bufIndex <= maxLen` is preserved. |
| Slip.Decoder.ScanAndCompact | src/slip.rs:52-84 | The loop of `read_sync`. Its `ended`, `read_amount` and `write_amount` are those of `ScanBuffer` on the valid bytes. It writes `res` and shifts `buf` as `ReadSync` states. |
| Slip.Decoder.Unescape | src/slip.rs:62-82 | The branch taken before an END. It is one `Step` of the scan on the byte, and `res` holds the decoded bytes so far. |
| Slip.Decoder.MoveDown | src/slip.rs:59-61 | The branch taken after the END. It copies byte `i` to `copy_i` and keeps every byte after the frame shifted down to the front. |
| Slip.Decoder.Store | src/slip.rs:101-105 | The reader fills the free part of the buffer from `buf_index` on and leaves the rest as it was. |
| Slip.Decoder.Read | src/slip.rs:100-108 | Stores a chunk no longer than the free space and raises `bufIndex` by its length. Then it decodes as `ReadSync` does, over the old valid bytes followed by the chunk. |
| Slip.ReadFrameInChunks | src/slip.rs:100-108 | A frame, possibly followed by more bytes, reaches a fresh decoder in any number of reads, with the END arriving in the last read. Every earlier read returns 0. The last read returns the payload, written at the start of `res`, and the bytes after the frame remain as the valid bytes. |
| Slip.ReadEarly | src/slip.rs:100-108 | One read before the END arrives returns 0. The valid bytes become everything delivered so far. |
| Slip.ReadLast | src/slip.rs:100-108 | The read that brings the END returns the payload length, writes the payload at the start of `res`, and leaves exactly the bytes after the frame as the valid bytes. |
| PanTilt.Mean | src/pantilt.rs:84-90 | The result is the floor of sum / count: `m * n <= Sum(s) < (m + 1) * n`. |
| PanTilt.SumWithin | src/pantilt.rs:84-88 | A burst whose samples lie in [lo, hi] sums to between `n*lo` and `n*hi`. |
| PanTilt.SumFitsUsize | src/pantilt.rs:84-88 | A burst of at most 65537 samples (64 in the firmware) sums to less than 2^32, so `sum += *i as usize` never overflows. |
| PanTilt.MeanWithin | src/pantilt.rs:84-90 | The mean lies between the smallest and the largest sample. |
| PanTilt.MeanOfConstant | src/pantilt.rs:84-90 | If every sample equals `v`, the mean is `v`. |
| PanTilt.LeBytes | src/pantilt.rs:92 | Two bytes, least significant first, whose little-endian value is the reading. |
| PanTilt.AdcOversample | src/pantilt.rs:84-92 | The accumulation loop. It returns `LeBytes(Mean(samples))`; the value of those bytes is the floor mean. Its 32-bit additions do not wrap and the `as u16` does not truncate. |
| PanTilt.PacketRoundTrip | src/pantilt.rs:52 | Parsing the packet (two 0x01 markers, then two little-endian pairs) recovers pan and tilt. |
| PanTilt.PacketExample | src/pantilt.rs:52 | Pan 0x1234 and tilt 0xABCD give `[01, 01, 34, 12, CD, AB]`. |
| PanTilt.FrameLength | src/pantilt.rs:52-56 | The framed packet is 7 bytes plus one per reserved byte among the four reading bytes. So it is at most 11 bytes, and `encode_slip` stays inside `buf`. |
| PanTilt.FrameCapacityIsTight | src/pantilt.rs:54-56 | Readings of 0xC0C0 on both channels need all 11 bytes. |
| PanTilt.Tick | src/pantilt.rs:49-58 | One loop iteration over the two ADC bursts in the order they are sampled. The first burst gives the pan reading and the second the tilt reading. The frame it sends is the encoding of their packet and is at most 11 bytes. One `read_sync` scan consumes the frame whole and parses it back to the two means, pan first. |

## Left out

- `src/main.rs` is not part of this model. It holds the USB descriptors, the
  static buffers, interrupt binding, task spawning, the reconnect loop and
  the endpoint error mapping. These are device setup and async plumbing.
- ADC and DMA hardware (`setup`, `Adc::read_many`, the 1199 clock divider
  and its `.unwrap()`). Each burst of samples is a parameter of
  `AdcOversample` and `Tick`.
- The `Ticker`, `write_packet` and the `?` on the transport. These are
  timing and transport effects. `Tick` returns the bytes it would hand to
  `write_packet`, and the infinite loop is one call per iteration.
- The real reader behind `Read` and its `.unwrap()`. The bytes it delivers
  are the `chunk` parameter, of any length up to the free space.
- The `ErrorType`/`Infallible` trait plumbing. `Read` returns the count
  directly.
- Slip.Decoder.ReadSync: `read_sync` indexes `res` past its end, a panic,
  when `res` is shorter than what the scan writes. The model requires `res`
  to be long enough for the scan's output and distinct from `buf`, as the
  borrow rules guarantee.
- PanTilt.AdcOversample: an empty burst (a division by zero) and a burst
  whose sum would overflow `usize` are excluded by its precondition. The
  firmware always uses 64 samples.
- A decoder whose buffer is full and holds no END stays stuck. Every later
  `Read` gets an empty chunk and returns 0. The model shows this through
  `Read`'s contract but does not state it as a separate lemma.
- Pan-before-tilt ordering is a real-time effect. `Tick` takes the two
  bursts in sampling order, and its contract says the first becomes the pan
  reading. It does not model the time at which each burst is taken.
- Slip.EncodeSlip: `encode_slip` indexes `output` past its end, a panic,
  when `output` is shorter than the frame. The model requires room for the
  whole frame. The firmware's only call, into an 11-byte buffer, meets this
  requirement, as `FrameLength` proves.
- Slip.Decoder.Store: the reader is handed the whole free slice
  `buf[buf_index..MAX_LEN]`, and nothing in the code limits what it does to
  the part it does not report as filled. The model assumes it leaves that
  part untouched, which is why `Read`'s contract can give the whole buffer
  memory. Only the stale bytes past the valid ones depend on this. The
  valid bytes, the counts and `res` do not.

## Design notes

- The decoded output of one `read_sync` is never longer than the raw bytes
  it consumes. Writing beyond `buf_index - 1` bytes of `res` is therefore
  impossible when a frame ends, but `res` is written even when none does.
- Both marker bytes are 0x01, which is not reserved. At most the four
  reading bytes can need escaping, so the 11-byte frame buffer is exactly
  large enough (6 + 4 + 1). `FrameLength` proves the bound and
  `FrameCapacityIsTight` shows it is reached. A 13-byte worst case would
  only hold if the markers could be reserved bytes, and in this code they
  cannot.
