# Screen caster: frame pixel layer and record-framing read loop

This project is a Dafny model of two parts of a small screen caster
written in Rust, with proofs about them.

The first part is the frame pixel layer (`Screen`, in `screen.dfy`):

- `convert_bgra_to_rgba` turns a padded BGRA capture buffer into packed
  RGBA. The row stride is `frame.len() / height`. Each row is sliced at
  `y * stride` and every pixel has its red and blue bytes swapped.
- `crop` paints four edge bands of an RGBA buffer white, in place. The
  bands come from four percentages.
- `blank` paints every whole 4-byte pixel white, in place.
- `ScreenCapture` is the single-slot "latest frame" cell. It starts as
  the empty 0x0 frame. `receive_frame` peeks at it. The capture thread
  publishes converted frames into it, retries on would-block and stops on
  any other device error or when the receiver is gone.

The second part is the client's receive loop (`Client`, in `client.dfy`),
the background task of `connect_to_server`. Each iteration:

1. checks the shutdown flag;
2. reads a 4-byte big-endian length;
3. reads that many payload bytes;
4. forwards the payload to the consumer.

At end of stream the loop forwards one empty message as a "server closed"
sentinel and stops. Any other read error stops it silently. It also stops
when the consumer has dropped its receiver.

`common.dfy` holds the shared `byte` and `Option` types.

How the model is built:

- The in-place operations (`crop`, `blank` and the band loops) are methods
  on the frame's `array<byte>`. Each is specified by a function of the old
  contents: `Cropped`, `Blanked`, `Filled`.
- The conversion is a method with the source's nested loops. It is proved
  equal to the reference image `BgraToRgba`, and the layout of that image
  is proved pixel by pixel.
- The watch slot is the class `ScreenCapture`. Its capture loop reads a
  sequence of device results and is proved equal to the function
  `CaptureFrom`.
- The socket is the sequence of bytes the server sent plus how the stream
  ends past them: `Eof` (the server closed) or `Failure` (any other I/O
  error). The shutdown flag and the consumer's drop are given as the
  iteration at which each happens.
- The read loop fills a 4-byte array and a payload array with `read_exact`.
  It is proved equal to the byte-level function `ReadFrom`.
- `ReadFrom` is in turn proved equal to a message-level reference,
  `Delivery`, over the records that `SplitRecords` finds in the stream.
  `Records` is the writing side's encoder, used as the reference for the
  round trip. The server is not part of this model.

Notes on behaviour the proofs make explicit:

- The conversion needs `height > 0` and the last row's `width * 4` bytes
  inside the buffer (`Convertible`). Otherwise the source divides by zero
  or slices out of range and panics. `PaddedRowsConvertible` shows that a
  stride of at least `width * 4` bytes is enough.
- `read_exact` reports `UnexpectedEof` even at a clean record boundary.
  So every server close yields exactly one sentinel, unless the consumer
  is gone by then.
- A zero-length record is delivered as an empty message. The consumer
  cannot tell it apart from the sentinel (`EmptyRecordLooksLikeClose`,
  `ZeroLengthRecordIsSentinel`).
- The shutdown flag is read only at the top of an iteration. A record
  whose reads have begun is still delivered (`DisconnectStops`).

## Model

| member | source | states |
|---|---|---|
| Screen.ConvertBgraToRgba | src/screen.rs:9-26 | the nested row/pixel loops build exactly the reference image `BgraToRgba` |
| Screen.PushRow | src/screen.rs:20-22 | the inner loop appends the row converted pixel by pixel, bytes 2, 1, 0, 3 of each chunk, to what was built so far |
| Screen.ConvertRowAt | src/screen.rs:20-21 | byte c of pixel x of a converted row is byte 2, 1, 0 or 3 (for c = 0, 1, 2, 3) of input pixel x |
| Screen.ConvertedLayout | src/screen.rs:10-25 | the output has exactly `w * h * 4` bytes; output byte `(y*w + x)*4 + c` equals input byte `y*stride + x*4 + [2,1,0,3][c]` with `stride = len / h`, which lies inside the input; padding beyond `w * 4` bytes per row is dropped |
| Screen.FlattenAt | src/screen.rs:15-23 | rows of equal length L appended one after another put byte k of row y at offset `y*L + k` |
| Screen.ConvertedEmptyIff | src/screen.rs:13-25 | the converted image is empty exactly when the width is 0 |
| Screen.PaddedRowsConvertible | src/screen.rs:10-17 | with `height > 0` and a stride of at least `width * 4`, every row slice `frame[y*stride .. y*stride + width*4]` is in range |
| Screen.PixelBound | src/screen.rs:118-121 | a band width is within half a pixel of `percent / 100 * dim` when that is positive, and 0 (the saturating cast) when it is not |
| Screen.PixelBoundFits | src/screen.rs:118-121 | a percentage in [0, 100] gives a band no wider than its dimension |
| Screen.CropBoundsFit | src/screen.rs:117-121 | percentages in [0, 100] make all four bounds fit their dimensions, so `width - right_bound` and `height - bottom_bound` do not underflow and every write is in range |
| Screen.FillRect | src/screen.rs:124-129 | a band loop paints exactly the pixels of its rectangle white and leaves every other byte unchanged |
| Screen.Crop | src/screen.rs:112-151 | given bands that fit the frame, `crop` turns the buffer into `Cropped` of the old contents, writing only inside the buffer |
| Screen.CroppedAt | src/screen.rs:124-150 | after the four band loops a byte is white when its pixel lies in a band and unchanged otherwise |
| Screen.CropEffect | src/screen.rs:124-150 | every channel of pixel (x, y) is 255 after `crop` when `x < left`, `x >= w - right`, `y < top` or `y >= h - bottom`; every other byte is unchanged; the length is unchanged |
| Screen.CropIdempotent | src/screen.rs:118-150 | cropping twice with the same bounds equals cropping once |
| Screen.Blank | src/screen.rs:153-160 | with the flag set, the buffer becomes `Blanked` (every whole 4-byte chunk white, a short tail kept); without it, the buffer is unchanged |
| Screen.BlankAfterCrop | src/screen.rs:153-160 | blanking a cropped `w*h*4` buffer leaves every byte 255 |
| Screen.BlankIdempotent | src/screen.rs:153-160 | blanking twice equals blanking once |
| Screen.ScreenCapture.constructor | src/screen.rs:50-54 | the slot starts as the empty 0x0 frame |
| Screen.ScreenCapture.ReceiveFrame | src/screen.rs:96-103 | `None` exactly when the slot's data is empty, otherwise the slot's frame; the slot is not changed |
| Screen.ReceiveBeforePublish | src/screen.rs:96-103 | before anything is published, `receive_frame` returns `None` |
| Screen.ScreenCapture.CaptureLoop | src/screen.rs:65-90 | the loop leaves the slot, the stop reason and the number of device calls exactly as `CaptureFrom` says |
| Screen.SlotHoldsLatest | src/screen.rs:65-79 | after the loop the slot holds the conversion of the last captured buffer among the calls that let it continue, or its initial value when there was none; would-block results and errors never touch it |
| Screen.CaptureStops | src/screen.rs:65-90 | every call that let the loop continue was a would-block or a frame sent to a live receiver; it stops right after the first other device error or the first send to a dropped receiver, or when the results run out |
| Client.AddressPort | src/client.rs:38-39 | the address text is the IP followed by `:9041` |
| Client.FromBeBytes | src/client.rs:73 | a decoded length is below 2^32 |
| Client.LengthRoundTrip | src/client.rs:73 | decoding the big-endian encoding of a `u32` length gives it back |
| Client.PrefixRoundTrip | src/client.rs:70-73 | four prefix bytes are the big-endian encoding of the length they decode to |
| Client.ReadExact | src/client.rs:71 | `read_exact` fills the buffer with the next bytes when enough remain, else reports `UnexpectedEof` at end of stream or another error, and consumes the rest |
| Client.ReadRecord | src/client.rs:70-77 | both reads succeed exactly when a whole record (prefix and payload) is at the position; then the payload is the `frame_size` bytes after the prefix; on failure the error kind says how the stream ended |
| Client.OnReadError | src/client.rs:85-108 | on `UnexpectedEof` one empty sentinel is added (unless the receiver is gone) and the exit is "server closed"; any other error adds nothing |
| Client.StopCases | src/client.rs:64-83 | an iteration ends the loop on shutdown, on a failed read or on a failed send, with those outcomes |
| Client.DeliverStep | src/client.rs:76-83 | an iteration over a whole record delivers its payload and moves past it |
| Client.ReceiveLoop | src/client.rs:64-110 | the loop delivers exactly what `ReadFrom` says and, equally, what the message-level reference `Delivery` says for the whole records in the stream |
| Client.SplitRecords | src/client.rs:70-80 | every byte stream is the encoding of a sequence of whole records followed by an incomplete tail |
| Client.FirstRecord | src/client.rs:70-83 | an iteration starting at an encoded record delivers that record's payload and continues right after it |
| Client.ReadsRecords | src/client.rs:64-110 | reading encoded records followed by an incomplete tail delivers the records' payloads as the reference `Delivery` says |
| Client.ReadsAnyStream | src/client.rs:64-110 | on any byte stream the loop behaves as `Delivery` on the whole records it holds |
| Client.AllRecordsDelivered | src/client.rs:85-107 | with no shutdown and a live consumer, every whole record is delivered in order; end of stream, whether at a record boundary or inside one, adds exactly one empty sentinel; any other error adds none |
| Client.DisconnectStops | src/client.rs:64-68 | a shutdown requested before iteration d delivers the records of the d earlier iterations and nothing more |
| Client.ReceiverDropStops | src/client.rs:80-83 | once the consumer is gone after m messages, the loop stops at the next send |
| Client.DeliveredInOrder | src/client.rs:76-107 | whatever the signals, the consumer sees a prefix of the records in stream order, or all of them followed by the sentinel at end of stream |
| Client.EmptyRecordLooksLikeClose | src/client.rs:76-107 | a zero-length record and a server close hand the consumer the same empty message |
| Client.ZeroLengthRecordIsSentinel | src/client.rs:76-107 | for every stream end and every following bytes, the first message a zero-length record yields is the empty message the sentinel is |

## Left out

- Crop percentages are exact reals, not `f32`. `PixelBound` rounds a positive quantity as `floor(x + 0.5)`, which is `f32::round` without float error, and gives 0 otherwise, as the saturating cast does.
- Screen.Crop: requires the four band widths to fit the frame, which percentages in [0, 100] guarantee (`CropBoundsFit`). Inputs outside that are not modelled. There the source behaves as follows:
  - too wide a left band (with at least one row) or too tall a top band (with at least one column) indexes past a `w*h*4` buffer and panics in every build;
  - too wide a right band or too tall a bottom band makes `width - right_bound` or `height - bottom_bound` overflow: a debug build panics, a release build wraps around and that band's loop paints nothing;
  - with no rows or no columns (`h = 0` or `w = 0`), or with a buffer longer than `w*h*4`, some oversized bands write nothing or stay in range and nothing panics.
- The capture device (`scrap::Display`, `Capturer`), the spawned thread and the 30 ms sleep are replaced by a sequence of device results. Every captured buffer is assumed to be one the conversion accepts (`AllConvertible`), as the device's own buffers are.
- The receiver's drop is the index of the first failing send. The watch channel's thread-safety and wake-ups are not modelled.
- Tokio's `TcpStream::connect`, `tokio::spawn`, the `mpsc::channel(10)` back-pressure and the socket shutdown at the end of the task are not modelled. Network concurrency is reduced to the received bytes and how the stream ends.
- `SocketAddr` parsing and the connection-error paths are library calls. Only the address text `ip + ":9041"` is modelled.
- The unused 100 MB scratch buffer is not modelled.
- The serde encoding of `Frame` is not modelled: no wire layout is visible for it.
- src/caster.rs is not part of this model. It is UI code calling other modules.
- `u32`/`usize` widths are unbounded integers. The length prefix is bounded explicitly by 2^32. `u32` byte counts for frame dimensions are not bounded.
- Client.ReadExact: the contents of a buffer after a failed read are not stated, because the loop discards them.
- Client.ReceiveLoop: the shutdown flag and the drop of the consumer are fixed iteration indices. The delivered messages are counted, not timed.
