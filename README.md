# UDP LED framing protocol, modelled in Dafny

Two ends of the small UDP protocol that carries frames to an LED matrix.

The host output module `sled/out_udp.c` does four things:

- It maps a logical pixel (x, y) to a position on the LED chain (`ppos`), with plain, snake or dual tiling.
- It keeps an RGB frame buffer of `NUMPIX*3` bytes, written by `set`, read by `get` and zeroed by `clear`.
- It packs pixels into 16-bit words in a 5-5-5 layout (`cpypck`). Bit 15 is always 0, so this is not RGB565.
- It splits the packed frame into datagrams `[header, index, payload]` (`render`). Header 0xAA marks a continuation fragment and 0xE5 the last one. A fragment carries at most 1400 payload bytes, which is 2100 source bytes.

The device receive loop (`esp32/main/main.c`, `udp_task`) handles one datagram at a time. It drops short datagrams and those with a bad header. It copies the payload into the static `ledbuf` at `index*1400`, but only when it fits. On a 0xE5 datagram it writes the whole buffer out in 32-byte SPI chunks.

Modules:

- `Protocol` (`protocol.dfy`): the `byte` type (an int newtype 0..255), LPKT_SIZE, PIX_PKT_SIZE, the datagram size, the two headers, and Option/Result.
- `Tiling` (`tiling.dfy`):
  - `Ppos` and its inverse `Coord`;
  - the bijection proofs;
  - the tiling and size checks of `init`, both as written and corrected (see Findings).
- `Pack` (`pack.dfy`):
  - cpypck's shift-and-or word `Word`, computed on naturals with a bitwise `Or`;
  - its arithmetic reading `Layout`;
  - the packed image `Packed` of a byte run, and the slicing lemmas that let fragments be packed one at a time.
- `Frames` (`frames.dfy`): the datagrams `Fragments(frame)` that render sends for a frame, as a function of the frame.
- `Encoder` (`encoder.dfy`):
  - `Cpypck`, a loop over arrays proved to write `Packed`;
  - the `UdpOutput` class, whose fields are the module globals (`X_SIZE`, `Y_SIZE`, `tiletype`, `message`, `lpkt`) with the methods `Set`, `Clear` and `Render` and the function `Get`;
  - `Link`, an abstract socket whose send may fail.
- `Decoder` (`decoder.dfy`):
  - the `Reassembler` class, holding `ledbuf` as an array. `Step` is one pass of the receive loop and `Run` a finite sequence of passes;
  - the function `Deliver`, which states the new buffer contents;
  - the flush, emitted as chunk offsets.
- `RoundTrip` (`roundtrip.dfy`): the encoder's fragments, received in order, leave the packed frame at the start of `ledbuf`. Only the last fragment flushes.

C semantics are modelled explicitly:

- `>> k` on non-negative values is division by 2^k, and `<< k` is multiplication.
- `|` is a bitwise OR on naturals.
- Stores to `uint16_t` and `uint8_t` reduce modulo 2^16 and 2^8.
- The 8-bit `lpkt.index` is `k mod 256`.

Calls the model cannot see become parameters or abstract operations:

- `sendto` is `Link.Send`. It may succeed or fail, and the link records every attempt and every delivered datagram.
- `recvfrom` is a `Receipt`: either a failure or the bytes received. A datagram longer than `lpkt` is truncated.

## Model

| member | source | states |
|---|---|---|
| Tiling.PposInRange | sled/out_udp.c:163-188 | for a valid geometry every in-bounds (x, y) maps into [0, X*Y) |
| Tiling.CoordOfPpos | sled/out_udp.c:163-188 | Coord(Ppos(x, y)) = (x, y), so ppos is injective on the grid |
| Tiling.CoordOfPposPlain | sled/out_udp.c:171-173 | plain tiling: position x + y*X decodes back to (x, y) |
| Tiling.CoordOfPposSnake | sled/out_udp.c:174-176 | snake tiling: the reversed odd rows decode back to (x, y) |
| Tiling.CoordOfPposDual | sled/out_udp.c:177-185 | dual tiling: the panel (parity) and the row in the panel decode back to (x, y) |
| Tiling.PposOfCoord | sled/out_udp.c:163-188 | every chain position p < X*Y is Ppos of an in-bounds pixel (Coord(p)), so ppos is onto |
| Tiling.PposOfCoordSnake | sled/out_udp.c:174-176 | snake tiling is onto [0, X*Y) |
| Tiling.PposOfCoordDual | sled/out_udp.c:177-185 | dual tiling with an even height, or with a single column of any height, is onto [0, X*Y) |
| Tiling.PposOfCoordDualColumn | sled/out_udp.c:177-185 | a single-column dual matrix of odd height still reaches every position below Y: odd ones from the upper rows, even ones from the lower rows |
| Tiling.PposBijective | sled/out_udp.c:163-188 | ppos is a bijection from the grid onto [0, X*Y): in range, injective and onto |
| Tiling.SnakeRows | sled/out_udp.c:175 | even rows run left to right (yX + x), odd rows right to left ((y+1)X - 1 - x) |
| Tiling.SnakeExample | sled/out_udp.c:175 | with X=4, row 0 is 0,1,2,3 and row 1 is 7,6,5,4 |
| Tiling.DualHalves | sled/out_udp.c:179-184 | rows y < Y/2 get 2(x+yX)+1 (odd), rows y >= Y/2 get 2(x+(y-Y/2)X) (even) |
| Tiling.DualExample | sled/out_udp.c:179-184 | X=Y=4: (0,0)->1, (1,0)->3, (0,2)->0, (1,2)->2 |
| Tiling.DualOddHeightOverflows | sled/out_udp.c:177-185 | with an odd height and X >= 2, the last pixel maps to a position >= X*Y |
| Tiling.TileOf | sled/out_udp.c:136-140 | "plain", "snake" and "dual" select their tiling, and no other name selects one |
| Tiling.ConfigureAsWrittenAcceptsOverflow | sled/out_udp.c:123-144 | init as written accepts a 2x3 dual matrix, whose pixel (1, 2) maps to 6 = NUMPIX |
| Tiling.Configure | sled/out_udp.c:123-144 | the corrected checks accept exactly what init accepts minus dual with an odd height and more than one column, and every accepted configuration is a valid geometry |
| Tiling.SingleColumnDual | sled/out_udp.c:177-185 | the corrected checks still accept a 1x3 dual matrix, which ppos maps to 1, 0, 2 |
| Pack.Layout | sled/out_udp.c:222 | the 5-5-5 value of a pixel is below 0x8000 (bit 15 clear) |
| Pack.OrDisjoint | sled/out_udp.c:222 | OR of a*2^k with b < 2^k is a*2^k + b (the fields of h do not overlap) |
| Pack.FieldsOr | sled/out_udp.c:222 | OR-ing the three shifted 5-bit fields adds them |
| Pack.WordIsLayout | sled/out_udp.c:222 | cpypck's shifted-and-ORed h equals (r/8)*1024 + (g/8)*32 + b/8 |
| Pack.WordBytes | sled/out_udp.c:222-224 | t[0] = h >> 8 and t[1] = h & 0xff are PackPixel's bytes, t[0] < 0x80, and t[0]*256 + t[1] = h |
| Pack.UnpackPackPixel | sled/out_udp.c:222-224 | reading a packed pixel back gives its colour with the low three bits of each channel cleared |
| Pack.PackedAt | sled/out_udp.c:221-226 | bytes 2k and 2k+1 of the packed run are the two bytes of source pixel k |
| Pack.PackedWord | sled/out_udp.c:221-226 | for every pixel k, packed[2k]*256 + packed[2k+1] is cpypck's h for pixel k, and packed[2k] < 0x80 |
| Pack.PackedSlice | sled/out_udp.c:265 | packing pixels a..b on their own gives bytes 2a..2b of the packed frame |
| Frames.FragmentCountIsCeiling | sled/out_udp.c:261-274 | the number of fragments is the ceiling of N/2100: enough to cover the frame, and none starts past its end |
| Frames.FragmentStart | sled/out_udp.c:261-272 | every fragment starts inside the frame |
| Frames.LastFragment | sled/out_udp.c:262-264 | fragment k has header 0xE5 exactly when it is the last; earlier ones consume a full 2100 bytes, and the last at most 2100 |
| Frames.Taken | sled/out_udp.c:264 | a fragment consumes whole pixels and stays inside the frame |
| Frames.FragmentShape | sled/out_udp.c:261-266 | fragment k carries index k mod 256; all but the last are 0xAA and 1402 bytes; the last is 0xE5 with (r/3)*2 payload bytes, 0 < r <= 2100 |
| Frames.FragmentPayload | sled/out_udp.c:264-272 | fragment k's payload is the packed frame from byte 1400k on: packing per fragment is packing the frame |
| Frames.TerminalPayload | sled/out_udp.c:264 | for a frame of whole pixels the terminal payload has between 2 and 1400 bytes |
| Encoder.Link.Send | sled/out_udp.c:266-267 | every send is recorded as attempted; it is recorded as delivered exactly when it succeeds |
| Encoder.Cpypck | sled/out_udp.c:218-228 | the first 2*ceil(len/2) bytes of t become Packed of the 3*ceil(len/2) source bytes from sofs, and the rest of t is unchanged |
| Encoder.StorePixel | sled/out_udp.c:222-224 | one pass computes h from pixel k's three source bytes and stores it at t[2k], t[2k+1], which then hold bytes 2k and 2k+1 of the packed run; nothing else in t changes |
| Encoder.PackedPass | sled/out_udp.c:222-224 | bytes 2k and 2k+1 of the packed run from sofs are the PackPixel bytes of the three source bytes at sofs+3k |
| Encoder.LenCoversFragment | sled/out_udp.c:264-265 | render's len is even, and the pixels cpypck packs for it are exactly the bytes the fragment consumes |
| Encoder.UdpOutput.constructor | sled/out_udp.c:146-148 | message is a fresh zeroed buffer of X*Y*3 bytes for an accepted configuration |
| Encoder.UdpOutput.Set | sled/out_udp.c:190-201 | a later get of (x, y) returns the colour; every other pixel reads as before; only the 3 bytes at ppos(x, y)*3 change |
| Encoder.UdpOutput.Clear | sled/out_udp.c:213-216 | all NUMPIX*3 bytes are zero and every pixel reads black |
| Encoder.UdpOutput.FillPacket | sled/out_udp.c:262-266 | lpkt holds the header, index and packed payload of fragment idx, and the len+2 bytes handed to sendto are Fragment(message, idx) |
| Encoder.UdpOutput.Render | sled/out_udp.c:232-277 | returns 0 after sending exactly Fragments(message) in order, or 5 once the send of some fragment k fails: fragments 0..k-1 were delivered and nothing after k was tried |
| Decoder.Receive | esp32/main/main.c:199-200 | recvfrom keeps exactly the first sizeof(lpkt) = 1402 bytes of a longer datagram and a shorter one whole |
| Decoder.Deliver | esp32/main/main.c:213-215 | ledbuf keeps its size |
| Decoder.DeliverCases | esp32/main/main.c:201-215 | a failed or short receive, a bad header, or a payload that does not fit leaves ledbuf unchanged; a fitting payload replaces ledbuf[index*1400 .. index*1400+n-2) and nothing else |
| Decoder.Feed | esp32/main/main.c:197-227 | a run of receives keeps ledbuf's size |
| Decoder.FlushChunks | esp32/main/main.c:220-222 | the flush loop emits exactly the offsets 0, 32, 64, ... below the buffer length |
| Decoder.ChunksBelow | esp32/main/main.c:220-222 | the offsets start at 0, step by 32 and all lie inside the buffer |
| Decoder.ChunksCover | esp32/main/main.c:220-222 | every byte of ledbuf, stale ones included, lies in some emitted chunk |
| Decoder.ChunksInBounds | esp32/main/main.c:220-221 | every 32-byte chunk stays inside ledbuf if and only if its length is a multiple of 32 |
| Decoder.Reassembler.constructor | esp32/main/main.c:241 | ledbuf starts all zero |
| Decoder.Reassembler.Step | esp32/main/main.c:199-226 | ledbuf becomes Deliver(old ledbuf, receipt); the pass flushes exactly for an accepted 0xE5 datagram (even when its copy was dropped), never for 0xAA, and a flush emits ChunkOffsets |
| Decoder.Reassembler.Run | esp32/main/main.c:197-227 | after a run of receipts ledbuf is Feed(old ledbuf, receipts), and receipt k flushed exactly when it is terminal |
| RoundTrip.LandedStep | sled/out_udp.c:264-272 | fragment k's payload starts at 1400k in the packed frame; full fragments add 1400 bytes and the last adds (r/3)*2 |
| RoundTrip.FragmentLength | sled/out_udp.c:264-266 | fragment k is two header bytes plus the packed bytes from Landed(k) to Landed(k+1) |
| RoundTrip.FragmentHeader | esp32/main/main.c:199-216 | with at most 256 fragments each one arrives whole, is accepted, lands at Landed(k) and flushes exactly when it is the last |
| RoundTrip.FragmentBody | sled/out_udp.c:264-265 | fragment k carries packed bytes Landed(k) .. Landed(k+1) |
| RoundTrip.DeliverExtends | esp32/main/main.c:213-215 | a fitting fragment that lands at lo with packed[lo..hi] extends the delivered prefix from lo to hi |
| RoundTrip.FeedStep | esp32/main/main.c:213-215 | fragment k-1 extends what the first k-1 fragments left in ledbuf |
| RoundTrip.FeedPrefix | esp32/main/main.c:213-215 | after k fragments ledbuf holds the first Landed(k) packed bytes and the rest of its old contents |
| RoundTrip.LandedAll | sled/out_udp.c:261-274 | all fragments together land the whole packed frame, 2*(N/3) bytes |
| RoundTrip.OnlyLastFlushes | esp32/main/main.c:216-226 | of one frame's datagrams exactly the last flushes |
| RoundTrip.RoundTrip | esp32/main/main.c:213-216 | render's fragments fed in order leave Packed(frame) at the start of ledbuf, leave the rest untouched, and flush once, on the last |
| RoundTrip.PixelOf | sled/out_udp.c:222-224 | a buffer that starts with the packed frame holds pixel p's word at 2p, 2p+1, and it decodes to the colour with the low bits cleared |
| RoundTrip.RoundTripPixel | esp32/main/main.c:213-216 | after the round trip ledbuf[2p], ledbuf[2p+1] are pixel p's two packed bytes |
| RoundTrip.IndexWraps | sled/out_udp.c:263 | beyond 256 fragments the 8-bit index wraps: fragment 256 is accepted and lands on fragment 0's window |

## Left out

- Argument-string parsing in `init` (sled/out_udp.c:62-122): `strsep`, `inet_aton` and `util_parse_int` are I/O-style string handling. The model takes the parsed sizes as naturals, so a negative size from `util_parse_int` is not represented. Only the zero checks and the tile-name mapping are modelled.
- Socket creation, `bind`, the address and the socket handle: I/O. `sendto` is `Link.Send` and `recvfrom` is `Receive`.
- Wi-Fi bring-up, the FreeRTOS task, event groups, `spi_init`, `led_writen` and the GPIO chip-select toggling: platform and driver calls. The flush is modelled as the sequence of chunk offsets it writes.
- The startup flush in `app_main` (esp32/main/main.c:242-246): it is the same loop as the terminal flush, whose offsets `FlushChunks` models.
- Diagnostic output: the `perror` after a failed `sendto` (sled/out_udp.c:268) and the `printf` calls for a failed receive and a bad header (esp32/main/main.c:202, 210). They change no state the model tracks.
- The infinite receive loop is modelled by `Reassembler.Run` over any finite sequence of receipts.
- `getx`, `gety`, `wait_until`, `wait_until_break` and `deinit`: trivial getters, timer delegation and resource release.
- The `#if 0` test pattern in `render` (sled/out_udp.c:237-260): dead code.
- Machine-width overflow of `NUMPIX*3` and of `ofs`/`n` in `render`: sizes are unbounded naturals.
- Encoder.UdpOutput.Get: its result is stated only through `Set` and `Clear`. Get simply reads the three bytes at ppos*3.
- Encoder.Cpypck: the byte written past `len` when `len` is odd is modelled (2*ceil(len/2) bytes). The caller's `lpkt.data` bounds for that case are a precondition, because `render` only passes even lengths.
- RoundTrip.RoundTrip: assumes the frame is whole pixels, has at most 256 fragments, and that ledbuf holds its packed image (2*(N/3) bytes or more). Beyond 256 fragments, `IndexWraps` shows a later fragment landing on fragment 0's window. A shorter ledbuf makes the device drop the fragments that do not fit.

## Findings

| source | as written | input that shows it | evidently intended | confidence | as-written member | corrected member |
|---|---|---|---|---|---|---|
| sled/out_udp.c:123-144, 177-185 | init accepts any non-zero Y_SIZE with dual tiling. For an odd Y_SIZE and X_SIZE >= 2, ppos of the last pixel reaches NUMPIX or beyond, so `set` writes past `message` | X_SIZE=2, Y_SIZE=3, "dual": ppos(1, 2) = 6 = NUMPIX | dual tiling needs an even Y_SIZE (two equal half-height panels), so init should refuse an odd one when X_SIZE >= 2; a single column of odd height still maps one to one and can stay accepted | high, not executed | Tiling.ConfigureAsWrittenAcceptsOverflow | Tiling.Configure |
