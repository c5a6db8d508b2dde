# GIF scanline compositor and byte-stream adapter, modelled in Dafny

This project models the core of a small ESP32 program that plays an animated
GIF from SPIFFS flash storage on a round 240×240 GC9A01A display. The GIF
decoder (the AnimatedGIF library) is a black box. It pulls bytes through four
file callbacks and pushes each decoded scanline to a draw callback. All of
these callbacks live in `src/main.cpp`, and they are what is modelled here:

- **Scanline compositor** (`GIFDraw`, module `Compositor`). A scanline holds
  palette-index bytes, a 256-entry RGB565 palette, the frame offsets `iX`/`iY`,
  the row `y`, the width and an optional transparency key.
  - Without transparency, the whole line is translated through the palette
    into the staging buffer `usTemp[320]` and sent as one write.
  - With transparency, an outer loop alternates two inner loops. The first
    gathers opaque pixels into `usTemp` and flushes them as one write at
    column `iX + x`. The second skips transparent pixels.
  - The display is a `Panel` object that records the calls it receives:
    `startWrite`, `setAddrWindow`, `writePixels`, `endWrite` (module
    `DisplayBus`).
  - `Draw` is proved to produce exactly the trace `Emit(ScanlineWrites(sl))`.
    `ScanlineWrites` is built from a pure decomposition of the line into
    maximal opaque runs (module `Runs`). Lemmas then show which columns are
    written, with which colours, in which order and how many times.
- **Byte-stream adapter** (`GIFOpenFile`, `GIFCloseFile`, `GIFReadFile`,
  `GIFSeekFile`, module `GifFileIO`). The decoder's cursor record (`iPos`,
  `iSize`) sits over an open SPIFFS file (module `Storage`).
  - A file is modelled as a byte sequence with a cursor. `read(n)` returns
    `min(n, remaining)` bytes. `seek(p)` moves the cursor only when
    `0 <= p <= size`.
  - Reads and seeks resynchronise `iPos` from the file's position. The
    class invariant `GifFile.Valid` (tracked position equals the file
    position, size equals the file length) is preserved by both.

Notes on the model:

- Bytes are `bv8`, so the sentinel `ucTransparent - 1` at `src/main.cpp:46`
  wraps exactly like `uint8_t` arithmetic.
- The read guard is modelled as the code writes it. The shrink condition is
  strictly `iSize - iPos < iLen`, so a request for exactly the bytes that
  remain is passed through and reads the final byte
  (`ExactRequestReachesEnd`). Only a request for more than remains is
  shrunk, and it then stops one byte short of the end.
- With 3 bytes left and a 5-byte request, the code asks the file for 2 bytes,
  one less than remain (`EndOfFileGuardExample`).
- `Draw` requires what the callback relies on without checking: one index
  byte per column, a full 256-entry palette, and colours that fit the
  320-entry `usTemp` (`FitsStaging`). Without transparency the whole line is
  staged at once, so the width must be at most 320. With transparency
  `usTemp` is refilled from its start for every opaque stretch, so only each
  opaque stretch must be at most 320 long. A wider transparency line whose
  opaque stretches are short is drawn correctly, and the model covers it.

## Model

| member | source | states |
|---|---|---|
| `DisplayBus.Panel.StartWrite` | src/main.cpp:58 | appends a begin-transaction event to the display trace |
| `DisplayBus.Panel.SetAddrWindow` | src/main.cpp:59 | appends the write window (x, y, w, h) to the trace |
| `DisplayBus.Panel.WritePixels` | src/main.cpp:60 | appends the first `len` colours of the staging buffer to the trace |
| `DisplayBus.Panel.EndWrite` | src/main.cpp:61 | appends an end-transaction event to the trace |
| `DisplayBus.Parse` | src/main.cpp:58-61 | a trace read back into writes has exactly four events per write |
| `DisplayBus.ParseEmit` | src/main.cpp:58-61 | every emitted trace is a sequence of startWrite, setAddrWindow, writePixels, endWrite groups in that order, and the writes read back from it are exactly the writes issued |
| `DisplayBus.EmitInjective` | src/main.cpp:58-61 | two batches of writes with the same trace are the same writes |
| `Runs.OpaqueLen` | src/main.cpp:48-56 | the gathered stretch from column i holds no key byte and ends at a key byte or at the end of the line |
| `Runs.RunsFrom` | src/main.cpp:45-74 | every run found from column i starts at or after i and ends within the line |
| `Runs.RunsFromMaximal` | src/main.cpp:45-64 | every run is non-empty, holds no transparent pixel, and has a transparent pixel or the line's end on each side |
| `Runs.RunsFromOrdered` | src/main.cpp:45-74 | runs are in strictly increasing column order with at least one transparent pixel between consecutive runs |
| `Runs.RunsFromCover` | src/main.cpp:45-74 | every opaque pixel lies inside some run |
| `Runs.RunsSkipTransparent` | src/main.cpp:66-73 | skipping a stretch of transparent pixels leaves the runs still to come unchanged |
| `Runs.RunsAfterOpaque` | src/main.cpp:48-64 | an opaque stretch that ends at a key byte or the line's end is exactly the next run |
| `Runs.NoRunsIffAllTransparent` | src/main.cpp:57 | a line has no runs if and only if every pixel is the transparency key |
| `Compositor.GatherOpaque` | src/main.cpp:46-56 | the gathering loop consumes exactly the maximal opaque stretch at s, backing up over the key; `iCount` equals the bytes consumed, which is that stretch's length; `usTemp` holds their palette colours from its start, so it is never overrun when the stretch fits, and the rest of `usTemp` is untouched |
| `Compositor.SkipTransparent` | src/main.cpp:66-73 | the skipping loop consumes exactly the maximal transparent stretch at s and advances x by one per byte consumed |
| `Compositor.FlushRun` | src/main.cpp:57-64 | one flush appends startWrite, a window (iX + x, iY + y, iCount, 1), the gathered colours and endWrite |
| `Compositor.PendingAfterOpaque` | src/main.cpp:57-64 | after an opaque stretch is flushed, the writes still owed are the runs after it |
| `Compositor.FlushPaysFirstRun` | src/main.cpp:57-64 | flushing a gathered stretch discharges the first owed write |
| `Compositor.PendingAfterTransparent` | src/main.cpp:66-73 | skipping transparent pixels leaves the owed writes unchanged |
| `Compositor.Draw` | src/main.cpp:29-85 | the callback's display trace is exactly the bracketed writes of `ScanlineWrites` for the scanline |
| `Compositor.DrawTransparent` | src/main.cpp:39-74 | the transparency branch emits one bracketed write per maximal opaque run, in order. Its loop invariants show that at the head of the outer loop `x` equals the bytes consumed, that each pass consumes at least one byte, and that the loop ends with `x == iWidth` |
| `Compositor.DrawOpaque` | src/main.cpp:75-84 | the branch without transparency translates every pixel and emits the single full-line write |
| `Compositor.OpaqueLineIsOneWrite` | src/main.cpp:35-83 | without transparency there is exactly one write, window (iX, iY + y, iWidth, 1), pixel i equal to palette[pixels[i]] |
| `Compositor.TransparentWritesAreMaximalRuns` | src/main.cpp:35-64 | with transparency every write is a non-empty, one-pixel-high window on row iY + y covering one maximal opaque run inside the line; writes go left to right with a gap between any two |
| `Compositor.WrittenColumnsAreOpaqueColumns` | src/main.cpp:45-73 | column i is written (at absolute x iX + i) if and only if pixels[i] is not the transparency key |
| `Compositor.WrittenColoursFollowPalette` | src/main.cpp:53-60 | each written pixel has colour palette[pixels[i]] for the column i it lands on |
| `Compositor.ColumnsWrittenOnce` | src/main.cpp:45-64 | no display column is covered by two writes of the same scanline |
| `Compositor.NoWritesIffAllTransparent` | src/main.cpp:57 | with transparency, a scanline produces no write if and only if every pixel is the key |
| `Compositor.OpaqueLineSameInBothBranches` | src/main.cpp:39-84 | a non-empty line without key pixels is drawn identically by both branches |
| `Compositor.ExampleRuns` | src/main.cpp:45-74 | the line A A key B B B key key C has runs (0,2), (3,3), (8,1) |
| `Compositor.RunSplittingExample` | src/main.cpp:35-61 | that line at frame offset (10, 5), row 3 gives three writes on row 8: 2 pixels at x 10, 3 at x 13, 1 at x 18 |
| `Storage.File.Read` | src/main.cpp:114 | the file's read returns min(n, remaining) bytes, copies them to the buffer's start and advances the position by that many |
| `Storage.File.Seek` | src/main.cpp:123 | the file's seek moves the position to p when 0 <= p <= size and otherwise leaves it |
| `Storage.File.Close` | src/main.cpp:101 | closing marks the file closed |
| `Storage.Volume.Open` | src/main.cpp:89-90 | opening a name yields a fresh file at position 0 with that name's bytes, or null when the name is absent |
| `GifFileIO.RequestLength` | src/main.cpp:107-111 | the adapter never asks for more than requested nor past the end. A request that fits is passed through; a shrunk request stops one byte short of the end |
| `GifFileIO.OpenFile` | src/main.cpp:88-95 | returns a handle and sets the size to the file length when the name resolves; returns null and leaves the size untouched otherwise |
| `GifFileIO.CloseFile` | src/main.cpp:98-102 | closes the file behind a non-null handle and leaves its contents and position as they were |
| `GifFileIO.ReadFile` | src/main.cpp:105-117 | if the request length is <= 0, returns 0 with position and buffer untouched. Otherwise returns the bytes the file read, which land in the buffer, and sets iPos to the file's new position; the cursor invariant is kept |
| `GifFileIO.SeekFile` | src/main.cpp:120-127 | sets iPos to the file's position after the seek and returns it; that is the requested position when it lies within the file, else the old one |
| `GifFileIO.ShrunkReadStopsBeforeLastByte` | src/main.cpp:109-113 | a shrunk request that reads anything leaves the cursor on the final byte; it reads nothing if and only if at most one byte remains |
| `GifFileIO.ExactRequestReachesEnd` | src/main.cpp:110 | a request for exactly the remaining bytes is not shrunk |
| `GifFileIO.EndOfFileGuardExample` | src/main.cpp:110-111 | with 3 bytes left, a 5-byte request asks the file for 2 |

## Left out

- `setup()` (`src/main.cpp:129-148`) is left out: serial logging, SPIFFS mounting and display initialisation are hardware set-up.
- `loop()` (`src/main.cpp:150-177`) is left out: it wraps the external AnimatedGIF library, and its retry policy is `delay()` calls. The centering offsets it computes are never used.
- GIF decoding (LZW, palette extraction) is left out. It lives in the AnimatedGIF library, which is not part of this model. Scanlines are inputs.
- The display driver's SPI transactions and controller commands are abstracted into the event trace. The SPIFFS implementation is abstracted into a name-to-bytes map.
- The `micros()` timing in `GIFSeekFile` is left out because its result is never used. So is the unused global `lineBuffer`.
- No clipping against the 240×240 display is modelled, because the code does none.
- Integer widths are not modelled. The 32-bit `iPos`/`iSize`/`iLen`, the `uint16_t` parameters of the driver's `setAddrWindow` and the `size_t` to `int32_t` cast of the read count are unbounded integers. Realistic file sizes and coordinates stay far inside these ranges.
- The code overruns `usTemp` on a line without transparency that is wider than 320 pixels, or on a transparency line with an opaque stretch longer than 320 pixels. `Compositor.Draw` requires `FitsStaging` instead of modelling the overflow.
- `GifFileIO.OpenFile` returns a fresh `File` object. The code returns the address of one global `gifFile`, so a second open would also redirect the first handle; that aliasing is not modelled.
- Reads and seeks on a closed or failed handle are undefined in the code. `GifFileIO.ReadFile` and `GifFileIO.SeekFile` require an open, valid cursor.
- A negative seek position becomes a huge `uint32_t` in the SPIFFS `seek`. Here it is treated like any other out-of-range position: the cursor stays put.
- The claim that the number of writes is the minimum possible is not proved as a separate statement. What is proved is that each write covers one maximal opaque run and that consecutive runs are separated by transparent pixels.
