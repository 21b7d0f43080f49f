# GIF output controller

A Dafny model of the subimage lifecycle controller of OpenImageIO's GIF
writer (`GIFOutput` in `src/gif.imageio/gifoutput.cpp`). The controller
adapts the scanline-at-a-time `ImageOutput` interface to a GIF encoder that
takes whole frames. It keeps the following state:

- the current subimage index
- a "pending write" flag
- an RGBA staging canvas of `width * height * 4` bytes
- the working image spec

Opening a file validates the spec, writes the GIF header for subimage 0 and
resets the canvas to opaque white. Scanline writes copy rows into the
canvas. Appending a subimage hands the pending canvas to the encoder as one
frame and starts the next one. Closing hands over the last frame, writes
the trailer and resets the writer.

Each operation is a pure step function. It takes the controller state and
the results the outside world reports, and returns a `Step`. A `Step` holds
whether the call succeeded, the next state, and the encoder calls made, in
order. The outside results are:

- whether the output sink was acquired
- whether the header write succeeded
- whether the frame write succeeded

The encoder calls are `Begin` (`GifBegin`), `Frame` (`GifWriteFrame`) and
`End` (`GifEnd`).

Modules:

- `Canvas`: the byte canvas, the per-pixel copy of a packed 8-bit row into
  the 4-byte-stride canvas (`CopyPixels`, `PutRow`), and a fold of row
  writes (`Paint`).
- `CanvasFacts`: properties of row writes:
  - last write wins
  - writes to distinct rows commute
  - three-channel writes keep alpha at 255
  - writing every row of four-channel data yields exactly those bytes
- `Encoder`: the trace events and counts of frames and headers.
- `GifOutput`: the controller state, `init` and the six operations:
  - `Reset` (`init`)
  - `OpenFile` (`open` with a subimage count)
  - `Open` (`open` with a mode)
  - `StartSubimage`
  - `FinishSubimage`
  - `WriteScanline`
  - `Close`
- `Lifecycle`: short fixed sequences of operations.
- `Session`: an executor for sequences of calls, plus theorems about whole
  runs:
  - each successful open yields a frame at most once, and exactly once when
    no file is re-opened over a pending frame
  - a well-formed open / write / append / close session produces the trace
    header, one frame per subimage in order, then the trailer

`Exec` returns `None` for a call that the model does not admit:

- a scanline write whose row is outside the canvas or whose data is too
  short; the source does no bounds check and its behaviour is undefined
- a scanline write while the canvas does not match the current spec: the
  channel count is not 3 or 4, or the canvas is not exactly
  width×height×4 bytes. This happens on a new writer and after `close`
  (the canvas is empty, so any write is out of bounds), and after an
  `open` that failed (for example, an append whose spec is rejected keeps
  the old canvas and takes the new spec). In the last case the source
  would still copy a row that lies inside the old canvas; the model does
  not follow it there
- an `open` given fewer specs than the subimage count it declares; the
  source reads past the end of the spec array

Some consequences of the code are modelled as written:

- An append over a pending frame whose spec is rejected hands over that
  frame and leaves nothing pending, so the following close makes no
  encoder call and writes no trailer, although the file's header was
  written (`Lifecycle.RejectedAppendSkipsTrailer`).
- Re-opening a file while a frame is pending discards that frame without
  handing it to the encoder when the re-open succeeds (the third term of
  `Session.StepAccounting`).
- When such a re-open fails, the new spec has already replaced the old one
  but the old canvas stays pending. The next close hands the encoder the
  old canvas with the new width and height, whose product need not match
  its size (`Lifecycle.FailedReopenStaleFrame`,
  `Lifecycle.StaleFrameExample`). Without such a re-open every frame is a
  full width×height RGBA canvas (`Session.FramesAreFullCanvases`).
- An append is accepted before any file was opened. Its index becomes 1,
  so no header is written, and the following close hands over a frame and
  a trailer with no header before them
  (`Lifecycle.AppendBeforeOpenHasNoHeader`).

## Model

| member | source | states |
|---|---|---|
| GifOutput.Reset | src/gif.imageio/gifoutput.cpp:91-98 | `init` clears the file name, sets the subimage index to 0, empties the canvas and clears the pending flag; it leaves the spec, the delay and the declared subimages as they were |
| GifOutput.Constructed | src/gif.imageio/gifoutput.cpp:64 | a newly constructed writer is in the `init` state |
| GifOutput.StartSubimage | src/gif.imageio/gifoutput.cpp:186-224 | succeeds exactly when width and height are at least 1, depth (raised to 1 if below) is at most 1, there are 3 or 4 channels, and for subimage 0 the header write succeeds; the header is written only for subimage 0 and only once validation passes; on success the canvas is width×height×4 bytes of 255 and a frame is pending; on failure the pending flag and canvas are unchanged; a valid spec is narrowed to depth 1 and 8-bit |
| GifOutput.FinishSubimage | src/gif.imageio/gifoutput.cpp:228-239 | with nothing pending, succeeds with no encoder call and no change; otherwise makes exactly one frame call carrying the canvas, width, height and delay, reports its result, and clears the pending flag either way |
| GifOutput.OpenFile | src/gif.imageio/gifoutput.cpp:147-168 | fewer than one subimage fails with no encoder call and no state change; otherwise records the name, sets the index to 0, stores the declared specs, and takes the delay from the first spec; a sink that cannot be acquired fails with no encoder call and nothing new pending; the call succeeds exactly when the sink, the first spec and the header write all succeed |
| GifOutput.Open | src/gif.imageio/gifoutput.cpp:120-143 | Create is `OpenFile` with one spec; AppendMIPLevel fails and changes nothing; AppendSubimage hands over the pending frame (if any), advances the index by exactly one, takes the new spec's geometry, succeeds exactly when that spec is supported, and never writes a header |
| GifOutput.WriteScanline | src/gif.imageio/gifoutput.cpp:243-251 | always succeeds, makes no encoder call, and changes only the canvas; canvas byte `y*width*4 + 4x + c` takes source byte `x*nch + c` for `c < nch`, and every other byte keeps its value |
| GifOutput.Close | src/gif.imageio/gifoutput.cpp:172-182 | when pending, calls frame then trailer in that order and reports the frame result; when not pending, makes no call and succeeds; in both cases ends in the `init` state |
| Canvas.CopyPixels | src/gif.imageio/gifoutput.cpp:247-250 | the same-type 8-bit copy of `n` packed `nch`-channel pixels into a stride-4 destination writes the first `nch` bytes of each destination pixel and nothing else |
| Canvas.PutRow | src/gif.imageio/gifoutput.cpp:249 | a row write lands at byte offset `y*width*4` and keeps the canvas size |
| Canvas.Blank | src/gif.imageio/gifoutput.cpp:219-220 | a fresh canvas has the requested length and every byte is 255 |
| CanvasFacts.RewriteRowLastWins | src/gif.imageio/gifoutput.cpp:243-251 | writing a row twice gives the same canvas as writing only the second data |
| CanvasFacts.DistinctRowsCommute | src/gif.imageio/gifoutput.cpp:243-251 | writes to different rows may be applied in either order |
| CanvasFacts.ThreeChannelRowKeepsAlpha | src/gif.imageio/gifoutput.cpp:247-250 | a 3-channel row write leaves every alpha byte of the canvas as it was, whatever it held |
| CanvasFacts.ThreeChannelAlphaOpaque | src/gif.imageio/gifoutput.cpp:219-220 | any sequence of 3-channel row writes over a canvas with opaque alpha leaves every alpha byte at 255 |
| CanvasFacts.FullFrameRoundTrip | src/gif.imageio/gifoutput.cpp:219-220 | writing rows 0..h-1 of 4-channel data, in order, into a fresh canvas yields exactly the rows concatenated, so the frame handed to the encoder is the data written |
| Lifecycle.FinishTwiceIsNoop | src/gif.imageio/gifoutput.cpp:231-238 | a second `finish_subimage` right after a first one succeeds with no encoder call and no change |
| Lifecycle.CloseTwiceIsNoop | src/gif.imageio/gifoutput.cpp:172-182 | a second `close` succeeds with no encoder call and no change |
| Lifecycle.AppendNeverWritesHeader | src/gif.imageio/gifoutput.cpp:133-138 | an append makes no header call, makes one frame call if a frame was pending and none otherwise, and advances the index by one |
| Lifecycle.RejectedSpecEmitsNothing | src/gif.imageio/gifoutput.cpp:190-205 | an unsupported spec makes `start_subimage` fail with no encoder call and the pending flag unchanged |
| Lifecycle.OpenThenClose | src/gif.imageio/gifoutput.cpp:147-182 | open with a valid spec followed by close produces header, one all-white frame of the spec's size, and trailer |
| Lifecycle.FailedReopenStaleFrame | src/gif.imageio/gifoutput.cpp:155-182 | when a re-open over a pending frame fails (sink, header or spec), the close that follows hands the encoder the old canvas with the new spec's width, height and delay, then the trailer |
| Lifecycle.StaleFrameExample | src/gif.imageio/gifoutput.cpp:155-182 | a pending 2×2 RGBA frame followed by a failed 100×100 re-open and close yields a frame of 16 bytes claiming 100×100 pixels |
| Lifecycle.AppendBeforeOpenHasNoHeader | src/gif.imageio/gifoutput.cpp:133-138 | from the `init` state an append with a valid spec succeeds with no encoder call, and the following close calls frame then trailer, with no header anywhere |
| Lifecycle.RejectedAppendSkipsTrailer | src/gif.imageio/gifoutput.cpp:133-138 | after an append over a pending frame whose spec is rejected, the append hands over that frame and the following close makes no encoder call, so no trailer is written |
| Session.Apply | src/gif.imageio/gifoutput.cpp:120-251 | every call except a scanline write into a mismatched canvas, outside the canvas or with too little data, and an `open` with fewer specs than declared, is admitted; only opening a file writes a header; an admitted scanline write succeeds with no encoder call and changes only the canvas; an AppendMIPLevel open fails and changes nothing; close always resets and calls frame then trailer exactly when a frame was pending; no call other than opening a file changes the declared subimages |
| Session.StepAccounting | src/gif.imageio/gifoutput.cpp:120-182 | in one call, frames handed over plus the new pending flag equal the old pending flag plus one for a successful open, minus a frame dropped by a successful re-open over a pending one |
| Session.AtMostOnce | src/gif.imageio/gifoutput.cpp:120-182 | over any admitted run, frames handed over plus the frame still pending never exceed the frame pending at the start plus the successful opens |
| Session.ExactlyOnce | src/gif.imageio/gifoutput.cpp:120-182 | when no file is re-opened over a pending frame, every successful open yields exactly one frame, either handed over or still pending |
| Session.EndsWithClose | src/gif.imageio/gifoutput.cpp:172-182 | any run that ends with `close` leaves the writer in the `init` state |
| Session.ClosedRunFrames | src/gif.imageio/gifoutput.cpp:120-182 | from a new writer, a run that ends with `close`, in which no file is re-opened while a frame is pending, hands the encoder exactly one frame per successful open |
| Session.FrameEventsInOrder | src/gif.imageio/gifoutput.cpp:234-236 | the expected frames of a session are one per subimage, in subimage order, with no header among them |
| Session.WritesRun | src/gif.imageio/gifoutput.cpp:243-251 | a run of admitted scanline writes succeeds throughout, makes no encoder call, and changes only the canvas, which becomes the rows painted in order |
| Session.AppendsThenClose | src/gif.imageio/gifoutput.cpp:133-182 | with a frame held, appending further subimages (each followed by its rows) and then closing yields the held frame, one frame per appended subimage in order, then the trailer; every call but the last succeeds and the last reports the final frame write |
| Session.SessionTrace | src/gif.imageio/gifoutput.cpp:120-182 | a session of open, rows, then appends with rows, then close yields one header carrying the first spec's size and delay, then one frame per subimage in order (each the canvas its rows painted over white, each with the first spec's delay), then the trailer; it ends in the `init` state |
| Session.StepKeepsSized | src/gif.imageio/gifoutput.cpp:120-251 | one admitted call that does not open a file over a pending frame keeps the pending canvas sized to the spec, and every frame it hands over has width×height×4 bytes |
| Session.FramesAreFullCanvases | src/gif.imageio/gifoutput.cpp:120-251 | from a state whose pending canvas matches its spec, every run in which no file is opened over a pending frame hands the encoder only frames of exactly width×height×4 bytes |
| Session.ConstructedFramesAreFull | src/gif.imageio/gifoutput.cpp:64-251 | the same from a newly constructed writer |
| Session.FileSessionTrace | src/gif.imageio/gifoutput.cpp:147-182 | the same session opened with a declared count of subimages and a list of specs, the first of which is the first frame's, yields the same header, frames in order and trailer, whatever the count and the further specs are |
| Session.OpenFileSegment | src/gif.imageio/gifoutput.cpp:147-168 | opening with a declared count and specs whose first is valid, with sink and header succeeding, followed by the first frame's rows, writes one header carrying the first spec's size and delay, stores the count and the first `n` specs, and holds the painted frame |
| Session.DeclaredSpecsUnread | src/gif.imageio/gifoutput.cpp:84-86 | the declared subimage count and specs are stored but never consulted: two states differing only in them give the same result and encoder calls for every call, and stay alike afterwards |

## Left out

- The I/O proxy shims `fputc`, `fwrite`, `fputs` and `fclose` (`src/gif.imageio/gifoutput.cpp:17-49`) are not modelled. They are thin wrappers over an I/O object that is not part of this model.
- The encoder in `gif.h` (palette, dithering, LZW, block framing) is not part of this model. `GifBegin`, `GifWriteFrame` and `GifEnd` are trace events whose success is a free input. The result of `GifEnd` is ignored by the source and is not modelled.
- Acquiring the output sink (`ioproxy_retrieve_from_config`, `ioproxy_use_or_open`) is reduced to a boolean input. `ioproxy_clear` in `init` has no counterpart.
- GifOutput.WriteScanline: models only the same-type 8-bit copy with packed source pixels. Other source data types, explicit strides and the pixel-format conversion of `convert_image` are not modelled. The `z` and `format` arguments are dropped.
- GifOutput.WriteScanline: requires the row index to be inside the canvas and the data to hold a full row; the source does no bounds check, and its behaviour outside that is undefined. It also requires the canvas to match the current spec (3 or 4 channels and exactly width×height×4 bytes). That fails on a new writer and after `close`, where the canvas is empty and any write is out of bounds, and after an `open` that failed, where the source still copies rows that fit the old canvas; the model does not cover those writes. The 32-bit `int` product `y * width * 4` is modelled as an unbounded integer.
- GifOutput.OpenFile: the frame delay is computed from the `FramesPerSecond` attribute with floating-point arithmetic (`src/gif.imageio/gifoutput.cpp:160-161`). Here the delay is an integer field of the spec, read from the first spec at open.
- GifOutput.Constructed: the constructor leaves the delay and the declared subimage count uninitialised. The delay is a parameter and the count is 0.
- The error message text of `errorf` is not modelled. Only the boolean results are.
- The unknown-mode assertion branch of `open` (`src/gif.imageio/gifoutput.cpp:141-142`) is not modelled, because the mode type has exactly three values.
- The plugin factory and exports, `format_name` and `supports()` are host-framework glue and are not modelled.
- The destructor's call to `close` is not modelled: object lifetime has no counterpart in a pure model.
- Only width, height, depth, channel count, pixel type and delay of a spec are modelled. The other spec fields are read only when the output sink is acquired (`src/gif.imageio/gifoutput.cpp:163`), which is modelled as a boolean input.
