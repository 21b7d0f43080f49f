/** The subimage lifecycle controller of the GIF output plugin.

    The controller adapts a scanline-at-a-time output interface to an
    encoder that takes whole frames. Its state is the current subimage
    index, a flag saying whether a started frame still waits to be handed
    to the encoder, the RGBA staging canvas and the working image spec.
    Every operation is a pure step: it takes the controller state and the
    outcomes the outside world reports (sink acquisition, encoder calls)
    and returns whether the operation succeeded, the next state and the
    encoder calls it made, in order.
 */
module GifOutput {
  import opened Canvas
  import opened Encoder

  /** The pixel data type of a spec; the controller narrows it to 8 bits. */
  datatype PixelType = UInt8 | OtherType

  /** The part of an image spec the controller reads. `delay` is the frame
      delay in hundredths of a second that the spec's frame-rate attribute
      yields; only the first spec of an open is consulted for it. */
  datatype Spec = Spec(width: int, height: int, depth: int, nchannels: int,
                       format: PixelType, delay: int)

  datatype OpenMode = Create | AppendSubimage | AppendMIPLevel

  /** What the outside world reports to one call: whether the output sink
      could be acquired, whether the header write succeeded, whether the
      frame write succeeded. Each step consults only the fields it needs. */
  datatype Outcomes = Outcomes(sinkOk: bool, beginOk: bool, frameOk: bool)

  datatype Controller = Controller(
    filename: string,
    subimage: nat,            // current subimage index
    nsubimages: int,          // declared count: stored, never consulted
    subimageSpecs: seq<Spec>, // declared specs: stored, never consulted
    pending: bool,            // a started frame has not been handed over yet
    spec: Spec,
    canvas: seq<Byte>,
    delay: int)

  /** The result of one operation. */
  datatype Step = Step(ok: bool, next: Controller, events: seq<Event>)

  /** What the GIF format can hold: at least 1x1, not volumetric, RGB or
      RGBA. A depth below 1 counts as 1. */
  predicate Supported(sp: Spec) {
    sp.width >= 1 && sp.height >= 1 && sp.depth <= 1 && Channels(sp.nchannels)
  }

  /** The state `init()` leaves: no file, subimage 0, no canvas, nothing
      pending. The spec, delay and declared subimages are not touched. */
  predicate IsReset(c: Controller) {
    c.filename == [] && c.subimage == 0 && c.canvas == [] && !c.pending
  }

  function Reset(s: Controller): (r: Controller)
    ensures IsReset(r)
    ensures r.spec == s.spec && r.delay == s.delay
    ensures r.nsubimages == s.nsubimages && r.subimageSpecs == s.subimageSpecs
  {
    s.(filename := [], subimage := 0, canvas := [], pending := false)
  }

  /** A freshly constructed writer. The constructor leaves the delay
      unassigned; its value is a parameter here. */
  function Constructed(unsetDelay: int): (r: Controller)
    ensures IsReset(r)
  {
    Controller([], 0, 0, [], false, Spec(0, 0, 1, 0, OtherType, 0), [], unsetDelay)
  }

  /** The frame event for the current canvas. */
  function FrameOf(s: Controller): Event {
    Frame(s.canvas, s.spec.width, s.spec.height, s.delay, BitDepth, Dither)
  }

  /** The canvas a successful start leaves: width x height RGBA pixels, all
      opaque white. */
  ghost predicate FreshCanvas(c: Controller) {
    && c.spec.width >= 1 && c.spec.height >= 1
    && Sized(c.canvas, c.spec.width, c.spec.height)
    && AllOpaque(c.canvas)
  }

  /** Validates the working spec, writes the stream header for subimage 0,
      and replaces the canvas with a fresh one. */
  function StartSubimage(s: Controller, beginOk: bool): (r: Step)
    ensures r.ok <==> Supported(s.spec) && (s.subimage == 0 ==> beginOk)
    ensures r.events == if Supported(s.spec) && s.subimage == 0
                        then [Begin(s.filename, s.spec.width, s.spec.height, s.delay, BitDepth, Dither)]
                        else []
    ensures r.ok ==> r.next.pending && FreshCanvas(r.next)
    ensures !r.ok ==> r.next.pending == s.pending && r.next.canvas == s.canvas
    ensures Supported(s.spec) ==> r.next.spec.depth == 1 && r.next.spec.format == UInt8
    ensures r.next.spec.width == s.spec.width && r.next.spec.height == s.spec.height
    ensures r.next.spec.delay == s.spec.delay && r.next.spec.nchannels == s.spec.nchannels
    ensures r.next.subimage == s.subimage && r.next.delay == s.delay && r.next.filename == s.filename
  {
    var sp := s.spec;
    if sp.width < 1 || sp.height < 1 then Step(false, s, [])
    else
      var coerced := if sp.depth < 1 then sp.(depth := 1) else sp;
      if coerced.depth > 1 then Step(false, s.(spec := coerced), [])
      else if coerced.nchannels != 3 && coerced.nchannels != 4 then Step(false, s.(spec := coerced), [])
      else
        var narrowed := coerced.(format := UInt8);
        var s1 := s.(spec := narrowed);
        var header := if s.subimage == 0
                      then [Begin(s.filename, narrowed.width, narrowed.height, s.delay, BitDepth, Dither)]
                      else [];
        if s.subimage == 0 && !beginOk then Step(false, s1, header)
        else
          var pixels := narrowed.width * narrowed.height * narrowed.depth;
          Step(true, s1.(canvas := Blank(pixels * PixelBytes), pending := true), header)
  }

  /** Hands the pending canvas, if any, to the encoder as one frame. */
  function FinishSubimage(s: Controller, frameOk: bool): (r: Step)
    ensures !s.pending ==> r.ok && r.next == s && r.events == []
    ensures s.pending ==> r.ok == frameOk && r.events == [FrameOf(s)]
    ensures !r.next.pending
    ensures r.next == s.(pending := false)
  {
    if !s.pending then Step(true, s, [])
    else Step(frameOk, s.(pending := false), [FrameOf(s)])
  }

  /** Opening with a declared list of subimages: records the name, resets
      the index, takes the delay from the first spec, acquires the sink and
      starts subimage 0. */
  function OpenFile(s: Controller, name: string, subimages: int, specs: seq<Spec>, io: Outcomes): (r: Step)
    requires subimages >= 1 ==> |specs| >= subimages
    ensures subimages < 1 ==> r == Step(false, s, [])
    ensures subimages >= 1 ==>
              && r.next.subimage == 0 && r.next.delay == specs[0].delay && r.next.filename == name
              && r.next.nsubimages == subimages && r.next.subimageSpecs == specs[..subimages]
    ensures subimages >= 1 && !io.sinkOk ==>
              !r.ok && r.events == [] && r.next.pending == s.pending && r.next.canvas == s.canvas
    ensures r.ok <==> subimages >= 1 && io.sinkOk && Supported(specs[0]) && io.beginOk
    ensures r.events == if subimages >= 1 && io.sinkOk && Supported(specs[0])
                        then [Begin(name, specs[0].width, specs[0].height, specs[0].delay, BitDepth, Dither)]
                        else []
    ensures r.ok ==> r.next.pending && FreshCanvas(r.next) && r.next.spec.nchannels == specs[0].nchannels
    ensures r.ok ==> r.next.spec.width == specs[0].width && r.next.spec.height == specs[0].height
    ensures !r.ok ==> r.next.pending == s.pending && r.next.canvas == s.canvas
  {
    if subimages < 1 then Step(false, s, [])
    else
      var s1 := s.(filename := name, subimage := 0, nsubimages := subimages,
                   subimageSpecs := specs[..subimages], spec := specs[0], delay := specs[0].delay);
      if !io.sinkOk then Step(false, s1, [])
      else StartSubimage(s1, io.beginOk)
  }

  /** Opening with a single spec and a mode. */
  function Open(s: Controller, name: string, spec: Spec, mode: OpenMode, io: Outcomes): (r: Step)
    ensures mode == Create ==> r == OpenFile(s, name, 1, [spec], io)
    ensures mode == AppendMIPLevel ==> r == Step(false, s, [])
    ensures mode == AppendSubimage ==>
              && r.events == (if s.pending then [FrameOf(s)] else [])
              && r.next.subimage == s.subimage + 1
              && (r.ok <==> Supported(spec))
              && r.next.delay == s.delay && r.next.filename == s.filename
              && r.next.spec.width == spec.width && r.next.spec.height == spec.height
              && r.next.spec.nchannels == spec.nchannels
              && (r.ok ==> r.next.pending && FreshCanvas(r.next))
              && (!r.ok ==> !r.next.pending && r.next.canvas == s.canvas)
  {
    match mode
    case Create => OpenFile(s, name, 1, [spec], io)
    case AppendMIPLevel => Step(false, s, [])
    case AppendSubimage =>
      var flushed := if s.pending then FinishSubimage(s, io.frameOk) else Step(true, s, []);
      var s1 := flushed.next.(subimage := flushed.next.subimage + 1, spec := spec);
      var started := StartSubimage(s1, io.beginOk);
      Step(started.ok, started.next, flushed.events + started.events)
  }

  /** A state a scanline may be written into: the canvas matches the spec's
      geometry and channel count. */
  predicate Writable(s: Controller) {
    && s.spec.width >= 0 && s.spec.height >= 0 && Channels(s.spec.nchannels)
    && Sized(s.canvas, s.spec.width, s.spec.height)
  }

  /** Copies one row of packed 8-bit pixels into the canvas. `write_scanline`
      does no bounds check: the row must lie inside the canvas, the data must
      hold a full row, and the canvas must match the current spec. */
  function WriteScanline(s: Controller, y: int, data: seq<Byte>): (r: Step)
    requires Writable(s) && WriteFits(RowWrite(y, data), s.spec.width, s.spec.height, s.spec.nchannels)
    ensures r.ok && r.events == []
    ensures r.next == s.(canvas := r.next.canvas)
    ensures Writable(r.next)
    ensures RowCopied(s.canvas, r.next.canvas, RowStart(s.spec.width, y), s.spec.width, data, s.spec.nchannels)
  {
    Step(true, s.(canvas := PutRow(s.canvas, s.spec.width, s.spec.height, s.spec.nchannels, RowWrite(y, data))), [])
  }

  /** Flushes a pending frame and writes the trailer, then resets. The
      trailer's own result is not consulted. */
  function Close(s: Controller, io: Outcomes): (r: Step)
    ensures r.ok <==> !s.pending || io.frameOk
    ensures r.events == if s.pending then [FrameOf(s), End] else []
    ensures r.next == Reset(s)
  {
    if s.pending then
      var flushed := FinishSubimage(s, io.frameOk);
      Step(flushed.ok, Reset(flushed.next), flushed.events + [End])
    else Step(true, Reset(s), [])
  }
}
