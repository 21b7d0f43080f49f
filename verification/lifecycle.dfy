/** Properties of single controller operations and of short fixed
    sequences of them. */
module Lifecycle {
  import opened Canvas
  import opened Encoder
  import opened GifOutput

  /** A second flush right after a first one does nothing and succeeds,
      whatever the encoder would have said. */
  lemma {:induction false} FinishTwiceIsNoop(s: Controller, ok1: bool, ok2: bool)
    ensures var first := FinishSubimage(s, ok1);
            FinishSubimage(first.next, ok2) == Step(true, first.next, [])
  {
  }

  /** Closing an already closed writer succeeds, makes no encoder call and
      leaves the state as it is. */
  lemma {:induction false} CloseTwiceIsNoop(s: Controller, io1: Outcomes, io2: Outcomes)
    ensures var first := Close(s, io1);
            Close(first.next, io2) == Step(true, first.next, [])
  {
  }

  /** Appending a subimage never writes a second header, hands over exactly
      the frame that was pending (if any), and advances the index by one. */
  lemma {:induction false} AppendNeverWritesHeader(s: Controller, name: string, spec: Spec, io: Outcomes)
    ensures var r := Open(s, name, spec, AppendSubimage, io);
            && Headers(r.events) == 0
            && Frames(r.events) == (if s.pending then 1 else 0)
            && r.next.subimage == s.subimage + 1
  {
    var r := Open(s, name, spec, AppendSubimage, io);
    if s.pending {
      assert r.events == [FrameOf(s)];
      assert Frames(r.events) == 1 + Frames([]);
    }
  }

  /** A rejected frame spec makes no encoder call and arms nothing. */
  lemma {:induction false} RejectedSpecEmitsNothing(s: Controller, beginOk: bool)
    requires !Supported(s.spec)
    ensures var r := StartSubimage(s, beginOk);
            !r.ok && r.events == [] && r.next.pending == s.pending
  {
  }

  /** Open with a valid spec immediately followed by close produces the
      header, one all-white frame of the spec's size, and the trailer. */
  lemma {:induction false} OpenThenClose(s: Controller, name: string, spec: Spec, io1: Outcomes, io2: Outcomes)
    requires Supported(spec) && io1.sinkOk && io1.beginOk
    ensures var o := Open(s, name, spec, Create, io1);
            var c := Close(o.next, io2);
            && o.ok
            && c.ok == io2.frameOk
            && o.events + c.events
               == [Begin(name, spec.width, spec.height, spec.delay, BitDepth, Dither),
                   Frame(Blank(spec.width * spec.height * PixelBytes), spec.width, spec.height,
                         spec.delay, BitDepth, Dither),
                   End]
  {
    var o := Open(s, name, spec, Create, io1);
    FreshIsBlank(o.next.canvas, spec.width * spec.height * PixelBytes);
  }

  /** A canvas of the right length whose every byte is 255 is the blank
      canvas. */
  lemma {:induction false} FreshIsBlank(c: seq<Byte>, n: nat)
    requires |c| == n && AllOpaque(c)
    ensures c == Blank(n)
  {
  }

  /** An append over a pending frame whose spec is rejected hands over that
      frame and leaves nothing pending, so the following close makes no
      encoder call at all: no trailer is written. */
  lemma {:induction false} RejectedAppendSkipsTrailer(s: Controller, name: string, spec: Spec, io: Outcomes, io2: Outcomes)
    requires s.pending && !Supported(spec)
    ensures var a := Open(s, name, spec, AppendSubimage, io);
            var c := Close(a.next, io2);
            && !a.ok && a.events == [FrameOf(s)]
            && c.ok && c.events == []
  {
  }

  /** Re-opening a file while a frame is pending, when the re-open fails,
      replaces the spec but leaves the old canvas pending; the next close
      hands the encoder that canvas with the new spec's width and height,
      whatever their product. */
  lemma {:induction false} FailedReopenStaleFrame(s: Controller, name: string, sp: Spec, io: Outcomes, io2: Outcomes)
    requires s.pending
    requires !io.sinkOk || !io.beginOk || !Supported(sp)
    ensures var o := OpenFile(s, name, 1, [sp], io);
            var c := Close(o.next, io2);
            && !o.ok
            && c.events == [Frame(s.canvas, sp.width, sp.height, sp.delay, BitDepth, Dither), End]
  {
  }

  /** One instance: a pending 2x2 RGBA frame, a re-open with a 100x100 spec
      whose sink cannot be acquired, then close. The frame handed over has
      16 bytes but claims 100x100 pixels. */
  lemma {:induction false} StaleFrameExample(s: Controller, io2: Outcomes)
    requires s.pending && s.spec.width == 2 && s.spec.height == 2 && |s.canvas| == 16
    ensures var sp := Spec(100, 100, 1, 3, UInt8, 4);
            var o := OpenFile(s, "b.gif", 1, [sp], Outcomes(false, true, true));
            var c := Close(o.next, io2);
            && c.events[0].Frame?
            && |c.events[0].image| == 16
            && c.events[0].width * c.events[0].height * PixelBytes == 40000
  {
    var sp := Spec(100, 100, 1, 3, UInt8, 4);
    FailedReopenStaleFrame(s, "b.gif", sp, Outcomes(false, true, true), io2);
  }

  /** Appending before any file was opened is accepted: the index becomes 1,
      so no header is written, and the close that follows hands over a frame
      and a trailer that no header precedes. */
  lemma {:induction false} AppendBeforeOpenHasNoHeader(s: Controller, spec: Spec, io: Outcomes, io2: Outcomes)
    requires IsReset(s) && Supported(spec)
    ensures var a := Open(s, [], spec, AppendSubimage, io);
            var c := Close(a.next, io2);
            && a.ok && a.events == []
            && c.events == [FrameOf(a.next), End]
            && Headers(a.events + c.events) == 0
  {
    var a := Open(s, [], spec, AppendSubimage, io);
    var c := Close(a.next, io2);
    assert a.events + c.events == [FrameOf(a.next), End];
    assert Headers([FrameOf(a.next), End]) == Headers([End]) == Headers([]);
  }
}
