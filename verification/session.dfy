/** Whole runs of the controller: a caller issues a sequence of calls and the
    encoder sees a trace of header, frame and trailer calls. */
module Session {
  import opened Canvas
  import opened Encoder
  import opened GifOutput

  datatype Option<T> = None | Some(value: T)

  /** One call a caller makes on the writer. */
  datatype Command =
    | OpenFileCmd(name: string, subimages: int, specs: seq<Spec>, io: Outcomes)
    | OpenCmd(name: string, spec: Spec, mode: OpenMode, io: Outcomes)
    | WriteCmd(y: int, data: seq<Byte>)
    | CloseCmd(io: Outcomes)

  predicate IsOpen(c: Command) {
    c.OpenFileCmd? || c.OpenCmd?
  }

  /** An open that starts a new file (rather than appending to one). */
  predicate IsCreate(c: Command) {
    c.OpenFileCmd? || (c.OpenCmd? && c.mode == Create)
  }

  /** Performs one call, or yields `None` when the call is outside what the
      writer admits: an `open` given fewer specs than it declares, or a
      scanline write into a canvas that does not match the current spec,
      into a row outside it, or with less than a row of data. The writer's
      behaviour is undefined there. An admitted call writes a header only
      if it opens a file, a scanline write only changes the canvas, and
      only opening a file touches the declared subimages. */
  function Apply(s: Controller, c: Command): (r: Option<Step>)
    ensures r.None? <==> match c
                         case OpenFileCmd(_, n, specs, _) => n >= 1 && |specs| < n
                         case WriteCmd(y, data) =>
                           !(Writable(s) && WriteFits(RowWrite(y, data), s.spec.width, s.spec.height, s.spec.nchannels))
                         case _ => false
    ensures r.Some? && !IsCreate(c) ==> Headers(r.value.events) == 0
    ensures r.Some? && c.WriteCmd? ==>
              && r.value.ok && r.value.events == []
              && r.value.next == s.(canvas := r.value.next.canvas) && Writable(r.value.next)
    ensures c.OpenCmd? && c.mode == AppendMIPLevel ==> r == Some(Step(false, s, []))
    ensures c.CloseCmd? ==>
              r.Some? && IsReset(r.value.next) && r.value.events == (if s.pending then [FrameOf(s), End] else [])
    ensures r.Some? && !IsCreate(c) ==>
              r.value.next.nsubimages == s.nsubimages && r.value.next.subimageSpecs == s.subimageSpecs
  {
    match c
    case OpenFileCmd(name, n, specs, io) =>
      if n >= 1 && |specs| < n then None else Some(OpenFile(s, name, n, specs, io))
    case OpenCmd(name, spec, mode, io) =>
      var st := Open(s, name, spec, mode, io);
      assert mode != Create ==> Headers(st.events) == 0 by {
        if mode == AppendSubimage && s.pending {
          assert st.events == [FrameOf(s)];
          assert Headers(st.events) == Headers([]);
        }
      }
      Some(st)
    case WriteCmd(y, data) =>
      if Writable(s) && WriteFits(RowWrite(y, data), s.spec.width, s.spec.height, s.spec.nchannels)
      then Some(WriteScanline(s, y, data))
      else None
    case CloseCmd(io) =>
      var st := Close(s, io);
      assert Headers(st.events) == 0 by {
        if s.pending {
          assert st.events == [FrameOf(s), End];
          assert Headers(st.events) == Headers([End]) == Headers([]);
        }
      }
      Some(st)
  }

  /** The outcome of a sequence of calls: final state, encoder trace, and
      the value each call returned. */
  datatype Run = Run(final: Controller, trace: seq<Event>, results: seq<bool>)

  /** Runs `cmds` from `s`, one `step` per call, stopping with `None` at
      the first call the step does not admit. */
  function Drive(step: (Controller, Command) -> Option<Step>, s: Controller, cmds: seq<Command>): (r: Option<Run>)
    ensures r.Some? ==> |r.value.results| == |cmds|
    decreases |cmds|
  {
    if cmds == [] then Some(Run(s, [], []))
    else
      match step(s, cmds[0])
      case None => None
      case Some(st) =>
        match Drive(step, st.next, cmds[1..])
        case None => None
        case Some(run) => Some(Run(run.final, st.events + run.trace, [st.ok] + run.results))
  }

  /** Runs a sequence of calls on the writer. */
  function Exec(s: Controller, cmds: seq<Command>): (r: Option<Run>)
    ensures r.Some? ==> |r.value.results| == |cmds|
  {
    Drive(Apply, s, cmds)
  }

  /** Number of open calls that reported success. */
  function OpenSuccesses(cmds: seq<Command>, results: seq<bool>): nat
    requires |results| == |cmds|
    decreases |cmds|
  {
    if cmds == [] then 0
    else (if IsOpen(cmds[0]) && results[0] then 1 else 0) + OpenSuccesses(cmds[1..], results[1..])
  }

  function Pending(s: Controller): nat {
    if s.pending then 1 else 0
  }

  /** Every call is admitted and no new file is opened while a frame is
      still pending. */
  predicate CreatesWhenIdle(s: Controller, cmds: seq<Command>)
    decreases |cmds|
  {
    cmds == [] ||
    match Apply(s, cmds[0])
    case None => false
    case Some(st) => (IsCreate(cmds[0]) ==> !s.pending) && CreatesWhenIdle(st.next, cmds[1..])
  }

  /** One call: frames handed over plus the change in the pending flag equal
      the successful opens, except that a successful re-open over a pending
      frame drops that frame. */
  lemma {:induction false} StepAccounting(s: Controller, c: Command, st: Step)
    requires Apply(s, c) == Some(st)
    ensures Frames(st.events) + Pending(st.next) + (if IsCreate(c) && s.pending && st.ok then 1 else 0)
         == Pending(s) + (if IsOpen(c) && st.ok then 1 else 0)
  {
    match c
    case OpenFileCmd(name, n, specs, io) =>
      assert Frames(st.events) == 0 by { NoFrameIn(st.events); }
    case OpenCmd(name, spec, mode, io) =>
      if mode == Create {
        assert Frames(st.events) == 0 by { NoFrameIn(st.events); }
      } else if mode == AppendSubimage {
        if s.pending {
          assert st.events == [FrameOf(s)];
          assert Frames(st.events) == 1 + Frames([]);
        }
      }
    case WriteCmd(y, data) =>
    case CloseCmd(io) =>
      if s.pending {
        assert st.events == [FrameOf(s), End];
        assert Frames(st.events) == 1 + Frames([End]);
      }
  }

  lemma {:induction false} NoFrameIn(t: seq<Event>)
    requires |t| <= 1 && (|t| == 1 ==> t[0].Begin?)
    ensures Frames(t) == 0
  {
  }

  /** Over any admitted sequence of calls, no frame is handed to the encoder
      twice: frames handed over, plus the frame still pending, never exceed
      the frame pending at the start plus the successful opens. */
  lemma {:induction false} AtMostOnce(s: Controller, cmds: seq<Command>)
    requires Exec(s, cmds).Some?
    ensures var run := Exec(s, cmds).value;
            Frames(run.trace) + Pending(run.final) <= Pending(s) + OpenSuccesses(cmds, run.results)
    decreases |cmds|
  {
    if cmds != [] {
      var st := Apply(s, cmds[0]).value;
      var run := Exec(s, cmds).value;
      var rest := Exec(st.next, cmds[1..]).value;
      StepAccounting(s, cmds[0], st);
      AtMostOnce(st.next, cmds[1..]);
      CountsAdd(st.events, rest.trace);
      assert run.results[1..] == rest.results;
    }
  }

  /** When no file is re-opened over a pending frame, every successful open
      yields exactly one frame: handed over already, or still pending. */
  lemma {:induction false} ExactlyOnce(s: Controller, cmds: seq<Command>)
    requires CreatesWhenIdle(s, cmds)
    ensures Exec(s, cmds).Some?
    ensures var run := Exec(s, cmds).value;
            Frames(run.trace) + Pending(run.final) == Pending(s) + OpenSuccesses(cmds, run.results)
    decreases |cmds|
  {
    if cmds != [] {
      var st := Apply(s, cmds[0]).value;
      StepAccounting(s, cmds[0], st);
      ExactlyOnce(st.next, cmds[1..]);
      var run := Exec(s, cmds).value;
      var rest := Exec(st.next, cmds[1..]).value;
      CountsAdd(st.events, rest.trace);
      assert run.results[1..] == rest.results;
    }
  }

  /** A run that ends with a close leaves the writer reset. */
  lemma {:induction false} EndsWithClose(s: Controller, cmds: seq<Command>)
    requires |cmds| >= 1 && cmds[|cmds| - 1].CloseCmd?
    requires Exec(s, cmds).Some?
    ensures IsReset(Exec(s, cmds).value.final)
    decreases |cmds|
  {
    var st := Apply(s, cmds[0]).value;
    DriveCons(Apply, s, cmds);
    if |cmds| > 1 {
      assert cmds[1..][|cmds[1..]| - 1] == cmds[|cmds| - 1];
      EndsWithClose(st.next, cmds[1..]);
    } else {
      assert Drive(Apply, st.next, cmds[1..]) == Some(Run(st.next, [], []));
    }
  }

  /** From a freshly constructed writer, a disciplined run that ends with a
      close hands the encoder exactly one frame per successful open. */
  lemma {:induction false} ClosedRunFrames(d: int, cmds: seq<Command>)
    requires |cmds| >= 1 && cmds[|cmds| - 1].CloseCmd?
    requires CreatesWhenIdle(Constructed(d), cmds)
    ensures Exec(Constructed(d), cmds).Some?
    ensures var run := Exec(Constructed(d), cmds).value;
            Frames(run.trace) == OpenSuccesses(cmds, run.results)
  {
    ExactlyOnce(Constructed(d), cmds);
    EndsWithClose(Constructed(d), cmds);
  }

  // ---------------------------------------------------------------------
  // A well-formed animation session: open, rows, append, rows, ..., close.

  /** One frame of a session: its spec, the rows written into it, and what
      the outside world reports to its open or append call. */
  datatype FrameJob = FrameJob(spec: Spec, writes: seq<RowWrite>, io: Outcomes)

  predicate ValidJob(j: FrameJob) {
    Supported(j.spec) && AllFit(j.writes, j.spec.width, j.spec.height, j.spec.nchannels)
  }

  predicate ValidJobs(jobs: seq<FrameJob>) {
    forall i | 0 <= i < |jobs| :: ValidJob(jobs[i])
  }

  /** The canvas a job's rows produce on a fresh canvas. */
  function Painted(j: FrameJob): seq<Byte>
    requires ValidJob(j)
  {
    var w := j.spec.width;
    var h := j.spec.height;
    Paint(Blank(w * h * PixelBytes), w, h, j.spec.nchannels, j.writes)
  }

  /** The frame events the encoder should see for the jobs, in order. */
  function FrameEvents(jobs: seq<FrameJob>, delay: int): (t: seq<Event>)
    requires ValidJobs(jobs)
    decreases |jobs|
  {
    if jobs == [] then []
    else [Frame(Painted(jobs[0]), jobs[0].spec.width, jobs[0].spec.height, delay, BitDepth, Dither)]
         + FrameEvents(jobs[1..], delay)
  }

  /** The frame events are one per job, in job order. */
  lemma {:induction false} FrameEventsInOrder(jobs: seq<FrameJob>, delay: int)
    requires ValidJobs(jobs)
    ensures |FrameEvents(jobs, delay)| == |jobs|
    ensures Frames(FrameEvents(jobs, delay)) == |jobs| && Headers(FrameEvents(jobs, delay)) == 0
    ensures forall i | 0 <= i < |jobs| ::
              FrameEvents(jobs, delay)[i]
              == Frame(Painted(jobs[i]), jobs[i].spec.width, jobs[i].spec.height, delay, BitDepth, Dither)
    decreases |jobs|
  {
    if jobs != [] {
      FrameEventsInOrder(jobs[1..], delay);
      var t := FrameEvents(jobs, delay);
      assert t[1..] == FrameEvents(jobs[1..], delay);
    }
  }

  function WriteCmds(writes: seq<RowWrite>): (cs: seq<Command>)
    ensures |cs| == |writes|
    decreases |writes|
  {
    if writes == [] then [] else [WriteCmd(writes[0].y, writes[0].data)] + WriteCmds(writes[1..])
  }

  /** A job's open (of the given mode) followed by its rows. */
  function JobCmds(name: string, mode: OpenMode, j: FrameJob): seq<Command> {
    [OpenCmd(name, j.spec, mode, j.io)] + WriteCmds(j.writes)
  }

  function AppendCmds(jobs: seq<FrameJob>): seq<Command>
    decreases |jobs|
  {
    if jobs == [] then [] else JobCmds([], AppendSubimage, jobs[0]) + AppendCmds(jobs[1..])
  }

  /** Open with the first job, append the others, close. */
  function SessionCmds(name: string, jobs: seq<FrameJob>, closeIo: Outcomes): seq<Command>
    requires |jobs| >= 1
  {
    JobCmds(name, Create, jobs[0]) + (AppendCmds(jobs[1..]) + [CloseCmd(closeIo)])
  }

  predicate AllTrue(bs: seq<bool>) {
    forall i | 0 <= i < |bs| :: bs[i]
  }

  function Join(a: Run, b: Run): Run {
    Run(b.final, a.trace + b.trace, a.results + b.results)
  }

  /** Unfolds one call of a run. */
  lemma {:induction false} DriveCons(step: (Controller, Command) -> Option<Step>, s: Controller, cmds: seq<Command>)
    requires cmds != [] && step(s, cmds[0]).Some?
    ensures var st := step(s, cmds[0]).value;
            Drive(step, s, cmds) == match Drive(step, st.next, cmds[1..])
                                    case None => None
                                    case Some(run) => Some(Run(run.final, st.events + run.trace, [st.ok] + run.results))
  {
  }

  lemma {:induction false} ExecOne(s: Controller, c: Command)
    requires Apply(s, c).Some?
    ensures var st := Apply(s, c).value;
            Exec(s, [c]) == Some(Run(st.next, st.events, [st.ok]))
  {
    var st := Apply(s, c).value;
    DriveCons(Apply, s, [c]);
    assert [c][0] == c && [c][1..] == [];
    assert Drive(Apply, st.next, [c][1..]) == Some(Run(st.next, [], []));
    assert st.events + [] == st.events && [st.ok] + [] == [st.ok];
  }

  /** Running `a + b` is running `a`, then `b` from where `a` stopped. */
  lemma {:induction false} DriveConcat(step: (Controller, Command) -> Option<Step>, s: Controller,
                                       a: seq<Command>, b: seq<Command>, r1: Run, r2: Run)
    requires Drive(step, s, a) == Some(r1) && Drive(step, r1.final, b) == Some(r2)
    ensures Drive(step, s, a + b) == Some(Join(r1, r2))
    decreases |a|
  {
    if a == [] {
      assert a + b == b;
      assert [] + r2.trace == r2.trace && [] + r2.results == r2.results;
    } else {
      var st := step(s, a[0]).value;
      var q1 := Drive(step, st.next, a[1..]).value;
      DriveConcat(step, st.next, a[1..], b, q1, r2);
      ConsJoin(step, s, a, b, st, q1, r2);
    }
  }

  lemma {:induction false} ConsJoin(step: (Controller, Command) -> Option<Step>, s: Controller, a: seq<Command>, b: seq<Command>,
                 st: Step, q1: Run, r2: Run)
    requires a != [] && step(s, a[0]) == Some(st)
    requires Drive(step, st.next, a[1..] + b) == Some(Join(q1, r2))
    ensures Drive(step, s, a + b) == Some(Join(Run(q1.final, st.events + q1.trace, [st.ok] + q1.results), r2))
  {
    var ab := a + b;
    assert ab[0] == a[0] && ab[1..] == a[1..] + b;
    assert st.events + (q1.trace + r2.trace) == (st.events + q1.trace) + r2.trace;
    assert [st.ok] + (q1.results + r2.results) == ([st.ok] + q1.results) + r2.results;
  }

  lemma {:induction false} ExecConcat(s: Controller, a: seq<Command>, b: seq<Command>, r1: Run, r2: Run)
    requires Exec(s, a) == Some(r1) && Exec(r1.final, b) == Some(r2)
    ensures Exec(s, a + b) == Some(Join(r1, r2))
  {
    DriveConcat(Apply, s, a, b, r1, r2);
  }

  /** Scanline writes within the contract change only the canvas, make no
      encoder call and all succeed; the canvas becomes the painted one. */
  lemma {:induction false} WritesRun(s: Controller, writes: seq<RowWrite>)
    requires Writable(s) && AllFit(writes, s.spec.width, s.spec.height, s.spec.nchannels)
    ensures Exec(s, WriteCmds(writes)).Some?
    ensures var run := Exec(s, WriteCmds(writes)).value;
            && run.final == s.(canvas := Paint(s.canvas, s.spec.width, s.spec.height, s.spec.nchannels, writes))
            && run.trace == [] && AllTrue(run.results)
    decreases |writes|
  {
    if writes != [] {
      var st := WriteScanline(s, writes[0].y, writes[0].data);
      assert WriteCmds(writes)[0] == WriteCmd(writes[0].y, writes[0].data);
      assert WriteCmds(writes)[1..] == WriteCmds(writes[1..]);
      WritesRun(st.next, writes[1..]);
    }
  }

  /** The state after a job's open (or append) and its rows: its frame is
      pending and the canvas holds exactly what its rows painted. */
  ghost predicate Holding(s: Controller, j: FrameJob, delay: int) {
    && ValidJob(j) && s.pending && s.delay == delay
    && s.spec.width == j.spec.width && s.spec.height == j.spec.height
    && s.spec.nchannels == j.spec.nchannels
    && s.canvas == Painted(j)
  }

  /** Starting a valid job from a successful start and writing its rows. */
  lemma {:induction false} JobRows(started: Controller, j: FrameJob)
    requires ValidJob(j) && started.pending && FreshCanvas(started)
    requires started.spec.width == j.spec.width && started.spec.height == j.spec.height
    requires started.spec.nchannels == j.spec.nchannels
    ensures Writable(started)
    ensures Exec(started, WriteCmds(j.writes)).Some?
    ensures var run := Exec(started, WriteCmds(j.writes)).value;
            && Holding(run.final, j, started.delay) && run.trace == [] && AllTrue(run.results)
            && run.final == started.(canvas := run.final.canvas)
  {
    assert started.canvas == Blank(j.spec.width * j.spec.height * PixelBytes);
    WritesRun(started, j.writes);
  }

  /** A call that starts the job's frame, followed by the job's rows. */
  lemma {:induction false} StartSegment(s: Controller, c: Command, j: FrameJob, st: Step)
    requires ValidJob(j) && Apply(s, c) == Some(st)
    requires st.ok && st.next.pending && FreshCanvas(st.next)
    requires st.next.spec.width == j.spec.width && st.next.spec.height == j.spec.height
    requires st.next.spec.nchannels == j.spec.nchannels
    ensures Exec(s, [c] + WriteCmds(j.writes)).Some?
    ensures var run := Exec(s, [c] + WriteCmds(j.writes)).value;
            && Holding(run.final, j, st.next.delay) && run.trace == st.events && AllTrue(run.results)
            && run.final.nsubimages == st.next.nsubimages && run.final.subimageSpecs == st.next.subimageSpecs
  {
    ExecOne(s, c);
    JobRows(st.next, j);
    var wrun := Exec(st.next, WriteCmds(j.writes)).value;
    ExecConcat(s, [c], WriteCmds(j.writes), Run(st.next, st.events, [st.ok]), wrun);
    assert st.events + wrun.trace == st.events;
  }

  /** Appending a valid job while another frame is held: the held frame is
      handed over and the new one is held. */
  lemma {:induction false} AppendSegment(s: Controller, cur: FrameJob, j: FrameJob)
    requires Holding(s, cur, s.delay) && ValidJob(j)
    ensures Exec(s, JobCmds([], AppendSubimage, j)).Some?
    ensures var run := Exec(s, JobCmds([], AppendSubimage, j)).value;
            Holding(run.final, j, s.delay) && run.trace == [FrameOf(s)] && AllTrue(run.results)
  {
    var c := OpenCmd([], j.spec, AppendSubimage, j.io);
    StartSegment(s, c, j, Open(s, [], j.spec, AppendSubimage, j.io));
  }

  /** Opening a file with a valid job whose sink and header succeed. */
  lemma {:induction false} OpenSegment(s: Controller, name: string, j: FrameJob)
    requires ValidJob(j) && j.io.sinkOk && j.io.beginOk
    ensures Exec(s, JobCmds(name, Create, j)).Some?
    ensures var run := Exec(s, JobCmds(name, Create, j)).value;
            && Holding(run.final, j, j.spec.delay) && AllTrue(run.results)
            && run.trace == [Begin(name, j.spec.width, j.spec.height, j.spec.delay, BitDepth, Dither)]
  {
    var c := OpenCmd(name, j.spec, Create, j.io);
    StartSegment(s, c, j, Open(s, name, j.spec, Create, j.io));
  }

  /** Opening a file with a declared count of subimages whose first spec is
      the valid job's, then writing the job's rows. */
  lemma {:induction false} OpenFileSegment(s: Controller, name: string, n: int, specs: seq<Spec>, j: FrameJob)
    requires ValidJob(j) && j.io.sinkOk && j.io.beginOk
    requires 1 <= n <= |specs| && specs[0] == j.spec
    ensures Exec(s, [OpenFileCmd(name, n, specs, j.io)] + WriteCmds(j.writes)).Some?
    ensures var run := Exec(s, [OpenFileCmd(name, n, specs, j.io)] + WriteCmds(j.writes)).value;
            && Holding(run.final, j, j.spec.delay) && AllTrue(run.results)
            && run.trace == [Begin(name, j.spec.width, j.spec.height, j.spec.delay, BitDepth, Dither)]
            && run.final.nsubimages == n && run.final.subimageSpecs == specs[..n]
  {
    var c := OpenFileCmd(name, n, specs, j.io);
    StartSegment(s, c, j, OpenFile(s, name, n, specs, j.io));
  }

  /** Every call but the last succeeded, and the last reported `last`. */
  predicate EndsWith(results: seq<bool>, last: bool) {
    |results| >= 1 && AllTrue(results[..|results| - 1]) && results[|results| - 1] == last
  }

  lemma {:induction false} PrefixTrue(a: seq<bool>, b: seq<bool>, last: bool)
    requires AllTrue(a) && EndsWith(b, last)
    ensures EndsWith(a + b, last)
  {
    assert (a + b)[..|a + b| - 1] == a + b[..|b| - 1];
  }

  /** Closing while a job's frame is held: that frame, then the trailer. */
  lemma {:induction false} CloseHolding(s: Controller, cur: FrameJob, closeIo: Outcomes)
    requires Holding(s, cur, s.delay)
    ensures Exec(s, [CloseCmd(closeIo)]).Some?
    ensures var run := Exec(s, [CloseCmd(closeIo)]).value;
            && run.trace == [FrameOf(s), End]
            && IsReset(run.final)
            && EndsWith(run.results, closeIo.frameOk)
  {
    ExecOne(s, CloseCmd(closeIo));
    assert [closeIo.frameOk][..0] == [];
  }

  lemma {:induction false} AppendCmdsCons(jobs: seq<FrameJob>, tail: seq<Command>)
    requires jobs != []
    ensures AppendCmds(jobs) + tail == JobCmds([], AppendSubimage, jobs[0]) + (AppendCmds(jobs[1..]) + tail)
  {
  }

  /** One append segment followed by the rest of a run. */
  lemma {:induction false} AppendThenRest(s: Controller, jobs: seq<FrameJob>, closeIo: Outcomes,
                                          head: Run, tail: Run)
    requires ValidJobs(jobs) && jobs != []
    requires Exec(s, JobCmds([], AppendSubimage, jobs[0])) == Some(head)
    requires head.trace == [FrameOf(s)] && AllTrue(head.results) && Holding(head.final, jobs[0], s.delay)
    requires Exec(head.final, AppendCmds(jobs[1..]) + [CloseCmd(closeIo)]) == Some(tail)
    requires tail.trace == [FrameOf(head.final)] + FrameEvents(jobs[1..], s.delay) + [End]
    requires EndsWith(tail.results, closeIo.frameOk)
    ensures Exec(s, AppendCmds(jobs) + [CloseCmd(closeIo)])
            == Some(Run(tail.final, [FrameOf(s)] + FrameEvents(jobs, s.delay) + [End], head.results + tail.results))
    ensures EndsWith(head.results + tail.results, closeIo.frameOk)
  {
    var close := [CloseCmd(closeIo)];
    assert Exec(s, AppendCmds(jobs) + close) == Some(Join(head, tail)) by {
      ExecConcat(s, JobCmds([], AppendSubimage, jobs[0]), AppendCmds(jobs[1..]) + close, head, tail);
      AppendCmdsCons(jobs, close);
    }
    assert Join(head, tail).trace == [FrameOf(s)] + FrameEvents(jobs, s.delay) + [End] by {
      AppendTrace(s, head.final, jobs, s.delay);
    }
    PrefixTrue(head.results, tail.results, closeIo.frameOk);
  }

  lemma {:induction false} AppendTrace(s: Controller, held: Controller, jobs: seq<FrameJob>, delay: int)
    requires ValidJobs(jobs) && jobs != [] && Holding(held, jobs[0], delay)
    ensures [FrameOf(s)] + ([FrameOf(held)] + FrameEvents(jobs[1..], delay) + [End])
            == [FrameOf(s)] + FrameEvents(jobs, delay) + [End]
  {
    var fs := FrameEvents(jobs[1..], delay);
    assert FrameEvents(jobs, delay) == [FrameOf(held)] + fs;
    assert [FrameOf(s)] + ([FrameOf(held)] + fs + [End]) == [FrameOf(s)] + ([FrameOf(held)] + fs) + [End];
  }

  /** Appending the remaining jobs and closing: the frame already pending,
      then one frame per job, in order, then the trailer. */
  lemma {:induction false} AppendsThenClose(s: Controller, cur: FrameJob, jobs: seq<FrameJob>, closeIo: Outcomes)
    requires Holding(s, cur, s.delay) && ValidJobs(jobs)
    ensures Exec(s, AppendCmds(jobs) + [CloseCmd(closeIo)]).Some?
    ensures var run := Exec(s, AppendCmds(jobs) + [CloseCmd(closeIo)]).value;
            && run.trace == [FrameOf(s)] + FrameEvents(jobs, s.delay) + [End]
            && IsReset(run.final)
            && EndsWith(run.results, closeIo.frameOk)
    decreases |jobs|
  {
    if jobs == [] {
      assert AppendCmds(jobs) + [CloseCmd(closeIo)] == [CloseCmd(closeIo)];
      CloseHolding(s, cur, closeIo);
    } else {
      AppendSegment(s, cur, jobs[0]);
      var head := Exec(s, JobCmds([], AppendSubimage, jobs[0])).value;
      AppendsThenClose(head.final, jobs[0], jobs[1..], closeIo);
      var tail := Exec(head.final, AppendCmds(jobs[1..]) + [CloseCmd(closeIo)]).value;
      AppendThenRest(s, jobs, closeIo, head, tail);
    }
  }

  /** A well-formed session from any state: open a file with the first
      frame, write its rows, append every further frame with its rows, and
      close. The encoder sees one header carrying the first frame's size and
      delay, then one frame per job in order, each the canvas its rows
      painted over opaque white and each with the first frame's delay, then
      the trailer. Every call succeeds except that close reports the last
      frame write's result. */
  lemma {:induction false} SessionTrace(s: Controller, name: string, jobs: seq<FrameJob>, closeIo: Outcomes)
    requires |jobs| >= 1 && ValidJobs(jobs)
    requires jobs[0].io.sinkOk && jobs[0].io.beginOk
    ensures Exec(s, SessionCmds(name, jobs, closeIo)).Some?
    ensures var run := Exec(s, SessionCmds(name, jobs, closeIo)).value;
            var first := jobs[0].spec;
            && run.trace == [Begin(name, first.width, first.height, first.delay, BitDepth, Dither)]
                            + FrameEvents(jobs, first.delay) + [End]
            && IsReset(run.final)
            && EndsWith(run.results, closeIo.frameOk)
  {
    var j := jobs[0];
    OpenSegment(s, name, j);
    var head := Exec(s, JobCmds(name, Create, j)).value;
    var rest := AppendCmds(jobs[1..]) + [CloseCmd(closeIo)];
    AppendsThenClose(head.final, j, jobs[1..], closeIo);
    var tail := Exec(head.final, rest).value;
    ExecConcat(s, JobCmds(name, Create, j), rest, head, tail);
    var fs := FrameEvents(jobs[1..], j.spec.delay);
    assert FrameEvents(jobs, j.spec.delay) == [FrameOf(head.final)] + fs;
    assert head.trace + ([FrameOf(head.final)] + fs + [End])
           == head.trace + ([FrameOf(head.final)] + fs) + [End];
    PrefixTrue(head.results, tail.results, closeIo.frameOk);
  }

  /** The counted `open` followed by the first frame's rows, the appends
      with their rows, and close. */
  function FileSessionCmds(name: string, n: int, specs: seq<Spec>, jobs: seq<FrameJob>, closeIo: Outcomes): seq<Command>
    requires |jobs| >= 1
  {
    ([OpenFileCmd(name, n, specs, jobs[0].io)] + WriteCmds(jobs[0].writes))
    + (AppendCmds(jobs[1..]) + [CloseCmd(closeIo)])
  }

  /** The same session opened with a declared count of subimages whose first
      spec is the first frame's: the trace is the same header, frames and
      trailer, whatever count and further specs were declared. */
  lemma {:induction false} FileSessionTrace(s: Controller, name: string, n: int, specs: seq<Spec>,
                                            jobs: seq<FrameJob>, closeIo: Outcomes)
    requires |jobs| >= 1 && ValidJobs(jobs)
    requires jobs[0].io.sinkOk && jobs[0].io.beginOk
    requires 1 <= n <= |specs| && specs[0] == jobs[0].spec
    ensures Exec(s, FileSessionCmds(name, n, specs, jobs, closeIo)).Some?
    ensures var run := Exec(s, FileSessionCmds(name, n, specs, jobs, closeIo)).value;
            var first := jobs[0].spec;
            && run.trace == [Begin(name, first.width, first.height, first.delay, BitDepth, Dither)]
                            + FrameEvents(jobs, first.delay) + [End]
            && IsReset(run.final)
            && EndsWith(run.results, closeIo.frameOk)
  {
    var j := jobs[0];
    var open := [OpenFileCmd(name, n, specs, j.io)] + WriteCmds(j.writes);
    OpenFileSegment(s, name, n, specs, j);
    var head := Exec(s, open).value;
    var rest := AppendCmds(jobs[1..]) + [CloseCmd(closeIo)];
    AppendsThenClose(head.final, j, jobs[1..], closeIo);
    var tail := Exec(head.final, rest).value;
    ExecConcat(s, open, rest, head, tail);
    var fs := FrameEvents(jobs[1..], j.spec.delay);
    assert FrameEvents(jobs, j.spec.delay) == [FrameOf(head.final)] + fs;
    assert head.trace + ([FrameOf(head.final)] + fs + [End])
           == head.trace + ([FrameOf(head.final)] + fs) + [End];
    PrefixTrue(head.results, tail.results, closeIo.frameOk);
  }

  /** The declared subimage count and specs are stored but never read: two
      states that differ only in them give the same result and the same
      encoder calls for every call, and stay alike afterwards. */
  lemma {:induction false} DeclaredSpecsUnread(a: Controller, b: Controller, c: Command)
    requires a == b.(nsubimages := a.nsubimages, subimageSpecs := a.subimageSpecs)
    ensures Apply(a, c).Some? <==> Apply(b, c).Some?
    ensures Apply(a, c).Some? ==>
              var x := Apply(a, c).value;
              var y := Apply(b, c).value;
              && x.ok == y.ok && x.events == y.events
              && x.next == y.next.(nsubimages := x.next.nsubimages, subimageSpecs := x.next.subimageSpecs)
  {
  }

  // ---------------------------------------------------------------------
  // Frame size: every frame handed to the encoder is a full canvas.

  /** A frame event's image holds exactly width x height RGBA pixels. */
  predicate FrameSized(e: Event) {
    e.Frame? ==> |e.image| == e.width * e.height * PixelBytes
  }

  predicate FramesSized(t: seq<Event>) {
    forall i | 0 <= i < |t| :: FrameSized(t[i])
  }

  /** A pending canvas matches the current spec's geometry. */
  predicate Consistent(s: Controller) {
    s.pending ==> |s.canvas| == s.spec.width * s.spec.height * PixelBytes
  }

  /** One admitted call that does not open a file over a pending frame keeps
      the pending canvas in step with the spec, so any frame it hands over
      is a full canvas. */
  lemma {:induction false} StepKeepsSized(s: Controller, c: Command, st: Step)
    requires Consistent(s) && Apply(s, c) == Some(st) && (IsCreate(c) ==> !s.pending)
    ensures Consistent(st.next) && FramesSized(st.events)
  {
    match c
    case OpenFileCmd(name, n, specs, io) =>
    case OpenCmd(name, spec, mode, io) =>
      if mode == AppendSubimage && s.pending {
        assert st.events == [FrameOf(s)];
      }
    case WriteCmd(y, data) =>
    case CloseCmd(io) =>
  }

  /** From a state whose pending canvas matches its spec, any run that never
      opens a file over a pending frame hands the encoder only full
      width x height RGBA frames. */
  lemma {:induction false} FramesAreFullCanvases(s: Controller, cmds: seq<Command>)
    requires Consistent(s) && CreatesWhenIdle(s, cmds)
    ensures Exec(s, cmds).Some?
    ensures var run := Exec(s, cmds).value;
            FramesSized(run.trace) && Consistent(run.final)
    decreases |cmds|
  {
    if cmds != [] {
      var st := Apply(s, cmds[0]).value;
      StepKeepsSized(s, cmds[0], st);
      FramesAreFullCanvases(st.next, cmds[1..]);
      var rest := Exec(st.next, cmds[1..]).value;
      DriveCons(Apply, s, cmds);
      SizedConcat(st.events, rest.trace);
    }
  }

  lemma {:induction false} SizedConcat(a: seq<Event>, b: seq<Event>)
    requires FramesSized(a) && FramesSized(b)
    ensures FramesSized(a + b)
  {
    forall i | 0 <= i < |a + b| ensures FrameSized((a + b)[i]) {
      if i >= |a| {
        assert (a + b)[i] == b[i - |a|];
      }
    }
  }

  /** In particular from a freshly constructed writer. */
  lemma {:induction false} ConstructedFramesAreFull(d: int, cmds: seq<Command>)
    requires CreatesWhenIdle(Constructed(d), cmds)
    ensures Exec(Constructed(d), cmds).Some?
    ensures FramesSized(Exec(Constructed(d), cmds).value.trace)
  {
    FramesAreFullCanvases(Constructed(d), cmds);
  }
}
