/** The durable D435 capture stream written by the emitted method _record_t5_d435_rgb of
    scripts/build_t4_r3_sensor_runtime_overlay.py: a frame file, an event line and a summary per capture,
    taken over by a fresh controller after every episode reset. */
module CaptureStream {
  import opened Wrappers

  // ---------- the disk ----------

  /** A PNG file, as far as a resume looks at it. */
  datatype Frame = Frame(length: int, digest: int)

  /** A decoded line of frames.jsonl. `path` is the index of the frame file that the line names. A line
      that a crash cut short does not parse. */
  datatype EventRow =
    | Torn
    | Row(schema: int, kind: string, index: int, path: Option<int>, digest: int, length: Option<int>, stamp: int)

  datatype Summary =
    | Unreadable
    | Summary(schema: int, status: string, role: string, count: int, first: int, last: int)

  /** The capture directory: `frames` maps the number in a frame file's name to its content. */
  datatype Disk = Disk(root: bool, framesDir: bool, frames: map<int, Frame>,
                       events: Option<seq<EventRow>>, summary: Option<Summary>)
  {
    function Lines(): seq<EventRow> { if events.Some? then events.value else [] }
  }

  const Untouched := Disk(false, false, map[], None, None)
  const Kind := "d435_rgb_5hz"
  const Role := "independent_d435_rgb_review_stream"

  function RowFor(index: int, stamp: int, f: Frame): EventRow {
    Row(1, Kind, index, Some(index), f.digest, Some(f.length), stamp)
  }

  // ---------- one controller ----------

  /** The controller's fields: `started` is hasattr(_t5_d435_capture_index), `failed` that an error is set
      or the controller is gone. */
  datatype Controller = Controller(started: bool, index: int, last: int, first: Option<int>, failed: bool) {
    function Fail(): Controller { this.(failed := true) }
  }

  const FreshController := Controller(false, 0, -1, None, false)

  datatype Input = Input(stamp: Option<int>, shapeOk: bool, frame: Frame)

  /** How far a call gets before the process stops or a write raises. */
  datatype Cut = BeforeRoot | AfterRoot | AfterFramesDir | AfterFrame | TornEvent | AfterEvent | Complete {
    /** Between the first and the last of the three writes of a capture. */
    predicate WhileWriting() { AfterFrame? || TornEvent? || AfterEvent? }
  }

  datatype Restored = Restored(index: int, last: int, first: int)

  /** The binding that a fresh controller demands of an existing directory. */
  function Resume(d: Disk): Option<Restored> {
    if !d.framesDir || d.events.None? || d.summary.None? || d.events.value == [] then None
    else
      var previous, s := d.events.value[|d.events.value| - 1], d.summary.value;
      if previous.Torn? || s.Unreadable? then None
      else if previous.schema != 1 || previous.kind != Kind || previous.path != Some(previous.index)
              || s.schema != 1 || s.status != "RUNNING" || s.role != Role
              || s.count != previous.index + 1 || s.last != previous.stamp
              || s.first <= 0 || previous.stamp < s.first
              || previous.index !in d.frames
              || (previous.length.Some? && previous.length.value != d.frames[previous.index].length)
              || previous.digest != d.frames[previous.index].digest
              || previous.index + 1 in d.frames
      then None
      else Some(Restored(previous.index + 1, previous.stamp, s.first))
  }

  /** The directory a first call creates, up to the cut. */
  function MakeDirectories(d: Disk, cut: Cut): (Disk, Controller) {
    if cut.BeforeRoot? then (d, FreshController.Fail())
    else if cut.AfterRoot? then (d.(root := true), FreshController.Fail())
    else (d.(root := true, framesDir := true), FreshController.(started := true))
  }

  function Start(d: Disk, cut: Cut): (Disk, Controller) {
    if !d.root then MakeDirectories(d, cut)
    else match Resume(d)
      case None => (d, FreshController.Fail())
      case Some(r) => (d, Controller(true, r.index, r.last, Some(r.first), false))
  }

  /** The three durable writes of one capture, up to the cut. */
  function Write(d: Disk, c: Controller, stamp: int, f: Frame, cut: Cut): (Disk, Controller) {
    var withFrame := d.(frames := d.frames[c.index := f]);
    var withEvent := withFrame.(events := Some(d.Lines() + [RowFor(c.index, stamp, f)]));
    var first := if c.first.Some? then c.first.value else stamp;
    match cut
    case AfterFrame => (withFrame, c.Fail())
    case TornEvent => (withFrame.(events := Some(d.Lines() + [Torn])), c.Fail())
    case AfterEvent => (withEvent, c.Fail())
    case Complete => (withEvent.(summary := Some(Summary(1, "RUNNING", Role, c.index + 1, first, stamp))),
                      Controller(true, c.index + 1, stamp, Some(first), false))
    case _ => (d, c.Fail())
  }

  function Record(d: Disk, c: Controller, input: Input, cut: Cut): (Disk, Controller) {
    if c.failed then (d, c)
    else if input.stamp.None? || input.stamp.value <= 0 then (d, c.Fail())
    else
      var (d1, c1) := if c.started then (d, c) else Start(d, cut);
      if c1.failed then (d1, c1)
      else if input.stamp.value <= c1.last || !input.shapeOk then (d1, c1.Fail())
      else Write(d1, c1, input.stamp.value, input.frame, cut)
  }

  // ---------- runs of controllers, one at a time ----------

  datatype Action = NewController | Capture(input: Input, cut: Cut)

  datatype System = System(disk: Disk, controller: Controller)

  function Step(s: System, a: Action): System {
    match a
    case NewController => System(s.disk, FreshController)
    case Capture(input, cut) =>
      var (d, c) := Record(s.disk, s.controller, input, cut);
      System(d, c)
  }

  function Run(s: System, acts: seq<Action>): System
    decreases |acts|
  {
    if acts == [] then s else Run(Step(s, acts[0]), acts[1..])
  }

  const Initially := System(Untouched, FreshController)

  // ---------- the stream invariant ----------

  /** Indices are exactly 0, 1, 2, ..., stamps are positive and strictly increase. */
  ghost predicate WellFormed(rows: seq<EventRow>) {
    && (forall i :: 0 <= i < |rows| ==>
          rows[i].Row? && rows[i] == RowFor(i, rows[i].stamp, Frame(rows[i].length.GetOr(0), rows[i].digest)))
    && (forall i :: 0 <= i < |rows| ==> rows[i].stamp > 0)
    && (forall i, j :: 0 <= i < j < |rows| ==> rows[i].stamp < rows[j].stamp)
  }

  ghost predicate FramesMatch(d: Disk, rows: seq<EventRow>)
    requires WellFormed(rows)
  {
    forall i :: 0 <= i < |rows| ==> i in d.frames && d.frames[i] == Frame(rows[i].length.value, rows[i].digest)
  }

  /** A disk on which the last capture completed. */
  ghost predicate Clean(d: Disk) {
    var rows := d.Lines();
    && d.root && d.framesDir && |rows| > 0 && WellFormed(rows) && FramesMatch(d, rows)
    && (forall i :: i in d.frames ==> 0 <= i < |rows|)
    && d.summary == Some(Summary(1, "RUNNING", Role, |rows|, rows[0].stamp, rows[|rows| - 1].stamp))
  }

  /** A disk that no fresh controller accepts; its stream is still well formed but for a torn last line. */
  ghost predicate Wedged(d: Disk) {
    var rows := d.Lines();
    && Ended(d)
    && (exists n :: 0 <= n <= |rows| <= n + 1 && WellFormed(rows[..n]) && FramesMatch(d, rows[..n])
          && (n < |rows| ==> rows[n] == Torn))
  }

  ghost predicate InStep(c: Controller, rows: seq<EventRow>)
    requires |rows| > 0 && WellFormed(rows)
  {
    c.started && !c.failed ==> c.index == |rows| && c.last == rows[|rows| - 1].stamp && c.first == Some(rows[0].stamp)
  }

  /** Untouched, clean with the live controller in step, or wedged with no live controller. */
  ghost predicate Sound(s: System) {
    var idle := s.controller.failed || s.controller == FreshController;
    || (s.disk == Untouched && idle)
    || (Clean(s.disk) && (idle || s.controller.started) && InStep(s.controller, s.disk.Lines()))
    || (Wedged(s.disk) && idle)
  }

  /** A clean disk is resumed at exactly the end of its stream. */
  lemma CleanResumes(d: Disk)
    requires Clean(d)
    ensures Resume(d) == Some(Restored(|d.Lines()|, d.Lines()[|d.Lines()| - 1].stamp, d.Lines()[0].stamp))
  {
    var rows := d.Lines();
    var n := |rows| - 1;
    assert rows[n] == RowFor(n, rows[n].stamp, Frame(rows[n].length.GetOr(0), rows[n].digest));
    assert rows[0].stamp > 0 && (n > 0 ==> rows[0].stamp < rows[n].stamp);
  }

  lemma ExtendWellFormed(rows: seq<EventRow>, stamp: int, f: Frame)
    requires WellFormed(rows) && stamp > 0 && (|rows| > 0 ==> rows[|rows| - 1].stamp < stamp)
    ensures WellFormed(rows + [RowFor(|rows|, stamp, f)])
  {
    var all := rows + [RowFor(|rows|, stamp, f)];
    forall i, j | 0 <= i < j < |all| ensures all[i].stamp < all[j].stamp {
      if j == |rows| && i < |rows| - 1 {
        assert rows[i].stamp < rows[|rows| - 1].stamp;
      }
    }
  }

  /** The controller stands at the end of the disk's stream: after complete captures, or in the empty
      directory that it has just made. */
  ghost predicate Ready(d: Disk, c: Controller) {
    && !c.failed && c.started && c.index == |d.Lines()|
    && (if |d.Lines()| == 0 then d == EmptyDirectory && c.first == None && c.last == -1
        else Clean(d) && c.first == Some(d.Lines()[0].stamp) && c.last == d.Lines()[|d.Lines()| - 1].stamp)
  }

  const EmptyDirectory := Disk(true, true, map[], None, None)

  lemma WriteCompletes(d: Disk, c: Controller, stamp: int, f: Frame)
    requires Ready(d, c) && stamp > 0 && stamp > c.last
    ensures var (d', c') := Write(d, c, stamp, f, Complete);
            Clean(d') && Ready(d', c') && d'.Lines() == d.Lines() + [RowFor(|d.Lines()|, stamp, f)]
  {
    var rows := d.Lines();
    var (d', c') := Write(d, c, stamp, f, Complete);
    ExtendWellFormed(rows, stamp, f);
    assert d'.Lines()[0] == if |rows| > 0 then rows[0] else RowFor(0, stamp, f);
    assert FramesMatch(d', d'.Lines());
  }

  lemma WriteInterrupted(d: Disk, c: Controller, stamp: int, f: Frame, cut: Cut)
    requires Ready(d, c) && stamp > 0 && stamp > c.last && !cut.Complete?
    ensures var (d', c') := Write(d, c, stamp, f, cut);
            c'.failed && (d' == d || Wedged(d'))
  {
    var rows := d.Lines();
    var d' := Write(d, c, stamp, f, cut).0;
    ExtendWellFormed(rows, stamp, f);
    match cut
    case AfterFrame =>
      LinesSplit(d', rows, |rows|);
      if |rows| > 0 { CleanResumes(d); }
    case TornEvent =>
      LinesSplit(d', rows, |rows|);
    case AfterEvent =>
      LinesSplit(d', rows + [RowFor(|rows|, stamp, f)], |rows| + 1);
    case _ =>
  }

  /** A well-formed prefix, possibly followed by a torn line, witnesses that a refused disk is wedged. */
  lemma LinesSplit(d: Disk, rows: seq<EventRow>, n: nat)
    requires n == |rows| && WellFormed(rows) && FramesMatch(d, rows) && d.root
    requires d.Lines() == rows || d.Lines() == rows + [Torn]
    ensures Resume(d).None? ==> Wedged(d)
  {
    assert d.Lines()[..n] == rows;
  }

  lemma EmptyDirectoryIsWedged()
    ensures Wedged(Disk(true, true, map[], None, None)) && Wedged(Disk(true, false, map[], None, None))
  {
    var a, b := EmptyDirectory, Disk(true, false, map[], None, None);
    assert WellFormed(a.Lines()[..0]) && FramesMatch(a, a.Lines()[..0]);
    assert WellFormed(b.Lines()[..0]) && FramesMatch(b, b.Lines()[..0]);
  }

  /** A controller that got past its start stands at the end of the stream. */
  lemma LiveControllerIsReady(s: System, cut: Cut)
    requires Sound(s) && !s.controller.failed
    ensures var (d, c) := if s.controller.started then (s.disk, s.controller) else Start(s.disk, cut);
            && (!c.failed ==> Ready(d, c))
            && (d == s.disk || (s.disk == Untouched && Wedged(d)))
  {
    EmptyDirectoryIsWedged();
    if Clean(s.disk) {
      CleanResumes(s.disk);
    }
  }

  /** The directory is there, and no fresh controller accepts it. */
  ghost predicate Ended(d: Disk) { d.root && Resume(d).None? }

  lemma WedgedMeansEnded(d: Disk)
    requires Wedged(d)
    ensures Ended(d)
  {
  }

  lemma ReadyIsSound(d: Disk, c: Controller)
    requires Ready(d, c)
    ensures Clean(d) ==> Sound(System(d, c)) && Sound(System(d, c.Fail()))
    ensures !Clean(d) ==> Sound(System(d, c.Fail()))
  {
    EmptyDirectoryIsWedged();
  }

  /** One action keeps the invariant; an interrupted call that changed the disk leaves it wedged. */
  lemma StepStaysSound(s: System, a: Action)
    requires Sound(s)
    ensures Sound(Step(s, a))
    ensures a.Capture? && !a.cut.Complete? && Step(s, a).disk != s.disk ==>
              Wedged(Step(s, a).disk) && Step(s, a).controller.failed
  {
    hide Clean, Wedged, Write, Resume, Ready;
    if a.Capture? && !s.controller.failed && a.input.stamp.Some? && a.input.stamp.value > 0 {
      LiveControllerIsReady(s, a.cut);
      var (d, c) := if s.controller.started then (s.disk, s.controller) else Start(s.disk, a.cut);
      if !c.failed {
        var stamp, f := a.input.stamp.value, a.input.frame;
        ReadyIsSound(d, c);
        if stamp > c.last && a.input.shapeOk {
          if a.cut.Complete? {
            WriteCompletes(d, c, stamp, f);
            var (d', c') := Write(d, c, stamp, f, Complete);
            ReadyIsSound(d', c');
          } else {
            WriteInterrupted(d, c, stamp, f, a.cut);
          }
        }
      }
    }
  }

  lemma {:induction false} RunStaysSound(s: System, acts: seq<Action>)
    requires Sound(s)
    ensures Sound(Run(s, acts))
    decreases |acts|
  {
    hide Sound, Step;
    if acts != [] {
      StepStaysSound(s, acts[0]);
      RunStaysSound(Step(s, acts[0]), acts[1..]);
    }
  }

  /** Whatever controllers came, crashed or failed, the stream on disk has indices 0, 1, 2, ..., positive
      strictly increasing stamps and one matching frame file each; only a torn last line may follow. */
  lemma StreamIsAlwaysWellFormed(acts: seq<Action>)
    ensures var d := Run(Initially, acts).disk;
            exists n :: 0 <= n <= |d.Lines()| <= n + 1 && WellFormed(d.Lines()[..n]) && FramesMatch(d, d.Lines()[..n])
                        && (n < |d.Lines()| ==> d.Lines()[n] == Torn)
  {
    RunStaysSound(Initially, acts);
    var d := Run(Initially, acts).disk;
    if d == Untouched {
      assert d.Lines()[..0] == [];
    } else if Clean(d) {
      assert d.Lines()[..|d.Lines()|] == d.Lines();
    }
  }

  /** A fresh controller on any reachable disk either restores index, first stamp and last stamp of the
      stream exactly, or refuses. */
  lemma ResumeIsExact(acts: seq<Action>)
    ensures var d := Run(Initially, acts).disk;
            Resume(d).Some? ==>
              |d.Lines()| > 0 && WellFormed(d.Lines()) &&
              Resume(d).value == Restored(|d.Lines()|, d.Lines()[|d.Lines()| - 1].stamp, d.Lines()[0].stamp)
  {
    RunStaysSound(Initially, acts);
    var d := Run(Initially, acts).disk;
    if Clean(d) {
      CleanResumes(d);
    }
  }

  /** The end of a stream that a fresh controller may take over: line, frame file and summary number `n`, with
      nothing after them. */
  ghost predicate EndsWith(d: Disk, n: int, stamp: int, first: int) {
    && d.framesDir && d.Lines() != [] && n in d.frames && n + 1 !in d.frames && 0 < first <= stamp
    && d.summary == Some(Summary(1, "RUNNING", "independent_d435_rgb_review_stream", n + 1, first, stamp))
    && (var f, last := d.frames[n], d.Lines()[|d.Lines()| - 1];
        || last == Row(1, "d435_rgb_5hz", n, Some(n), f.digest, Some(f.length), stamp)
        || last == Row(1, "d435_rgb_5hz", n, Some(n), f.digest, None, stamp))
  }

  /** Exactly what a fresh controller accepts of an existing directory, whoever left it, and how it goes on. */
  lemma ResumeExactly(d: Disk, r: Restored)
    ensures Resume(d) == Some(r) <==> EndsWith(d, r.index - 1, r.last, r.first)
  {
    if Resume(d) == Some(r) {
      var n, last, s := r.index - 1, d.Lines()[|d.Lines()| - 1], d.summary.value;
      assert last == Row(1, "d435_rgb_5hz", n, Some(n), d.frames[n].digest, last.length, r.last);
      assert last.length == None || last.length == Some(d.frames[n].length);
      assert s == Summary(1, "RUNNING", "independent_d435_rgb_review_stream", n + 1, r.first, r.last);
    }
    if EndsWith(d, r.index - 1, r.last, r.first) {
      var last := d.Lines()[|d.Lines()| - 1];
      assert last.Row? && last.path == Some(last.index) && last.digest == d.frames[last.index].digest;
    }
  }

  lemma CaptureOnReady(d: Disk, c: Controller, input: Input, cut: Cut)
    requires Ready(d, c) && input.stamp.Some? && input.stamp.value > 0
    requires c.last < input.stamp.value && input.shapeOk
    ensures Stored(d, Write(d, c, input.stamp.value, input.frame, cut).0, input, cut)
  {
    hide Clean;
    var t := Write(d, c, input.stamp.value, input.frame, cut).0;
    assert c.index == |d.Lines()|;
    assert cut.AfterEvent? || cut.Complete? ==> Described(d, t, input);
    match cut
    case BeforeRoot => case AfterRoot => case AfterFramesDir =>
    case _ => assert t.frames == d.frames[|d.Lines()| := input.frame];
  }

  /** What a capture may leave on a disk: nothing new; its own frame as the next frame file; the same and half a
      line; or the same and the line that describes it. */
  ghost predicate Stored(d: Disk, t: Disk, input: Input, cut: Cut) {
    var n := |d.Lines()|;
    || (t.frames == d.frames && t.Lines() == d.Lines() && t.summary == d.summary)
    || (t.frames == d.frames[n := input.frame]
        && ((cut.AfterFrame? && t.Lines() == d.Lines()) || (cut.TornEvent? && t.Lines() == d.Lines() + [Torn])
            || ((cut.AfterEvent? || cut.Complete?) && Described(d, t, input))))
  }

  ghost predicate Described(d: Disk, t: Disk, input: Input) {
    var n, f := |d.Lines()|, input.frame;
    input.stamp.Some?
    && t.Lines() == d.Lines() + [Row(1, "d435_rgb_5hz", n, Some(n), f.digest, Some(f.length), input.stamp.value)]
  }

  /** The summary counts all captures, from the first stamp on disk to the one just stored. */
  ghost predicate SummedUp(t: Disk, count: int, input: Input) {
    input.stamp.Some? && t.Lines() != [] && t.Lines()[0].Row?
    && t.summary == Some(Summary(1, "RUNNING", "independent_d435_rgb_review_stream", count,
                                 t.Lines()[0].stamp, input.stamp.value))
  }

  /** In every run a call stores nothing but the frame it was given, described by its own stamp, digest and
      length under the next free index; and an uninterrupted call that is not refused does store it and sums
      the whole stream up. */
  lemma CaptureStoresItsFrame(acts: seq<Action>, input: Input, cut: Cut)
    ensures var s := Run(Initially, acts);
            var t, n := Step(s, Capture(input, cut)), |s.disk.Lines()|;
            && Stored(s.disk, t.disk, input, cut)
            && (cut.Complete? && !t.controller.failed ==>
                  t.disk.frames == s.disk.frames[n := input.frame] && Described(s.disk, t.disk, input)
                  && SummedUp(t.disk, n + 1, input))
  {
    hide Run, Sound, Clean, Wedged, Write, Resume, Ready, Stored, Described, SummedUp;
    var s := Run(Initially, acts);
    InitiallySound();
    RunStaysSound(Initially, acts);
    NothingStored(s.disk, s.disk, input, cut);
    if !s.controller.failed && input.stamp.Some? && input.stamp.value > 0 {
      LiveControllerIsReady(s, cut);
      var (d, c) := if s.controller.started then (s.disk, s.controller) else Start(s.disk, cut);
      StartStoresNothing(s.disk, cut);
      NothingStored(s.disk, d, input, cut);
      if !c.failed && c.last < input.stamp.value && input.shapeOk {
        CaptureOnReady(d, c, input, cut);
        WriteIsSummedUp(d, c, input);
        StoredFromSame(s.disk, d, Write(d, c, input.stamp.value, input.frame, cut).0, input, cut);
      }
    }
  }

  lemma NothingStored(d: Disk, t: Disk, input: Input, cut: Cut)
    requires t.frames == d.frames && t.Lines() == d.Lines() && t.summary == d.summary
    ensures Stored(d, t, input, cut)
  {
  }

  lemma StartStoresNothing(d: Disk, cut: Cut)
    ensures var t := Start(d, cut).0; t.frames == d.frames && t.Lines() == d.Lines() && t.summary == d.summary
  {
  }

  /** Making the directories first makes no difference. */
  lemma StoredFromSame(d: Disk, e: Disk, t: Disk, input: Input, cut: Cut)
    requires e.frames == d.frames && e.Lines() == d.Lines() && e.summary == d.summary
    ensures Stored(e, t, input, cut) <==> Stored(d, t, input, cut)
    ensures Described(e, t, input) <==> Described(d, t, input)
  {
  }

  lemma WriteIsSummedUp(d: Disk, c: Controller, input: Input)
    requires Ready(d, c) && input.stamp.Some?
    ensures var t, n := Write(d, c, input.stamp.value, input.frame, Complete).0, |d.Lines()|;
            t.frames == d.frames[n := input.frame] && Described(d, t, input) && SummedUp(t, n + 1, input)
  {
    if |d.Lines()| > 0 { CleanResumes(d); }
  }

  // ---------- a disk left between writes ----------

  /** A directory that a fresh controller refuses is never written again. */
  lemma {:induction false} RefusedForever(s: System, acts: seq<Action>)
    requires Ended(s.disk)
    requires s.controller.failed || s.controller == FreshController
    ensures Run(s, acts).disk == s.disk
    decreases |acts|
  {
    if acts != [] {
      RefusedForever(Step(s, acts[0]), acts[1..]);
    }
  }

  /** A call that changed the disk without completing leaves an orphan frame, an event without summary, a
      torn line or an empty directory: from then on nothing is ever appended, by anyone. */
  lemma InterruptedWriteIsFinal(acts: seq<Action>, input: Input, cut: Cut, later: seq<Action>)
    requires !cut.Complete?
    requires var s := Run(Initially, acts); Step(s, Capture(input, cut)).disk != s.disk
    ensures var s := Step(Run(Initially, acts), Capture(input, cut));
            Run(s, later).disk == s.disk
  {
    hide Sound, Clean, Wedged, Write, Resume, Step;
    var s := Run(Initially, acts);
    var t := Step(s, Capture(input, cut));
    InitiallySound();
    RunStaysSound(Initially, acts);
    StepStaysSound(s, Capture(input, cut));
    WedgedMeansEnded(t.disk);
    RefusedForever(t, later);
  }

  lemma InitiallySound()
    ensures Sound(Initially)
  {
  }

  /** In a reachable system the stream is at an end exactly when a fresh controller refuses it; otherwise some
      run writes to it. */
  lemma EndedExactly(acts: seq<Action>)
    ensures var s := Run(Initially, acts);
            Ended(s.disk) <==> forall later :: Run(s, later).disk == s.disk
  {
    hide Sound, Clean, Wedged, Write, Resume, Step, Run;
    var s := Run(Initially, acts);
    InitiallySound();
    RunStaysSound(Initially, acts);
    if Ended(s.disk) {
      EndedIsIdle(s);
      forall later ensures Run(s, later).disk == s.disk {
        RefusedForever(s, later);
      }
    } else {
      var later := CaptureOneMore(s);
      assert Run(s, later).disk != s.disk;
    }
  }

  lemma EndedIsIdle(s: System)
    requires Sound(s) && Ended(s.disk)
    ensures s.controller.failed || s.controller == FreshController
  {
    if Clean(s.disk) {
      CleanResumes(s.disk);
    }
  }

  /** A fresh controller can go on. */
  lemma CaptureOneMore(s: System) returns (later: seq<Action>)
    requires Sound(s) && !Ended(s.disk)
    ensures Run(s, later).disk != s.disk
  {
    var rows := s.disk.Lines();
    var stamp := if |rows| > 0 && rows[|rows| - 1].Row? && rows[|rows| - 1].stamp > 0 then rows[|rows| - 1].stamp + 1 else 1;
    var one := Capture(Input(Some(stamp), true, Frame(0, 0)), Complete);
    later := [NewController, one];
    assert later[1..] == [one];
    var renewed := System(s.disk, FreshController);
    assert Run(renewed, [one]) == Run(Step(renewed, one), []);
    if Clean(s.disk) {
      CleanResumes(s.disk);
      var c := Start(s.disk, Complete).1;
      WriteCompletes(s.disk, c, stamp, Frame(0, 0));
    }
  }

  /** Which capture calls of a reachable system end the stream: on an untouched disk those that made the
      directory and then refused the frame or were interrupted, on a clean one those that were interrupted once
      they had begun to write. A call that is merely refused ends nothing. */
  lemma CaptureEndsExactly(acts: seq<Action>, input: Input, cut: Cut)
    ensures var s := Run(Initially, acts);
            Ended(Step(s, Capture(input, cut)).disk) <==>
              Ended(s.disk)
              || (!s.controller.failed && input.stamp.Some? && input.stamp.value > 0
                  && if s.disk == Untouched then !cut.BeforeRoot? && !(input.shapeOk && cut.Complete?)
                     else Clean(s.disk) && input.shapeOk && input.stamp.value > s.disk.Lines()[|s.disk.Lines()| - 1].stamp
                          && cut.WhileWriting())
    ensures var s := Run(Initially, acts);
            s.disk == Untouched && !input.shapeOk ==> Step(s, Capture(input, cut)).disk.Lines() == []
  {
    hide Run;
    RunStaysSound(Initially, acts);
    var s := Run(Initially, acts);
    if Clean(s.disk) {
      CleanResumes(s.disk);
      CleanCaptureEnds(s, input, cut);
    }
  }

  lemma CleanCaptureEnds(s: System, input: Input, cut: Cut)
    requires Sound(s) && Clean(s.disk)
    ensures Ended(Step(s, Capture(input, cut)).disk) <==>
              !s.controller.failed && input.stamp.Some? && input.stamp.value > 0 && input.shapeOk
              && input.stamp.value > s.disk.Lines()[|s.disk.Lines()| - 1].stamp && cut.WhileWriting()
  {
    hide Resume, Wedged, Write;
    CleanResumes(s.disk);
    if !s.controller.failed {
      LiveControllerIsReady(s, cut);
      StartOnClean(s.disk, cut);
      var (d, c) := if s.controller.started then (s.disk, s.controller) else Start(s.disk, cut);
      if input.stamp.Some? && input.stamp.value > 0 && input.stamp.value > c.last && input.shapeOk {
        var stamp, f := input.stamp.value, input.frame;
        if cut.Complete? {
          WriteCompletes(d, c, stamp, f);
          CleanResumes(Write(d, c, stamp, f, cut).0);
        } else {
          WriteInterrupted(d, c, stamp, f, cut);
          WriteChanges(d, c, stamp, f, cut);
        }
      }
    }
  }

  lemma StartOnClean(d: Disk, cut: Cut)
    requires Clean(d)
    ensures Start(d, cut) == (d, Controller(true, |d.Lines()|, d.Lines()[|d.Lines()| - 1].stamp, Some(d.Lines()[0].stamp), false))
  {
    hide Resume;
    CleanResumes(d);
  }

  lemma WriteChanges(d: Disk, c: Controller, stamp: int, f: Frame, cut: Cut)
    requires Clean(d) && c.index == |d.Lines()| && !cut.Complete?
    ensures Write(d, c, stamp, f, cut).0 != d <==> cut.WhileWriting()
    ensures Wedged(Write(d, c, stamp, f, cut).0) ==> Ended(Write(d, c, stamp, f, cut).0)
  {
    assert c.index !in d.frames;
    assert c.index in d.frames[c.index := f];
  }

  /** Exactly when a fresh controller's uninterrupted capture gets recorded: the stamp is positive, the
      frame has the right shape, and the disk is untouched or ends, completely written, before that stamp. */
  lemma FreshCaptureSucceedsExactly(acts: seq<Action>, input: Input)
    ensures var d := Run(Initially, acts).disk;
            var s := Step(System(d, FreshController), Capture(input, Complete));
            !s.controller.failed <==>
              input.stamp.Some? && input.stamp.value > 0 && input.shapeOk &&
              (d == Untouched || (Clean(d) && d.Lines()[|d.Lines()| - 1].stamp < input.stamp.value))
  {
    RunStaysSound(Initially, acts);
    var d := Run(Initially, acts).disk;
    if Clean(d) {
      CleanResumes(d);
    }
  }

  /** Nothing recorded is ever lost: lines are only added at the end, frame files are never rewritten. */
  lemma {:induction false} HistoryIsKept(s: System, acts: seq<Action>)
    requires Sound(s)
    ensures s.disk.Lines() <= Run(s, acts).disk.Lines()
    ensures forall i :: i in s.disk.frames ==>
              i in Run(s, acts).disk.frames && Run(s, acts).disk.frames[i] == s.disk.frames[i]
    decreases |acts|
  {
    hide Sound, Step;
    if acts != [] {
      StepStaysSound(s, acts[0]);
      StepKeepsHistory(s, acts[0]);
      HistoryIsKept(Step(s, acts[0]), acts[1..]);
    }
  }

  lemma StepKeepsHistory(s: System, a: Action)
    requires Sound(s)
    ensures s.disk.Lines() <= Step(s, a).disk.Lines()
    ensures forall i :: i in s.disk.frames ==>
              i in Step(s, a).disk.frames && Step(s, a).disk.frames[i] == s.disk.frames[i]
  {
    hide Sound, Resume, Wedged;
    if a.Capture? && !s.controller.failed {
      LiveControllerIsReady(s, a.cut);
    }
  }

  // ---------- the method itself ----------

  class CaptureDisk {
    var root: bool
    var framesDir: bool
    var frames: map<int, Frame>
    var events: Option<seq<EventRow>>
    var summary: Option<Summary>

    function View(): Disk
      reads this
    {
      Disk(root, framesDir, frames, events, summary)
    }
  }

  class CaptureController {
    var captureIndex: Option<int>
    var lastStamp: int
    var firstStamp: Option<int>
    var error: bool

    constructor ()
      ensures View() == FreshController
    {
      captureIndex, lastStamp, firstStamp, error := None, -1, None, false;
    }

    function View(): Controller
      reads this
    {
      Controller(captureIndex.Some?, if captureIndex.Some? then captureIndex.value else 0, lastStamp, firstStamp, error)
    }

    /** The first capture of a controller: make the directories, or resume from those that exist. */
    method Begin(disk: CaptureDisk, cut: Cut)
      requires View() == FreshController && captureIndex.None?
      modifies this, disk
      ensures (disk.View(), View()) == Start(old(disk.View()), cut)
      ensures !error ==> captureIndex.Some?
    {
      hide Resume;
      if !disk.root {
        if cut.BeforeRoot? { error := true; return; }
        disk.root := true;
        if cut.AfterRoot? { error := true; return; }
        disk.framesDir := true;
        captureIndex, lastStamp, firstStamp := Some(0), -1, None;
      } else {
        var restored := Resume(disk.View());
        if restored.None? { error := true; return; }
        captureIndex := Some(restored.value.index);
        lastStamp := restored.value.last;
        firstStamp := Some(restored.value.first);
      }
    }

    /** Frame file, event line, summary. */
    method Persist(disk: CaptureDisk, stamp: int, frame: Frame, cut: Cut)
      requires captureIndex.Some? && !error
      modifies this, disk
      ensures (disk.View(), View()) == Write(old(disk.View()), old(View()), stamp, frame, cut)
    {
      if cut.BeforeRoot? || cut.AfterRoot? || cut.AfterFramesDir? { error := true; return; }
      var index := captureIndex.value;
      disk.frames := disk.frames[index := frame];
      if cut.AfterFrame? { error := true; return; }
      var lines := disk.View().Lines();
      if cut.TornEvent? {
        disk.events := Some(lines + [Torn]);
        error := true;
        return;
      }
      disk.events := Some(lines + [RowFor(index, stamp, frame)]);
      if cut.AfterEvent? { error := true; return; }
      if firstStamp.None? {
        firstStamp := Some(stamp);
      }
      lastStamp := stamp;
      captureIndex := Some(index + 1);
      disk.summary := Some(Summary(1, "RUNNING", Role, index + 1, firstStamp.value, lastStamp));
    }

    /** `cut` tells after which durable write the call stops; the rest of the body is then skipped. */
    method RecordRgb(disk: CaptureDisk, input: Input, cut: Cut)
      requires captureIndex.None? ==> lastStamp == -1 && firstStamp == None
      modifies this, disk
      ensures (disk.View(), View()) == Record(old(disk.View()), old(View()), input, cut)
    {
      hide Start, Write;
      if error { return; }
      if input.stamp.None? || input.stamp.value <= 0 { error := true; return; }
      if captureIndex.None? {
        Begin(disk, cut);
        if error { return; }
      }
      if input.stamp.value <= lastStamp || !input.shapeOk { error := true; return; }
      Persist(disk, input.stamp.value, input.frame, cut);
    }
  }
}
