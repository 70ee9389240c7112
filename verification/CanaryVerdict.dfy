/** The verdict of scripts/analyze_t5_engineering_canary.py and what a PASS says about time. */
module CanaryVerdict {
  import opened Wrappers

  const MaxSampleGap := 15.0
  const MaxClockStateAge := 15.0
  const MaxStagnation := 30.0
  const MaxSoakWarnings := 12

  // ---------- decoded inputs ----------

  /** A counter field: Some when the JSON value is an int and not a bool. */
  type Counter = Option<int>

  predicate Counts(c: Counter) { c.Some? && c.value >= 0 }

  /** One sample row. `clockAge` is None when it is neither given nor computable, which counts as infinite. */
  datatype Sample = Sample(
    elapsed: real, received: int, published: int, clockNs: int, timebaseMatches: bool, healthy: bool,
    actions: Counter, errors: Counter, readyActions: Counter, readyErrors: Counter, newErrors: Counter,
    warnings: Counter, fatal: Counter, newWarnings: Counter, newFatal: Counter, paths: Counter, clockAge: Option<real>)

  datatype Ready = Ready(probePass: bool, actions: Counter, errors: Counter, warnings: Counter, fatal: Counter)

  datatype Cutoff = Cutoff(
    recorded: bool, elapsed: Option<real>, actions: Counter, errors: Counter, newErrors: Counter, paths: Counter,
    warnings: Counter, fatal: Counter, newWarnings: Counter, newFatal: Counter, cycles: Counter,
    readyActions: Counter, readyErrors: Counter, readyWarnings: Counter, readyFatal: Counter,
    timebaseMatches: bool, elapsedSim: Option<real>)

  datatype Run = Run(samples: seq<Sample>, ready: Ready, cutoff: Cutoff, configured: int, observed: int, sim: bool)

  // ---------- the checks ----------

  predicate BaselinesValid(r: Ready) {
    Counts(r.actions) && Counts(r.errors) && Counts(r.warnings) && Counts(r.fatal)
    && r.warnings.value + r.fatal.value == r.errors.value
  }

  predicate CutoffValid(c: Cutoff, r: Ready) {
    && c.recorded && c.elapsed.Some? && c.elapsed.value >= 0.0
    && Counts(c.actions) && Counts(c.errors) && Counts(c.newErrors) && Counts(c.paths) && Counts(c.warnings)
    && Counts(c.fatal) && Counts(c.newWarnings) && Counts(c.newFatal) && Counts(c.cycles)
    && BaselinesValid(r) && c.readyActions == r.actions && c.readyErrors == r.errors
    && c.newErrors.value == c.errors.value - r.errors.value
    && c.readyWarnings == r.warnings && c.readyFatal == r.fatal
    && c.warnings.value + c.fatal.value == c.errors.value
    && c.newWarnings.value == c.warnings.value - r.warnings.value
    && c.newFatal.value == c.fatal.value - r.fatal.value
    && c.timebaseMatches
  }

  function Elapsed(samples: seq<Sample>): (e: seq<real>)
    ensures |e| == |samples|
  {
    seq(|samples|, i requires 0 <= i < |samples| => samples[i].elapsed)
  }

  /** A counter over the samples, followed by its value at the cutoff. */
  function WithCutoff(samples: seq<Sample>, of: Sample -> Counter, last: Counter): (s: seq<Counter>)
    ensures |s| == |samples| + 1
  {
    seq(|samples|, i requires 0 <= i < |samples| => of(samples[i])) + [last]
  }

  predicate AllCount(s: seq<Counter>) { forall i :: 0 <= i < |s| ==> Counts(s[i]) }

  predicate NonDecreasing(s: seq<Counter>)
    requires AllCount(s)
  {
    forall i, j :: 0 <= i < |s| && 0 <= j < |s| && j == i + 1 ==> Counts(s[i]) && Counts(s[j]) && s[i].value <= s[j].value
  }

  function Actions(): Sample -> Counter { (s: Sample) => s.actions }
  function Errors(): Sample -> Counter { (s: Sample) => s.errors }

  /** The error counts of a sample are consistent with its baselines. */
  predicate Classified(s: Sample, r: Ready)
    requires BaselinesValid(r)
  {
    Counts(s.warnings) && Counts(s.fatal) && Counts(s.newWarnings) && Counts(s.newFatal) && Counts(s.errors)
    && s.warnings.value + s.fatal.value == s.errors.value
    && s.newWarnings.value == s.warnings.value - r.warnings.value
    && s.newFatal.value == s.fatal.value - r.fatal.value
  }

  /** The reported new errors are the errors since ready. */
  predicate NewErrorsReported(run: Run)
    requires CutoffValid(run.cutoff, run.ready)
  {
    forall s :: s in run.samples ==>
      Counts(s.newErrors) && Counts(s.errors) && s.newErrors.value == s.errors.value - run.ready.errors.value
  }

  predicate TimelineChecks(run: Run)
    requires run.samples != [] && CutoffValid(run.cutoff, run.ready)
  {
    var e, n, cut := Elapsed(run.samples), |run.samples|, run.cutoff.elapsed.value;
    && 0.0 <= e[0] <= MaxSampleGap
    && n > 1
    && (forall i, j :: 0 <= i < n && 0 <= j < n && j == i + 1 ==> 0.0 < e[j] - e[i] <= MaxSampleGap)
    && 0.0 <= cut - e[n - 1] <= MaxSampleGap
    && run.configured as real <= cut <= run.observed as real
    && n >= (if run.sim then (if (run.configured + 14) / 15 >= 2 then (run.configured + 14) / 15 else 2)
             else run.configured / 5)
  }

  predicate CounterChecks(run: Run)
    requires run.samples != [] && CutoffValid(run.cutoff, run.ready)
  {
    var r, c, n := run.ready, run.cutoff, |run.samples|;
    var actions, errors := WithCutoff(run.samples, Actions(), c.actions), WithCutoff(run.samples, Errors(), c.errors);
    && AllCount(actions) && AllCount(errors)
    && (forall s :: s in run.samples ==> s.readyActions == r.actions && s.readyErrors == r.errors)
    && r.actions.value > 0 && actions[0].value >= r.actions.value && NonDecreasing(actions)
    && c.actions.value > actions[0].value
    && errors[0].value >= r.errors.value && NonDecreasing(errors)
    && NewErrorsReported(run)
    && (forall s :: s in run.samples ==> Classified(s, r))
    && c.newFatal.value == 0
    && (if run.sim then c.newWarnings.value <= MaxSoakWarnings else c.newWarnings.value == 0)
    && (run.sim || (c.newErrors.value == 0 && forall s :: s in run.samples ==> s.newErrors == Some(0)))
  }

  predicate ClockChecks(run: Run)
    requires run.samples != []
  {
    var s, n := run.samples, |run.samples|;
    && (forall i, j :: 0 <= i < n && 0 <= j < n && j == i + 1 ==>
          s[i].received <= s[j].received && s[i].published < s[j].published && s[i].clockNs <= s[j].clockNs)
    && (forall x :: x in s ==> x.clockAge.Some? && 0.0 <= x.clockAge.value <= MaxClockStateAge)
    && s[n - 1].received > s[0].received && s[n - 1].clockNs > s[0].clockNs && Advances(s) >= 2
  }

  /** The number of sampling intervals in which physics steps arrived. */
  function Advances(s: seq<Sample>): nat {
    if |s| < 2 then 0 else Advances(s[..|s| - 1]) + (if s[|s| - 1].received > s[|s| - 2].received then 1 else 0)
  }

  predicate StateChecks(run: Run) {
    && 30 <= run.configured <= 600 && (run.sim ==> run.configured == 600)
    && (forall s :: s in run.samples ==> s.timebaseMatches && s.healthy && s.paths == Some(5))
    && (run.sim ==> run.cutoff.elapsedSim.Some? && run.cutoff.elapsedSim.value >= run.configured as real)
    && run.observed >= run.configured && run.ready.probePass && run.cutoff.paths == Some(5)
  }

  // ---------- stagnation ----------

  /** The latest sample before `j` at which steps had arrived since its predecessor; the first sample if none. */
  function LastProgress(s: seq<Sample>, j: nat): (p: nat)
    requires 0 < j <= |s|
    ensures p < j && (p == 0 || s[p].received > s[p - 1].received)
    ensures forall k :: p < k < j ==> s[k].received <= s[k - 1].received
  {
    if j == 1 || s[j - 1].received > s[j - 2].received then j - 1 else LastProgress(s, j - 1)
  }

  /** How long after the last progress before it a sample comes. */
  function Lag(s: seq<Sample>, j: nat): real
    requires 0 < j < |s|
  {
    s[j].elapsed - s[LastProgress(s, j)].elapsed
  }

  /** No sample comes more than the limit after the last progress before it. */
  ghost predicate NeverStagnant(s: seq<Sample>, limit: real) {
    forall j :: 0 < j < |s| ==> Lag(s, j) <= limit
  }

  /** The scan of the analysis: the longest lag of any sample, at least 0. */
  method StepStagnation(s: seq<Sample>) returns (longest: real)
    ensures longest >= 0.0 && NeverStagnant(s, longest)
    ensures longest == 0.0 || exists j :: 0 < j < |s| && longest == Lag(s, j)
  {
    hide Lag, LastProgress;
    longest := 0.0;
    if s == [] { return; }
    ProgressStep(s, 0);
    var lastProgress := s[0].elapsed;
    for i := 1 to |s|
      invariant lastProgress == s[LastProgress(s, i)].elapsed
      invariant longest >= 0.0 && forall j :: 0 < j < i ==> Lag(s, j) <= longest
      invariant longest == 0.0 || exists j :: 0 < j < i && longest == Lag(s, j)
    {
      var gap := s[i].elapsed - lastProgress;
      LagIs(s, i);
      ProgressStep(s, i);
      if gap > longest { longest := gap; }
      if s[i].received > s[i - 1].received {
        lastProgress := s[i].elapsed;
      }
    }
  }

  lemma ProgressStep(s: seq<Sample>, i: nat)
    requires i < |s|
    ensures LastProgress(s, i + 1) == if i == 0 || s[i].received > s[i - 1].received then i else LastProgress(s, i)
  {
  }

  lemma LagIs(s: seq<Sample>, j: nat)
    requires 0 < j < |s|
    ensures Lag(s, j) == s[j].elapsed - s[LastProgress(s, j)].elapsed
  {
  }

  ghost predicate Passes(run: Run) {
    run.samples != [] && CutoffValid(run.cutoff, run.ready) && StateChecks(run)
    && TimelineChecks(run) && CounterChecks(run) && ClockChecks(run) && NeverStagnant(run.samples, MaxStagnation)
  }

  method Analyze(run: Run) returns (pass: bool)
    ensures pass <==> Passes(run)
  {
    var longest := StepStagnation(run.samples);
    pass := run.samples != [] && CutoffValid(run.cutoff, run.ready) && StateChecks(run)
            && TimelineChecks(run) && CounterChecks(run) && ClockChecks(run) && longest <= MaxStagnation;
  }

  // ---------- what a PASS means ----------

  lemma {:induction false} ReceivedIsMonotone(s: seq<Sample>, i: nat, j: nat)
    requires i <= j < |s|
    requires forall k, l :: 0 <= k && k + 1 == l && l < |s| ==> s[k].received <= s[l].received
    ensures s[i].received <= s[j].received
    decreases j - i
  {
    if i < j {
      ReceivedIsMonotone(s, i, j - 1);
      assert s[j - 1].received <= s[j].received;
    }
  }

  lemma {:induction false} ElapsedIsMonotone(e: seq<real>, i: nat, j: nat)
    requires i <= j < |e|
    requires forall k, l :: 0 <= k && k + 1 == l && l < |e| ==> e[k] <= e[l]
    ensures e[i] <= e[j]
    decreases j - i
  {
    if i < j {
      ElapsedIsMonotone(e, i, j - 1);
      assert e[j - 1] <= e[j];
    }
  }

  /** Physics never stood still for more than 30 seconds: two samples that report the same number of
      received steps are at most that far apart. */
  lemma PassMeansNoLongStall(run: Run, i: nat, j: nat)
    requires Passes(run) && i < j < |run.samples| && run.samples[i].received == run.samples[j].received
    ensures run.samples[j].elapsed - run.samples[i].elapsed <= 30.0
  {
    hide TimelineChecks, CounterChecks, ClockChecks, StateChecks, CutoffValid;
    var s, p, e := run.samples, LastProgress(run.samples, j), Elapsed(run.samples);
    PassOrdersSamples(run);
    LagIs(s, j);
    assert Lag(s, j) <= MaxStagnation;
    if p > i {
      ReceivedIsMonotone(s, i, p - 1);
      ReceivedIsMonotone(s, p, j);
    }
    ElapsedIsMonotone(e, p, i);
    assert e[p] == s[p].elapsed && e[i] == s[i].elapsed;
  }

  lemma PassOrdersSamples(run: Run)
    requires Passes(run)
    ensures var s, e := run.samples, Elapsed(run.samples);
            && (forall k, l :: 0 <= k && k + 1 == l && l < |s| ==> s[k].received <= s[l].received)
            && (forall k, l :: 0 <= k && k + 1 == l && l < |s| ==> e[k] <= e[l])
  {
    hide CounterChecks, StateChecks, CutoffValid, NeverStagnant;
    var s, e := run.samples, Elapsed(run.samples);
    forall k, l | 0 <= k && k + 1 == l && l < |s| ensures s[k].received <= s[l].received && e[k] <= e[l] {
      assert s[k].received <= s[l].received;
    }
  }

  /** The sample times followed by the cutoff. */
  function Marks(run: Run): seq<real>
    requires run.cutoff.elapsed.Some?
  {
    Elapsed(run.samples) + [run.cutoff.elapsed.value]
  }

  lemma {:induction false} EveryInstantIsMarked(marks: seq<real>, x: real)
    requires marks != [] && 0.0 <= x <= marks[|marks| - 1] && marks[0] <= MaxSampleGap
    requires forall i, j :: 0 <= i && i + 1 == j && j < |marks| ==> marks[j] - marks[i] <= MaxSampleGap
    ensures exists i :: 0 <= i < |marks| && x <= marks[i] <= x + MaxSampleGap
    decreases |marks|
  {
    var n := |marks|;
    if n > 1 && x <= marks[n - 2] {
      EveryInstantIsMarked(marks[..n - 1], x);
      var i :| 0 <= i < n - 1 && x <= marks[..n - 1][i] <= x + MaxSampleGap;
      assert marks[i] == marks[..n - 1][i];
    } else {
      assert n > 1 ==> marks[n - 1] - marks[n - 2] <= MaxSampleGap;
      assert x <= marks[n - 1] <= x + MaxSampleGap;
    }
  }

  lemma {:induction false} MarksAreBounded(marks: seq<real>, n: nat)
    requires 0 < n <= |marks| && marks[0] <= MaxSampleGap
    requires forall i, j :: 0 <= i && i + 1 == j && j < |marks| ==> marks[j] - marks[i] <= MaxSampleGap
    ensures marks[n - 1] <= MaxSampleGap * n as real
  {
    if n > 1 {
      MarksAreBounded(marks, n - 1);
      assert marks[n - 1] - marks[n - 2] <= MaxSampleGap;
    }
  }

  /** Every instant of the configured window is followed within 15 seconds by a sample or the cutoff, and so
      the window is at most 15 seconds times one more than the number of samples. */
  lemma PassMeansNoGap(run: Run, x: real)
    requires Passes(run) && 0.0 <= x <= run.configured as real
    ensures exists i :: 0 <= i < |Marks(run)| && x <= Marks(run)[i] <= x + 15.0
    ensures run.cutoff.elapsed.value <= 15.0 * (|run.samples| + 1) as real
  {
    var marks, e, n := Marks(run), Elapsed(run.samples), |run.samples|;
    forall i, j | 0 <= i && i + 1 == j && j < |marks| ensures marks[j] - marks[i] <= MaxSampleGap {
      assert TimelineChecks(run);
      if j < n {
        assert marks[i] == e[i] && marks[j] == e[j];
      }
    }
    assert marks[0] == e[0];
    EveryInstantIsMarked(marks, x);
    MarksAreBounded(marks, n + 1);
  }

  lemma {:induction false} CountersAreMonotone(s: seq<Counter>, i: nat, j: nat)
    requires i <= j < |s| && AllCount(s) && NonDecreasing(s)
    ensures Counts(s[i]) && Counts(s[j]) && s[i].value <= s[j].value
    decreases j - i
  {
    if i < j {
      CountersAreMonotone(s, i, j - 1);
      assert Counts(s[j - 1]) && Counts(s[j]) && s[j - 1].value <= s[j].value;
    }
  }

  /** At every sample the errors since ready number between 0 and 12 on simulation time, and exactly 0 on
      wall time: the bound that is checked at the cutoff holds all along. */
  lemma PassMeansFewErrors(run: Run, i: nat)
    requires Passes(run) && i < |run.samples|
    ensures run.samples[i].errors.Some?
    ensures 0 <= run.samples[i].errors.value - run.ready.errors.value <= if run.sim then 12 else 0
  {
    var errors := WithCutoff(run.samples, Errors(), run.cutoff.errors);
    assert CounterChecks(run);
    CountersAreMonotone(errors, 0, i);
    CountersAreMonotone(errors, i, |run.samples|);
    assert errors[i] == run.samples[i].errors && errors[|run.samples|] == run.cutoff.errors;
  }

  /** At every sample the evaluator runs on the right timebase and in good health over its five episodes, on a
      clock no older than 15 seconds; and the run itself was probed, long enough and fully recorded. */
  lemma PassMeansHealthy(run: Run, s: Sample)
    requires Passes(run) && s in run.samples
    ensures s.timebaseMatches && s.healthy && s.paths == Some(5)
    ensures s.clockAge.Some? && 0.0 <= s.clockAge.value <= 15.0
    ensures run.ready.probePass && run.cutoff.recorded && run.cutoff.timebaseMatches && run.cutoff.paths == Some(5)
    ensures 30 <= run.configured <= 600 && run.configured as real <= run.cutoff.elapsed.value <= run.observed as real
    ensures run.sim ==> run.configured == 600 && run.cutoff.elapsedSim.Some? && run.cutoff.elapsedSim.value >= 600.0
    ensures |run.samples| >= if run.sim then 40 else run.configured / 5
  {
  }

  /** Time and publications move on between any two samples, and neither steps nor the clock move back. */
  lemma {:induction false} PassMeansTimeMoves(run: Run, i: nat, j: nat)
    requires Passes(run) && i < j < |run.samples|
    ensures var a, b := run.samples[i], run.samples[j];
            a.elapsed < b.elapsed && a.published < b.published && a.received <= b.received && a.clockNs <= b.clockNs
    decreases j
  {
    hide CounterChecks, StateChecks, NeverStagnant, CutoffValid;
    NextSample(run, j - 1);
    if i < j - 1 {
      PassMeansTimeMoves(run, i, j - 1);
    }
  }

  lemma NextSample(run: Run, i: nat)
    requires Passes(run) && i + 1 < |run.samples|
    ensures var a, b := run.samples[i], run.samples[i + 1];
            a.elapsed < b.elapsed && a.published < b.published && a.received <= b.received && a.clockNs <= b.clockNs
  {
    hide CounterChecks, StateChecks, NeverStagnant;
    var j, e := i + 1, Elapsed(run.samples);
    assert 0.0 < e[j] - e[i];
  }

  predicate Advance(s: seq<Sample>, j: nat)
    requires 0 < j < |s|
  {
    s[j].received > s[j - 1].received
  }

  lemma {:induction false} LatestAdvance(s: seq<Sample>, n: nat) returns (j: nat)
    requires n <= |s| && Advances(s[..n]) > 0
    ensures 0 < j < n && Advance(s, j) && Advances(s[..j]) == Advances(s[..n]) - 1
    decreases n
  {
    assert s[..n][..n - 1] == s[..n - 1];
    if Advance(s, n - 1) {
      j := n - 1;
    } else {
      j := LatestAdvance(s, n - 1);
    }
  }

  /** The robot acted and physics ran: actions grow from a positive number at ready to the cutoff, and steps
      arrived in at least two sampling intervals. */
  lemma PassMeansProgress(run: Run)
    requires Passes(run)
    ensures var s, r, c := run.samples, run.ready, run.cutoff;
            && Counts(r.actions) && Counts(s[0].actions) && Counts(c.actions)
            && 0 < r.actions.value <= s[0].actions.value < c.actions.value
            && s[|s| - 1].received > s[0].received && s[|s| - 1].clockNs > s[0].clockNs
            && exists i, j :: 0 < i < j < |s| && Advance(s, i) && Advance(s, j)
  {
    hide StateChecks, TimelineChecks, NeverStagnant;
    var s := run.samples;
    assert s[..|s|] == s;
    var j := LatestAdvance(s, |s|);
    var i := LatestAdvance(s, j);
    var actions := WithCutoff(s, Actions(), run.cutoff.actions);
    assert Counts(actions[0]) && actions[0] == s[0].actions;
  }

  /** Errors are accounted for: at every sample they split into warnings and fatal ones, both counted from
      ready, and up to the cutoff there was no fatal one and at most 12 warnings on simulation time, none on
      wall time. */
  lemma PassMeansErrorsAreWarnings(run: Run, s: Sample)
    requires Passes(run) && s in run.samples
    ensures var r, c := run.ready, run.cutoff;
            && Counts(s.errors) && Counts(s.warnings) && Counts(s.fatal) && Counts(r.errors) && Counts(r.fatal)
            && s.errors.value == s.warnings.value + s.fatal.value && s.fatal.value >= r.fatal.value
            && s.newErrors == Some(s.errors.value - r.errors.value)
            && c.fatal == r.fatal && Counts(c.errors)
            && 0 <= c.errors.value - r.errors.value <= if run.sim then 12 else 0
  {
    assert NewErrorsReported(run) && Classified(s, run.ready);
  }

  /** A run on wall time that passes: 30 seconds, sampled every 5. */
  function ShortRun(): Run {
    var zero, two: Counter := Some(0), Some(2);
    var ready := Ready(true, Some(1), zero, zero, zero);
    var cutoff := Cutoff(true, Some(30.0), Some(9), zero, zero, Some(5), zero, zero, zero, zero, Some(1),
                         Some(1), zero, zero, zero, true, None);
    Run(seq(6, k requires 0 <= k < 6 =>
              Sample(5.0 * (k + 1) as real, k, k, k, true, true, Some(2), zero, Some(1), zero, zero,
                     zero, zero, zero, zero, Some(5), Some(1.0))),
        ready, cutoff, 30, 30, false)
  }

  lemma ShortCounters()
    ensures CutoffValid(ShortRun().cutoff, ShortRun().ready) && CounterChecks(ShortRun())
  {
    var run := ShortRun();
    var s := run.samples;
    var errors, actions := WithCutoff(s, Errors(), run.cutoff.errors), WithCutoff(s, Actions(), run.cutoff.actions);
    assert AllCount(actions) && AllCount(errors) && NonDecreasing(actions) && NonDecreasing(errors);
    assert NewErrorsReported(run);
    assert forall x :: x in s ==> Classified(x, run.ready);
  }

  lemma ShortTimeline()
    ensures CutoffValid(ShortRun().cutoff, ShortRun().ready) && StateChecks(ShortRun()) && TimelineChecks(ShortRun())
  {
  }

  lemma ShortClock()
    ensures ClockChecks(ShortRun())
  {
    var s := ShortRun().samples;
    AdvancesGrow(s, 5);
    assert s[..6] == s;
  }

  /** The checks can all be met. */
  lemma PassIsPossible()
    ensures Passes(ShortRun())
  {
    hide TimelineChecks, CounterChecks, ClockChecks, StateChecks, CutoffValid, Lag;
    ShortCounters();
    ShortTimeline();
    ShortClock();
    var s := ShortRun().samples;
    forall j | 0 < j < |s| ensures Lag(s, j) <= MaxStagnation {
      LagIs(s, j);
    }
  }

  lemma {:induction false} AdvancesGrow(s: seq<Sample>, n: nat)
    requires n < |s| && forall k :: 0 < k < |s| ==> Advance(s, k)
    ensures Advances(s[..n + 1]) == n
  {
    if n > 0 {
      AdvancesGrow(s, n - 1);
      assert s[..n + 1][..n] == s[..n] && Advance(s, n);
    }
  }
}
