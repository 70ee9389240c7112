/** The replay recorder of scripts/capture_internnav_t1_replay.py against its own validator. */
module ReplayRecorder {
  import opened Wrappers
  import opened Sequences

  /** A record, without the observation payload. */
  datatype Record = Record(globalIndex: int, ordinal: int, generation: int, sequence: int, action: int)

  /** The wrapped calls. A failing call raises before its record is written or its reset is counted. A cut
      step raises with its record line half written. An uncounted step writes its line and then raises before
      any counter moves, as when the file cannot be synced. A torn step counts its record and then raises while
      the capture state file is written. */
  datatype Event =
    | FailingCall
    | Step(action: int)
    | CutStep(action: int)
    | UncountedStep(action: int)
    | TornStep(action: int)
    | Reset
  {
    predicate IsStep() { Step? || CutStep? || UncountedStep? || TornStep? }
  }

  /** `records` are the lines of the records file up to the first that does not decode, if there is one:
      `broken` tells. A line written after half a line only makes that one longer, and what follows a broken
      line no longer matters, because the validator decodes all lines before anything else. */
  datatype Recorder = Recorder(records: seq<Record>, broken: bool, globalIndex: int, ordinal: int, generation: int,
                               sequence: int)
  {
    function Write(action: int): Recorder {
      if broken then this
      else this.(records := records + [Record(globalIndex, ordinal, generation, sequence, action)])
    }
  }

  const Empty := Recorder([], false, 0, 0, 0, 0)

  function Next(maximum: nat, r: Recorder, e: Event): Recorder {
    if e.FailingCall? then r
    else if e.Reset? then r.(ordinal := r.ordinal + 1, generation := r.generation + 1, sequence := 0)
    else if r.globalIndex >= maximum then r.(sequence := r.sequence + 1)
    else if e.CutStep? then r.(broken := true)
    else if e.UncountedStep? then r.Write(e.action)
    else if e.TornStep? then r.Write(e.action).(globalIndex := r.globalIndex + 1)
    else r.Write(e.action).(globalIndex := r.globalIndex + 1, sequence := r.sequence + 1)
  }

  function Run(maximum: nat, es: seq<Event>): Recorder {
    if es == [] then Empty else Next(maximum, Run(maximum, es[..|es| - 1]), es[|es| - 1])
  }

  // ---------- the validator ----------

  datatype Error = Undecodable | TooFew | NotExpected | IndexGap | SequenceGap | DuplicateIdentifier

  /** What the per-record checks of finalize read. */
  datatype Field = Generation | Action {
    function Of(r: Record): int { if Generation? then r.generation else r.action }
  }

  function CountOf(records: seq<Record>, field: Field, value: int): nat {
    if records == [] then 0
    else CountOf(records[..|records| - 1], field, value)
         + (if field.Of(records[|records| - 1]) == value then 1 else 0)
  }

  /** Global indices count up from 0, and so do the sequence ids within each generation. */
  ghost predicate Contiguous(records: seq<Record>) {
    forall i :: 0 <= i < |records| ==>
      records[i].globalIndex == i
      && records[i].sequence == CountOf(records[..i], Generation, records[i].generation)
  }

  datatype Manifest = Manifest(steps: nat, perGeneration: map<int, nat>, perAction: map<int, nat>)

  ghost predicate Tallies(m: map<int, nat>, records: seq<Record>, field: Field) {
    && (forall v :: v in m <==> CountOf(records, field, v) > 0)
    && (forall v :: v in m ==> m[v] == CountOf(records, field, v))
  }

  lemma {:induction false} CountGrows(records: seq<Record>, field: Field, value: int, n: nat)
    requires n <= |records|
    ensures CountOf(records[..n], field, value) <= CountOf(records, field, value)
  {
    if n < |records| {
      CountGrows(records[..|records| - 1], field, value, n);
      assert records[..|records| - 1][..n] == records[..n];
    } else {
      assert records[..n] == records;
    }
  }

  /** Contiguity alone makes every (generation, sequence) pair unique. */
  lemma ContiguousIsUnique(records: seq<Record>, i: nat, j: nat)
    requires i < j < |records| && Contiguous(records) && records[i].generation == records[j].generation
    ensures records[i].sequence < records[j].sequence
  {
    var g := records[i].generation;
    CountGrows(records[..j], Generation, g, i + 1);
    assert records[..j][..i + 1] == records[..i + 1] && records[..i + 1][..i] == records[..i];
  }

  /** One pass with a set of identifiers and two dictionaries of counters. */
  method Finalize(records: seq<Record>, broken: bool, minimum: nat, expected: Option<nat>)
    returns (r: Result<Manifest, Error>)
    ensures r.Ok? <==> !broken && |records| >= minimum && (expected.Some? ==> |records| == expected.value) && Contiguous(records)
    ensures r != Raised(DuplicateIdentifier)
    ensures r.Ok? ==> r.value.steps == |records|
    ensures r.Ok? ==> Tallies(r.value.perGeneration, records, Generation) && Tallies(r.value.perAction, records, Action)
  {
    hide Contiguous, CountOf;
    NothingCounted();
    if broken { return Raised(Undecodable); }
    if |records| < minimum { return Raised(TooFew); }
    if expected.Some? && |records| != expected.value { return Raised(NotExpected); }
    var identifiers: set<(int, int)> := {};
    var next: map<int, nat>, actions: map<int, nat> := map[], map[];
    for i := 0 to |records|
      invariant Contiguous(records[..i])
      invariant forall id :: id in identifiers ==> exists k :: 0 <= k < i && id == (records[k].generation, records[k].sequence)
      invariant Tallies(next, records[..i], Generation) && Tallies(actions, records[..i], Action)
    {
      var record := records[i];
      ghost var before := records[..i];
      assert records[..i + 1] == before + [record];
      ContiguousSnoc(before, record);
      var due := if record.generation in next then next[record.generation] else 0;
      if record.globalIndex != i || record.sequence != due {
        ContiguousPrefix(records, i + 1);
        return Raised(if record.globalIndex != i then IndexGap else SequenceGap);
      }
      if (record.generation, record.sequence) in identifiers {
        var k :| 0 <= k < i && (record.generation, record.sequence) == (records[k].generation, records[k].sequence);
        ContiguousIsUnique(before + [record], k, i);
        return Raised(DuplicateIdentifier);
      }
      forall v, f: Field { CountSnoc(before, record, f, v); }
      next := next[record.generation := record.sequence + 1];
      identifiers := identifiers + {(record.generation, record.sequence)};
      actions := actions[record.action := (if record.action in actions then actions[record.action] else 0) + 1];
    }
    assert records[..|records|] == records;
    return Ok(Manifest(|records|, next, actions));
  }

  lemma ContiguousPrefix(records: seq<Record>, n: nat)
    requires n <= |records|
    ensures Contiguous(records) ==> Contiguous(records[..n])
  {
    forall i | 0 <= i < n ensures records[..n][..i] == records[..i] {
    }
  }

  lemma NothingCounted()
    ensures Contiguous([]) && Tallies(map[], [], Generation) && Tallies(map[], [], Action)
  {
  }

  lemma CountSnoc(records: seq<Record>, r: Record, field: Field, value: int)
    ensures CountOf(records + [r], field, value) == CountOf(records, field, value) + if field.Of(r) == value then 1 else 0
  {
    assert (records + [r])[..|records|] == records;
  }

  // ---------- both sums are the number of steps ----------

  ghost function Sum(m: map<int, nat>, keys: set<int>): nat
    requires keys <= m.Keys
  {
    if keys == {} then 0 else var k := PickKey(keys); m[k] + Sum(m, keys - {k})
  }

  ghost function PickKey(keys: set<int>): (k: int)
    requires keys != {}
    ensures k in keys
  {
    assert (forall q :: q !in keys) ==> keys == {};
    var k :| k in keys; k
  }

  ghost function CountIn(records: seq<Record>, field: Field, keys: set<int>): nat {
    if records == [] then 0
    else CountIn(records[..|records| - 1], field, keys) + (if field.Of(records[|records| - 1]) in keys then 1 else 0)
  }

  lemma {:induction false} CountInSplits(records: seq<Record>, field: Field, keys: set<int>, k: int)
    requires k in keys
    ensures CountIn(records, field, keys) == CountOf(records, field, k) + CountIn(records, field, keys - {k})
  {
    if records != [] {
      CountInSplits(records[..|records| - 1], field, keys, k);
    }
  }

  lemma {:induction false} CountInNothing(records: seq<Record>, field: Field)
    ensures CountIn(records, field, {}) == 0
  {
    if records != [] {
      CountInNothing(records[..|records| - 1], field);
    }
  }

  lemma {:induction false} SumIsCountIn(m: map<int, nat>, records: seq<Record>, field: Field, keys: set<int>)
    requires Tallies(m, records, field) && keys <= m.Keys
    ensures Sum(m, keys) == CountIn(records, field, keys)
    decreases |keys|
  {
    if keys == {} {
      CountInNothing(records, field);
    } else {
      var k := PickKey(keys);
      SumIsCountIn(m, records, field, keys - {k});
      CountInSplits(records, field, keys, k);
    }
  }

  lemma {:induction false} CountInAll(records: seq<Record>, whole: seq<Record>, field: Field, keys: set<int>)
    requires records <= whole && forall v :: v in keys <==> CountOf(whole, field, v) > 0
    ensures CountIn(records, field, keys) == |records|
  {
    if records != [] {
      var n := |records| - 1;
      CountInAll(records[..n], whole, field, keys);
      assert whole[..n + 1] == records && records[..n + 1][..n] == records[..n];
      CountGrows(whole, field, field.Of(records[n]), n + 1);
    }
  }

  /** The manifest's per-generation counts and its per-action counts both add up to its step count. */
  lemma ManifestAddsUp(m: Manifest, records: seq<Record>)
    requires m.steps == |records| && Tallies(m.perGeneration, records, Generation) && Tallies(m.perAction, records, Action)
    ensures Sum(m.perGeneration, m.perGeneration.Keys) == m.steps == Sum(m.perAction, m.perAction.Keys)
  {
    SumIsCountIn(m.perGeneration, records, Generation, m.perGeneration.Keys);
    SumIsCountIn(m.perAction, records, Action, m.perAction.Keys);
    CountInAll(records, records, Generation, m.perGeneration.Keys);
    CountInAll(records, records, Action, m.perAction.Keys);
  }

  // ---------- the recorder satisfies the validator ----------

  /** How often the global index was due to move. */
  function Counted(es: seq<Event>): nat {
    if es == [] then 0 else Counted(es[..|es| - 1]) + (if es[|es| - 1].Step? || es[|es| - 1].TornStep? then 1 else 0)
  }

  /** After `before`, the step `e` gets as far as writing its record line. */
  function Records(maximum: nat, before: seq<Event>, e: Event): bool { e.IsStep() && Counted(before) < maximum }

  /** Some step got half of its line written. */
  function LineCut(maximum: nat, es: seq<Event>): bool {
    if es == [] then false
    else
      var before, e := es[..|es| - 1], es[|es| - 1];
      LineCut(maximum, before) || (e.CutStep? && Records(maximum, before, e))
  }

  /** How many records were written without being counted. */
  function Uncounted(maximum: nat, es: seq<Event>): nat {
    if es == [] then 0
    else
      var before, e := es[..|es| - 1], es[|es| - 1];
      Uncounted(maximum, before) + (if e.UncountedStep? && Records(maximum, before, e) then 1 else 0)
  }

  /** The last counted step of the current generation was torn. */
  function Stale(maximum: nat, es: seq<Event>): bool {
    if es == [] then false
    else
      var before, e := es[..|es| - 1], es[|es| - 1];
      match e
      case FailingCall => Stale(maximum, before)
      case TornStep(_) => Stale(maximum, before) || Records(maximum, before, e)
      case Reset => false
      case _ => Stale(maximum, before) && (e.UncountedStep? || e.CutStep? || !Records(maximum, before, e))
  }

  /** Some step was recorded on after a torn one, without a reset in between. */
  function ContinuedAfterTorn(maximum: nat, es: seq<Event>): bool {
    if es == [] then false
    else
      var before, e := es[..|es| - 1], es[|es| - 1];
      ContinuedAfterTorn(maximum, before) || (Records(maximum, before, e) && Stale(maximum, before))
  }

  /** Some step was recorded after an uncounted one, no matter what came in between. */
  function ContinuedAfterUncounted(maximum: nat, es: seq<Event>): bool {
    if es == [] then false
    else
      var before, e := es[..|es| - 1], es[|es| - 1];
      ContinuedAfterUncounted(maximum, before) || (Records(maximum, before, e) && Uncounted(maximum, before) > 0)
  }

  lemma ContiguousSnoc(records: seq<Record>, r: Record)
    ensures Contiguous(records + [r]) <==>
              Contiguous(records) && r.globalIndex == |records| && r.sequence == CountOf(records, Generation, r.generation)
  {
    var all := records + [r];
    assert forall i :: 0 <= i <= |records| ==> all[..i] == records[..i];
    assert records[..|records|] == records;
    if Contiguous(all) {
      assert all[|records|] == r;
      forall i | 0 <= i < |records|
        ensures records[i].globalIndex == i && records[i].sequence == CountOf(records[..i], Generation, records[i].generation)
      {
        assert all[i] == records[i];
      }
    }
  }

  /** What every run keeps. The counters follow the counted steps, and the file breaks exactly when a line was
      cut. Until then there is one record per counted step up to the maximum and one per uncounted step, none of
      a later generation; the records are contiguous as long as no torn or uncounted step was continued, and
      then the counters stand where the validator expects them. */
  ghost predicate Kept(maximum: nat, es: seq<Event>, r: Recorder) {
    && r.globalIndex == (if Counted(es) <= maximum then Counted(es) else maximum)
    && r.ordinal == r.generation && r.sequence >= 0
    && (r.broken <==> LineCut(maximum, es))
    && (!r.broken ==> KeptRecords(maximum, es, r))
  }

  ghost predicate KeptRecords(maximum: nat, es: seq<Event>, r: Recorder) {
    && |r.records| == r.globalIndex + Uncounted(maximum, es)
    && (forall k :: 0 <= k < |r.records| ==> r.records[k].generation <= r.generation)
    && (Contiguous(r.records) <==> !ContinuedAfterTorn(maximum, es) && !ContinuedAfterUncounted(maximum, es))
    && (Contiguous(r.records) ==> |r.records| <= maximum)
    && (Contiguous(r.records) && r.globalIndex < maximum && Uncounted(maximum, es) == 0 ==>
          CountOf(r.records, Generation, r.generation) == r.sequence + if Stale(maximum, es) then 1 else 0)
  }

  lemma {:induction false} NoneYet(records: seq<Record>, g: int)
    requires forall k :: 0 <= k < |records| ==> records[k].generation < g
    ensures CountOf(records, Generation, g) == 0
  {
    if records != [] {
      NoneYet(records[..|records| - 1], g);
    }
  }

  lemma {:induction false} RunKeeps(maximum: nat, es: seq<Event>)
    ensures Kept(maximum, es, Run(maximum, es))
  {
    hide Kept, Next;
    if es == [] {
      NoRecords(maximum);
    } else {
      var before, e := es[..|es| - 1], es[|es| - 1];
      RunKeeps(maximum, before);
      assert es == before + [e];
      if e.IsStep() && Run(maximum, before).globalIndex < maximum {
        RecordingKeeps(maximum, before, Run(maximum, before), e);
      } else {
        OtherEventsKeep(maximum, before, Run(maximum, before), e);
      }
    }
  }

  lemma NoRecords(maximum: nat)
    ensures Kept(maximum, [], Empty)
  {
  }

  /** A call that records nothing. */
  lemma OtherEventsKeep(maximum: nat, before: seq<Event>, r: Recorder, e: Event)
    requires Kept(maximum, before, r) && !(e.IsStep() && r.globalIndex < maximum)
    ensures Kept(maximum, before + [e], Next(maximum, r, e))
  {
    hide Contiguous;
    assert (before + [e])[..|before|] == before;
    if e.Reset? && !r.broken {
      NoneYet(r.records, r.generation + 1);
    }
  }

  lemma RecordedSnoc(maximum: nat, before: seq<Event>, e: Event)
    requires Records(maximum, before, e)
    ensures var es := before + [e];
            && Counted(es) == Counted(before) + (if e.Step? || e.TornStep? then 1 else 0)
            && LineCut(maximum, es) == (LineCut(maximum, before) || e.CutStep?)
            && Uncounted(maximum, es) == Uncounted(maximum, before) + (if e.UncountedStep? then 1 else 0)
            && (!e.CutStep? ==> Stale(maximum, es) == (e.TornStep? || (e.UncountedStep? && Stale(maximum, before))))
            && ContinuedAfterTorn(maximum, es) == (ContinuedAfterTorn(maximum, before) || Stale(maximum, before))
            && ContinuedAfterUncounted(maximum, es)
                 == (ContinuedAfterUncounted(maximum, before) || Uncounted(maximum, before) > 0)
  {
    assert (before + [e])[..|before|] == before;
  }

  /** One recorded step of any kind. */
  lemma RecordingKeeps(maximum: nat, before: seq<Event>, r: Recorder, e: Event)
    requires Kept(maximum, before, r) && r.globalIndex < maximum && e.IsStep()
    ensures Kept(maximum, before + [e], Next(maximum, r, e))
  {
    hide Contiguous, CountOf, Counted, LineCut, Uncounted, Stale, ContinuedAfterTorn, ContinuedAfterUncounted;
    RecordedSnoc(maximum, before, e);
    if !r.broken && !e.CutStep? {
      var x := Record(r.globalIndex, r.ordinal, r.generation, r.sequence, e.action);
      ContiguousSnoc(r.records, x);
      CountSnoc(r.records, x, Generation, r.generation);
    }
  }

  /** What the recorder leaves decodes and passes the validator's index, sequence and uniqueness checks exactly
      when no line was cut, no step at all was recorded after an uncounted one and none after a torn one before a
      reset; then there are at most `maximum` records. Unless a line was cut there are min(maximum, counted
      steps) records and one more per uncounted step. */
  lemma RecorderRefinesValidator(maximum: nat, es: seq<Event>)
    ensures var r := Run(maximum, es);
            && (!r.broken && Contiguous(r.records) <==>
                  !LineCut(maximum, es) && !ContinuedAfterTorn(maximum, es) && !ContinuedAfterUncounted(maximum, es))
            && (r.broken <==> LineCut(maximum, es))
            && (!r.broken && Contiguous(r.records) ==> |r.records| <= maximum)
            && (!r.broken ==>
                  |r.records| == (if Counted(es) <= maximum then Counted(es) else maximum) + Uncounted(maximum, es))
  {
    RunKeeps(maximum, es);
  }

  /** In particular every interleaving of steps, failing calls and resets passes, with min(maximum, steps)
      records. */
  lemma UndisturbedRunsPass(maximum: nat, es: seq<Event>)
    requires forall e :: e in es ==> e.FailingCall? || e.Step? || e.Reset?
    ensures var r := Run(maximum, es);
            !r.broken && Contiguous(r.records) && |r.records| == if Counted(es) <= maximum then Counted(es) else maximum
  {
    RunKeeps(maximum, es);
    NothingTorn(maximum, es);
    NothingCut(maximum, es);
  }

  lemma {:induction false} NothingCut(maximum: nat, es: seq<Event>)
    requires forall e :: e in es ==> !e.CutStep?
    ensures !LineCut(maximum, es)
  {
    if es != [] {
      assert es[|es| - 1] in es;
      NothingCut(maximum, es[..|es| - 1]);
    }
  }

  lemma {:induction false} NothingTorn(maximum: nat, es: seq<Event>)
    requires forall e :: e in es ==> e.FailingCall? || e.Step? || e.Reset?
    ensures !Stale(maximum, es) && !ContinuedAfterTorn(maximum, es)
    ensures Uncounted(maximum, es) == 0 && !ContinuedAfterUncounted(maximum, es)
  {
    if es != [] {
      assert es[|es| - 1] in es;
      NothingTorn(maximum, es[..|es| - 1]);
    }
  }

  /** A torn step followed by a further step in the same generation repeats a sequence id. */
  lemma TornThenContinuedFails(maximum: nat, a: int, b: int)
    requires maximum >= 2
    ensures !Contiguous(Run(maximum, [TornStep(a), Step(b)]).records)
  {
    var es := [TornStep(a), Step(b)];
    assert es[..1] == [TornStep(a)] && es[..1][..0] == [];
    assert Stale(maximum, es[..1]) && Counted(es[..1]) == 1;
    NothingCut(maximum, es);
    RecorderRefinesValidator(maximum, es);
  }

  /** An uncounted step followed by a further one repeats a global index, even after a reset. */
  lemma UncountedThenContinuedFails(maximum: nat, a: int, b: int)
    requires maximum >= 1
    ensures !Contiguous(Run(maximum, [UncountedStep(a), Reset, Step(b)]).records)
  {
    var es := [UncountedStep(a), Reset, Step(b)];
    assert es[..2] == [UncountedStep(a), Reset] && es[..2][..1] == [UncountedStep(a)] && es[..2][..1][..0] == [];
    assert Uncounted(maximum, es[..2][..1]) == 1;
    assert Uncounted(maximum, es[..2]) == 1 && Counted(es[..2]) == 0;
    NothingCut(maximum, es);
    RecorderRefinesValidator(maximum, es);
  }

  // ---------- what the records say ----------

  function Resets(es: seq<Event>): nat {
    if es == [] then 0 else Resets(es[..|es| - 1]) + (if es[|es| - 1].Reset? then 1 else 0)
  }

  /** The steps that got a whole line: their actions, and how many resets came before. */
  function Log(maximum: nat, es: seq<Event>): seq<(int, nat)> {
    if es == [] then []
    else
      var before, e := es[..|es| - 1], es[|es| - 1];
      Log(maximum, before) + (if Records(maximum, before, e) && !e.CutStep? then [(e.action, Resets(before))] else [])
  }

  /** The records are those steps, in order, each with its own action and the generation that the resets
      before it make. */
  lemma {:induction false} RecordsAreTheSteps(maximum: nat, es: seq<Event>)
    ensures var r, log := Run(maximum, es), Log(maximum, es);
            && r.generation == Resets(es)
            && (!r.broken ==> |r.records| == |log|)
            && (!r.broken ==> forall k :: 0 <= k < |log| ==>
                  && r.records[k].action == log[k].0
                  && r.records[k].generation == r.records[k].ordinal == log[k].1)
  {
    hide Kept;
    if es != [] {
      var before := es[..|es| - 1];
      RecordsAreTheSteps(maximum, before);
      KeptCounters(maximum, before);
    }
  }

  lemma KeptCounters(maximum: nat, es: seq<Event>)
    ensures var r := Run(maximum, es);
            r.globalIndex == (if Counted(es) <= maximum then Counted(es) else maximum) && r.ordinal == r.generation
  {
    RunKeeps(maximum, es);
  }

  // ---------- the recording client ----------

  /** Where a step raises once it started to write its record line: in the middle of the line, while the file
      is synced, or while the capture state is written. */
  datatype Fault = Nowhere | DuringWrite | BeforeCounting | AfterCounting {
    function Outcome(action: int): Event {
      match this
      case Nowhere => Step(action)
      case DuringWrite => CutStep(action)
      case BeforeCounting => UncountedStep(action)
      case AfterCounting => TornStep(action)
    }
  }

  class RecordingAgentClient {
    const maximum: nat
    var records: seq<Record>
    var broken: bool
    var globalIndex: int
    var episodeOrdinal: int
    var generation: int
    var sequence: int

    constructor (maximum: nat)
      requires maximum >= 100
      ensures this.maximum == maximum && View() == Empty
    {
      this.maximum := maximum;
      records, broken, globalIndex, episodeOrdinal, generation, sequence := [], false, 0, 0, 0, 0;
    }

    function View(): Recorder
      reads this
    {
      Recorder(records, broken, globalIndex, episodeOrdinal, generation, sequence)
    }

    /** Appends a record line to the file, as far as `fault` lets it, and counts it. */
    method Append(action: int, fault: Fault) returns (ok: bool)
      requires globalIndex < maximum
      modifies this`records, this`broken, this`globalIndex
      ensures ok == fault.Nowhere?
      ensures View() == Next(maximum, old(View()), fault.Outcome(action)).(sequence := old(sequence))
    {
      if fault.DuringWrite? {
        broken := true;
        return false;
      }
      if !broken {
        records := records + [Record(globalIndex, episodeOrdinal, generation, sequence, action)];
      }
      if fault.BeforeCounting? { return false; }
      globalIndex := globalIndex + 1;
      return fault.Nowhere?;
    }

    /** A step that gets as far as recording. */
    method TakeStep(action: int, fault: Fault) returns (ok: bool)
      modifies this
      ensures View() == Next(maximum, old(View()), fault.Outcome(action))
    {
      ok := true;
      if globalIndex < maximum {
        ok := Append(action, fault);
        if !ok { return; }
      }
      sequence := sequence + 1;
    }

    method ResetEpisode()
      modifies this
      ensures View() == Next(maximum, old(View()), Reset)
    {
      generation := generation + 1;
      episodeOrdinal := episodeOrdinal + 1;
      sequence := 0;
    }
  }
}
