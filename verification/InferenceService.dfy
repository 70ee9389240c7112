/** NavigationInferenceService and LatestResponseGate of omninav_cosmos/service.py. */
module InferenceService {
  import opened Wrappers
  import opened Sequences

  /** Requests as NavigationRequest.from_mapping lets them through. */
  datatype Request = Request(episode: string, frame: int, timestamp: real, reset: bool) {
    predicate Valid() { episode != "" && frame >= 0 }
  }

  datatype StopReason =
    | StaleRequest | ClockSkew | RetiredEpisode | EpisodeResetRequired | StaleOrDuplicateFrame
    | InferenceError | AdapterResponseMismatch

  datatype Output =
    | SafeStop(episode: string, frame: int, reason: StopReason)
    | Inferred(episode: string, frame: int, payload: int)

  /** What the backbone adapter does if it is asked: raise, or answer for some episode and frame. */
  datatype Inference = Fails | Answers(output: Output)

  datatype Config = Config(retiredLimit: nat, maxAge: real)

  datatype Service = Service(active: string, last: int, retired: seq<string>)

  const Idle := Service("", -1, [])

  datatype Call = Call(request: Request, now: real, inference: Inference)

  // ---------- the service as a state machine ----------

  function TimeReason(cfg: Config, c: Call): Option<StopReason> {
    var age := c.now - c.request.timestamp;
    if age > cfg.maxAge then Some(StaleRequest) else if age < -cfg.maxAge then Some(ClockSkew) else None
  }

  /** The gate got as far as looking at the active episode. */
  predicate Admitted(cfg: Config, s: Service, c: Call) {
    TimeReason(cfg, c).None? && c.request.episode !in s.retired
  }

  /** The call switches to another episode, which retires the active one. */
  predicate Retires(cfg: Config, s: Service, c: Call) {
    Admitted(cfg, s, c) && s.active != "" && c.request.episode != s.active && c.request.reset
  }

  /** The call begins an activation. */
  predicate Starts(cfg: Config, s: Service, c: Call) {
    Admitted(cfg, s, c) && (s.active == "" || c.request.reset)
  }

  function Gate(cfg: Config, s: Service, c: Call): (Service, Option<StopReason>) {
    if TimeReason(cfg, c).Some? then (s, TimeReason(cfg, c))
    else if c.request.episode in s.retired then (s, Some(RetiredEpisode))
    else if s.active != "" && c.request.episode != s.active && !c.request.reset then (s, Some(EpisodeResetRequired))
    else
      var retired := if Retires(cfg, s, c) then Cut(s.retired + [s.active], cfg.retiredLimit) else s.retired;
      var t := if Starts(cfg, s, c) then Service(c.request.episode, -1, retired) else s;
      (t, if c.request.frame <= t.last then Some(StaleOrDuplicateFrame) else None)
  }

  function Process(cfg: Config, s: Service, c: Call): (Service, Output) {
    var (t, stop) := Gate(cfg, s, c);
    var r := c.request;
    if stop.Some? then (t, SafeStop(r.episode, r.frame, stop.value))
    else match c.inference
      case Fails => (t, SafeStop(r.episode, r.frame, InferenceError))
      case Answers(o) =>
        if o.episode != r.episode || o.frame != r.frame then
          (t, SafeStop(r.episode, r.frame, AdapterResponseMismatch))
        else (t.(last := r.frame), o)
  }

  function Run(cfg: Config, s: Service, calls: seq<Call>): Service
    decreases |calls|
  {
    if calls == [] then s else Run(cfg, Process(cfg, s, calls[0]).0, calls[1..])
  }

  function Outputs(cfg: Config, s: Service, calls: seq<Call>): (outs: seq<Output>)
    ensures |outs| == |calls|
    decreases |calls|
  {
    if calls == [] then []
    else [Process(cfg, s, calls[0]).1] + Outputs(cfg, Process(cfg, s, calls[0]).0, calls[1..])
  }

  /** Every episode retired during a run, in order and without a bound. */
  function Retirements(cfg: Config, s: Service, calls: seq<Call>): seq<string>
    decreases |calls|
  {
    if calls == [] then []
    else (if Retires(cfg, s, calls[0]) then [s.active] else [])
         + Retirements(cfg, Process(cfg, s, calls[0]).0, calls[1..])
  }

  predicate AllValid(calls: seq<Call>) { forall c :: c in calls ==> c.request.Valid() }

  // ---------- one request ----------

  /** Why a request is stopped before the backbone is asked: too old or from the future, of an episode in the
      queue, of another episode without a reset, or for no newer frame than the last one answered. */
  lemma StoppedExactly(cfg: Config, s: Service, c: Call)
    requires cfg.maxAge > 0.0 && c.request.Valid()
    ensures var stop, r, age := Gate(cfg, s, c).1, c.request, c.now - c.request.timestamp;
            var timely, known := -cfg.maxAge <= age <= cfg.maxAge, r.episode !in s.retired;
            var foreign := s.active != "" && r.episode != s.active && !r.reset;
            && (stop == Some(StaleRequest) <==> age > cfg.maxAge)
            && (stop == Some(ClockSkew) <==> age < -cfg.maxAge)
            && (stop == Some(RetiredEpisode) <==> timely && !known)
            && (stop == Some(EpisodeResetRequired) <==> timely && known && foreign)
            && (stop == Some(StaleOrDuplicateFrame) <==>
                  timely && known && r.episode == s.active && !r.reset && r.frame <= s.last)
            && (stop == None <==>
                  timely && known && !foreign && (r.reset || r.episode != s.active || r.frame > s.last))
  {
  }

  /** A request changes the service, or is answered, only if the clock is within the limit of its timestamp and
      its episode is not in the queue. */
  lemma OnlyTimelyRequestsCount(cfg: Config, s: Service, c: Call)
    requires Process(cfg, s, c).0 != s || Passed(cfg, s, c)
    ensures -cfg.maxAge <= c.now - c.request.timestamp <= cfg.maxAge && c.request.episode !in s.retired
  {
  }

  /** The service leaves its episode only on a reset request of another one, and exactly then the episode it
      leaves joins the end of the queue. A reset or a new episode forgets the frames answered before. */
  lemma LeavingRetires(cfg: Config, s: Service, c: Call)
    requires c.request.Valid() && s.active !in s.retired
    ensures var t, r := Process(cfg, s, c).0, c.request;
            && (t.active != s.active ==> t.active == r.episode && (s.active == "" || r.reset))
            && t.retired == (if s.active != "" && t.active != s.active then Cut(s.retired + [s.active], cfg.retiredLimit)
                             else s.retired)
            && (t.active != s.active ==> t.last == -1 || t.last == r.frame)
            && (t != s && t.active == s.active && !r.reset ==> t.last == r.frame > s.last)
  {
  }

  /** What comes back: the answer of the backbone if it is for the requested episode and frame, and otherwise a
      safe stop for them that names the reason. */
  lemma AnsweredExactly(cfg: Config, s: Service, c: Call)
    ensures var (t, o) := Process(cfg, s, c);
            var stop, r := Gate(cfg, s, c).1, c.request;
            var good := c.inference.Answers? && c.inference.output.episode == r.episode && c.inference.output.frame == r.frame;
            && (stop.Some? ==> o == SafeStop(r.episode, r.frame, stop.value))
            && (stop.None? && good ==> o == c.inference.output && t.last == r.frame && t.active == r.episode)
            && (stop.None? && !good ==>
                  o == SafeStop(r.episode, r.frame, if c.inference.Fails? then InferenceError else AdapterResponseMismatch))
            && (Passed(cfg, s, c) <==> stop.None? && good)
  {
  }

  // ---------- retirement ----------

  /** The queue holds the newest retirements, no episode twice, and never the active one. */
  ghost predicate QueueSound(cfg: Config, s: Service, history: seq<string>) {
    && s.retired == Cut(history, cfg.retiredLimit)
    && Distinct(s.retired) && s.active !in s.retired && "" !in s.retired
  }

  lemma PushIsCut(retired: seq<string>, history: seq<string>, e: string, limit: nat)
    requires retired == Cut(history, limit)
    ensures Cut(retired + [e], limit) == Cut(history + [e], limit)
  {
  }

  lemma PushIsDistinct(retired: seq<string>, e: string, limit: nat)
    requires Distinct(retired) && e !in retired
    ensures Distinct(retired + [e]) && Distinct(Cut(retired + [e], limit))
    ensures forall x :: x in Cut(retired + [e], limit) ==> x in retired || x == e
  {
  }

  /** What a call does to the active episode and the queue. */
  lemma QueueEffect(cfg: Config, s: Service, c: Call)
    ensures var t := Process(cfg, s, c).0;
            && t.retired == (if Retires(cfg, s, c) then Cut(s.retired + [s.active], cfg.retiredLimit) else s.retired)
            && t.active == (if Starts(cfg, s, c) then c.request.episode else s.active)
            && (Retires(cfg, s, c) ==> Starts(cfg, s, c) && c.request.episode !in s.retired + [s.active])
  {
  }

  lemma StepQueueSound(cfg: Config, s: Service, history: seq<string>, c: Call)
    requires c.request.Valid() && QueueSound(cfg, s, history)
    ensures QueueSound(cfg, Process(cfg, s, c).0, history + if Retires(cfg, s, c) then [s.active] else [])
  {
    hide Process, Gate, Cut, TimeReason;
    QueueEffect(cfg, s, c);
    if Retires(cfg, s, c) {
      PushIsCut(s.retired, history, s.active, cfg.retiredLimit);
      PushIsDistinct(s.retired, s.active, cfg.retiredLimit);
    } else {
      assert history + [] == history;
    }
  }

  /** Over whole runs the queue is exactly the newest `retiredLimit` entries of the full history. */
  lemma {:induction false} RunQueueSound(cfg: Config, s: Service, history: seq<string>, calls: seq<Call>)
    requires AllValid(calls) && QueueSound(cfg, s, history)
    ensures QueueSound(cfg, Run(cfg, s, calls), history + Retirements(cfg, s, calls))
    decreases |calls|
  {
    hide QueueSound, Process, Retires;
    if calls == [] {
      assert history + [] == history;
    } else {
      var now := if Retires(cfg, s, calls[0]) then [s.active] else [];
      var next := Process(cfg, s, calls[0]).0;
      StepQueueSound(cfg, s, history, calls[0]);
      RunQueueSound(cfg, next, history + now, calls[1..]);
      assert history + Retirements(cfg, s, calls) == (history + now) + Retirements(cfg, next, calls[1..]);
    }
  }

  /** A request in time is refused as retired exactly when its episode is among the newest
      `retiredLimit` retirements of the whole run. */
  lemma RefusedAsRetiredExactly(cfg: Config, calls: seq<Call>, c: Call)
    requires AllValid(calls) && TimeReason(cfg, c).None?
    ensures var s := Run(cfg, Idle, calls);
            Gate(cfg, s, c).1 == Some(RetiredEpisode) <==>
              c.request.episode in Cut(Retirements(cfg, Idle, calls), cfg.retiredLimit)
  {
    RunQueueSound(cfg, Idle, [], calls);
    assert [] + Retirements(cfg, Idle, calls) == Retirements(cfg, Idle, calls);
  }

  lemma {:induction false} RetiredStaysQueued(cfg: Config, s: Service, history: seq<string>, calls: seq<Call>,
                                              episode: string, newer: set<string>)
    requires AllValid(calls) && QueueSound(cfg, s, history)
    requires Behind(s.retired, episode, Itself(), newer) && episode !in newer
    requires |newer + (Elements(Retirements(cfg, s, calls)) - {episode})| < cfg.retiredLimit
    ensures episode in Run(cfg, s, calls).retired
    decreases |calls|
  {
    hide Process, Cut, Behind, Retires, QueueSound;
    BehindIsIn(s.retired, episode, newer);
    if calls != [] {
      var c, next := calls[0], Process(cfg, s, calls[0]).0;
      var now := if Retires(cfg, s, c) then [s.active] else [];
      var rest := Retirements(cfg, next, calls[1..]);
      var newer' := newer + Elements(now);
      ActiveIsNotQueued(cfg, s, history);
      ElementsSplit(now, rest, newer, episode);
      StepQueueSound(cfg, s, history, c);
      SubsetSize(newer', newer' + (Elements(rest) - {episode}));
      StepKeepsQueued(cfg, s, history, c, episode, newer);
      RetiredStaysQueued(cfg, next, history + now, calls[1..], episode, newer');
    }
  }

  lemma ActiveIsNotQueued(cfg: Config, s: Service, history: seq<string>)
    requires QueueSound(cfg, s, history)
    ensures s.active !in s.retired
  {
  }

  lemma ElementsSplit(now: seq<string>, rest: seq<string>, newer: set<string>, episode: string)
    requires episode !in now
    ensures newer + (Elements(now + rest) - {episode}) == newer + Elements(now) + (Elements(rest) - {episode})
    ensures episode !in newer ==> episode !in newer + Elements(now)
  {
    assert Elements(now + rest) == Elements(now) + Elements(rest);
  }

  lemma StepKeepsQueued(cfg: Config, s: Service, history: seq<string>, c: Call, episode: string, newer: set<string>)
    requires c.request.Valid() && QueueSound(cfg, s, history) && Behind(s.retired, episode, Itself(), newer)
    requires |newer + Elements(if Retires(cfg, s, c) then [s.active] else [])| < cfg.retiredLimit
    ensures Behind(Process(cfg, s, c).0.retired, episode, Itself(),
                   newer + Elements(if Retires(cfg, s, c) then [s.active] else []))
  {
    hide Process, Cut, Behind, Retires;
    QueueEffect(cfg, s, c);
    if Retires(cfg, s, c) {
      assert Elements([s.active]) == {s.active};
      PushIsDistinct(s.retired, s.active, cfg.retiredLimit);
      AppendKeepsBehind(s.retired, s.active, episode, Itself(), newer);
      CutKeepsBehind(s.retired + [s.active], cfg.retiredLimit, episode, Itself(), newer + {s.active});
    } else {
      assert newer + Elements([]) == newer;
    }
  }

  lemma BehindIsIn(q: seq<string>, x: string, newer: set<string>)
    requires Behind(q, x, Itself(), newer)
    ensures x in q
  {
  }

  /** From the call that retires it, an episode gets nothing but safe stops, and changes nothing, until at
      least `retiredLimit` distinct other episodes have been retired after it. */
  lemma RetiredGetsOnlyStops(cfg: Config, before: seq<Call>, switch: Call, later: seq<Call>, c: Call)
    requires AllValid(before + [switch] + later + [c]) && Retires(cfg, Run(cfg, Idle, before), switch)
    requires var s := Run(cfg, Idle, before);
             c.request.episode == s.active
             && |Elements(Retirements(cfg, Process(cfg, s, switch).0, later)) - {s.active}| < cfg.retiredLimit
    ensures var t := Run(cfg, Process(cfg, Run(cfg, Idle, before), switch).0, later);
            Process(cfg, t, c).0 == t && Process(cfg, t, c).1.SafeStop?
  {
    hide Process, Gate, Cut, TimeReason, Behind, Retirements;
    ValidParts(before, switch, later, c);
    var s := Run(cfg, Idle, before);
    var t := Process(cfg, s, switch).0;
    var history := [] + Retirements(cfg, Idle, before);
    IdleSound(cfg);
    RunQueueSound(cfg, Idle, [], before);
    StepQueueSound(cfg, s, history, switch);
    QueueEffect(cfg, s, switch);
    PushIsDistinct(s.retired, s.active, cfg.retiredLimit);
    LastIsBehind(s.retired, s.active);
    CutKeepsBehind(s.retired + [s.active], cfg.retiredLimit, s.active, Itself(), {});
    var others := Elements(Retirements(cfg, t, later)) - {s.active};
    assert {} + others == others;
    RetiredStaysQueued(cfg, t, history + [s.active], later, s.active, {});
    QueuedIsStopped(cfg, Run(cfg, t, later), c);
  }

  lemma ValidParts(before: seq<Call>, switch: Call, later: seq<Call>, c: Call)
    requires AllValid(before + [switch] + later + [c])
    ensures AllValid(before) && switch.request.Valid() && AllValid(later) && c.request.Valid()
  {
    var all := before + [switch] + later + [c];
    assert switch in all && c in all;
    assert forall x :: x in before ==> x in all;
    assert forall x :: x in later ==> x in all;
  }

  lemma IdleSound(cfg: Config)
    ensures QueueSound(cfg, Idle, [])
  {
  }

  lemma LastIsBehind(q: seq<string>, x: string)
    ensures Behind(q + [x], x, Itself(), {})
  {
    assert (q + [x])[|q|] == x;
  }

  lemma QueuedIsStopped(cfg: Config, s: Service, c: Call)
    requires c.request.episode in s.retired
    ensures Process(cfg, s, c).0 == s && Process(cfg, s, c).1.SafeStop?
  {
  }

  // ---------- one activation ----------

  /** The service when call `k` of a run comes in. */
  function Before(cfg: Config, s: Service, calls: seq<Call>, k: nat): Service
    requires k <= |calls|
  {
    Run(cfg, s, calls[..k])
  }

  predicate StartsAt(cfg: Config, s: Service, calls: seq<Call>, k: nat)
    requires k < |calls|
  {
    Starts(cfg, Before(cfg, s, calls, k), calls[k])
  }

  /** None of the calls from number `j` up to but not including number `k` begins an activation. */
  predicate NoStart(cfg: Config, s: Service, calls: seq<Call>, j: nat, k: nat)
    requires k <= |calls|
  {
    forall m :: j <= m < k ==> !StartsAt(cfg, s, calls, m)
  }

  /** The calls continue an activation, or do not get one started. */
  predicate SameActivation(cfg: Config, s: Service, calls: seq<Call>) { NoStart(cfg, s, calls, 0, |calls|) }

  /** The calls are an activation from its first call on. */
  predicate Opens(cfg: Config, s: Service, calls: seq<Call>) {
    calls != [] && Starts(cfg, s, calls[0]) && NoStart(cfg, s, calls, 1, |calls|)
  }

  lemma PeelCall(cfg: Config, s: Service, calls: seq<Call>, k: nat)
    requires k < |calls|
    ensures Before(cfg, s, calls, k + 1) == Before(cfg, Process(cfg, s, calls[0]).0, calls[1..], k)
  {
    assert calls[..k + 1][1..] == calls[1..][..k] && calls[..k + 1][0] == calls[0];
  }

  lemma PeelActivation(cfg: Config, s: Service, calls: seq<Call>)
    requires calls != [] && SameActivation(cfg, s, calls)
    ensures !Starts(cfg, s, calls[0]) && SameActivation(cfg, Process(cfg, s, calls[0]).0, calls[1..])
  {
    hide Starts, Process;
    assert calls[..0] == [] && !StartsAt(cfg, s, calls, 0);
    forall m | 0 <= m < |calls[1..]| ensures !StartsAt(cfg, Process(cfg, s, calls[0]).0, calls[1..], m) {
      PeelCall(cfg, s, calls, m);
      assert !StartsAt(cfg, s, calls, m + 1);
    }
  }

  lemma {:induction false} OneCallLater(cfg: Config, s: Service, calls: seq<Call>, k: nat)
    requires k < |calls|
    ensures Before(cfg, s, calls, k + 1) == Process(cfg, Before(cfg, s, calls, k), calls[k]).0
    ensures Outputs(cfg, s, calls)[k] == Process(cfg, Before(cfg, s, calls, k), calls[k]).1
    decreases k
  {
    hide Process;
    PeelCall(cfg, s, calls, k);
    if k > 0 {
      PeelCall(cfg, s, calls, k - 1);
      OneCallLater(cfg, Process(cfg, s, calls[0]).0, calls[1..], k - 1);
    } else {
      assert calls[1..][..0] == [] && calls[..0] == [];
    }
  }

  /** The outputs that the backbone produced, as opposed to the service's own safe stops. */
  predicate Passed(cfg: Config, s: Service, c: Call) {
    Gate(cfg, s, c).1.None? && c.inference.Answers? && c.inference.output == Process(cfg, s, c).1
  }

  function PassedFrames(cfg: Config, s: Service, calls: seq<Call>): seq<int>
    decreases |calls|
  {
    if calls == [] then []
    else (if Passed(cfg, s, calls[0]) then [calls[0].request.frame] else [])
         + PassedFrames(cfg, Process(cfg, s, calls[0]).0, calls[1..])
  }

  predicate Increasing(frames: seq<int>) {
    forall i, j :: 0 <= i < j < |frames| ==> frames[i] < frames[j]
  }

  /** Within one activation the frames answered by the backbone strictly increase, above everything
      answered before; the service stays on its episode and remembers the newest one. */
  lemma {:induction false} PassedFramesIncrease(cfg: Config, s: Service, calls: seq<Call>)
    requires SameActivation(cfg, s, calls)
    ensures var frames := PassedFrames(cfg, s, calls);
            && Increasing(frames) && (forall f :: f in frames ==> f > s.last)
            && Run(cfg, s, calls).active == s.active
            && Run(cfg, s, calls).last == if frames == [] then s.last else frames[|frames| - 1]
    decreases |calls|
  {
    hide Process, Passed, Starts, Increasing;
    if calls == [] {
      NoFramesIncrease();
    } else {
      var next := Process(cfg, s, calls[0]).0;
      PeelActivation(cfg, s, calls);
      PassedFramesIncrease(cfg, next, calls[1..]);
      CallWithinActivation(cfg, s, calls[0]);
      if Passed(cfg, s, calls[0]) {
        PrependIncreasing(calls[0].request.frame, PassedFrames(cfg, next, calls[1..]));
      } else {
        assert [] + PassedFrames(cfg, next, calls[1..]) == PassedFrames(cfg, next, calls[1..]);
      }
    }
  }

  lemma CallWithinActivation(cfg: Config, s: Service, c: Call)
    requires !Starts(cfg, s, c)
    ensures var t := Process(cfg, s, c).0;
            t.active == s.active &&
            (if Passed(cfg, s, c) then c.request.episode == s.active && t.last == c.request.frame > s.last else t == s)
  {
  }

  lemma NoFramesIncrease()
    ensures Increasing([])
  {
  }

  lemma PrependIncreasing(f: int, frames: seq<int>)
    requires Increasing(frames) && forall x :: x in frames ==> x > f
    ensures Increasing([f] + frames)
  {
    forall i, j | 0 <= i < j < |[f] + frames| ensures ([f] + frames)[i] < ([f] + frames)[j] {
      assert frames[j - 1] in frames;
    }
  }

  // ---------- the response gate ----------

  datatype ResponseGate = ResponseGate(episode: string, last: int)

  function Accepts(g: ResponseGate, o: Output): bool {
    o.episode == g.episode && o.frame > g.last
  }

  function Deliver(g: ResponseGate, o: Output): ResponseGate {
    if Accepts(g, o) then g.(last := o.frame) else g
  }

  function DeliverAll(g: ResponseGate, ds: seq<Output>): ResponseGate {
    if ds == [] then g else Deliver(DeliverAll(g, ds[..|ds| - 1]), ds[|ds| - 1])
  }

  ghost predicate AcceptedAt(g: ResponseGate, ds: seq<Output>, i: nat)
    requires i < |ds|
  {
    Accepts(DeliverAll(g, ds[..i]), ds[i])
  }

  /** After any deliveries the gate stands at the greatest matching frame, or where it started. */
  lemma {:induction false} GateStandsAtMaximum(g: ResponseGate, ds: seq<Output>)
    ensures var h := DeliverAll(g, ds);
            && h.episode == g.episode && h.last >= g.last
            && (forall o :: o in ds && o.episode == g.episode ==> o.frame <= h.last)
            && (h.last == g.last || exists o :: o in ds && o.episode == g.episode && o.frame == h.last)
  {
    if ds != [] {
      var rest, o := ds[..|ds| - 1], ds[|ds| - 1];
      GateStandsAtMaximum(g, rest);
      assert ds == rest + [o];
    }
  }

  /** The accepted deliveries are exactly the strict left-to-right maxima of the matching ones. */
  lemma AcceptedAreTheMaxima(g: ResponseGate, ds: seq<Output>, i: nat)
    requires i < |ds|
    ensures AcceptedAt(g, ds, i) <==>
              && ds[i].episode == g.episode && ds[i].frame > g.last
              && forall j :: 0 <= j < i && ds[j].episode == g.episode ==> ds[j].frame < ds[i].frame
  {
    GateStandsAtMaximum(g, ds[..i]);
    var h := DeliverAll(g, ds[..i]);
    assert forall j :: 0 <= j < i ==> ds[j] in ds[..i];
    if h.last != g.last {
      var o :| o in ds[..i] && o.episode == g.episode && o.frame == h.last;
      var j :| 0 <= j < i && ds[..i][j] == o;
    }
  }

  /** Reordering and duplicating deliveries does not change where the gate ends. */
  lemma FinalFrameIgnoresOrder(g: ResponseGate, ds: seq<Output>, es: seq<Output>)
    requires forall o :: o in ds <==> o in es
    ensures DeliverAll(g, ds) == DeliverAll(g, es)
  {
    GateStandsAtMaximum(g, ds);
    GateStandsAtMaximum(g, es);
  }

  /** What a gate lives through: outputs arrive, and the simulator resets it for an episode. */
  datatype GateEvent = Arrival(output: Output) | Restart(episode: string)

  function React(g: ResponseGate, e: GateEvent): ResponseGate {
    match e
    case Arrival(o) => Deliver(g, o)
    case Restart(episode) => ResponseGate(episode, -1)
  }

  function Live(g: ResponseGate, events: seq<GateEvent>): ResponseGate {
    if events == [] then g else React(Live(g, events[..|events| - 1]), events[|events| - 1])
  }

  function Arrivals(ds: seq<Output>): seq<GateEvent> { seq(|ds|, i requires 0 <= i < |ds| => Arrival(ds[i])) }

  ghost predicate AppliedAt(g: ResponseGate, events: seq<GateEvent>, i: nat)
    requires i < |events|
  {
    events[i].Arrival? && Accepts(Live(g, events[..i]), events[i].output)
  }

  /** A stretch without resets is a plain delivery to the gate as it stood before. */
  lemma {:induction false} StretchIsDelivery(g: ResponseGate, events: seq<GateEvent>, ds: seq<Output>)
    ensures Live(g, events + Arrivals(ds)) == DeliverAll(Live(g, events), ds)
    decreases |ds|
  {
    if ds == [] {
      assert events + Arrivals(ds) == events;
    } else {
      var rest, all := ds[..|ds| - 1], events + Arrivals(ds);
      assert all[..|all| - 1] == events + Arrivals(rest);
      StretchIsDelivery(g, events, rest);
    }
  }

  ghost predicate NoRestart(events: seq<GateEvent>, i: nat, n: nat, episode: string) {
    forall k :: i < k < n && k < |events| ==> events[k] != Restart(episode)
  }

  lemma {:induction false} AppliedStaysBelow(g: ResponseGate, events: seq<GateEvent>, i: nat, n: nat)
    requires i < n <= |events| && AppliedAt(g, events, i) && NoRestart(events, i, n, events[i].output.episode)
    ensures var h, o := Live(g, events[..n]), events[i].output;
            h.episode == o.episode ==> h.last >= o.frame
    decreases n
  {
    assert events[..n][..n - 1] == events[..n - 1];
    if i + 1 < n {
      AppliedStaysBelow(g, events, i, n - 1);
      assert events[n - 1] != Restart(events[i].output.episode);
    }
  }

  /** Over the whole life of a gate the frames that it applies for an episode strictly increase until it is
      reset for that episode again. So a frame is applied twice only if there was such a reset in between. */
  lemma AppliedFramesIncrease(g: ResponseGate, events: seq<GateEvent>, i: nat, j: nat)
    requires i < j < |events| && AppliedAt(g, events, i) && AppliedAt(g, events, j)
    requires events[i].output.episode == events[j].output.episode
    requires NoRestart(events, i, j, events[i].output.episode)
    ensures events[i].output.frame < events[j].output.frame
  {
    AppliedStaysBelow(g, events, i, j);
  }

  // ---------- end to end ----------

  /** A channel that may drop, duplicate and reorder what was sent, but invents nothing. */
  ghost predicate Delivered(sent: seq<Output>, ds: seq<Output>) {
    forall o :: o in ds ==> o in sent
  }

  /** Whatever the channel does and whenever the simulator resets its gate, the frames applied for an episode
      strictly increase between resets for it, so none is applied twice, not even one that was safe-stopped
      first and answered on a retry; and each answers a request for that frame. */
  lemma EndToEndFreshness(cfg: Config, s: Service, calls: seq<Call>, g: ResponseGate, events: seq<GateEvent>,
                          i: nat, j: nat)
    requires forall e :: e in events && e.Arrival? ==> e.output in Outputs(cfg, s, calls)
    requires i < j < |events| && AppliedAt(g, events, i) && AppliedAt(g, events, j)
    requires events[i].output.episode == events[j].output.episode
    requires NoRestart(events, i, j, events[i].output.episode)
    ensures events[i].output.frame < events[j].output.frame
    ensures exists k :: 0 <= k < |calls| && Outputs(cfg, s, calls)[k] == events[j].output
                        && calls[k].request.episode == events[j].output.episode
                        && calls[k].request.frame == events[j].output.frame
  {
    AppliedFramesIncrease(g, events, i, j);
    assert events[j] in events;
    var k :| 0 <= k < |calls| && Outputs(cfg, s, calls)[k] == events[j].output;
    OutputsAnswerRequests(cfg, s, calls, k);
  }

  lemma {:induction false} OutputsAnswerRequests(cfg: Config, s: Service, calls: seq<Call>, k: nat)
    requires k < |calls|
    ensures Outputs(cfg, s, calls)[k].episode == calls[k].request.episode
    ensures Outputs(cfg, s, calls)[k].frame == calls[k].request.frame
    decreases |calls|
  {
    if k > 0 {
      OutputsAnswerRequests(cfg, Process(cfg, s, calls[0]).0, calls[1..], k - 1);
    }
  }

  lemma NewestFrameWins(cfg: Config, s: Service, calls: seq<Call>, episode: string, ds: seq<Output>)
    requires AllValid(calls) && Delivered(Outputs(cfg, s, calls), ds) && Delivered(ds, Outputs(cfg, s, calls))
    ensures var h := DeliverAll(ResponseGate(episode, -1), ds);
            && (forall k :: 0 <= k < |calls| && calls[k].request.episode == episode ==> calls[k].request.frame <= h.last)
            && (h.last >= 0 ==> exists k :: 0 <= k < |calls| && calls[k].request.episode == episode
                                           && calls[k].request.frame == h.last)
  {
    var outs, g := Outputs(cfg, s, calls), ResponseGate(episode, -1);
    FinalFrameIgnoresOrder(g, ds, outs);
    GateStandsAtMaximum(g, outs);
    forall k | 0 <= k < |calls| ensures outs[k] in outs && outs[k].episode == calls[k].request.episode
                                        && outs[k].frame == calls[k].request.frame {
      OutputsAnswerRequests(cfg, s, calls, k);
    }
  }

  // ---------- which answers get through ----------

  predicate PassedAt(cfg: Config, s: Service, calls: seq<Call>, k: nat)
    requires k < |calls|
  {
    Passed(cfg, Before(cfg, s, calls, k), calls[k])
  }

  /** The earlier call `j` asked for the same episode and for the same or a later frame. */
  predicate AskedForLater(calls: seq<Call>, j: int, k: int) {
    0 <= j < k < |calls| && calls[j].request.episode == calls[k].request.episode
    && calls[j].request.frame >= calls[k].request.frame
  }

  /** A gate that was reset for the episode of `o` and then got `ds` drops `o`. */
  ghost predicate DroppedAfter(ds: seq<Output>, o: Output) {
    !Accepts(DeliverAll(ResponseGate(o.episode, -1), ds), o)
  }

  /** Some delivery of earlier outputs makes the gate drop output `k`. */
  ghost predicate CanBeShutOut(cfg: Config, s: Service, calls: seq<Call>, k: nat)
    requires k < |calls|
  {
    exists ds :: Delivered(Outputs(cfg, s, calls)[..k], ds) && DroppedAfter(ds, Outputs(cfg, s, calls)[k])
  }

  lemma EarlierOutput(cfg: Config, s: Service, calls: seq<Call>, ds: seq<Output>, k: nat, o: Output) returns (j: nat)
    requires k < |calls| && Delivered(Outputs(cfg, s, calls)[..k], ds) && o in ds
    ensures j < k && Outputs(cfg, s, calls)[j] == o
    ensures calls[j].request.episode == o.episode && calls[j].request.frame == o.frame
  {
    var sent := Outputs(cfg, s, calls)[..k];
    assert o in sent;
    j :| 0 <= j < k && sent[j] == o;
    OutputsAnswerRequests(cfg, s, calls, j);
  }

  /** Exactly when an output can be dropped for something older: some earlier call, answered or not and in
      whatever activation, asked for the same or a later frame of its episode. */
  lemma ShutOutExactly(cfg: Config, s: Service, calls: seq<Call>, k: nat)
    requires k < |calls| && calls[k].request.Valid()
    ensures CanBeShutOut(cfg, s, calls, k) <==> exists j :: AskedForLater(calls, j, k)
  {
    var outs := Outputs(cfg, s, calls);
    var o := outs[k];
    OutputsAnswerRequests(cfg, s, calls, k);
    if CanBeShutOut(cfg, s, calls, k) {
      var ds: seq<Output> :| Delivered(outs[..k], ds) && DroppedAfter(ds, o);
      GateStandsAtMaximum(ResponseGate(o.episode, -1), ds);
      var d :| d in ds && d.episode == o.episode && d.frame >= o.frame;
      var j := EarlierOutput(cfg, s, calls, ds, k, d);
      assert AskedForLater(calls, j, k);
    }
    if j :| AskedForLater(calls, j, k) {
      OutputsAnswerRequests(cfg, s, calls, j);
      assert outs[..k][j] == outs[j];
      GateStandsAtMaximum(ResponseGate(o.episode, -1), [outs[j]]);
      assert Delivered(outs[..k], [outs[j]]) && DroppedAfter([outs[j]], o);
    }
  }

  lemma {:induction false} LastNeverFalls(cfg: Config, s: Service, calls: seq<Call>, j: nat, k: nat)
    requires j <= k <= |calls| && NoStart(cfg, s, calls, j, k)
    ensures Before(cfg, s, calls, k).last >= Before(cfg, s, calls, j).last
    ensures Before(cfg, s, calls, k).active == Before(cfg, s, calls, j).active
    decreases k
  {
    hide Process, Starts, Passed;
    if j < k {
      LastNeverFalls(cfg, s, calls, j, k - 1);
      assert !StartsAt(cfg, s, calls, k - 1);
      CallWithinActivation(cfg, Before(cfg, s, calls, k - 1), calls[k - 1]);
      OneCallLater(cfg, s, calls, k - 1);
    }
  }

  lemma PassedIsRemembered(cfg: Config, s: Service, c: Call)
    requires Passed(cfg, s, c)
    ensures Process(cfg, s, c).0.last == c.request.frame && Process(cfg, s, c).0.active == c.request.episode
  {
  }

  /** Of two answers of one activation the later is for a later frame. */
  lemma AnswersIncrease(cfg: Config, s: Service, calls: seq<Call>, j: nat, k: nat)
    requires j < k < |calls| && PassedAt(cfg, s, calls, j) && PassedAt(cfg, s, calls, k)
    requires NoStart(cfg, s, calls, j + 1, k + 1)
    ensures calls[j].request.frame < calls[k].request.frame
    ensures calls[j].request.episode == calls[k].request.episode
  {
    hide Process, Starts, Passed;
    PassedIsRemembered(cfg, Before(cfg, s, calls, j), calls[j]);
    OneCallLater(cfg, s, calls, j);
    LastNeverFalls(cfg, s, calls, j + 1, k);
    assert !StartsAt(cfg, s, calls, k);
    CallWithinActivation(cfg, Before(cfg, s, calls, k), calls[k]);
  }

  /** What shuts an answer out: the safe stop of an earlier call, or anything from before an activation that
      began since. These can, and nothing else can. */
  lemma AnswerShutOutExactly(cfg: Config, s: Service, calls: seq<Call>, k: nat)
    requires k < |calls| && calls[k].request.Valid() && PassedAt(cfg, s, calls, k)
    ensures CanBeShutOut(cfg, s, calls, k) <==>
              exists j :: AskedForLater(calls, j, k)
                          && (!PassedAt(cfg, s, calls, j) || !NoStart(cfg, s, calls, j + 1, k + 1))
  {
    hide Passed, NoStart, CanBeShutOut;
    ShutOutExactly(cfg, s, calls, k);
    if j :| AskedForLater(calls, j, k) {
      if PassedAt(cfg, s, calls, j) && NoStart(cfg, s, calls, j + 1, k + 1) {
        AnswersIncrease(cfg, s, calls, j, k);
      }
    }
  }

  /** Within an activation the answers alone never shut one another out, whatever the channel does to them. */
  lemma AnswersNeverShutOut(cfg: Config, s: Service, calls: seq<Call>, k: nat, ds: seq<Output>)
    requires k < |calls| && calls[k].request.Valid() && PassedAt(cfg, s, calls, k)
    requires forall d :: d in ds ==> exists j :: AnswerOfActivation(cfg, s, calls, j, k, d)
    ensures !DroppedAfter(ds, Outputs(cfg, s, calls)[k])
  {
    hide Passed, NoStart;
    var o := Outputs(cfg, s, calls)[k];
    OutputsAnswerRequests(cfg, s, calls, k);
    GateStandsAtMaximum(ResponseGate(o.episode, -1), ds);
    forall d | d in ds ensures d.frame < o.frame {
      var j :| AnswerOfActivation(cfg, s, calls, j, k, d);
      OutputsAnswerRequests(cfg, s, calls, j);
      AnswersIncrease(cfg, s, calls, j, k);
    }
  }

  /** `d` is the answer to the earlier call `j` of the activation that call `k` belongs to. */
  ghost predicate AnswerOfActivation(cfg: Config, s: Service, calls: seq<Call>, j: nat, k: nat, d: Output) {
    j < k < |calls| && Outputs(cfg, s, calls)[j] == d && PassedAt(cfg, s, calls, j)
    && NoStart(cfg, s, calls, j + 1, k + 1)
  }

  // ---------- delivery in order ----------

  /** On a channel that delivers every output in order, safe stops included, output `k` is accepted exactly
      when its frame exceeds that of the gate and of every earlier request of the gate's episode. */
  lemma InOrderAcceptedExactly(cfg: Config, s: Service, calls: seq<Call>, g: ResponseGate, k: nat)
    requires k < |calls|
    ensures AcceptedAt(g, Outputs(cfg, s, calls), k) <==>
              && calls[k].request.episode == g.episode && calls[k].request.frame > g.last
              && !exists j :: AskedForLater(calls, j, k)
  {
    var outs := Outputs(cfg, s, calls);
    forall j | 0 <= j <= k ensures outs[j].episode == calls[j].request.episode && outs[j].frame == calls[j].request.frame {
      OutputsAnswerRequests(cfg, s, calls, j);
    }
    AcceptedAreTheMaxima(g, outs, k);
    if j :| 0 <= j < k && outs[j].episode == outs[k].episode && outs[j].frame >= outs[k].frame {
      assert AskedForLater(calls, j, k);
    }
  }

  lemma AnswerIsForActive(cfg: Config, s: Service, calls: seq<Call>, k: nat, episode: string)
    requires k < |calls| && PassedAt(cfg, s, calls, k) && Before(cfg, s, calls, k + 1).active == episode
    ensures calls[k].request.episode == episode
  {
    hide Process, Passed;
    PassedIsRemembered(cfg, Before(cfg, s, calls, k), calls[k]);
    OneCallLater(cfg, s, calls, k);
  }

  /** From the first call of an activation on, a gate reset for its episode drops an answer delivered in order
      exactly when the safe stop of an earlier call for the same or a later frame went before it. */
  lemma InOrderAnswerDroppedExactly(cfg: Config, s: Service, calls: seq<Call>, k: nat)
    requires AllValid(calls) && Opens(cfg, s, calls) && k < |calls| && PassedAt(cfg, s, calls, k)
    ensures !AcceptedAt(ResponseGate(calls[0].request.episode, -1), Outputs(cfg, s, calls), k) <==>
              exists j :: AskedForLater(calls, j, k) && !PassedAt(cfg, s, calls, j)
  {
    hide Passed, Starts, Process, AcceptedAt;
    InOrderAcceptedExactly(cfg, s, calls, ResponseGate(calls[0].request.episode, -1), k);
    OpenerStands(cfg, s, calls);
    LastNeverFalls(cfg, s, calls, 1, k + 1);
    AnswerIsForActive(cfg, s, calls, k, calls[0].request.episode);
    assert calls[k] in calls;
    forall j | AskedForLater(calls, j, k) && PassedAt(cfg, s, calls, j) ensures false {
      AnswersIncrease(cfg, s, calls, j, k);
    }
  }

  /** The same while an activation goes on, for a gate standing where the service stands. */
  lemma ContinuedAnswerDroppedExactly(cfg: Config, s: Service, calls: seq<Call>, k: nat)
    requires SameActivation(cfg, s, calls) && k < |calls| && PassedAt(cfg, s, calls, k)
    ensures !AcceptedAt(ResponseGate(s.active, s.last), Outputs(cfg, s, calls), k) <==>
              exists j :: AskedForLater(calls, j, k) && !PassedAt(cfg, s, calls, j)
  {
    hide Passed, Starts, Process, AcceptedAt;
    InOrderAcceptedExactly(cfg, s, calls, ResponseGate(s.active, s.last), k);
    assert calls[..0] == [];
    LastNeverFalls(cfg, s, calls, 0, k);
    assert !StartsAt(cfg, s, calls, k);
    CallWithinActivation(cfg, Before(cfg, s, calls, k), calls[k]);
    forall j | AskedForLater(calls, j, k) && PassedAt(cfg, s, calls, j) ensures false {
      AnswersIncrease(cfg, s, calls, j, k);
    }
  }

  /** Call `j` asked for the greatest frame of the gate's episode, and one beyond the gate's. */
  predicate NewestRequest(g: ResponseGate, calls: seq<Call>, j: int) {
    0 <= j < |calls| && calls[j].request.episode == g.episode && calls[j].request.frame > g.last
    && forall i :: 0 <= i < |calls| && calls[i].request.episode == g.episode ==> calls[i].request.frame <= calls[j].request.frame
  }

  predicate Answered(cfg: Config, s: Service, calls: seq<Call>, frame: int) {
    exists k :: 0 <= k < |calls| && PassedAt(cfg, s, calls, k) && calls[k].request.frame == frame
  }

  /** After `n` calls the service stands at its last answer, all answers being for `g.episode` and beyond
      `g.last`, or still at `g`. */
  ghost predicate StandsAtLastAnswer(cfg: Config, s: Service, calls: seq<Call>, n: nat, g: ResponseGate)
    requires n <= |calls|
  {
    var t := Before(cfg, s, calls, n);
    && t.active == g.episode && t.last >= g.last
    && (forall k :: 0 <= k < n && PassedAt(cfg, s, calls, k) ==>
          calls[k].request.episode == g.episode && g.last < calls[k].request.frame <= t.last)
    && (t.last == g.last || exists k :: 0 <= k < n && PassedAt(cfg, s, calls, k) && calls[k].request.frame == t.last)
  }

  /** The first call leaves the service on its episode, at its frame if it was answered. */
  lemma OpenerStands(cfg: Config, s: Service, calls: seq<Call>)
    requires AllValid(calls) && Opens(cfg, s, calls)
    ensures StandsAtLastAnswer(cfg, s, calls, 1, ResponseGate(calls[0].request.episode, -1))
  {
    assert calls[0] in calls && calls[..0] == [];
    OneCallLater(cfg, s, calls, 0);
  }

  lemma {:induction false} KeepsStanding(cfg: Config, s: Service, calls: seq<Call>, m: nat, n: nat, g: ResponseGate)
    requires m <= n <= |calls| && NoStart(cfg, s, calls, m, n) && StandsAtLastAnswer(cfg, s, calls, m, g)
    ensures StandsAtLastAnswer(cfg, s, calls, n, g)
    decreases n
  {
    hide Passed, Starts, Process;
    if m < n {
      KeepsStanding(cfg, s, calls, m, n - 1, g);
      assert !StartsAt(cfg, s, calls, n - 1);
      CallWithinActivation(cfg, Before(cfg, s, calls, n - 1), calls[n - 1]);
      OneCallLater(cfg, s, calls, n - 1);
    }
  }

  lemma GateStandsAtNewestRequest(cfg: Config, s: Service, calls: seq<Call>, g: ResponseGate)
    ensures var h := DeliverAll(g, Outputs(cfg, s, calls));
            && h.episode == g.episode && h.last >= g.last
            && (forall j :: 0 <= j < |calls| && calls[j].request.episode == g.episode ==> calls[j].request.frame <= h.last)
            && (forall j :: NewestRequest(g, calls, j) ==> h.last == calls[j].request.frame)
            && (h.last != g.last ==> exists j :: NewestRequest(g, calls, j))
  {
    var outs := Outputs(cfg, s, calls);
    GateStandsAtMaximum(g, outs);
    forall j | 0 <= j < |calls| ensures outs[j] in outs && outs[j].episode == calls[j].request.episode
                                        && outs[j].frame == calls[j].request.frame {
      OutputsAnswerRequests(cfg, s, calls, j);
    }
    var h := DeliverAll(g, outs);
    if h.last != g.last {
      var o: Output :| o in outs && o.episode == g.episode && o.frame == h.last;
      var j :| 0 <= j < |calls| && outs[j] == o;
      assert NewestRequest(g, calls, j);
    }
  }

  lemma InStepFrom(cfg: Config, s: Service, calls: seq<Call>, g: ResponseGate)
    requires StandsAtLastAnswer(cfg, s, calls, |calls|, g)
    ensures var t := Run(cfg, s, calls);
            DeliverAll(g, Outputs(cfg, s, calls)) == ResponseGate(t.active, t.last) <==>
              forall j :: NewestRequest(g, calls, j) ==> Answered(cfg, s, calls, calls[j].request.frame)
  {
    hide Passed, DeliverAll, Outputs, Run;
    var t, h := Run(cfg, s, calls), DeliverAll(g, Outputs(cfg, s, calls));
    assert calls[..|calls|] == calls;
    GateStandsAtNewestRequest(cfg, s, calls, g);
    assert g.last <= t.last <= h.last;
    forall j | NewestRequest(g, calls, j)
      ensures h == ResponseGate(t.active, t.last) <==> Answered(cfg, s, calls, calls[j].request.frame)
    {
    }
  }

  /** When all outputs of an activation, its first included, were delivered in order to a gate reset for its
      episode, gate and service stand at the same frame exactly when the greatest frame requested of that
      episode was answered. */
  lemma InStepExactly(cfg: Config, s: Service, calls: seq<Call>)
    requires AllValid(calls) && Opens(cfg, s, calls)
    ensures var g, t := ResponseGate(calls[0].request.episode, -1), Run(cfg, s, calls);
            DeliverAll(g, Outputs(cfg, s, calls)) == ResponseGate(t.active, t.last) <==>
              forall j :: NewestRequest(g, calls, j) ==> Answered(cfg, s, calls, calls[j].request.frame)
  {
    hide StandsAtLastAnswer, Starts;
    OpenerStands(cfg, s, calls);
    KeepsStanding(cfg, s, calls, 1, |calls|, ResponseGate(calls[0].request.episode, -1));
    InStepFrom(cfg, s, calls, ResponseGate(calls[0].request.episode, -1));
  }

  /** The same while an activation goes on, for a gate standing where the service stands. */
  lemma ContinuedInStepExactly(cfg: Config, s: Service, calls: seq<Call>)
    requires SameActivation(cfg, s, calls)
    ensures var g, t := ResponseGate(s.active, s.last), Run(cfg, s, calls);
            DeliverAll(g, Outputs(cfg, s, calls)) == ResponseGate(t.active, t.last) <==>
              forall j :: NewestRequest(g, calls, j) ==> Answered(cfg, s, calls, calls[j].request.frame)
  {
    hide Starts;
    assert calls[..0] == [];
    KeepsStanding(cfg, s, calls, 0, |calls|, ResponseGate(s.active, s.last));
    InStepFrom(cfg, s, calls, ResponseGate(s.active, s.last));
  }

  /** It does happen that a delivered safe stop shuts out the next answer, within one activation and in order:
      the gate ends at the refused frame, the service at the answered one. */
  lemma StopCanShutOut(cfg: Config, payload: int)
    requires cfg.maxAge > 0.0
    ensures var s := Service("e", 0, []);
            var answer := Inferred("e", 1, payload);
            var calls := [Call(Request("e", 5, 0.0, false), 0.0, Fails),
                          Call(Request("e", 1, 0.0, false), 0.0, Answers(answer))];
            && SameActivation(cfg, s, calls) && Outputs(cfg, s, calls) == [SafeStop("e", 5, InferenceError), answer]
            && PassedAt(cfg, s, calls, 1) && !AcceptedAt(ResponseGate("e", 0), Outputs(cfg, s, calls), 1)
            && DeliverAll(ResponseGate("e", 0), Outputs(cfg, s, calls)).last == 5 && Run(cfg, s, calls).last == 1
  {
    var s, answer := Service("e", 0, []), Inferred("e", 1, payload);
    var first, second := Call(Request("e", 5, 0.0, false), 0.0, Fails), Call(Request("e", 1, 0.0, false), 0.0, Answers(answer));
    var calls := [first, second];
    TwoCalls(cfg, s, first, second);
    assert Process(cfg, s, first) == (s, SafeStop("e", 5, InferenceError));
    assert Process(cfg, s, second) == (Service("e", 1, []), answer);
    assert SameActivation(cfg, s, calls);
    assert AskedForLater(calls, 0, 1);
    InOrderAcceptedExactly(cfg, s, calls, ResponseGate("e", 0), 1);
    assert NewestRequest(ResponseGate("e", 0), calls, 0);
    GateStandsAtNewestRequest(cfg, s, calls, ResponseGate("e", 0));
  }

  /** The very first call can do it: its safe stop leaves a gate reset for the episode beyond the service. */
  lemma RefusedOpenerOutrunsService(cfg: Config)
    requires cfg.maxAge > 0.0
    ensures var calls := [Call(Request("e", 5, 0.0, false), 0.0, Fails)];
            && AllValid(calls) && Opens(cfg, Idle, calls)
            && DeliverAll(ResponseGate("e", -1), Outputs(cfg, Idle, calls)).last == 5 && Run(cfg, Idle, calls).last == -1
  {
    var calls := [Call(Request("e", 5, 0.0, false), 0.0, Fails)];
    assert Process(cfg, Idle, calls[0]) == (Service("e", -1, []), SafeStop("e", 5, InferenceError));
    assert Run(cfg, Service("e", -1, []), []) == Service("e", -1, []);
    assert NewestRequest(ResponseGate("e", -1), calls, 0);
    GateStandsAtNewestRequest(cfg, Idle, calls, ResponseGate("e", -1));
  }

  lemma TwoCalls(cfg: Config, s: Service, c: Call, d: Call)
    ensures var calls, t := [c, d], Process(cfg, s, c).0;
            && Before(cfg, s, calls, 0) == s && Before(cfg, s, calls, 1) == t
            && Run(cfg, s, calls) == Process(cfg, t, d).0
            && Outputs(cfg, s, calls) == [Process(cfg, s, c).1, Process(cfg, t, d).1]
  {
    var calls, t := [c, d], Process(cfg, s, c).0;
    assert calls[..0] == [] && calls[..1] == [c] && calls[1..] == [d];
    assert Outputs(cfg, t, [d]) == [Process(cfg, t, d).1];
    assert Run(cfg, t, [d]) == Process(cfg, t, d).0;
    assert Run(cfg, s, [c]) == t;
  }

  /** And that an answer from before a restart of the same episode overtakes the new ones: the gate knows
      episodes, not activations. */
  lemma RestartedEpisodeCanBeOvertaken(cfg: Config, payload: int)
    requires cfg.maxAge > 0.0
    ensures var old5, new0 := Inferred("e", 5, payload), Inferred("e", 0, payload);
            var calls := [Call(Request("e", 5, 0.0, false), 0.0, Answers(old5)),
                          Call(Request("e", 0, 0.0, true), 0.0, Answers(new0))];
            && Outputs(cfg, Idle, calls) == [old5, new0] && StartsAt(cfg, Idle, calls, 1)
            && PassedAt(cfg, Idle, calls, 0) && PassedAt(cfg, Idle, calls, 1) && CanBeShutOut(cfg, Idle, calls, 1)
  {
    var old5, new0 := Inferred("e", 5, payload), Inferred("e", 0, payload);
    var first, second := Call(Request("e", 5, 0.0, false), 0.0, Answers(old5)), Call(Request("e", 0, 0.0, true), 0.0, Answers(new0));
    var calls := [first, second];
    TwoCalls(cfg, Idle, first, second);
    assert Process(cfg, Idle, first) == (Service("e", 5, []), old5);
    assert Process(cfg, Service("e", 5, []), second) == (Service("e", 0, []), new0);
    assert AskedForLater(calls, 0, 1);
    ShutOutExactly(cfg, Idle, calls, 1);
  }

  // ---------- the two objects ----------

  class NavigationInferenceService {
    const retiredLimit: nat
    const maxAge: real
    var activeEpisode: string
    var lastFrameId: int
    var retiredEpisodes: seq<string>

    constructor (retiredLimit: nat, maxAge: real)
      requires maxAge > 0.0
      ensures this.retiredLimit == retiredLimit && this.maxAge == maxAge && View() == Idle
    {
      this.retiredLimit, this.maxAge := retiredLimit, maxAge;
      activeEpisode, lastFrameId, retiredEpisodes := "", -1, [];
    }

    function View(): Service
      reads this
    {
      Service(activeEpisode, lastFrameId, retiredEpisodes)
    }

    function Settings(): Config { Config(retiredLimit, maxAge) }

    method StartEpisode(episode: string)
      modifies this`activeEpisode, this`lastFrameId
      ensures activeEpisode == episode && lastFrameId == -1
    {
      activeEpisode := episode;
      lastFrameId := -1;
    }

    method GateRequest(c: Call) returns (stop: Option<StopReason>)
      modifies this
      ensures (View(), stop) == Gate(Settings(), old(View()), c)
    {
      var r := c.request;
      var age := c.now - r.timestamp;
      if age > maxAge { return Some(StaleRequest); }
      if age < -maxAge { return Some(ClockSkew); }
      if r.episode in retiredEpisodes { return Some(RetiredEpisode); }
      if activeEpisode == "" {
        StartEpisode(r.episode);
      } else if r.episode != activeEpisode {
        if !r.reset { return Some(EpisodeResetRequired); }
        retiredEpisodes := Cut(retiredEpisodes + [activeEpisode], retiredLimit);
        StartEpisode(r.episode);
      } else if r.reset {
        StartEpisode(r.episode);
      }
      if r.frame <= lastFrameId { return Some(StaleOrDuplicateFrame); }
      return None;
    }

    method ProcessRequest(c: Call) returns (o: Output)
      modifies this
      ensures (View(), o) == Process(Settings(), old(View()), c)
    {
      var r := c.request;
      var stop := GateRequest(c);
      if stop.Some? { return SafeStop(r.episode, r.frame, stop.value); }
      match c.inference {
        case Fails => return SafeStop(r.episode, r.frame, InferenceError);
        case Answers(output) =>
          if output.episode != r.episode || output.frame != r.frame {
            return SafeStop(r.episode, r.frame, AdapterResponseMismatch);
          }
          lastFrameId := r.frame;
          return output;
      }
    }
  }

  class LatestResponseGate {
    var episodeId: string
    var lastFrameId: int

    constructor ()
      ensures View() == ResponseGate("", -1)
    {
      episodeId, lastFrameId := "", -1;
    }

    function View(): ResponseGate
      reads this
    {
      ResponseGate(episodeId, lastFrameId)
    }

    method Reset(episode: string)
      modifies this
      ensures View() == ResponseGate(episode, -1)
    {
      episodeId, lastFrameId := episode, -1;
    }

    method Accept(o: Output) returns (accepted: bool)
      modifies this`lastFrameId
      ensures accepted == Accepts(old(View()), o) && View() == Deliver(old(View()), o)
    {
      if o.episode != episodeId || o.frame <= lastFrameId { return false; }
      lastFrameId := o.frame;
      return true;
    }
  }
}
