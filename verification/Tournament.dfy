/** The preregistered successive-halving tournament of scripts/analyze_t5_lane_a_candidates.py. */
module Tournament {
  import opened Wrappers
  import opened Sequences
  import opened Sorting

  // ---------- inputs ----------

  /** A decoded per-episode record of one candidate. */
  datatype EpisodeRecord = EpisodeRecord(key: string, success: bool, spl: real, ndtw: real, ne: real,
                                         commandAge: real, stuck: bool)
  {
    predicate InRange() {
      0.0 <= spl <= 1.0 && 0.0 <= ndtw <= 1.0 && ne >= 0.0 && commandAge >= 0.0
    }
  }

  /** A candidate's result file. `hashesMatch` stands for the comparison of its three digests with the
      registered ones. */
  datatype Payload = Payload(declared: string, predecessors: seq<string>, hashesMatch: bool,
                             records: seq<EpisodeRecord>)

  type Results = map<string, Payload>

  datatype Round = Round(id: string, count: nat, survivors: nat)

  /** `configMatches` stands for the comparison of the family's configuration digests. */
  datatype Family = Family(id: string, candidates: seq<string>, configMatches: bool)

  datatype Manifest = Manifest(families: seq<Family>, keys: seq<string>, episodeCount: int,
                               rounds: seq<Round>, codeMatches: bool)
  {
    /** Zero survivor counts are outside the model. */
    predicate Valid() { forall r :: r in rounds ==> r.survivors > 0 }
  }

  datatype Error =
    | BadFamilies | CodeChanged | UnregisteredCandidate | EpisodeCountDiffers | ConfigChanged
    | IdentityMismatch | ProvenanceMismatch | DuplicateRecord | MetricOutOfRange | DivisionByZero

  // ---------- aggregating a prefix of the episodes ----------

  datatype Metrics = Metrics(successes: nat, stuck: nat, spl: real, ndtw: real, ne: real, commandAge: real)

  datatype Aggregate = Missing(keys: seq<string>) | Have(metrics: Metrics)

  function Required(keys: seq<string>, count: nat): seq<string> {
    if count <= |keys| then keys[..count] else keys
  }

  /** The records by key, None when a key occurs twice. */
  function ByKey(records: seq<EpisodeRecord>): Option<map<string, EpisodeRecord>> {
    if records == [] then Some(map[])
    else
      var r := records[|records| - 1];
      match ByKey(records[..|records| - 1])
      case None => None
      case Some(m) => if r.key in m then None else Some(m[r.key := r])
  }

  function Absent(keys: seq<string>, m: map<string, EpisodeRecord>): (r: seq<string>)
    ensures r == [] <==> forall k :: k in keys ==> k in m
  {
    if keys == [] then []
    else (if keys[0] in m then [] else [keys[0]]) + Absent(keys[1..], m)
  }

  function Sum(rows: seq<EpisodeRecord>, f: EpisodeRecord -> real): real {
    if rows == [] then 0.0 else Sum(rows[..|rows| - 1], f) + f(rows[|rows| - 1])
  }

  function Count(rows: seq<EpisodeRecord>, p: EpisodeRecord -> bool): nat {
    if rows == [] then 0 else Count(rows[..|rows| - 1], p) + (if p(rows[|rows| - 1]) then 1 else 0)
  }

  function MetricsOf(rows: seq<EpisodeRecord>, count: nat): Metrics
    requires count > 0
  {
    Metrics(Count(rows, (r: EpisodeRecord) => r.success), Count(rows, (r: EpisodeRecord) => r.stuck),
            Sum(rows, (r: EpisodeRecord) => r.spl) / count as real,
            Sum(rows, (r: EpisodeRecord) => r.ndtw) / count as real,
            Sum(rows, (r: EpisodeRecord) => r.ne) / count as real,
            Sum(rows, (r: EpisodeRecord) => r.commandAge) / count as real)
  }

  /** The records of the required keys, in the order of the keys. */
  function RowsFor(keys: seq<string>, m: map<string, EpisodeRecord>): seq<EpisodeRecord>
    requires forall k :: k in keys ==> k in m
  {
    seq(|keys|, i requires 0 <= i < |keys| => m[keys[i]])
  }

  function AggregatePrefix(records: seq<EpisodeRecord>, keys: seq<string>, count: nat): Result<Aggregate, Error> {
    var byKey, required := ByKey(records), Required(keys, count);
    if byKey.None? then Raised(DuplicateRecord)
    else if Absent(required, byKey.value) != [] then Ok(Missing(Absent(required, byKey.value)))
    else
      var rows := RowsFor(required, byKey.value);
      if exists r :: r in rows && !r.InRange() then Raised(MetricOutOfRange)
      else if count == 0 then Raised(DivisionByZero)
      else Ok(Have(MetricsOf(rows, count)))
  }

  // ---------- what an aggregate measures ----------

  /** A sum adds up the values of all records. */
  lemma {:induction false} SumAdds(a: seq<EpisodeRecord>, b: seq<EpisodeRecord>, f: EpisodeRecord -> real)
    ensures Sum(a + b, f) == Sum(a, f) + Sum(b, f) && forall r :: Sum([r], f) == f(r)
  {
    forall r ensures Sum([r], f) == f(r) {
      assert [r][..0] == [];
    }
    if b == [] {
      assert a + b == a;
    } else {
      assert (a + b)[..|a + b| - 1] == a + b[..|b| - 1];
      SumAdds(a, b[..|b| - 1], f);
    }
  }

  lemma {:induction false} CountIsNumber(rows: seq<EpisodeRecord>, p: EpisodeRecord -> bool)
    ensures Count(rows, p) == |Where(rows, p)|
  {
    if rows != [] {
      CountIsNumber(rows[..|rows| - 1], p);
      OneMorePlace(rows, p);
    }
  }

  /** The records of the first `count` keys, in the order of the keys, all within range. */
  ghost predicate PrefixRows(records: seq<EpisodeRecord>, keys: seq<string>, count: nat, rows: seq<EpisodeRecord>) {
    && |rows| == (if count <= |keys| then count else |keys|)
    && forall i :: 0 <= i < |rows| ==>
         && rows[i] in records && rows[i].key == keys[i]
         && 0.0 <= rows[i].spl <= 1.0 && 0.0 <= rows[i].ndtw <= 1.0 && rows[i].ne >= 0.0 && rows[i].commandAge >= 0.0
  }

  /** The metrics count successful and stuck records, and each mean times `count` is the sum. */
  ghost predicate Measures(rows: seq<EpisodeRecord>, count: nat, m: Metrics) {
    && m.successes == |Where(rows, (r: EpisodeRecord) => r.success)|
    && m.stuck == |Where(rows, (r: EpisodeRecord) => r.stuck)|
    && m.spl * count as real == Sum(rows, (r: EpisodeRecord) => r.spl)
    && m.ndtw * count as real == Sum(rows, (r: EpisodeRecord) => r.ndtw)
    && m.ne * count as real == Sum(rows, (r: EpisodeRecord) => r.ne)
    && m.commandAge * count as real == Sum(rows, (r: EpisodeRecord) => r.commandAge)
  }

  lemma MeanTimesCount(sum: real, count: nat)
    requires count > 0
    ensures sum / count as real * count as real == sum
  {
  }

  lemma MetricsMeasure(rows: seq<EpisodeRecord>, count: nat)
    requires count > 0
    ensures Measures(rows, count, MetricsOf(rows, count))
  {
    hide Sum, Count;
    CountIsNumber(rows, (r: EpisodeRecord) => r.success);
    CountIsNumber(rows, (r: EpisodeRecord) => r.stuck);
    MeanTimesCount(Sum(rows, (r: EpisodeRecord) => r.spl), count);
    MeanTimesCount(Sum(rows, (r: EpisodeRecord) => r.ndtw), count);
    MeanTimesCount(Sum(rows, (r: EpisodeRecord) => r.ne), count);
    MeanTimesCount(Sum(rows, (r: EpisodeRecord) => r.commandAge), count);
  }

  /** Metrics are taken over the records of the prefix and nothing else. */
  lemma MetricsMeasureThePrefix(records: seq<EpisodeRecord>, keys: seq<string>, count: nat, m: Metrics)
    requires AggregatePrefix(records, keys, count) == Ok(Have(m))
    ensures count > 0 && exists rows :: PrefixRows(records, keys, count, rows) && Measures(rows, count, m)
  {
    hide Sum, Count, Measures, ByKey, DistinctBy;
    var byKey, required := ByKey(records).value, Required(keys, count);
    ByKeyExactly(records);
    var rows := RowsFor(required, byKey);
    forall i | 0 <= i < |rows| ensures rows[i] in records && rows[i].key == keys[i] && rows[i].InRange() {
      assert required[i] in required && required[i] == keys[i];
      KeyIsHeld(byKey, records, required[i]);
      assert rows[i] in rows;
    }
    MetricsMeasure(rows, count);
    assert PrefixRows(records, keys, count, rows) && Measures(rows, count, m);
  }

  lemma KeyIsHeld(m: map<string, EpisodeRecord>, records: seq<EpisodeRecord>, k: string)
    requires Holds(m, records) && k in m
    ensures m[k] in records && m[k].key == k
  {
    var r :| r in records && r.key == k;
  }

  /** When there are no metrics: a key with two records, a required key without one, a value out of range, or
      an empty prefix, in this order. The keys reported missing are the required ones without a record. */
  lemma AggregateExactly(records: seq<EpisodeRecord>, keys: seq<string>, count: nat)
    ensures var r, required := AggregatePrefix(records, keys, count), Required(keys, count);
            var twice := exists i, j :: 0 <= i < j < |records| && SameKey(records, i, j);
            var gap := exists k :: k in required && forall x :: x in records ==> x.key != k;
            var wild := exists x :: x in records && x.key in required && !x.InRange();
            && (r == Raised(DuplicateRecord) <==> twice)
            && (r.Ok? && r.value.Missing? <==> !twice && gap)
            && (r.Ok? && r.value.Missing? ==>
                  forall k :: k in r.value.keys <==> k in required && forall x :: x in records ==> x.key != k)
            && (r == Raised(MetricOutOfRange) <==> !twice && !gap && wild)
            && (r == Raised(DivisionByZero) <==> !twice && !gap && !wild && count == 0)
  {
    hide DistinctBy;
    var required := Required(keys, count);
    ByKeyExactly(records);
    DistinctKeysExactly(records);
    if ByKey(records).Some? {
      var m := ByKey(records).value;
      forall k ensures k in m <==> exists x :: x in records && x.key == k {
        KeysHeld(m, records, k);
      }
      AbsentExactly(required, m);
      if Absent(required, m) == [] {
        RowsExactly(required, m, records);
      }
    }
  }

  predicate SameKey(records: seq<EpisodeRecord>, i: nat, j: nat)
    requires i < |records| && j < |records|
  {
    records[i].key == records[j].key
  }

  lemma DistinctKeysExactly(records: seq<EpisodeRecord>)
    ensures DistinctBy(records, KeyOf()) <==> !exists i, j :: 0 <= i < j < |records| && SameKey(records, i, j)
  {
    if !exists i, j :: 0 <= i < j < |records| && SameKey(records, i, j) {
      forall i, j | 0 <= i < j < |records| ensures KeyOf()(records[i]) != KeyOf()(records[j]) {
        assert !SameKey(records, i, j);
      }
    }
    if DistinctBy(records, KeyOf()) {
      forall i, j | 0 <= i < j < |records| ensures !SameKey(records, i, j) {
        assert KeyOf()(records[i]) != KeyOf()(records[j]);
      }
    }
  }

  lemma {:induction false} AbsentExactly(keys: seq<string>, m: map<string, EpisodeRecord>)
    ensures forall k :: k in Absent(keys, m) <==> k in keys && k !in m
  {
    if keys != [] {
      AbsentExactly(keys[1..], m);
      assert keys == [keys[0]] + keys[1..];
    }
  }

  lemma RowsExactly(keys: seq<string>, m: map<string, EpisodeRecord>, records: seq<EpisodeRecord>)
    requires Holds(m, records) && forall k :: k in keys ==> k in m
    ensures forall x :: x in RowsFor(keys, m) <==> x in records && x.key in keys
  {
    var rows := RowsFor(keys, m);
    forall x ensures x in rows <==> x in records && x.key in keys {
      if x in rows {
        var i :| 0 <= i < |rows| && rows[i] == x;
        KeyIsHeld(m, records, keys[i]);
      }
      if x in records && x.key in keys {
        var i :| 0 <= i < |keys| && keys[i] == x.key;
        assert rows[i] == x;
      }
    }
  }

  // ---------- ranking ----------

  datatype Item = Item(id: string, metrics: Metrics)

  function RankNumbers(m: Metrics): seq<real> {
    [-(m.successes as real), m.stuck as real, -m.spl, -m.ndtw, m.ne, m.commandAge]
  }

  /** The comparison of two rank keys: the six numbers first, the candidate id last. */
  predicate RankLe(a: Item, b: Item) {
    var x, y := RankNumbers(a.metrics), RankNumbers(b.metrics);
    if x == y then LexLe(a.id, b.id, CharLess) else LexLe(x, y, RealLess)
  }

  lemma RankLeOrders(items: seq<Item>)
    ensures Orders(items, RankLe)
  {
    forall a, b | a in items && b in items
      ensures RankLe(a, b) || RankLe(b, a)
      ensures RankLe(a, b) && RankLe(b, a) ==> a == b
    {
      LexTotal(RankNumbers(a.metrics), RankNumbers(b.metrics), RealLess);
      LexTotal(a.id, b.id, CharLess);
      RankNumbersInjective(a.metrics, b.metrics);
    }
    forall a, b, c | a in items && b in items && c in items && RankLe(a, b) && RankLe(b, c) ensures RankLe(a, c) {
      RankLeTransitive(a, b, c);
    }
  }

  lemma RankNumbersInjective(m: Metrics, n: Metrics)
    ensures RankNumbers(m) == RankNumbers(n) ==> m == n
  {
    var x, y := RankNumbers(m), RankNumbers(n);
    if x == y {
      assert x[0] == y[0] && x[1] == y[1] && x[2] == y[2] && x[3] == y[3] && x[4] == y[4] && x[5] == y[5];
    }
  }

  lemma RankLeTransitive(a: Item, b: Item, c: Item)
    requires RankLe(a, b) && RankLe(b, c)
    ensures RankLe(a, c)
  {
    var x, y, z := RankNumbers(a.metrics), RankNumbers(b.metrics), RankNumbers(c.metrics);
    if x == y == z {
      LexTransitive(a.id, b.id, c.id, CharLess);
    } else if x != y && y != z {
      LexTransitive(x, y, z, RealLess);
      LexTotal(x, y, RealLess);
    }
  }

  /** What the ranking prefers: more successes, then fewer candidates stuck, a higher SPL, a higher nDTW, a lower
      navigation error, a lower command age, and finally the earlier id. */
  ghost predicate Beats(a: Item, b: Item) {
    var m, n := a.metrics, b.metrics;
    if m.successes != n.successes then m.successes > n.successes
    else if m.stuck != n.stuck then m.stuck < n.stuck
    else if m.spl != n.spl then m.spl > n.spl
    else if m.ndtw != n.ndtw then m.ndtw > n.ndtw
    else if m.ne != n.ne then m.ne < n.ne
    else if m.commandAge != n.commandAge then m.commandAge < n.commandAge
    else Precedes(a.id, b.id)
  }

  /** The comparison of rank keys is that preference. */
  lemma RankLeExactly(a: Item, b: Item)
    ensures RankLe(a, b) <==> a == b || Beats(a, b)
  {
    var x, y := RankNumbers(a.metrics), RankNumbers(b.metrics);
    RankNumbersInjective(a.metrics, b.metrics);
    StringsCompare(a.id, b.id);
    if x != y {
      assert x[0..] == x && y[0..] == y;
      LexPeel(x, y, 0, RealLess);
      LexPeel(x, y, 1, RealLess);
      LexPeel(x, y, 2, RealLess);
      LexPeel(x, y, 3, RealLess);
      LexPeel(x, y, 4, RealLess);
      LexPeel(x, y, 5, RealLess);
    }
  }

  // ---------- one round, one family, the whole tournament ----------

  datatype Evaluated = Evaluated(items: seq<Item>, missing: seq<(string, seq<string>)>)

  datatype RoundReport =
    | Waiting(active: seq<string>, items: seq<Item>, missing: seq<(string, seq<string>)>)
    | Ranked(active: seq<string>, ranking: seq<Item>, survivors: seq<string>)

  datatype FamilyOutcome = FamilyOutcome(complete: bool, winner: Option<Item>, rounds: seq<RoundReport>)

  datatype FamilyReport =
    | Blocked(expected: nat, observed: nat)
    | Played(outcome: FamilyOutcome)
  {
    /** Complete with a winner: what a later family needs. */
    predicate Produced() { Played? && outcome.complete && outcome.winner.Some? }
  }

  datatype Report = Report(families: seq<FamilyReport>, winners: seq<Item>)

  function IdOf(): Item -> string { (x: Item) => x.id }

  function Ids(items: seq<Item>): seq<string> {
    Map(items, IdOf())
  }

  function Evaluate(results: Results, keys: seq<string>, preds: seq<string>, count: nat, id: string)
    : Result<Aggregate, Error>
  {
    if id !in results then Ok(Missing(Required(keys, count)))
    else if results[id].declared != id then Raised(IdentityMismatch)
    else if results[id].predecessors != preds || !results[id].hashesMatch then Raised(ProvenanceMismatch)
    else AggregatePrefix(results[id].records, keys, count)
  }

  function EvaluateAll(results: Results, keys: seq<string>, preds: seq<string>, count: nat, active: seq<string>)
    : Result<Evaluated, Error>
  {
    if active == [] then Ok(Evaluated([], []))
    else
      var id := active[|active| - 1];
      match EvaluateAll(results, keys, preds, count, active[..|active| - 1])
      case Raised(e) => Raised(e)
      case Ok(before) =>
        match Evaluate(results, keys, preds, count, id)
        case Raised(e) => Raised(e)
        case Ok(Missing(k)) => Ok(before.(missing := before.missing + [(id, k)]))
        case Ok(Have(m)) => Ok(before.(items := before.items + [Item(id, m)]))
  }

  function Survivors(ranking: seq<Item>, n: nat): seq<string> {
    if n <= |ranking| then Ids(ranking[..n]) else Ids(ranking)
  }

  function PlayRound(results: Results, keys: seq<string>, preds: seq<string>, round: Round, active: seq<string>)
    : Result<RoundReport, Error>
  {
    match EvaluateAll(results, keys, preds, round.count, active)
    case Raised(e) => Raised(e)
    case Ok(all) =>
      if all.missing != [] then Ok(Waiting(active, all.items, all.missing))
      else
        var ranking := Sort(all.items, RankLe);
        Ok(Ranked(active, ranking, Survivors(ranking, round.survivors)))
  }

  /** The winner that a complete round names, if it covers all episodes. */
  function Named(keys: seq<string>, round: Round, r: RoundReport): Option<Item> {
    if r.Ranked? && round.count == |keys| && r.ranking != [] then Some(r.ranking[0]) else None
  }

  function PlayRounds(results: Results, keys: seq<string>, preds: seq<string>, rounds: seq<Round>, active: seq<string>)
    : Result<FamilyOutcome, Error>
  {
    if rounds == [] then Ok(FamilyOutcome(true, None, []))
    else
      match PlayRound(results, keys, preds, rounds[0], active)
      case Raised(e) => Raised(e)
      case Ok(r) =>
        if r.Waiting? then Ok(FamilyOutcome(false, None, [r]))
        else
          match PlayRounds(results, keys, preds, rounds[1..], r.survivors)
          case Raised(e) => Raised(e)
          case Ok(rest) =>
            Ok(FamilyOutcome(rest.complete, if rest.winner.Some? then rest.winner else Named(keys, rounds[0], r),
                             [r] + rest.rounds))
  }

  /** The families from number `index` on, given the winners of the earlier ones. */
  function PlayFamilies(m: Manifest, results: Results, index: nat, winners: seq<Item>): Result<Report, Error>
    requires index <= |m.families|
    decreases |m.families| - index
  {
    if index == |m.families| then Ok(Report([], winners))
    else if |winners| != index then
      match PlayFamilies(m, results, index + 1, winners)
      case Raised(e) => Raised(e)
      case Ok(rest) => Ok(rest.(families := [Blocked(index, |winners|)] + rest.families))
    else if !m.families[index].configMatches then Raised(ConfigChanged)
    else
      match PlayRounds(results, m.keys, Ids(winners), m.rounds, m.families[index].candidates)
      case Raised(e) => Raised(e)
      case Ok(outcome) =>
        var report := Played(outcome);
        match PlayFamilies(m, results, index + 1, if report.Produced() then winners + [outcome.winner.value] else winners)
        case Raised(e) => Raised(e)
        case Ok(rest) => Ok(rest.(families := [report] + rest.families))
  }

  ghost predicate GoodFamilies(families: seq<Family>) {
    && |families| == 3
    && (forall f :: f in families ==> |f.candidates| >= 2 && "" !in f.candidates)
    && Distinct(AllCandidates(families))
  }

  function AllCandidates(families: seq<Family>): seq<string> {
    if families == [] then [] else families[0].candidates + AllCandidates(families[1..])
  }

  ghost function TournamentSpec(m: Manifest, results: Results): Result<Report, Error> {
    if !GoodFamilies(m.families) then Raised(BadFamilies)
    else if !m.codeMatches then Raised(CodeChanged)
    else if !(forall id :: id in results ==> id in AllCandidates(m.families)) then Raised(UnregisteredCandidate)
    else if |m.keys| != m.episodeCount then Raised(EpisodeCountDiffers)
    else PlayFamilies(m, results, 0, [])
  }

  // ---------- what an analysis insists on ----------

  /** Registered ids, family by family: a list without repetitions has none within a family or across two. */
  lemma {:induction false} CandidatesExactly(families: seq<Family>)
    ensures forall id :: id in AllCandidates(families) <==> exists f :: f in families && id in f.candidates
    ensures Distinct(AllCandidates(families)) ==> forall i :: 0 <= i < |families| ==> Distinct(families[i].candidates)
    ensures Distinct(AllCandidates(families)) ==>
              forall i, j, id :: 0 <= i < j < |families| && id in families[i].candidates ==> id !in families[j].candidates
  {
    if families != [] {
      var first, rest := families[0].candidates, AllCandidates(families[1..]);
      CandidatesExactly(families[1..]);
      assert families == [families[0]] + families[1..];
      if Distinct(first + rest) {
        PrefixDistinct(first, rest);
        SuffixDistinct(first, rest);
        forall i, j, id | 0 <= i < j < |families| && id in families[i].candidates ensures id !in families[j].candidates {
          if i == 0 {
            assert families[j] in families[1..] && id in first;
            ApartFromSuffix(first, rest, id);
          } else {
            assert families[1..][i - 1] == families[i] && families[1..][j - 1] == families[j];
          }
        }
      }
    }
  }

  lemma SuffixDistinct(s: seq<string>, t: seq<string>)
    requires Distinct(s + t)
    ensures Distinct(t)
  {
    forall i, j | 0 <= i < j < |t| ensures t[i] != t[j] {
      assert (s + t)[|s| + i] == t[i] && (s + t)[|s| + j] == t[j];
    }
  }

  lemma ApartFromSuffix(s: seq<string>, t: seq<string>, x: string)
    requires Distinct(s + t) && x in s
    ensures x !in t
  {
    var i :| 0 <= i < |s| && s[i] == x;
    forall j | 0 <= j < |t| ensures t[j] != x {
      assert (s + t)[i] == x && (s + t)[|s| + j] == t[j];
    }
  }

  /** A report is given only if there are three families of at least two non-empty ids, no id anywhere twice, the
      code is the registered one, every result is of a registered candidate, the number of episodes is the
      declared one, and the configuration of every family played is the registered one. */
  lemma AnalysisChecksItsInputs(m: Manifest, results: Results)
    requires TournamentSpec(m, results).Ok?
    ensures m.codeMatches && |m.keys| == m.episodeCount && |m.families| == 3
    ensures forall f :: f in m.families ==> |f.candidates| >= 2 && "" !in f.candidates && Distinct(f.candidates)
    ensures forall i, j, id :: 0 <= i < j < 3 && id in m.families[i].candidates ==> id !in m.families[j].candidates
    ensures forall id :: id in results ==> exists f :: f in m.families && id in f.candidates
    ensures var r := TournamentSpec(m, results).value;
            |r.families| == 3 && forall i :: 0 <= i < 3 && r.families[i].Played? ==> m.families[i].configMatches
  {
    hide PlayFamilies, Distinct;
    CandidatesExactly(m.families);
    PlayedFamiliesMatch(m, results, 0, []);
    forall f | f in m.families ensures Distinct(f.candidates) {
      var i :| 0 <= i < |m.families| && m.families[i] == f;
    }
  }

  lemma {:induction false} PlayedFamiliesMatch(m: Manifest, results: Results, index: nat, winners: seq<Item>)
    requires index <= |m.families| && PlayFamilies(m, results, index, winners).Ok?
    ensures var r := PlayFamilies(m, results, index, winners).value;
            |r.families| == |m.families| - index
            && forall i :: 0 <= i < |r.families| && r.families[i].Played? ==> m.families[index + i].configMatches
    decreases |m.families| - index
  {
    hide PlayRounds;
    if index < |m.families| {
      var r := PlayFamilies(m, results, index, winners).value;
      var f := r.families[0];
      var winners' := if f.Produced() then winners + [f.outcome.winner.value] else winners;
      PlayedFamiliesMatch(m, results, index + 1, winners');
      var rest := PlayFamilies(m, results, index + 1, winners').value;
      forall i | 0 < i < |r.families| && r.families[i].Played? ensures m.families[index + i].configMatches {
        assert rest.families[i - 1] == r.families[i];
      }
    }
  }

  // ---------- chaining ----------

  /** What the i-th report must be: the families before |winners| produced them, the one at |winners| was
      played without success, the later ones are blocked. A played family is judged against exactly the
      winners before it. `index` is the family that the first report is about. */
  ghost predicate Link(m: Manifest, results: Results, index: nat, r: Report, i: nat)
    requires i < |r.families| <= |m.families| - index
  {
    var pos, f := index + i, r.families[i];
    if pos > |r.winners| then f == FamilyReport.Blocked(pos, |r.winners|)
    else
      && f.Played?
      && PlayRounds(results, m.keys, Ids(r.winners[..pos]), m.rounds, m.families[pos].candidates) == Ok(f.outcome)
      && (f.Produced() <==> pos < |r.winners|)
      && (pos < |r.winners| ==> f.outcome.winner == Some(r.winners[pos]))
  }

  ghost predicate Chained(m: Manifest, results: Results, index: nat, r: Report)
    requires index <= |m.families|
  {
    && |r.families| == |m.families| - index && |r.winners| <= |m.families|
    && forall i :: 0 <= i < |r.families| ==> Link(m, results, index, r, i)
  }

  lemma ChainedByOne(m: Manifest, results: Results, index: nat, first: FamilyReport, rest: Report)
    requires index < |m.families| && Chained(m, results, index + 1, rest)
    requires Link(m, results, index, rest.(families := [first] + rest.families), 0)
    ensures Chained(m, results, index, rest.(families := [first] + rest.families))
  {
    hide Ids, PlayRounds;
    var r := rest.(families := [first] + rest.families);
    forall i | 0 <= i < |r.families| ensures Link(m, results, index, r, i) {
      if i > 0 {
        assert Link(m, results, index + 1, rest, i - 1);
        assert r.families[i] == rest.families[i - 1];
      }
    }
  }

  lemma {:induction false} TooFewWinnersBlockTheRest(m: Manifest, results: Results, index: nat, winners: seq<Item>)
    requires |winners| < index <= |m.families|
    ensures var r := PlayFamilies(m, results, index, winners);
            r.Ok? && r.value.winners == winners && Chained(m, results, index, r.value)
    decreases |m.families| - index
  {
    if index < |m.families| {
      TooFewWinnersBlockTheRest(m, results, index + 1, winners);
      ChainedByOne(m, results, index, FamilyReport.Blocked(index, |winners|),
                   PlayFamilies(m, results, index + 1, winners).value);
    }
  }

  lemma {:induction false} FamiliesAreChained(m: Manifest, results: Results, index: nat, winners: seq<Item>)
    requires |winners| == index <= |m.families| && PlayFamilies(m, results, index, winners).Ok?
    ensures var r := PlayFamilies(m, results, index, winners).value;
            |r.winners| >= index && r.winners[..index] == winners && Chained(m, results, index, r)
    decreases |m.families| - index
  {
    hide Ids, PlayRounds;
    if index < |m.families| {
      var r := PlayFamilies(m, results, index, winners).value;
      var report := r.families[0];
      var longer := if report.Produced() then winners + [report.outcome.winner.value] else winners;
      var rest := PlayFamilies(m, results, index + 1, longer).value;
      if report.Produced() {
        FamiliesAreChained(m, results, index + 1, longer);
        assert longer[..index] == winners;
        assert r.winners[..index] == r.winners[..index + 1][..index];
        assert r.winners[index] == r.winners[..index + 1][index];
      } else {
        TooFewWinnersBlockTheRest(m, results, index + 1, winners);
        assert winners[..index] == winners;
      }
      ChainedByOne(m, results, index, report, rest);
    } else {
      assert winners[..index] == winners;
    }
  }

  /** A family is evaluated exactly when all earlier families produced winners, and then against exactly
      that tuple of winners; the first family without a winner blocks every later one. */
  lemma TournamentIsChained(m: Manifest, results: Results)
    requires TournamentSpec(m, results).Ok?
    ensures var r := TournamentSpec(m, results).value;
            && Chained(m, results, 0, r)
            && (forall i :: 0 <= i < |r.families| ==>
                  (r.families[i].Played? <==> forall j :: 0 <= j < i ==> r.families[j].Produced()))
  {
    hide Ids, PlayRounds;
    FamiliesAreChained(m, results, 0, []);
    var r := TournamentSpec(m, results).value;
    forall i | 0 <= i < |r.families|
      ensures r.families[i].Played? <==> forall j :: 0 <= j < i ==> r.families[j].Produced()
    {
      assert Link(m, results, 0, r, i);
      if i > |r.winners| {
        assert Link(m, results, 0, r, |r.winners|);
      }
      forall j | 0 <= j < i && i <= |r.winners| ensures r.families[j].Produced() {
        assert Link(m, results, 0, r, j);
      }
    }
  }

  // ---------- what a round ranks ----------

  function Verdict(results: Results, keys: seq<string>, preds: seq<string>, count: nat): string -> Result<Aggregate, Error> {
    id => Evaluate(results, keys, preds, count, id)
  }

  function ItemFrom(verdict: string -> Result<Aggregate, Error>): string --> Item {
    id requires verdict(id).Ok? && verdict(id).value.Have? => Item(id, verdict(id).value.metrics)
  }

  /** The items of candidates that all have their records. */
  ghost function ItemsOf(active: seq<string>, verdict: string -> Result<Aggregate, Error>): (items: seq<Item>)
    requires AllHave(active, verdict)
  {
    Map(active, ItemFrom(verdict))
  }

  ghost predicate AllHave(active: seq<string>, verdict: string -> Result<Aggregate, Error>) {
    forall id :: id in active ==> verdict(id).Ok? && verdict(id).value.Have?
  }

  ghost predicate NoneRaises(active: seq<string>, verdict: string -> Result<Aggregate, Error>) {
    forall id :: id in active ==> verdict(id).Ok?
  }

  /** A round raises, waits or ranks according to its active candidates taken one by one. */
  lemma {:induction false} EvaluateAllExactly(results: Results, keys: seq<string>, preds: seq<string>, count: nat,
                                              active: seq<string>)
    ensures var all, v := EvaluateAll(results, keys, preds, count, active), Verdict(results, keys, preds, count);
            && (all.Ok? <==> NoneRaises(active, v))
            && (all.Ok? ==> (all.value.missing == [] <==> AllHave(active, v)))
            && (AllHave(active, v) ==> all == Ok(Evaluated(ItemsOf(active, v), [])))
  {
    hide Evaluate, NoneRaises, AllHave, ItemsOf, EvaluateAll;
    var v := Verdict(results, keys, preds, count);
    if active == [] {
      NobodyEvaluated(results, keys, preds, count);
    } else {
      var rest, id := active[..|active| - 1], active[|active| - 1];
      EvaluateAllExactly(results, keys, preds, count, rest);
      assert active == rest + [id] && v(id) == Evaluate(results, keys, preds, count, id);
      OneMoreVerdict(rest, id, v);
      EvaluateAllSnoc(results, keys, preds, count, rest, id);
    }
  }

  lemma NobodyEvaluated(results: Results, keys: seq<string>, preds: seq<string>, count: nat)
    ensures var v := Verdict(results, keys, preds, count);
            EvaluateAll(results, keys, preds, count, []) == Ok(Evaluated([], [])) && NoneRaises([], v) && AllHave([], v)
            && ItemsOf([], v) == []
  {
  }

  lemma OneMoreVerdict(rest: seq<string>, id: string, verdict: string -> Result<Aggregate, Error>)
    ensures NoneRaises(rest + [id], verdict) <==> NoneRaises(rest, verdict) && verdict(id).Ok?
    ensures AllHave(rest + [id], verdict) <==> AllHave(rest, verdict) && verdict(id).Ok? && verdict(id).value.Have?
    ensures AllHave(rest + [id], verdict) ==>
              ItemsOf(rest + [id], verdict) == ItemsOf(rest, verdict) + [Item(id, verdict(id).value.metrics)]
    ensures AllHave(rest, verdict) ==> NoneRaises(rest, verdict)
  {
    assert id in rest + [id] && forall x :: x in rest ==> x in rest + [id];
  }

  lemma EvaluateAllSnoc(results: Results, keys: seq<string>, preds: seq<string>, count: nat, rest: seq<string>, id: string)
    ensures EvaluateAll(results, keys, preds, count, rest + [id]) ==
              (match EvaluateAll(results, keys, preds, count, rest)
               case Raised(e) => Raised(e)
               case Ok(before) =>
                 match Evaluate(results, keys, preds, count, id)
                 case Raised(e) => Raised(e)
                 case Ok(Missing(k)) => Ok(before.(missing := before.missing + [(id, k)]))
                 case Ok(Have(m)) => Ok(before.(items := before.items + [Item(id, m)])))
  {
    assert (rest + [id])[..|rest|] == rest;
  }

  /** A complete round ranks exactly its active candidates by their rank keys. */
  lemma RoundRanksTheActive(results: Results, keys: seq<string>, preds: seq<string>, round: Round, active: seq<string>)
    requires PlayRound(results, keys, preds, round, active).Ok?
    requires PlayRound(results, keys, preds, round, active).value.Ranked?
    ensures var r, v := PlayRound(results, keys, preds, round, active).value, Verdict(results, keys, preds, round.count);
            && AllHave(active, v) && multiset(r.ranking) == multiset(ItemsOf(active, v))
            && Sorted(r.ranking, RankLe) && multiset(Ids(r.ranking)) == multiset(active)
  {
    var v := Verdict(results, keys, preds, round.count);
    EvaluateAllExactly(results, keys, preds, round.count, active);
    var items := ItemsOf(active, v);
    RankLeOrders(items);
    SortSorts(items, RankLe);
    SortKeepsElements(items, RankLe);
    MapKeepsElements(Sort(items, RankLe), items, IdOf());
    assert Ids(items) == active;
  }

  /** In a complete round a candidate stands before another exactly as the metrics of the two demand. */
  lemma RankingFollowsMetrics(results: Results, keys: seq<string>, preds: seq<string>, round: Round, active: seq<string>,
                              i: nat, j: nat)
    requires PlayRound(results, keys, preds, round, active).Ok?
    requires PlayRound(results, keys, preds, round, active).value.Ranked?
    requires i < j < |PlayRound(results, keys, preds, round, active).value.ranking|
    ensures var ranking := PlayRound(results, keys, preds, round, active).value.ranking;
            && (ranking[i] == ranking[j] || Beats(ranking[i], ranking[j]))
            && Evaluate(results, keys, preds, round.count, ranking[i].id) == Ok(Have(ranking[i].metrics))
  {
    hide PlayRound, Beats, Evaluate;
    var r, v := PlayRound(results, keys, preds, round, active).value, Verdict(results, keys, preds, round.count);
    RoundRanksTheActive(results, keys, preds, round, active);
    RankLeExactly(r.ranking[i], r.ranking[j]);
    SameElements(r.ranking, ItemsOf(active, v));
    assert r.ranking[i] in r.ranking;
    var k :| 0 <= k < |active| && ItemsOf(active, v)[k] == r.ranking[i];
    assert v(active[k]) == Evaluate(results, keys, preds, round.count, active[k]);
  }

  /** Whatever result a round looks at was produced against exactly the given predecessors. */
  lemma JudgedResultsNameThePredecessors(results: Results, keys: seq<string>, preds: seq<string>, round: Round,
                                         active: seq<string>, id: string)
    requires PlayRound(results, keys, preds, round, active).Ok? && id in active && id in results
    ensures results[id].predecessors == preds && results[id].declared == id && results[id].hashesMatch
  {
    EvaluateAllExactly(results, keys, preds, round.count, active);
    assert Verdict(results, keys, preds, round.count)(id).Ok?;
  }

  // ---------- rounds of one family ----------

  /** The j-th report is what playing the j-th round with its active candidates gives. */
  ghost predicate Replays(results: Results, keys: seq<string>, preds: seq<string>, rounds: seq<Round>,
                          reports: seq<RoundReport>, j: nat)
    requires j < |reports| <= |rounds|
  {
    PlayRound(results, keys, preds, rounds[j], reports[j].active) == Ok(reports[j])
  }

  /** The j-th report was ranked, and the next round is about its survivors. */
  ghost predicate HandsOn(reports: seq<RoundReport>, j: nat)
    requires j + 1 < |reports|
  {
    reports[j].Ranked? && reports[j + 1].active == reports[j].survivors
  }

  /** The reports of a family follow its rounds: the first is about all candidates, each next one about the
      survivors of a ranked one; only the last can be waiting, and then the family is not complete. */
  ghost predicate Trail(results: Results, keys: seq<string>, preds: seq<string>, rounds: seq<Round>,
                        active: seq<string>, o: FamilyOutcome)
  {
    && |o.rounds| <= |rounds| && (o.rounds != [] ==> o.rounds[0].active == active)
    && (forall j :: 0 <= j < |o.rounds| ==> Replays(results, keys, preds, rounds, o.rounds, j))
    && (forall j :: 0 <= j < |o.rounds| - 1 ==> HandsOn(o.rounds, j))
    && (o.complete <==> |o.rounds| == |rounds| && (rounds != [] ==> o.rounds[|rounds| - 1].Ranked?))
  }

  lemma TrailByOne(results: Results, keys: seq<string>, preds: seq<string>, rounds: seq<Round>, active: seq<string>,
                   r: RoundReport, rest: FamilyOutcome, winner: Option<Item>)
    requires rounds != [] && PlayRound(results, keys, preds, rounds[0], active) == Ok(r) && r.Ranked?
    requires r.active == active && Trail(results, keys, preds, rounds[1..], r.survivors, rest)
    ensures Trail(results, keys, preds, rounds, active, FamilyOutcome(rest.complete, winner, [r] + rest.rounds))
  {
    hide PlayRound;
    var all, n := [r] + rest.rounds, |rounds|;
    forall j | 0 <= j < |all| ensures Replays(results, keys, preds, rounds, all, j) {
      if j > 0 {
        assert Replays(results, keys, preds, rounds[1..], rest.rounds, j - 1);
      }
    }
    forall j | 0 <= j < |all| - 1 ensures HandsOn(all, j) {
      if j > 0 {
        assert HandsOn(rest.rounds, j - 1);
      }
    }
    assert |all| == n && n > 1 ==> all[n - 1] == rest.rounds[n - 2];
  }

  lemma {:induction false} FamilyFollowsItsRounds(results: Results, keys: seq<string>, preds: seq<string>,
                                                  rounds: seq<Round>, active: seq<string>)
    requires PlayRounds(results, keys, preds, rounds, active).Ok?
    ensures Trail(results, keys, preds, rounds, active, PlayRounds(results, keys, preds, rounds, active).value)
  {
    hide PlayRound;
    if rounds != [] {
      var r := PlayRound(results, keys, preds, rounds[0], active).value;
      var o := PlayRounds(results, keys, preds, rounds, active).value;
      PlayRoundKeepsActive(results, keys, preds, rounds[0], active);
      if r.Ranked? {
        hide Trail;
        FamilyFollowsItsRounds(results, keys, preds, rounds[1..], r.survivors);
        TrailByOne(results, keys, preds, rounds, active, r,
                   PlayRounds(results, keys, preds, rounds[1..], r.survivors).value, o.winner);
      }
    }
  }

  lemma PlayRoundKeepsActive(results: Results, keys: seq<string>, preds: seq<string>, round: Round, active: seq<string>)
    ensures var r := PlayRound(results, keys, preds, round, active);
            r.Ok? ==> r.value.active == active &&
                      (r.value.Ranked? ==> r.value.survivors == Survivors(r.value.ranking, round.survivors))
  {
  }

  /** Survivors are the best ranked of the active candidates, so active sets shrink from round to round. */
  lemma SurvivorsAreNested(results: Results, keys: seq<string>, preds: seq<string>, round: Round, active: seq<string>)
    requires PlayRound(results, keys, preds, round, active).Ok?
    requires PlayRound(results, keys, preds, round, active).value.Ranked?
    ensures var r := PlayRound(results, keys, preds, round, active).value;
            && (forall id :: id in r.survivors ==> id in active)
            && |r.survivors| == (if round.survivors <= |active| then round.survivors else |active|)
            && (forall i, j :: 0 <= i < |r.survivors| <= j < |r.ranking| ==>
                  r.ranking[i].id == r.survivors[i] && RankLe(r.ranking[i], r.ranking[j]))
  {
    hide PlayRound, RankLe, AllHave, ItemsOf, Ids, Survivors;
    var r := PlayRound(results, keys, preds, round, active).value;
    RoundRanksTheActive(results, keys, preds, round, active);
    PlayRoundKeepsActive(results, keys, preds, round, active);
    SameElements(Ids(r.ranking), active);
    SurvivorsLead(r.ranking, round.survivors);
    forall id | id in r.survivors ensures id in active {
      assert id in Ids(r.ranking);
    }
  }

  /** Survivors are the ids of the first `n` of a ranking. */
  lemma SurvivorsLead(ranking: seq<Item>, n: nat)
    ensures var s := Survivors(ranking, n);
            && |Ids(ranking)| == |ranking| && |s| == (if n <= |ranking| then n else |ranking|)
            && (forall i :: 0 <= i < |s| ==> s[i] == Ids(ranking)[i] && s[i] == ranking[i].id)
            && (forall id :: id in s ==> id in Ids(ranking))
  {
  }

  predicate Decides(keys: seq<string>, round: Round, r: RoundReport) {
    r.Ranked? && r.ranking != [] && round.count == |keys|
  }

  /** Round `j` ranked its candidates over all episodes, and no later round did. */
  ghost predicate DecidingRound(keys: seq<string>, rounds: seq<Round>, o: FamilyOutcome, j: nat)
    requires |o.rounds| <= |rounds|
  {
    && j < |o.rounds| && Decides(keys, rounds[j], o.rounds[j])
    && forall k :: j < k < |o.rounds| ==> !Decides(keys, rounds[k], o.rounds[k])
  }

  lemma {:induction false} WinnerIsNamedLast(results: Results, keys: seq<string>, preds: seq<string>,
                                             rounds: seq<Round>, active: seq<string>)
    returns (j: nat)
    requires PlayRounds(results, keys, preds, rounds, active).Ok?
    ensures var o := PlayRounds(results, keys, preds, rounds, active).value;
            && |o.rounds| <= |rounds|
            && (o.winner.Some? ==> DecidingRound(keys, rounds, o, j) && o.winner == Named(keys, rounds[j], o.rounds[j]))
            && (o.winner.None? ==> forall k :: 0 <= k < |o.rounds| ==> Named(keys, rounds[k], o.rounds[k]).None?)
  {
    hide PlayRound;
    j := 0;
    if rounds != [] {
      var r := PlayRound(results, keys, preds, rounds[0], active).value;
      if r.Ranked? {
        var k := WinnerIsNamedLast(results, keys, preds, rounds[1..], r.survivors);
        var o := PlayRounds(results, keys, preds, rounds, active).value;
        var rest := PlayRounds(results, keys, preds, rounds[1..], r.survivors).value;
        assert forall i :: 1 <= i < |o.rounds| ==> o.rounds[i] == rest.rounds[i - 1] && rounds[i] == rounds[1..][i - 1];
        j := if rest.winner.Some? then k + 1 else 0;
      }
    }
  }

  /** Round `j` decided the family, over all episodes, and the winner beats every other candidate active in it. */
  ghost predicate BestOfRound(results: Results, keys: seq<string>, preds: seq<string>, rounds: seq<Round>,
                              o: FamilyOutcome, j: nat)
    requires |o.rounds| <= |rounds|
  {
    var v := Verdict(results, keys, preds, |keys|);
    && DecidingRound(keys, rounds, o, j) && rounds[j].count == |keys|
    && AllHave(o.rounds[j].active, v) && o.winner.Some? && o.winner.value in ItemsOf(o.rounds[j].active, v)
    && forall x :: x in ItemsOf(o.rounds[j].active, v) ==> x == o.winner.value || Beats(o.winner.value, x)
  }

  /** A family's winner beats every other candidate that was active in the last round over all episodes. */
  lemma WinnerHasLeastRankKey(results: Results, keys: seq<string>, preds: seq<string>, rounds: seq<Round>,
                              active: seq<string>)
    requires PlayRounds(results, keys, preds, rounds, active).Ok?
    requires PlayRounds(results, keys, preds, rounds, active).value.winner.Some?
    ensures var o := PlayRounds(results, keys, preds, rounds, active).value;
            |o.rounds| <= |rounds| && exists j :: BestOfRound(results, keys, preds, rounds, o, j)
  {
    hide PlayRound, PlayRounds, Trail;
    var o := PlayRounds(results, keys, preds, rounds, active).value;
    var j := WinnerIsNamedLast(results, keys, preds, rounds, active);
    FamilyFollowsItsRounds(results, keys, preds, rounds, active);
    TrailReplays(results, keys, preds, rounds, active, o, j);
    RoundRanksTheActive(results, keys, preds, rounds[j], o.rounds[j].active);
    var v := Verdict(results, keys, preds, |keys|);
    FirstIsLeast(o.rounds[j].ranking, ItemsOf(o.rounds[j].active, v));
    forall x { RankLeExactly(o.winner.value, x); }
    assert BestOfRound(results, keys, preds, rounds, o, j);
  }

  lemma TrailReplays(results: Results, keys: seq<string>, preds: seq<string>, rounds: seq<Round>,
                     active: seq<string>, o: FamilyOutcome, j: nat)
    requires Trail(results, keys, preds, rounds, active, o) && j < |o.rounds|
    ensures |o.rounds| <= |rounds| && PlayRound(results, keys, preds, rounds[j], o.rounds[j].active) == Ok(o.rounds[j])
  {
    hide PlayRound;
    assert Replays(results, keys, preds, rounds, o.rounds, j);
  }

  /** The first of a ranking is one of the ranked items, and none of them ranks before it. */
  lemma FirstIsLeast(ranking: seq<Item>, items: seq<Item>)
    requires multiset(ranking) == multiset(items) && Sorted(ranking, RankLe) && ranking != []
    ensures ranking[0] in items && forall x :: x in items ==> RankLe(ranking[0], x)
  {
    SameElements(ranking, items);
    SameElements(items, ranking);
    RankLeOrders(ranking);
    forall x | x in items ensures RankLe(ranking[0], x) {
      var i :| 0 <= i < |ranking| && ranking[i] == x;
      assert ranking[0] in ranking && ranking[i] in ranking;
    }
  }

  // ---------- the order of the candidate list does not matter ----------

  ghost predicate SameMembers<T(!new)>(a: seq<T>, b: seq<T>) { forall x :: x in a <==> x in b }

  /** The same report but for the order in which active candidates were gone through: one ranking, or the
      same candidates evaluated and the same gaps. */
  ghost predicate SameRound(a: RoundReport, b: RoundReport) {
    && multiset(a.active) == multiset(b.active)
    && (if a.Ranked? then b.Ranked? && a.ranking == b.ranking && a.survivors == b.survivors
        else b.Waiting? && SameMembers(a.items, b.items) && SameMembers(a.missing, b.missing))
  }

  /** Every active candidate is reported: its metrics or the keys it lacks. */
  ghost predicate ReportsEach(all: Evaluated, active: seq<string>, verdict: string -> Result<Aggregate, Error>) {
    && (forall x :: x in all.items <==> x.id in active && verdict(x.id) == Ok(Have(x.metrics)))
    && (forall x :: x in all.missing <==> x.0 in active && verdict(x.0) == Ok(Missing(x.1)))
  }

  lemma {:induction false} EvaluatedMembers(results: Results, keys: seq<string>, preds: seq<string>, count: nat,
                                            active: seq<string>)
    requires EvaluateAll(results, keys, preds, count, active).Ok?
    ensures ReportsEach(EvaluateAll(results, keys, preds, count, active).value, active, Verdict(results, keys, preds, count))
  {
    hide Evaluate, EvaluateAll, ReportsEach;
    var v := Verdict(results, keys, preds, count);
    if active == [] {
      NobodyEvaluated(results, keys, preds, count);
      NobodyReported(v);
    } else {
      var rest, id := active[..|active| - 1], active[|active| - 1];
      assert active == rest + [id] && v(id) == Evaluate(results, keys, preds, count, id);
      EvaluateAllSnoc(results, keys, preds, count, rest, id);
      EvaluatedMembers(results, keys, preds, count, rest);
      OneMoreReported(EvaluateAll(results, keys, preds, count, rest).value, rest, id, v);
    }
  }

  lemma NobodyReported(verdict: string -> Result<Aggregate, Error>)
    ensures ReportsEach(Evaluated([], []), [], verdict)
  {
  }

  lemma OneMoreReported(before: Evaluated, rest: seq<string>, id: string, verdict: string -> Result<Aggregate, Error>)
    requires ReportsEach(before, rest, verdict) && verdict(id).Ok?
    ensures match verdict(id).value
            case Missing(k) => ReportsEach(before.(missing := before.missing + [(id, k)]), rest + [id], verdict)
            case Have(m) => ReportsEach(before.(items := before.items + [Item(id, m)]), rest + [id], verdict)
  {
    assert forall x :: x in rest + [id] <==> x in rest || x == id;
  }

  /** Every gap of a waiting round is of an active candidate: all keys of the prefix if it has no result, and
      otherwise those without a record. */
  lemma GapsExactly(results: Results, keys: seq<string>, preds: seq<string>, round: Round, active: seq<string>,
                    gap: (string, seq<string>))
    requires PlayRound(results, keys, preds, round, active).Ok?
    requires PlayRound(results, keys, preds, round, active).value.Waiting?
    requires gap in PlayRound(results, keys, preds, round, active).value.missing
    ensures gap.0 in active
    ensures gap.0 !in results ==> gap.1 == (if round.count <= |keys| then keys[..round.count] else keys)
    ensures gap.0 in results ==>
              AggregatePrefix(results[gap.0].records, keys, round.count) == Ok(Missing(gap.1))
              && forall k :: k in gap.1 <==>
                   k in Required(keys, round.count) && forall x :: x in results[gap.0].records ==> x.key != k
  {
    EvaluatedMembers(results, keys, preds, round.count, active);
    assert Verdict(results, keys, preds, round.count)(gap.0) == Evaluate(results, keys, preds, round.count, gap.0);
    if gap.0 in results {
      AggregateExactly(results[gap.0].records, keys, round.count);
    }
  }

  lemma RoundIgnoresOrder(results: Results, keys: seq<string>, preds: seq<string>, round: Round,
                          active: seq<string>, other: seq<string>)
    requires multiset(active) == multiset(other)
    ensures var a, b := PlayRound(results, keys, preds, round, active), PlayRound(results, keys, preds, round, other);
            (a.Ok? <==> b.Ok?) && (a.Ok? ==> SameRound(a.value, b.value))
  {
    hide Evaluate, EvaluateAll;
    var v := Verdict(results, keys, preds, round.count);
    EvaluateAllExactly(results, keys, preds, round.count, active);
    EvaluateAllExactly(results, keys, preds, round.count, other);
    SameElements(active, other);
    SameElements(other, active);
    if NoneRaises(active, v) {
      EvaluatedMembers(results, keys, preds, round.count, active);
      EvaluatedMembers(results, keys, preds, round.count, other);
    }
    if AllHave(active, v) {
      MapKeepsElements(active, other, ItemFrom(v));
      RankLeOrders(ItemsOf(active, v));
      SortIgnoresOrder(ItemsOf(active, v), ItemsOf(other, v), RankLe);
    }
  }

  ghost predicate SameOutcome(a: FamilyOutcome, b: FamilyOutcome) {
    && a.complete == b.complete && a.winner == b.winner && |a.rounds| == |b.rounds|
    && forall j :: 0 <= j < |a.rounds| ==> SameRound(a.rounds[j], b.rounds[j])
  }

  lemma {:induction false} FamilyIgnoresOrder(results: Results, keys: seq<string>, preds: seq<string>, rounds: seq<Round>,
                                              active: seq<string>, other: seq<string>)
    requires multiset(active) == multiset(other)
    ensures var a, b := PlayRounds(results, keys, preds, rounds, active), PlayRounds(results, keys, preds, rounds, other);
            (a.Ok? <==> b.Ok?) && (a.Ok? ==> SameOutcome(a.value, b.value))
  {
    hide PlayRound;
    if rounds != [] {
      RoundIgnoresOrder(results, keys, preds, rounds[0], active, other);
      var a, b := PlayRound(results, keys, preds, rounds[0], active), PlayRound(results, keys, preds, rounds[0], other);
      if a.Ok? && a.value.Ranked? {
        FamilyIgnoresOrder(results, keys, preds, rounds[1..], a.value.survivors, b.value.survivors);
      }
    }
  }

  /** The same families, each with its candidates listed in some other order. */
  ghost predicate Relisted(m: Manifest, n: Manifest) {
    && n == m.(families := n.families) && |m.families| == |n.families|
    && forall i :: 0 <= i < |m.families| ==>
         n.families[i] == m.families[i].(candidates := n.families[i].candidates)
         && multiset(n.families[i].candidates) == multiset(m.families[i].candidates)
  }

  /** Blocked alike, or played to the same rankings and the same winner. */
  ghost predicate SameFamily(a: FamilyReport, b: FamilyReport) {
    match a
    case Blocked(_, _) => b == a
    case Played(o) => b.Played? && SameOutcome(o, b.outcome)
  }

  ghost predicate SameReport(a: Report, b: Report) {
    && a.winners == b.winners && |a.families| == |b.families|
    && forall i :: 0 <= i < |a.families| ==> SameFamily(a.families[i], b.families[i])
  }

  lemma SameReportByOne(f: FamilyReport, g: FamilyReport, a: Report, b: Report)
    requires SameFamily(f, g) && SameReport(a, b)
    ensures SameReport(a.(families := [f] + a.families), b.(families := [g] + b.families))
  {
    hide SameFamily;
  }

  lemma {:induction false} RelistedPlaysTheSame(m: Manifest, n: Manifest, results: Results, index: nat, winners: seq<Item>)
    requires Relisted(m, n) && index <= |m.families|
    ensures var a, b := PlayFamilies(m, results, index, winners), PlayFamilies(n, results, index, winners);
            (a.Ok? <==> b.Ok?) && (a.Ok? ==> SameReport(a.value, b.value))
    decreases |m.families| - index
  {
    hide PlayRounds, SameOutcome, SameReport;
    if index == |m.families| {
      EmptyReportsAreSame(winners);
    } else if |winners| != index {
      RelistedPlaysTheSame(m, n, results, index + 1, winners);
      var a, b := PlayFamilies(m, results, index + 1, winners), PlayFamilies(n, results, index + 1, winners);
      if a.Ok? {
        SameReportByOne(Blocked(index, |winners|), Blocked(index, |winners|), a.value, b.value);
      }
    } else {
      var f, g := m.families[index], n.families[index];
      assert g == f.(candidates := g.candidates) && multiset(g.candidates) == multiset(f.candidates);
      FamilyIgnoresOrder(results, m.keys, Ids(winners), m.rounds, f.candidates, g.candidates);
      var x := PlayRounds(results, m.keys, Ids(winners), m.rounds, f.candidates);
      var y := PlayRounds(results, m.keys, Ids(winners), m.rounds, g.candidates);
      if x.Ok? {
        SameOutcomesProduceTheSame(x.value, y.value);
        var winners' := if Played(x.value).Produced() then winners + [x.value.winner.value] else winners;
        RelistedPlaysTheSame(m, n, results, index + 1, winners');
        var a, b := PlayFamilies(m, results, index + 1, winners'), PlayFamilies(n, results, index + 1, winners');
        if a.Ok? {
          SameReportByOne(Played(x.value), Played(y.value), a.value, b.value);
        }
      }
    }
  }

  lemma EmptyReportsAreSame(winners: seq<Item>)
    ensures SameReport(Report([], winners), Report([], winners))
  {
  }

  lemma SameOutcomesProduceTheSame(a: FamilyOutcome, b: FamilyOutcome)
    requires SameOutcome(a, b)
    ensures Played(a).Produced() == Played(b).Produced() && a.winner == b.winner
  {
  }

  lemma {:induction false} RelistedCandidates(a: seq<Family>, b: seq<Family>)
    requires |a| == |b|
    requires forall i :: 0 <= i < |a| ==> multiset(a[i].candidates) == multiset(b[i].candidates)
    ensures multiset(AllCandidates(a)) == multiset(AllCandidates(b))
  {
    if a != [] {
      RelistedCandidates(a[1..], b[1..]);
    }
  }

  lemma RelistedIsGoodToo(m: Manifest, n: Manifest)
    requires Relisted(m, n) && GoodFamilies(m.families)
    ensures GoodFamilies(n.families) && Elements(AllCandidates(n.families)) == Elements(AllCandidates(m.families))
  {
    RelistedCandidates(m.families, n.families);
    SameElements(AllCandidates(n.families), AllCandidates(m.families));
    SameElements(AllCandidates(m.families), AllCandidates(n.families));
    forall f | f in n.families ensures |f.candidates| >= 2 && "" !in f.candidates {
      var i :| 0 <= i < |n.families| && n.families[i] == f;
      assert m.families[i] in m.families;
      SameElements(f.candidates, m.families[i].candidates);
    }
  }

  /** Success, winners, every family's verdict and every ranking are independent of the order in which
      candidate ids are listed. */
  lemma TournamentIgnoresListing(m: Manifest, n: Manifest, results: Results)
    requires Relisted(m, n) && TournamentSpec(m, results).Ok?
    ensures TournamentSpec(n, results).Ok?
    ensures SameReport(TournamentSpec(m, results).value, TournamentSpec(n, results).value)
  {
    hide PlayFamilies, GoodFamilies, SameReport;
    RelistedIsGoodToo(m, n);
    forall id | id in results ensures id in AllCandidates(n.families) {
      assert id in Elements(AllCandidates(m.families));
    }
    RelistedPlaysTheSame(m, n, results, 0, []);
  }

  // ---------- records outside the prefix do not matter ----------

  /** More records for the same candidate, under keys that it has no record for yet. */
  ghost predicate FreshRecords(records: seq<EpisodeRecord>, extra: seq<EpisodeRecord>) {
    && (forall r, x :: r in records && x in extra ==> r.key != x.key)
    && (forall i, j :: 0 <= i < j < |extra| ==> extra[i].key != extra[j].key)
  }

  ghost predicate Outside(extra: seq<EpisodeRecord>, keys: seq<string>) {
    forall x :: x in extra ==> x.key !in keys
  }

  /** `more` has the old records and the extra ones, in any order. */
  ghost predicate AddsFresh(records: seq<EpisodeRecord>, extra: seq<EpisodeRecord>, more: seq<EpisodeRecord>) {
    FreshRecords(records, extra) && multiset(more) == multiset(records + extra)
  }

  function KeyOf(): EpisodeRecord -> string { (r: EpisodeRecord) => r.key }

  /** The dictionary has exactly the records. */
  ghost predicate Holds(m: map<string, EpisodeRecord>, records: seq<EpisodeRecord>) {
    && (forall k :: k in m ==> exists r :: r in records && r.key == k)
    && (forall r :: r in records ==> r.key in m && m[r.key] == r)
  }

  lemma HoldsSnoc(m: map<string, EpisodeRecord>, records: seq<EpisodeRecord>, r: EpisodeRecord)
    requires Holds(m, records) && r.key !in m
    ensures Holds(m[r.key := r], records + [r])
  {
    var all := records + [r];
    assert r in all;
    forall k | k in m ensures exists x :: x in all && x.key == k {
      var x :| x in records && x.key == k;
      assert x in all;
    }
  }

  lemma ByKeySnoc(records: seq<EpisodeRecord>, r: EpisodeRecord)
    ensures ByKey(records + [r]) == (match ByKey(records)
                                     case None => None
                                     case Some(m) => if r.key in m then None else Some(m[r.key := r]))
  {
    assert (records + [r])[..|records|] == records;
  }

  lemma DistinctKeysSnoc(records: seq<EpisodeRecord>, r: EpisodeRecord)
    ensures DistinctBy(records + [r], KeyOf()) <==> DistinctBy(records, KeyOf()) && forall x :: x in records ==> x.key != r.key
  {
    var all, key := records + [r], KeyOf();
    if DistinctBy(all, key) {
      forall i, j | 0 <= i < j < |records| ensures key(records[i]) != key(records[j]) {
        assert key(all[i]) != key(all[j]);
      }
      forall x | x in records ensures x.key != r.key {
        var i :| 0 <= i < |records| && records[i] == x;
        assert key(all[i]) != key(all[|records|]);
      }
    }
  }

  /** The dictionary exists unless a key occurs twice. */
  lemma {:induction false} ByKeyExactly(records: seq<EpisodeRecord>)
    ensures ByKey(records).Some? <==> DistinctBy(records, KeyOf())
    ensures ByKey(records).Some? ==> Holds(ByKey(records).value, records)
  {
    if records != [] {
      hide ByKey, DistinctBy, Holds;
      var rest, r := records[..|records| - 1], records[|records| - 1];
      assert records == rest + [r];
      ByKeyExactly(rest);
      ByKeySnoc(rest, r);
      DistinctKeysSnoc(rest, r);
      if ByKey(rest).Some? {
        KeysHeld(ByKey(rest).value, rest, r.key);
        if r.key !in ByKey(rest).value {
          HoldsSnoc(ByKey(rest).value, rest, r);
        }
      }
    }
  }

  lemma KeysHeld(m: map<string, EpisodeRecord>, records: seq<EpisodeRecord>, k: string)
    requires Holds(m, records)
    ensures k in m <==> exists r :: r in records && r.key == k
  {
  }

  /** The order of the records plays no part. */
  lemma ByKeyIgnoresOrder(records: seq<EpisodeRecord>, other: seq<EpisodeRecord>)
    requires multiset(records) == multiset(other)
    ensures ByKey(records) == ByKey(other)
  {
    hide ByKey;
    ByKeyExactly(records);
    ByKeyExactly(other);
    SameElements(records, other);
    SameElements(other, records);
    if DistinctBy(records, KeyOf()) {
      DistinctIgnoresOrder(records, other, KeyOf());
    }
    if DistinctBy(other, KeyOf()) {
      DistinctIgnoresOrder(other, records, KeyOf());
    }
    if ByKey(records).Some? {
      var m, n := ByKey(records).value, ByKey(other).value;
      forall k | k in m ensures m[k] == n[k] {
        var r :| r in records && r.key == k;
      }
      assert m == n;
    }
  }

  /** `n` has the records of `m` for every key that none of the extra records has. */
  ghost predicate SameOutside(m: Option<map<string, EpisodeRecord>>, n: Option<map<string, EpisodeRecord>>,
                              extra: seq<EpisodeRecord>)
  {
    && (m.Some? <==> n.Some?)
    && (m.Some? ==> forall k :: (forall x :: x in extra ==> x.key != k) ==>
          (k in m.value <==> k in n.value) && (k in m.value ==> m.value[k] == n.value[k]))
  }

  lemma FreshStaysDistinct(records: seq<EpisodeRecord>, extra: seq<EpisodeRecord>)
    requires FreshRecords(records, extra)
    ensures DistinctBy(records + extra, KeyOf()) <==> DistinctBy(records, KeyOf())
  {
    var all, key := records + extra, KeyOf();
    if DistinctBy(records, key) {
      forall i, j | 0 <= i < j < |all| ensures key(all[i]) != key(all[j]) {
        if j < |records| {
          assert key(records[i]) != key(records[j]);
        } else if i < |records| {
          assert records[i] in records && extra[j - |records|] in extra;
        } else {
          assert extra[i - |records|].key != extra[j - |records|].key;
        }
      }
    }
    if DistinctBy(all, key) {
      forall i, j | 0 <= i < j < |records| ensures key(records[i]) != key(records[j]) {
        assert key(all[i]) != key(all[j]);
      }
    }
  }

  lemma AddedRecordsKeepTheOld(records: seq<EpisodeRecord>, extra: seq<EpisodeRecord>, more: seq<EpisodeRecord>)
    requires AddsFresh(records, extra, more)
    ensures SameOutside(ByKey(records), ByKey(more), extra)
  {
    hide ByKey, FreshRecords, DistinctBy;
    ByKeyIgnoresOrder(more, records + extra);
    ByKeyExactly(records);
    ByKeyExactly(records + extra);
    FreshStaysDistinct(records, extra);
  }

  lemma {:induction false} AbsentDependsOnMembership(keys: seq<string>, m: map<string, EpisodeRecord>, n: map<string, EpisodeRecord>)
    requires forall k :: k in keys ==> (k in m <==> k in n)
    ensures Absent(keys, m) == Absent(keys, n)
  {
    if keys != [] {
      assert keys[0] in keys;
      AbsentDependsOnMembership(keys[1..], m, n);
    }
  }

  /** A round over `count` episodes reads only the records of the first `count` keys, and not their order. */
  lemma AggregateReadsOnlyThePrefix(records: seq<EpisodeRecord>, extra: seq<EpisodeRecord>, more: seq<EpisodeRecord>,
                                    keys: seq<string>, count: nat)
    requires AddsFresh(records, extra, more) && Outside(extra, Required(keys, count))
    ensures AggregatePrefix(more, keys, count) == AggregatePrefix(records, keys, count)
  {
    AddedRecordsKeepTheOld(records, extra, more);
    var required, m, n := Required(keys, count), ByKey(records), ByKey(more);
    if m.Some? {
      forall k | k in required ensures (k in m.value <==> k in n.value) && (k in m.value ==> m.value[k] == n.value[k]) {
        assert forall x :: x in extra ==> x.key != k;
      }
      AbsentDependsOnMembership(required, m.value, n.value);
      if Absent(required, m.value) == [] {
        assert RowsFor(required, m.value) == RowsFor(required, n.value);
      }
    }
  }

  /** The results with other records for one candidate. */
  function WithMore(results: Results, id: string, more: seq<EpisodeRecord>): Results
    requires id in results
  {
    results[id := results[id].(records := more)]
  }

  lemma {:induction false} RoundReadsOnlyThePrefix(results: Results, e: string, extra: seq<EpisodeRecord>,
                                                   more: seq<EpisodeRecord>, keys: seq<string>, preds: seq<string>,
                                                   count: nat, active: seq<string>)
    requires e in results && AddsFresh(results[e].records, extra, more)
    requires e in active ==> Outside(extra, Required(keys, count))
    ensures EvaluateAll(WithMore(results, e, more), keys, preds, count, active)
              == EvaluateAll(results, keys, preds, count, active)
  {
    hide AggregatePrefix;
    if active != [] {
      var rest, id := active[..|active| - 1], active[|active| - 1];
      assert active == rest + [id];
      RoundReadsOnlyThePrefix(results, e, extra, more, keys, preds, count, rest);
      if id == e {
        AggregateReadsOnlyThePrefix(results[e].records, extra, more, keys, count);
      }
      assert Evaluate(WithMore(results, e, more), keys, preds, count, id) == Evaluate(results, keys, preds, count, id);
    }
  }

  /** In every round in which candidate `e` is still active, the extra records lie beyond the prefix. */
  ghost predicate Late(e: string, extra: seq<EpisodeRecord>, keys: seq<string>, rounds: seq<Round>, o: FamilyOutcome) {
    forall j :: 0 <= j < |o.rounds| && j < |rounds| && e in o.rounds[j].active ==>
      Outside(extra, Required(keys, rounds[j].count))
  }

  /** Records beyond the prefixes of the rounds a candidate plays, for instance anything recorded after its
      elimination, never change a decision of the family. */
  lemma {:induction false} FamilyIgnoresLateRecords(results: Results, e: string, extra: seq<EpisodeRecord>,
                                                    more: seq<EpisodeRecord>, keys: seq<string>, preds: seq<string>,
                                                    rounds: seq<Round>, active: seq<string>)
    requires e in results && AddsFresh(results[e].records, extra, more)
    requires PlayRounds(results, keys, preds, rounds, active).Ok?
    requires Late(e, extra, keys, rounds, PlayRounds(results, keys, preds, rounds, active).value)
    ensures PlayRounds(WithMore(results, e, more), keys, preds, rounds, active)
              == PlayRounds(results, keys, preds, rounds, active)
    decreases |rounds|
  {
    hide EvaluateAll, Outside;
    if rounds != [] {
      var o := PlayRounds(results, keys, preds, rounds, active).value;
      var r := PlayRound(results, keys, preds, rounds[0], active).value;
      assert o.rounds[0] == r && r.active == active;
      RoundReadsOnlyThePrefix(results, e, extra, more, keys, preds, rounds[0].count, active);
      if r.Ranked? {
        var rest := PlayRounds(results, keys, preds, rounds[1..], r.survivors).value;
        forall j | 0 <= j < |rest.rounds| && j < |rounds[1..]| && e in rest.rounds[j].active
          ensures Outside(extra, Required(keys, rounds[1..][j].count))
        {
          assert o.rounds[j + 1] == rest.rounds[j];
        }
        FamilyIgnoresLateRecords(results, e, extra, more, keys, preds, rounds[1..], r.survivors);
      }
    }
  }

  ghost predicate LateEverywhere(e: string, extra: seq<EpisodeRecord>, m: Manifest, r: Report) {
    forall i :: 0 <= i < |r.families| && r.families[i].Played? ==> Late(e, extra, m.keys, m.rounds, r.families[i].outcome)
  }

  lemma {:induction false} FamiliesIgnoreLateRecords(m: Manifest, results: Results, e: string, extra: seq<EpisodeRecord>,
                                                     more: seq<EpisodeRecord>, index: nat, winners: seq<Item>)
    requires e in results && AddsFresh(results[e].records, extra, more) && index <= |m.families|
    requires PlayFamilies(m, results, index, winners).Ok?
    requires LateEverywhere(e, extra, m, PlayFamilies(m, results, index, winners).value)
    ensures PlayFamilies(m, WithMore(results, e, more), index, winners) == PlayFamilies(m, results, index, winners)
    decreases |m.families| - index
  {
    hide PlayRounds, Late, AddsFresh;
    if index < |m.families| {
      var r := PlayFamilies(m, results, index, winners).value;
      var report := r.families[0];
      var winners' := if report.Produced() then winners + [report.outcome.winner.value] else winners;
      var rest := PlayFamilies(m, results, index + 1, winners').value;
      forall i | 0 <= i < |rest.families| && rest.families[i].Played?
        ensures Late(e, extra, m.keys, m.rounds, rest.families[i].outcome)
      {
        assert r.families[i + 1] == rest.families[i];
      }
      if report.Played? {
        FamilyIgnoresLateRecords(results, e, extra, more, m.keys, Ids(winners), m.rounds, m.families[index].candidates);
      }
      FamiliesIgnoreLateRecords(m, results, e, extra, more, index + 1, winners');
    }
  }

  /** Prefix non-interference of the whole analysis: fresh records beyond the prefixes that a candidate
      plays change nothing in the report. */
  lemma TournamentIgnoresLateRecords(m: Manifest, results: Results, e: string, extra: seq<EpisodeRecord>,
                                     more: seq<EpisodeRecord>)
    requires e in results && AddsFresh(results[e].records, extra, more) && TournamentSpec(m, results).Ok?
    requires LateEverywhere(e, extra, m, TournamentSpec(m, results).value)
    ensures TournamentSpec(m, WithMore(results, e, more)) == TournamentSpec(m, results)
  {
    hide PlayFamilies, GoodFamilies, AddsFresh, LateEverywhere;
    FamiliesIgnoreLateRecords(m, results, e, extra, more, 0, []);
  }

  // ---------- complete rounds are final ----------

  /** `later` has everything that `results` has and possibly more: fresh records of the candidates in it,
      anywhere among the old ones, and results of further candidates. */
  ghost predicate Grown(results: Results, later: Results) {
    forall id :: id in results ==> id in later && GrownPayload(results[id], later[id])
  }

  ghost predicate GrownPayload(p: Payload, q: Payload) {
    q == p.(records := q.records) && exists extra :: AddsFresh(p.records, extra, q.records)
  }

  /** Fresh records cannot touch an aggregate that lacks nothing. */
  lemma HaveIsFinal(p: Payload, q: Payload, keys: seq<string>, count: nat)
    requires GrownPayload(p, q)
    requires AggregatePrefix(p.records, keys, count).Ok? && AggregatePrefix(p.records, keys, count).value.Have?
    ensures AggregatePrefix(q.records, keys, count) == AggregatePrefix(p.records, keys, count)
    ensures q == p.(records := q.records)
  {
    var extra :| AddsFresh(p.records, extra, q.records);
    ByKeyExactly(p.records);
    forall k | k in Required(keys, count) ensures exists r :: r in p.records && r.key == k {
      assert k in ByKey(p.records).value;
    }
    assert Outside(extra, Required(keys, count));
    AggregateReadsOnlyThePrefix(p.records, extra, q.records, keys, count);
  }

  lemma RankedRoundIsFinal(results: Results, later: Results, keys: seq<string>, preds: seq<string>, round: Round,
                           active: seq<string>)
    requires Grown(results, later) && PlayRound(results, keys, preds, round, active).Ok?
    requires PlayRound(results, keys, preds, round, active).value.Ranked?
    ensures PlayRound(later, keys, preds, round, active) == PlayRound(results, keys, preds, round, active)
  {
    hide AggregatePrefix, EvaluateAll, GrownPayload;
    var v, w := Verdict(results, keys, preds, round.count), Verdict(later, keys, preds, round.count);
    EvaluateAllExactly(results, keys, preds, round.count, active);
    EvaluateAllExactly(later, keys, preds, round.count, active);
    forall id | id in active ensures w(id) == v(id) {
      assert v(id).Ok? && v(id).value.Have?;
      assert v(id) == Evaluate(results, keys, preds, round.count, id);
      HaveIsFinal(results[id], later[id], keys, round.count);
    }
    assert ItemsOf(active, w) == ItemsOf(active, v);
  }

  /** The later outcome has every ranked round of the earlier one, unchanged, and is the same when that one
      was complete. */
  ghost predicate Continues(o: FamilyOutcome, p: FamilyOutcome) {
    && |o.rounds| <= |p.rounds|
    && (forall j :: 0 <= j < |o.rounds| && o.rounds[j].Ranked? ==> p.rounds[j] == o.rounds[j])
    && (o.complete ==> p == o)
  }

  lemma ContinuesByOne(o: FamilyOutcome, p: FamilyOutcome, r: RoundReport, named: Option<Item>)
    requires Continues(o, p)
    ensures Continues(FamilyOutcome(o.complete, if o.winner.Some? then o.winner else named, [r] + o.rounds),
                      FamilyOutcome(p.complete, if p.winner.Some? then p.winner else named, [r] + p.rounds))
  {
  }

  /** A round that was ranked never changes when records arrive, whichever rounds those complete. */
  lemma {:induction false} RankedRoundsAreFinal(results: Results, later: Results, keys: seq<string>, preds: seq<string>,
                                                rounds: seq<Round>, active: seq<string>)
    requires Grown(results, later)
    requires PlayRounds(results, keys, preds, rounds, active).Ok? && PlayRounds(later, keys, preds, rounds, active).Ok?
    ensures Continues(PlayRounds(results, keys, preds, rounds, active).value,
                      PlayRounds(later, keys, preds, rounds, active).value)
    decreases |rounds|
  {
    hide PlayRound, Grown, Named;
    if rounds != [] {
      var r := PlayRound(results, keys, preds, rounds[0], active).value;
      if r.Ranked? {
        RankedRoundIsFinal(results, later, keys, preds, rounds[0], active);
        RankedRoundsAreFinal(results, later, keys, preds, rounds[1..], r.survivors);
        ContinuesByOne(PlayRounds(results, keys, preds, rounds[1..], r.survivors).value,
                       PlayRounds(later, keys, preds, rounds[1..], r.survivors).value, r, Named(keys, rounds[0], r));
      }
    }
  }

  /** Winners stay, and every family that was played is played again with its ranked rounds unchanged. */
  ghost predicate ReportContinues(r: Report, q: Report) {
    && r.winners <= q.winners && |r.families| == |q.families|
    && forall i :: 0 <= i < |r.families| ==> FamilyContinues(r.families[i], q.families[i])
  }

  ghost predicate FamilyContinues(f: FamilyReport, g: FamilyReport) {
    f.Played? ==> g.Played? && Continues(f.outcome, g.outcome)
  }

  lemma ReportContinuesByOne(f: FamilyReport, g: FamilyReport, r: Report, q: Report)
    requires FamilyContinues(f, g) && ReportContinues(r, q)
    ensures ReportContinues(r.(families := [f] + r.families), q.(families := [g] + q.families))
  {
    hide FamilyContinues;
  }

  lemma {:induction false} WinnersOnlyGrow(m: Manifest, results: Results, index: nat, winners: seq<Item>)
    requires index <= |m.families| && PlayFamilies(m, results, index, winners).Ok?
    ensures var r := PlayFamilies(m, results, index, winners).value;
            winners <= r.winners && |r.families| == |m.families| - index
    decreases |m.families| - index
  {
    hide PlayRounds;
    if index < |m.families| {
      var f := PlayFamilies(m, results, index, winners).value.families[0];
      WinnersOnlyGrow(m, results, index + 1, if f.Produced() then winners + [f.outcome.winner.value] else winners);
    }
  }

  /** When too few families produced winners the rest is blocked, and stays or becomes whatever it may. */
  lemma {:induction false} BlockedContinues(m: Manifest, results: Results, later: Results, index: nat,
                                            winners: seq<Item>, longer: seq<Item>)
    requires |winners| < index <= |m.families| && winners <= longer
    requires PlayFamilies(m, later, index, longer).Ok?
    ensures PlayFamilies(m, results, index, winners).Ok?
    ensures ReportContinues(PlayFamilies(m, results, index, winners).value, PlayFamilies(m, later, index, longer).value)
    decreases |m.families| - index
  {
    hide PlayRounds, Continues;
    if index < |m.families| {
      var q := PlayFamilies(m, later, index, longer).value;
      var g := q.families[0];
      var longer' := if g.Produced() then longer + [g.outcome.winner.value] else longer;
      BlockedContinues(m, results, later, index + 1, winners, longer');
      ReportContinuesByOne(Blocked(index, |winners|), g, PlayFamilies(m, results, index + 1, winners).value,
                           PlayFamilies(m, later, index + 1, longer').value);
    }
  }

  lemma {:induction false} FamiliesContinue(m: Manifest, results: Results, later: Results, index: nat, winners: seq<Item>)
    requires Grown(results, later) && |winners| == index <= |m.families|
    requires PlayFamilies(m, results, index, winners).Ok? && PlayFamilies(m, later, index, winners).Ok?
    ensures ReportContinues(PlayFamilies(m, results, index, winners).value, PlayFamilies(m, later, index, winners).value)
    decreases |m.families| - index
  {
    hide PlayRounds, Grown, ReportContinues;
    if index == |m.families| {
      NothingContinues(winners);
    } else {
      var f := PlayFamilies(m, results, index, winners).value.families[0];
      var g := PlayFamilies(m, later, index, winners).value.families[0];
      var more := if f.Produced() then winners + [f.outcome.winner.value] else winners;
      var longer := if g.Produced() then winners + [g.outcome.winner.value] else winners;
      RankedRoundsAreFinal(results, later, m.keys, Ids(winners), m.rounds, m.families[index].candidates);
      if f.Produced() {
        FamiliesContinue(m, results, later, index + 1, more);
      } else {
        BlockedContinues(m, results, later, index + 1, more, longer);
      }
      ReportContinuesByOne(f, g, PlayFamilies(m, results, index + 1, more).value, PlayFamilies(m, later, index + 1, longer).value);
    }
  }

  lemma NothingContinues(winners: seq<Item>)
    ensures ReportContinues(Report([], winners), Report([], winners))
  {
  }

  /** Analysing again after more results came in: if both analyses succeed, every winner, every complete
      family and every ranked round of the first report is in the second one unchanged. */
  lemma CompleteResultsAreFinal(m: Manifest, results: Results, later: Results)
    requires Grown(results, later) && TournamentSpec(m, results).Ok? && TournamentSpec(m, later).Ok?
    ensures ReportContinues(TournamentSpec(m, results).value, TournamentSpec(m, later).value)
  {
    hide PlayFamilies, GoodFamilies, Grown, ReportContinues;
    FamiliesContinue(m, results, later, 0, []);
  }

  // ---------- the analysis as loops ----------

  /** Builds by_key, then the aggregate. */
  method AggregateRecords(records: seq<EpisodeRecord>, keys: seq<string>, count: nat) returns (r: Result<Aggregate, Error>)
    ensures r == AggregatePrefix(records, keys, count)
  {
    var byKey: map<string, EpisodeRecord> := map[];
    for i := 0 to |records|
      invariant ByKey(records[..i]) == Some(byKey)
    {
      assert records[..i + 1][..i] == records[..i];
      if records[i].key in byKey {
        DuplicateStays(records, i + 1);
        return Raised(DuplicateRecord);
      }
      byKey := byKey[records[i].key := records[i]];
    }
    assert records[..|records|] == records;
    var required := Required(keys, count);
    var missing := Absent(required, byKey);
    if missing != [] { return Ok(Missing(missing)); }
    var rows := RowsFor(required, byKey);
    if exists row :: row in rows && !row.InRange() { return Raised(MetricOutOfRange); }
    if count == 0 { return Raised(DivisionByZero); }
    return Ok(Have(MetricsOf(rows, count)));
  }

  lemma {:induction false} DuplicateStays(records: seq<EpisodeRecord>, n: nat)
    requires n <= |records| && ByKey(records[..n]).None?
    ensures ByKey(records).None?
    decreases |records| - n
  {
    if n < |records| {
      assert records[..n + 1][..n] == records[..n];
      DuplicateStays(records, n + 1);
    } else {
      assert records[..n] == records;
    }
  }

  lemma {:induction false} ErrorStays(results: Results, keys: seq<string>, preds: seq<string>, count: nat,
                                      active: seq<string>, n: nat)
    requires n <= |active| && EvaluateAll(results, keys, preds, count, active[..n]).Raised?
    ensures EvaluateAll(results, keys, preds, count, active) == EvaluateAll(results, keys, preds, count, active[..n])
    decreases |active| - n
  {
    if n < |active| {
      assert active[..n + 1][..n] == active[..n];
      ErrorStays(results, keys, preds, count, active, n + 1);
    } else {
      assert active[..n] == active;
    }
  }

  /** One round: every active candidate in turn, then the ranking. */
  method RunRound(results: Results, keys: seq<string>, preds: seq<string>, round: Round, active: seq<string>)
    returns (r: Result<RoundReport, Error>)
    ensures r == PlayRound(results, keys, preds, round, active)
  {
    var items: seq<Item>, missing: seq<(string, seq<string>)> := [], [];
    for i := 0 to |active|
      invariant EvaluateAll(results, keys, preds, round.count, active[..i]) == Ok(Evaluated(items, missing))
    {
      var id := active[i];
      assert active[..i + 1][..i] == active[..i];
      var aggregate: Result<Aggregate, Error>;
      if id !in results {
        aggregate := Ok(Missing(Required(keys, round.count)));
      } else if results[id].declared != id {
        aggregate := Raised(IdentityMismatch);
      } else if results[id].predecessors != preds || !results[id].hashesMatch {
        aggregate := Raised(ProvenanceMismatch);
      } else {
        aggregate := AggregateRecords(results[id].records, keys, round.count);
      }
      match aggregate {
        case Raised(e) =>
          ErrorStays(results, keys, preds, round.count, active, i + 1);
          return Raised(e);
        case Ok(Missing(k)) => missing := missing + [(id, k)];
        case Ok(Have(m)) => items := items + [Item(id, m)];
      }
    }
    assert active[..|active|] == active;
    if missing != [] { return Ok(Waiting(active, items, missing)); }
    var ranking := Sort(items, RankLe);
    return Ok(Ranked(active, ranking, Survivors(ranking, round.survivors)));
  }

  /** What a family amounts to when the rounds so far gave `reports` and named `winner`. */
  function Continue(reports: seq<RoundReport>, winner: Option<Item>, rest: Result<FamilyOutcome, Error>)
    : Result<FamilyOutcome, Error>
  {
    match rest
    case Raised(e) => Raised(e)
    case Ok(o) => Ok(FamilyOutcome(o.complete, if o.winner.Some? then o.winner else winner, reports + o.rounds))
  }

  lemma ContinueNothing(rest: Result<FamilyOutcome, Error>)
    ensures Continue([], None, rest) == rest
  {
    if rest.Ok? {
      assert [] + rest.value.rounds == rest.value.rounds;
    }
  }

  /** One round of a family moves from the rounds still to play into the reports. */
  lemma ContinueRound(results: Results, keys: seq<string>, preds: seq<string>, rounds: seq<Round>, active: seq<string>,
                      reports: seq<RoundReport>, winner: Option<Item>)
    requires rounds != []
    ensures var whole := Continue(reports, winner, PlayRounds(results, keys, preds, rounds, active));
            match PlayRound(results, keys, preds, rounds[0], active)
            case Raised(e) => whole == Raised(e)
            case Ok(r) =>
              if r.Waiting? then whole == Ok(FamilyOutcome(false, winner, reports + [r]))
              else
                var named := Named(keys, rounds[0], r);
                whole == Continue(reports + [r], if named.Some? then named else winner,
                                  PlayRounds(results, keys, preds, rounds[1..], r.survivors))
  {
    hide PlayRound, Named;
    var played := PlayRound(results, keys, preds, rounds[0], active);
    if played.Ok? && played.value.Ranked? {
      hide Continue;
      var rest := PlayRounds(results, keys, preds, rounds[1..], played.value.survivors);
      if rest.Ok? {
        RoundMovesOver(reports, winner, played.value, Named(keys, rounds[0], played.value), rest.value);
      } else {
        NothingToContinue(reports, winner, rest.error);
        NothingToContinue(reports + [played.value], winner, rest.error);
        NothingToContinue(reports + [played.value], Named(keys, rounds[0], played.value), rest.error);
      }
    }
  }

  lemma RoundMovesOver(reports: seq<RoundReport>, winner: Option<Item>, r: RoundReport, named: Option<Item>,
                       rest: FamilyOutcome)
    ensures Continue(reports, winner, Ok(FamilyOutcome(rest.complete, if rest.winner.Some? then rest.winner else named,
                                                       [r] + rest.rounds)))
              == Continue(reports + [r], if named.Some? then named else winner, Ok(rest))
  {
    assert reports + ([r] + rest.rounds) == (reports + [r]) + rest.rounds;
  }

  lemma NothingToContinue(reports: seq<RoundReport>, winner: Option<Item>, error: Error)
    ensures Continue(reports, winner, Raised(error)) == Raised(error)
  {
  }

  /** One family: its rounds in turn, keeping the survivors of each. */
  method RunFamily(results: Results, keys: seq<string>, preds: seq<string>, rounds: seq<Round>, candidates: seq<string>)
    returns (r: Result<FamilyOutcome, Error>)
    ensures r == PlayRounds(results, keys, preds, rounds, candidates)
  {
    hide PlayRound, Continue;
    var active, reports := candidates, [];
    var winner: Option<Item> := None;
    ghost var spec := PlayRounds(results, keys, preds, rounds, candidates);
    ContinueNothing(spec);
    assert rounds[0..] == rounds;
    for i := 0 to |rounds|
      invariant spec == Continue(reports, winner, PlayRounds(results, keys, preds, rounds[i..], active))
    {
      ContinueRound(results, keys, preds, rounds[i..], active, reports, winner);
      assert rounds[i..][1..] == rounds[i + 1..];
      var played := RunRound(results, keys, preds, rounds[i], active);
      if played.Raised? { return Raised(played.error); }
      var report := played.value;
      reports := reports + [report];
      if report.Waiting? { return Ok(FamilyOutcome(false, winner, reports)); }
      active := report.survivors;
      if rounds[i].count == |keys| && report.ranking != [] {
        winner := Some(report.ranking[0]);
      }
    }
    ContinueToTheEnd(reports, winner);
    return Ok(FamilyOutcome(true, winner, reports));
  }

  lemma ContinueToTheEnd(reports: seq<RoundReport>, winner: Option<Item>)
    ensures Continue(reports, winner, Ok(FamilyOutcome(true, None, []))) == Ok(FamilyOutcome(true, winner, reports))
  {
    assert reports + [] == reports;
  }

  /** Reports of the first families in front of the rest of the tournament. */
  function Prefixed(reports: seq<FamilyReport>, rest: Result<Report, Error>): Result<Report, Error> {
    match rest
    case Raised(e) => Raised(e)
    case Ok(r) => Ok(r.(families := reports + r.families))
  }

  lemma PrefixedStep(reports: seq<FamilyReport>, f: FamilyReport, rest: Result<Report, Error>)
    ensures Prefixed(reports, Prefixed([f], rest)) == Prefixed(reports + [f], rest)
    ensures Prefixed([], rest) == rest
  {
    if rest.Ok? {
      assert reports + ([f] + rest.value.families) == (reports + [f]) + rest.value.families;
      assert [] + rest.value.families == rest.value.families;
    }
  }

  /** Collects the registered candidate ids; fails unless there are three families of at least two
      non-empty ids each, no id twice. */
  method CandidateIndex(families: seq<Family>) returns (known: Option<set<string>>)
    ensures known.Some? <==> GoodFamilies(families)
    ensures known.Some? ==> known.value == Elements(AllCandidates(families))
  {
    hide Distinct, Elements;
    if |families| != 3 { return None; }
    var all: seq<string>, seen: set<string> := [], {};
    NothingSeen();
    assert families[0..] == families;
    for i := 0 to |families|
      invariant all + AllCandidates(families[i..]) == AllCandidates(families)
      invariant seen == Elements(all) && Distinct(all)
      invariant forall k :: 0 <= k < i ==> |families[k].candidates| >= 2 && "" !in families[k].candidates
    {
      var ids := families[i].candidates;
      if |ids| < 2 { return None; }
      ghost var before, rest := all, AllCandidates(families[i + 1..]);
      assert families[i..][1..] == families[i + 1..];
      for k := 0 to |ids|
        invariant all == before + ids[..k]
        invariant seen == Elements(all) && Distinct(all) && "" !in ids[..k]
      {
        var id := ids[k];
        AppendDistinct(all, id);
        CutAround(before, ids, rest, k);
        InElements(all, id);
        if id == "" { return None; }
        if id in seen {
          if Distinct(AllCandidates(families)) {
            PrefixDistinct(before + ids[..k + 1], ids[k + 1..] + rest);
          }
          return None;
        }
        all := all + [id];
        seen := seen + {id};
      }
      CutAround(before, ids, rest, 0);
    }
    assert all == AllCandidates(families);
    return Some(seen);
  }

  lemma CutAround(before: seq<string>, ids: seq<string>, rest: seq<string>, k: nat)
    requires k < |ids|
    ensures (before + ids[..k]) + [ids[k]] == before + ids[..k + 1]
    ensures before + (ids + rest) == (before + ids[..k + 1]) + (ids[k + 1..] + rest)
    ensures before + ids[..|ids|] + rest == before + (ids + rest)
  {
  }

  lemma NothingSeen()
    ensures Distinct<string>([]) && Elements<string>([]) == {}
  {
  }

  lemma InElements(s: seq<string>, x: string)
    ensures x in Elements(s) <==> x in s
  {
  }

  /** The whole analysis: families in order, each against the winners found so far. */
  method Analyze(m: Manifest, results: Results) returns (r: Result<Report, Error>)
    requires m.Valid()
    ensures r == TournamentSpec(m, results)
  {
    hide PlayRounds, GoodFamilies;
    var known := CandidateIndex(m.families);
    if known.None? { return Raised(BadFamilies); }
    if !m.codeMatches { return Raised(CodeChanged); }
    assert forall id :: id in Elements(AllCandidates(m.families)) <==> id in AllCandidates(m.families);
    if exists id :: id in results && id !in known.value { return Raised(UnregisteredCandidate); }
    if |m.keys| != m.episodeCount { return Raised(EpisodeCountDiffers); }
    var reports: seq<FamilyReport>, winners: seq<Item> := [], [];
    PrefixedStep([], Blocked(0, 0), PlayFamilies(m, results, 0, []));
    for i := 0 to |m.families|
      invariant Prefixed(reports, PlayFamilies(m, results, i, winners)) == PlayFamilies(m, results, 0, [])
    {
      var family := m.families[i];
      if |winners| != i {
        PrefixedStep(reports, Blocked(i, |winners|), PlayFamilies(m, results, i + 1, winners));
        reports := reports + [Blocked(i, |winners|)];
        continue;
      }
      if !family.configMatches { return Raised(ConfigChanged); }
      var played := RunFamily(results, m.keys, Ids(winners), m.rounds, family.candidates);
      if played.Raised? { return Raised(played.error); }
      var report := Played(played.value);
      ghost var winners' := if report.Produced() then winners + [played.value.winner.value] else winners;
      PrefixedStep(reports, report, PlayFamilies(m, results, i + 1, winners'));
      if played.value.complete && played.value.winner.Some? {
        winners := winners + [played.value.winner.value];
      }
      reports := reports + [report];
    }
    assert reports + [] == reports;
    return Ok(Report(reports, winners));
  }
}
