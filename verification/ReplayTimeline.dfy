/** The replay timeline of scripts/build_t5_unified_replay.py: stamp alignment, canonical order, accounting. */
module ReplayTimeline {
  import opened Wrappers
  import opened Sequences
  import opened Sorting

  datatype Via = UniqueSnapshotId | UniqueRequestId

  /** An event candidate; `explicit` is explicit_sim_stamp, `via` is alignment_method. */
  datatype Event = Event(ordinal: int, path: string, line: int, episode: Option<string>, generation: Option<int>,
                         request: Option<string>, snapshot: Option<string>,
                         explicit: bool, stamp: Option<int>, via: Option<Via>)
  {
    /** As the loader creates it: no alignment yet, explicit exactly when stamped. */
    predicate Loaded() { via.None? && (explicit <==> stamp.Some?) }
  }

  datatype Field = Snapshot | Request {
    function Of(e: Event): Option<string> { if Snapshot? then e.snapshot else e.request }
  }

  // ---------- alignment ----------

  /** All stamps seen together with an identity. */
  ghost function StampsOf(es: seq<Event>, field: Field, id: string): set<int> {
    set e | e in es && field.Of(e) == Some(id) && e.stamp.Some? :: e.stamp.value
  }

  /** The stamp that an identity determines: the only one ever seen with it. */
  ghost function Anchor(es: seq<Event>, field: Field, id: Option<string>): (a: Option<int>)
    ensures a.Some? <==> id.Some? && exists s :: StampsOf(es, field, id.value) == {s}
    ensures a.Some? ==> StampsOf(es, field, id.value) == {a.value}
  {
    if id.Some? && exists s :: StampsOf(es, field, id.value) == {s} then
      var s :| StampsOf(es, field, id.value) == {s};
      Some(s)
    else None
  }

  ghost function AlignOne(es: seq<Event>, e: Event): Event {
    if e.stamp.Some? then e
    else if Anchor(es, Snapshot, e.snapshot).Some? then
      e.(stamp := Anchor(es, Snapshot, e.snapshot), via := Some(UniqueSnapshotId))
    else if Anchor(es, Request, e.request).Some? then
      e.(stamp := Anchor(es, Request, e.request), via := Some(UniqueRequestId))
    else e
  }

  ghost function Aligner(es: seq<Event>): Event -> Event { e => AlignOne(es, e) }

  ghost function Aligned(es: seq<Event>): (r: seq<Event>)
    ensures |r| == |es|
  {
    Map(es, Aligner(es))
  }

  /** Alignment keeps every explicit stamp. It stamps another event exactly when all explicit stamps that
      share its snapshot id agree, or else when all that share its request id do, and then with that stamp. */
  lemma AlignmentIsSound(es: seq<Event>, i: nat)
    requires i < |es| && forall e :: e in es ==> e.Loaded()
    ensures var e, a := es[i], Aligned(es)[i];
            && a == e.(stamp := a.stamp, via := a.via)
            && (e.explicit ==> a == e)
            && (!e.explicit ==> (a.stamp.Some? <==> a.via.Some?))
            && (a.via == Some(UniqueSnapshotId) ==>
                  e.snapshot.Some? && a.stamp.Some? && StampsOf(es, Snapshot, e.snapshot.value) == {a.stamp.value})
            && (a.via == Some(UniqueRequestId) ==>
                  e.request.Some? && a.stamp.Some? && StampsOf(es, Request, e.request.value) == {a.stamp.value}
                  && (e.snapshot.Some? ==> |StampsOf(es, Snapshot, e.snapshot.value)| != 1))
            && (a.stamp.None? ==>
                  (e.snapshot.Some? ==> |StampsOf(es, Snapshot, e.snapshot.value)| != 1)
                  && (e.request.Some? ==> |StampsOf(es, Request, e.request.value)| != 1))
  {
    var e := es[i];
    assert e in es;
    if e.snapshot.Some? { SingletonExactly(StampsOf(es, Snapshot, e.snapshot.value)); }
    if e.request.Some? { SingletonExactly(StampsOf(es, Request, e.request.value)); }
  }

  lemma SingletonExactly(s: set<int>)
    ensures |s| == 1 <==> exists x :: s == {x}
  {
    if |s| == 1 {
      assert (forall x :: x !in s) ==> s == {};
      var x :| x in s;
      assert |s - {x}| == 0;
      assert s == {x};
    }
  }

  /** A second pass never changes what a first pass stamped. */
  lemma SecondPassKeepsStamps(es: seq<Event>, i: nat)
    requires i < |es| && Aligned(es)[i].stamp.Some?
    ensures Aligned(Aligned(es))[i] == Aligned(es)[i]
  {
  }

  /** The stamps that unstamped events with the identity get from a first pass. */
  ghost function Inherited(es: seq<Event>, field: Field, id: string): set<int> {
    set e | e in es && e.stamp.None? && field.Of(e) == Some(id) && AlignOne(es, e).stamp.Some? :: AlignOne(es, e).stamp.value
  }

  /** A first pass turns the identity into an anchor: no stamp was seen with it, and one is inherited. */
  ghost predicate NewAnchor(es: seq<Event>, field: Field, id: Option<string>) {
    id.Some? && StampsOf(es, field, id.value) == {} && |Inherited(es, field, id.value)| == 1
  }

  lemma StampsAfterOnePass(es: seq<Event>, field: Field, id: string)
    ensures StampsOf(Aligned(es), field, id) == StampsOf(es, field, id) + Inherited(es, field, id)
  {
    hide Anchor;
    var r := Aligned(es);
    forall s ensures s in StampsOf(r, field, id) <==> s in StampsOf(es, field, id) + Inherited(es, field, id) {
      if s in StampsOf(r, field, id) {
        var a :| a in r && field.Of(a) == Some(id) && a.stamp == Some(s);
        var i :| 0 <= i < |r| && r[i] == a;
        assert es[i] in es && r[i] == AlignOne(es, es[i]);
      }
      if s in StampsOf(es, field, id) + Inherited(es, field, id) {
        var e :| e in es && field.Of(e) == Some(id) && AlignOne(es, e).stamp == Some(s);
        var i :| 0 <= i < |es| && es[i] == e;
        assert r[i] in r;
      }
    }
  }

  /** An identity that was no anchor is one for a second pass exactly when the first made it a new one. */
  lemma AnchorsAfterOnePass(es: seq<Event>, field: Field, id: Option<string>)
    requires Anchor(es, field, id).None?
    ensures Anchor(Aligned(es), field, id).Some? <==> NewAnchor(es, field, id)
  {
    hide StampsOf, Inherited, Aligned;
    if id.Some? {
      var before, more := StampsOf(es, field, id.value), Inherited(es, field, id.value);
      StampsAfterOnePass(es, field, id.value);
      SingletonExactly(before + more);
      if before != {} {
        SubsetSize(before, before + more);
        SingletonExactly(before);
        assert |before| > 0;
      } else {
        assert before + more == more;
      }
    }
  }

  /** What a second pass does to one event: it adds a stamp exactly when the event has none yet and the
      first pass turned its snapshot id or its request id into an anchor. */
  lemma SecondPassStampsExactly(es: seq<Event>, i: nat)
    requires i < |es|
    ensures Aligned(Aligned(es))[i] != Aligned(es)[i] <==>
              AlignOne(es, es[i]).stamp.None?
              && (NewAnchor(es, Snapshot, es[i].snapshot) || NewAnchor(es, Request, es[i].request))
  {
    hide NewAnchor;
    if AlignOne(es, es[i]).stamp.None? {
      AnchorsAfterOnePass(es, Snapshot, es[i].snapshot);
      AnchorsAfterOnePass(es, Request, es[i].request);
    }
  }

  /** Alignment is idempotent on exactly those events of which none that stays unstamped has a snapshot id or
      request id that became an anchor. */
  lemma IdempotentExactly(es: seq<Event>)
    ensures Aligned(Aligned(es)) == Aligned(es) <==>
              forall e :: e in es && AlignOne(es, e).stamp.None? ==>
                !NewAnchor(es, Snapshot, e.snapshot) && !NewAnchor(es, Request, e.request)
  {
    hide NewAnchor, AlignOne;
    var once, twice := Aligned(es), Aligned(Aligned(es));
    forall i | 0 <= i < |es|
      ensures twice[i] != once[i] <==>
                AlignOne(es, es[i]).stamp.None?
                && (NewAnchor(es, Snapshot, es[i].snapshot) || NewAnchor(es, Request, es[i].request))
    {
      SecondPassStampsExactly(es, i);
    }
    if forall i :: 0 <= i < |es| ==> twice[i] == once[i] {
      assert twice == once;
    }
  }

  /** It does happen: a stamp inherited through a snapshot becomes a request anchor. */
  lemma AlignmentIsNotIdempotent()
    ensures exists es: seq<Event> :: (forall e :: e in es ==> e.Loaded()) && Aligned(Aligned(es)) != Aligned(es)
  {
    var a := Event(0, "a", 1, None, None, None, Some("s"), true, Some(7), None);
    var b := Event(0, "a", 2, None, None, Some("r"), Some("s"), false, None, None);
    var c := Event(0, "a", 3, None, None, Some("r"), None, false, None, None);
    var es := [a, b, c];
    var once := Aligned(es);
    assert StampsOf(es, Snapshot, "s") == {7} by { assert a in es; }
    assert Anchor(es, Snapshot, Some("s")) == Some(7);
    assert StampsOf(es, Request, "r") == {};
    assert Anchor(es, Request, Some("r")) == None by {
      assert forall s: int :: s in {s} && s !in StampsOf(es, Request, "r");
    }
    assert Anchor(es, Snapshot, None) == None;
    assert once[1] == b.(stamp := Some(7), via := Some(UniqueSnapshotId));
    assert once[2] == c;
    assert once == [a, once[1], c];
    assert StampsOf(once, Request, "r") == {7} by { assert once[1] in once; }
    assert Anchor(once, Request, Some("r")) == Some(7);
    assert Aligned(once)[2].stamp == Some(7);
    assert (forall e :: e in es ==> e.Loaded()) && Aligned(Aligned(es)) != Aligned(es);
  }

  // ---------- the canonical order ----------

  function IntLess(): (int, int) -> bool { (x: int, y: int) => x < y }

  function SortNumbers(e: Event): seq<int> {
    [if e.stamp.None? then 1 else 0, if e.stamp.Some? then e.stamp.value else 0, e.ordinal]
  }

  predicate KeyLe(a: Event, b: Event) {
    var x, y := SortNumbers(a), SortNumbers(b);
    if x != y then LexLe(x, y, IntLess())
    else if a.path != b.path then LexLe(a.path, b.path, CharLess)
    else a.line <= b.line
  }

  /** A source line yields one event. */
  ghost predicate LinesIdentify(es: seq<Event>) {
    forall x, y :: x in es && y in es && x.path == y.path && x.line == y.line ==> x == y
  }

  lemma KeyLeOrders(es: seq<Event>)
    requires LinesIdentify(es)
    ensures Orders(es, KeyLe)
  {
    forall a, b | a in es && b in es
      ensures KeyLe(a, b) || KeyLe(b, a)
      ensures KeyLe(a, b) && KeyLe(b, a) ==> a == b
    {
      LexTotal(SortNumbers(a), SortNumbers(b), IntLess());
      LexTotal(a.path, b.path, CharLess);
    }
    forall a, b, c | a in es && b in es && c in es && KeyLe(a, b) && KeyLe(b, c) ensures KeyLe(a, c) {
      KeyLeTransitive(a, b, c);
    }
  }

  lemma KeyLeTransitive(a: Event, b: Event, c: Event)
    requires KeyLe(a, b) && KeyLe(b, c)
    ensures KeyLe(a, c)
  {
    var x, y, z := SortNumbers(a), SortNumbers(b), SortNumbers(c);
    if x == y == z {
      if a.path != b.path && b.path != c.path {
        LexTransitive(a.path, b.path, c.path, CharLess);
        LexTotal(a.path, b.path, CharLess);
      }
    } else if x != y && y != z {
      LexTransitive(x, y, z, IntLess());
      LexTotal(x, y, IntLess());
    }
  }

  ghost function Timeline(es: seq<Event>): seq<Event> { Sort(Aligned(es), KeyLe) }

  /** No later event has an earlier stamp, and unstamped events come last. */
  ghost predicate InTime(t: seq<Event>) {
    forall i, j :: 0 <= i < j < |t| ==>
      (t[j].stamp.Some? ==> t[i].stamp.Some? && t[i].stamp.value <= t[j].stamp.value)
  }

  lemma KeyLeRespectsTime(a: Event, b: Event)
    requires KeyLe(a, b)
    ensures b.stamp.Some? ==> a.stamp.Some? && a.stamp.value <= b.stamp.value
  {
    var x, y := SortNumbers(a), SortNumbers(b);
    assert x[1..][0] == x[1] && y[1..][0] == y[1];
    if x == y {
      assert x[0] == y[0] && x[1] == y[1];
    } else {
      assert x[0] < y[0] || (x[0] == y[0] && LexLe(x[1..], y[1..], IntLess()));
      assert LexLe(x[1..], y[1..], IntLess()) ==> x[1] <= y[1];
    }
  }

  lemma AlignmentKeepsPlace(es: seq<Event>, e: Event)
    ensures AlignOne(es, e).path == e.path && AlignOne(es, e).line == e.line
  {
  }

  lemma AlignedLinesIdentify(es: seq<Event>)
    requires LinesIdentify(es)
    ensures LinesIdentify(Aligned(es))
  {
    hide AlignOne;
    var r := Aligned(es);
    forall e { AlignmentKeepsPlace(es, e); }
    forall x, y | x in r && y in r && x.path == y.path && x.line == y.line ensures x == y {
      var i :| 0 <= i < |r| && r[i] == x;
      var j :| 0 <= j < |r| && r[j] == y;
      assert es[i] in es && es[j] in es;
    }
  }

  lemma TimelineIsInTime(es: seq<Event>)
    requires LinesIdentify(es)
    ensures InTime(Timeline(es)) && multiset(Timeline(es)) == multiset(Aligned(es))
  {
    AlignedLinesIdentify(es);
    KeyLeOrders(Aligned(es));
    SortSorts(Aligned(es), KeyLe);
    SortKeepsElements(Aligned(es), KeyLe);
    var t := Timeline(es);
    forall i, j | 0 <= i < j < |t| ensures t[j].stamp.Some? ==> t[i].stamp.Some? && t[i].stamp.value <= t[j].stamp.value {
      KeyLeRespectsTime(t[i], t[j]);
    }
  }

  /** One event comes before another in the timeline: stamped before unstamped, by stamp, by the ordinal of its
      source, by the source's path and by line. */
  ghost predicate ComesFirst(a: Event, b: Event) {
    if a.stamp.Some? != b.stamp.Some? then a.stamp.Some?
    else if a.stamp != b.stamp then a.stamp.value < b.stamp.value
    else if a.ordinal != b.ordinal then a.ordinal < b.ordinal
    else if a.path != b.path then Precedes(a.path, b.path)
    else a.line <= b.line
  }

  lemma KeyLeExactly(a: Event, b: Event)
    ensures KeyLe(a, b) <==> ComesFirst(a, b)
  {
    var x, y := SortNumbers(a), SortNumbers(b);
    StringsCompare(a.path, b.path);
    assert x[0..] == x && y[0..] == y;
    LexPeel(x, y, 0, IntLess());
    LexPeel(x, y, 1, IntLess());
    LexPeel(x, y, 2, IntLess());
    assert x == y <==> x[0] == y[0] && x[1] == y[1] && x[2] == y[2];
  }

  /** The canonical order, on the fields of any two events. */
  lemma TimelineIsInOrder(es: seq<Event>, i: nat, j: nat)
    requires LinesIdentify(es) && i < j < |Timeline(es)|
    ensures ComesFirst(Timeline(es)[i], Timeline(es)[j])
  {
    AlignedLinesIdentify(es);
    KeyLeOrders(Aligned(es));
    SortSorts(Aligned(es), KeyLe);
    KeyLeExactly(Timeline(es)[i], Timeline(es)[j]);
  }

  lemma AnchorsIgnoreOrder(es: seq<Event>, fs: seq<Event>, e: Event)
    requires multiset(es) == multiset(fs)
    ensures AlignOne(es, e) == AlignOne(fs, e)
  {
    SameElements(es, fs);
    SameElements(fs, es);
    forall field: Field, id: string ensures StampsOf(es, field, id) == StampsOf(fs, field, id) {
    }
    assert Anchor(es, Snapshot, e.snapshot) == Anchor(fs, Snapshot, e.snapshot);
    assert Anchor(es, Request, e.request) == Anchor(fs, Request, e.request);
  }

  /** The timeline is the same for every order in which the events were loaded. */
  lemma TimelineIgnoresInputOrder(es: seq<Event>, fs: seq<Event>)
    requires multiset(es) == multiset(fs) && LinesIdentify(es)
    ensures Timeline(es) == Timeline(fs)
  {
    MapKeepsElements(es, fs, Aligner(es));
    forall i | 0 <= i < |fs| ensures Map(fs, Aligner(es))[i] == Map(fs, Aligner(fs))[i] {
      AnchorsIgnoreOrder(es, fs, fs[i]);
    }
    assert Map(fs, Aligner(es)) == Map(fs, Aligner(fs));
    AlignedLinesIdentify(es);
    KeyLeOrders(Aligned(es));
    SortIgnoresOrder(Aligned(es), Aligned(fs), KeyLe);
  }

  // ---------- accounting ----------

  function Tally(t: seq<Event>, p: Event -> bool): nat {
    if t == [] then 0 else Tally(t[..|t| - 1], p) + (if p(t[|t| - 1]) then 1 else 0)
  }

  lemma {:induction false} TallyIsNumber(t: seq<Event>, p: Event -> bool)
    ensures Tally(t, p) == |Where(t, p)|
  {
    if t != [] {
      TallyIsNumber(t[..|t| - 1], p);
      OneMorePlace(t, p);
    }
  }

  function Explicit(): Event -> bool { (e: Event) => e.explicit }
  function Matched(): Event -> bool { (e: Event) => e.via.Some? }
  function Unstamped(): Event -> bool { (e: Event) => e.stamp.None? }
  function Unidentified(): Event -> bool { (e: Event) => e.episode.None? }

  /** Every event counts once: explicit, matched or unstamped. */
  ghost predicate OneOfThree(e: Event) {
    (e.explicit ==> e.stamp.Some? && e.via.None?) && (!e.explicit ==> (e.stamp.Some? <==> e.via.Some?))
  }

  lemma {:induction false} TalliesAddUp(t: seq<Event>)
    requires forall e :: e in t ==> OneOfThree(e)
    ensures Tally(t, Explicit()) + Tally(t, Matched()) + Tally(t, Unstamped()) == |t|
  {
    if t != [] {
      assert OneOfThree(t[|t| - 1]);
      TalliesAddUp(t[..|t| - 1]);
    }
  }

  /** Explicit, matched and unstamped events of a timeline add up to the loaded events. */
  lemma AlignmentAccounting(es: seq<Event>)
    requires LinesIdentify(es) && forall e :: e in es ==> e.Loaded()
    ensures var t := Timeline(es);
            && |t| == |es| && Tally(t, Explicit()) + Tally(t, Matched()) + Tally(t, Unstamped()) == |es|
            && Tally(t, Explicit()) == |Where(t, (e: Event) => e.explicit)|
            && Tally(t, Matched()) == |Where(t, (e: Event) => e.via.Some?)|
            && Tally(t, Unstamped()) == |Where(t, (e: Event) => e.stamp.None?)|
  {
    TimelineIsInTime(es);
    var t, r := Timeline(es), Aligned(es);
    SameElements(t, r);
    forall e | e in t ensures OneOfThree(e) {
      var i :| 0 <= i < |r| && r[i] == e;
      AlignmentIsSound(es, i);
      assert es[i] in es;
    }
    TalliesAddUp(t);
    TallyIsNumber(t, Explicit());
    TallyIsNumber(t, Matched());
    TallyIsNumber(t, Unstamped());
    assert Where(t, Explicit()) == Where(t, (e: Event) => e.explicit);
    assert Where(t, Matched()) == Where(t, (e: Event) => e.via.Some?);
    assert Where(t, Unstamped()) == Where(t, (e: Event) => e.stamp.None?);
  }

  // ---------- per-episode ranges ----------

  datatype Identity = Identity(episode: string, generation: Option<int>)

  predicate Belongs(e: Event, id: Identity) { e.episode == Some(id.episode) && e.generation == id.generation }

  function BelongsTo(id: Identity): Event -> bool { e => Belongs(e, id) }

  /** The positions of an identity's events, ascending. */
  function IndicesOf(t: seq<Event>, id: Identity): (r: seq<nat>)
    ensures |r| == Tally(t, BelongsTo(id))
    ensures forall k :: 0 <= k < |r| ==> r[k] < |t| && Belongs(t[r[k]], id)
  {
    if t == [] then []
    else IndicesOf(t[..|t| - 1], id) + (if Belongs(t[|t| - 1], id) then [|t| - 1] else [])
  }

  lemma {:induction false} IndicesAreAll(t: seq<Event>, id: Identity)
    ensures var r := IndicesOf(t, id);
            && (forall j, k :: 0 <= j < k < |r| ==> r[j] < r[k])
            && (forall i :: 0 <= i < |t| && Belongs(t[i], id) ==> i in r)
  {
    if t != [] {
      IndicesAreAll(t[..|t| - 1], id);
    }
  }

  datatype Range = Range(count: nat, start: nat, end: nat, first: Option<int>, last: Option<int>)

  /** The stamps at the given positions, in order. */
  function StampsAt(t: seq<Event>, indices: seq<nat>): (r: seq<int>)
    requires forall k :: 0 <= k < |indices| ==> indices[k] < |t|
  {
    if indices == [] then []
    else (if t[indices[0]].stamp.Some? then [t[indices[0]].stamp.value] else []) + StampsAt(t, indices[1..])
  }

  function Least(s: seq<int>): (m: int)
    requires s != []
    ensures m in s && forall x :: x in s ==> m <= x
  {
    assert s == [s[0]] + s[1..];
    if |s| == 1 then s[0]
    else if s[0] <= Least(s[1..]) then s[0] else Least(s[1..])
  }

  function Greatest(s: seq<int>): (m: int)
    requires s != []
    ensures m in s && forall x :: x in s ==> x <= m
  {
    assert s == [s[0]] + s[1..];
    if |s| == 1 then s[0]
    else if s[0] >= Greatest(s[1..]) then s[0] else Greatest(s[1..])
  }

  function RangeFrom(t: seq<Event>, indices: seq<nat>): Range
    requires indices != [] && forall k :: 0 <= k < |indices| ==> indices[k] < |t|
  {
    var stamps := StampsAt(t, indices);
    Range(|indices|, Least(indices), Greatest(indices),
          if stamps == [] then None else Some(Least(stamps)), if stamps == [] then None else Some(Greatest(stamps)))
  }

  /** The range that the index reports for an identity with at least one event. */
  function RangeOf(t: seq<Event>, id: Identity): Range
    requires IndicesOf(t, id) != []
  {
    RangeFrom(t, IndicesOf(t, id))
  }

  lemma {:induction false} StampsAtExactly(t: seq<Event>, indices: seq<nat>, s: int)
    requires forall k :: 0 <= k < |indices| ==> indices[k] < |t|
    ensures s in StampsAt(t, indices) <==> exists i :: i in indices && t[i].stamp == Some(s)
  {
    if indices != [] {
      StampsAtExactly(t, indices[1..], s);
      assert indices == [indices[0]] + indices[1..];
    }
  }

  /** Reading a range at its ends is enough: on a timeline in order, when any event of the identity is
      stamped, its first stamp is that of the event at the start index, and its last stamp is that of the
      event at the end index provided that one is stamped. */
  lemma RangeEndsCarryTheStamps(t: seq<Event>, id: Identity)
    requires InTime(t) && IndicesOf(t, id) != []
    ensures var r := RangeOf(t, id);
            && r.start < |t| && r.end < |t| && Belongs(t[r.start], id) && Belongs(t[r.end], id)
            && (forall i :: 0 <= i < |t| && Belongs(t[i], id) ==> r.start <= i <= r.end)
            && (r.first.Some? <==> exists i :: 0 <= i < |t| && Belongs(t[i], id) && t[i].stamp.Some?)
            && (r.first.Some? ==> t[r.start].stamp == r.first)
            && (t[r.end].stamp.Some? ==> t[r.end].stamp == r.last)
  {
    var indices, r := IndicesOf(t, id), RangeOf(t, id);
    IndicesAreAll(t, id);
    assert r.start in indices && r.end in indices;
    StampEnds(t, indices);
  }

  /** A range counts the events of its episode and generation, and gives the least and the greatest of their
      stamps. */
  lemma RangeExactly(t: seq<Event>, id: Identity)
    requires IndicesOf(t, id) != []
    ensures var r := RangeOf(t, id);
            var own := Where(t, (e: Event) => e.episode == Some(id.episode) && e.generation == id.generation);
            && r.count == |own|
            && (forall i :: i in own && t[i].stamp.Some? ==>
                  r.first.Some? && r.last.Some? && r.first.value <= t[i].stamp.value <= r.last.value)
            && (r.first.Some? ==> exists i :: i in own && t[i].stamp == r.first)
            && (r.last.Some? ==> exists i :: i in own && t[i].stamp == r.last)
  {
    hide Least, Greatest, StampsAt;
    var indices, stamps := IndicesOf(t, id), StampsAt(t, IndicesOf(t, id));
    var own := Where(t, (e: Event) => e.episode == Some(id.episode) && e.generation == id.generation);
    TallyIsNumber(t, BelongsTo(id));
    assert own == Where(t, BelongsTo(id));
    IndicesAreAll(t, id);
    forall i | i in own && t[i].stamp.Some? ensures t[i].stamp.value in stamps {
      StampsAtExactly(t, indices, t[i].stamp.value);
    }
    if stamps != [] {
      StampsAtExactly(t, indices, Least(stamps));
      StampsAtExactly(t, indices, Greatest(stamps));
    }
  }

  lemma StampEnds(t: seq<Event>, indices: seq<nat>)
    requires InTime(t) && indices != [] && forall k :: 0 <= k < |indices| ==> indices[k] < |t|
    ensures var stamps, start, end := StampsAt(t, indices), Least(indices), Greatest(indices);
            && start < |t| && end < |t|
            && (stamps != [] <==> exists i :: i in indices && t[i].stamp.Some?)
            && (stamps != [] ==> t[start].stamp == Some(Least(stamps)))
            && (stamps != [] && t[end].stamp.Some? ==> t[end].stamp == Some(Greatest(stamps)))
  {
    hide Least, Greatest, StampsAt, InTime;
    var stamps, start, end := StampsAt(t, indices), Least(indices), Greatest(indices);
    forall i | i in indices && t[i].stamp.Some? ensures t[i].stamp.value in stamps {
      StampsAtExactly(t, indices, t[i].stamp.value);
    }
    if stamps != [] {
      StampsAtExactly(t, indices, Least(stamps));
      StampsAtExactly(t, indices, Greatest(stamps));
      var i :| i in indices && t[i].stamp == Some(Least(stamps));
      var j :| j in indices && t[j].stamp == Some(Greatest(stamps));
      NoLaterThan(t, start, i);
      if t[end].stamp.Some? {
        NoLaterThan(t, j, end);
      }
    }
  }

  lemma NoLaterThan(t: seq<Event>, i: nat, j: nat)
    requires InTime(t) && i <= j < |t| && t[j].stamp.Some?
    ensures t[i].stamp.Some? && t[i].stamp.value <= t[j].stamp.value
  {
  }

  ghost function Identities(t: seq<Event>): set<Identity> {
    set e | e in t && e.episode.Some? :: Identity(e.episode.value, e.generation)
  }

  ghost function SumOfCounts(t: seq<Event>, ids: set<Identity>): nat {
    if ids == {} then 0
    else var id :| id in ids; |IndicesOf(t, id)| + SumOfCounts(t, ids - {id})
  }

  ghost function BelongsToSome(ids: set<Identity>): Event -> bool {
    (e: Event) => e.episode.Some? && Identity(e.episode.value, e.generation) in ids
  }

  lemma {:induction false} TallySplits(t: seq<Event>, p: Event -> bool, q: Event -> bool, r: Event -> bool)
    requires forall e :: (r(e) <==> p(e) || q(e)) && !(p(e) && q(e))
    ensures Tally(t, r) == Tally(t, p) + Tally(t, q)
  {
    if t != [] {
      TallySplits(t[..|t| - 1], p, q, r);
    }
  }

  lemma {:induction false} CountsOfSomeIdentities(t: seq<Event>, ids: set<Identity>)
    ensures SumOfCounts(t, ids) == Tally(t, BelongsToSome(ids))
  {
    if ids == {} {
      NoneTallied(t, BelongsToSome(ids));
    } else {
      var id :| id in ids && SumOfCounts(t, ids) == |IndicesOf(t, id)| + SumOfCounts(t, ids - {id});
      CountsOfSomeIdentities(t, ids - {id});
      TallySplits(t, BelongsTo(id), BelongsToSome(ids - {id}), BelongsToSome(ids));
      assert |IndicesOf(t, id)| == Tally(t, BelongsTo(id));
      assert Tally(t, BelongsToSome(ids)) == |IndicesOf(t, id)| + SumOfCounts(t, ids - {id});
    }
  }

  lemma {:induction false} NoneTallied(t: seq<Event>, p: Event -> bool)
    requires forall e :: e in t ==> !p(e)
    ensures Tally(t, p) == 0
  {
    if t != [] {
      assert t[|t| - 1] in t;
      NoneTallied(t[..|t| - 1], p);
    }
  }

  lemma {:induction false} AllTallied(t: seq<Event>, p: Event -> bool)
    requires forall e :: e in t ==> p(e)
    ensures Tally(t, p) == |t|
  {
    if t != [] {
      assert t[|t| - 1] in t;
      AllTallied(t[..|t| - 1], p);
    }
  }

  /** Per-episode counts and unidentified events add up to the whole timeline. */
  lemma RangeAccounting(t: seq<Event>)
    ensures SumOfCounts(t, Identities(t)) + Tally(t, Unidentified()) == |t|
  {
    var known: Event -> bool := BelongsToSome(Identities(t));
    CountsOfSomeIdentities(t, Identities(t));
    KnownOrUnidentified(t, Identities(t), t);
  }

  lemma {:induction false} KnownOrUnidentified(t: seq<Event>, ids: set<Identity>, whole: seq<Event>)
    requires ids == Identities(whole) && forall e :: e in t ==> e in whole
    ensures Tally(t, BelongsToSome(ids)) + Tally(t, Unidentified()) == |t|
  {
    if t != [] {
      assert t[|t| - 1] in whole;
      KnownOrUnidentified(t[..|t| - 1], ids, whole);
    }
  }

  // ---------- the code that mutates events ----------

  lemma NoAnchorForNone(es: seq<Event>)
    ensures Anchor(es, Field.Snapshot, None) == None && Anchor(es, Field.Request, None) == None
  {
  }

  class EventCandidate {
    const ordinal: int
    const path: string
    const line: int
    const episode: Option<string>
    const generation: Option<int>
    const request: Option<string>
    const snapshot: Option<string>
    const explicit: bool
    var stamp: Option<int>
    var alignment: Option<Via>

    constructor (e: Event)
      ensures View() == e
    {
      ordinal, path, line := e.ordinal, e.path, e.line;
      episode, generation, request, snapshot := e.episode, e.generation, e.request, e.snapshot;
      explicit, stamp, alignment := e.explicit, e.stamp, e.via;
    }

    function View(): Event
      reads this
    {
      Event(ordinal, path, line, episode, generation, request, snapshot, explicit, stamp, alignment)
    }

    /** The body of the alignment loop. */
    method Inherit(snapshots: map<string, int>, requests: map<string, int>, ghost es: seq<Event>)
      requires Holds(snapshots, es, Field.Snapshot) && Holds(requests, es, Field.Request)
      modifies this
      ensures View() == AlignOne(es, old(View()))
    {
      hide StampsOf, Anchor;
      NoAnchorForNone(es);
      if stamp.Some? { return; }
      if snapshot.Some? && snapshot.value in snapshots {
        stamp := Some(snapshots[snapshot.value]);
        alignment := Some(UniqueSnapshotId);
      } else if request.Some? && request.value in requests {
        stamp := Some(requests[request.value]);
        alignment := Some(UniqueRequestId);
      }
    }
  }

  function Views(events: seq<EventCandidate>): (r: seq<Event>)
    reads events
    ensures |r| == |events| && forall i :: 0 <= i < |events| ==> r[i] == events[i].View()
  {
    seq(|events|, i requires 0 <= i < |events| reads events => events[i].View())
  }

  ghost predicate Holds(anchors: map<string, int>, es: seq<Event>, field: Field) {
    forall id :: Anchor(es, field, Some(id)) == if id in anchors then Some(anchors[id]) else None
  }

  ghost predicate Observed(observed: map<string, set<int>>, es: seq<Event>, field: Field) {
    forall id :: StampsOf(es, field, id) == if id in observed then observed[id] else {}
  }

  /** Collects the stamps per identity, then keeps the identities with a single stamp. */
  method UniqueAnchor(es: seq<Event>, field: Field) returns (anchors: map<string, int>)
    ensures Holds(anchors, es, field)
  {
    hide StampsOf, Anchor;
    var observed: map<string, set<int>> := map[];
    NothingObserved(field);
    for i := 0 to |es|
      invariant Observed(observed, es[..i], field)
    {
      var e := es[i];
      assert es[..i + 1] == es[..i] + [e];
      var identity := field.Of(e);
      forall id { StampsGrow(es[..i], e, field, id); }
      if identity.Some? && e.stamp.Some? {
        var id := identity.value;
        observed := observed[id := (if id in observed then observed[id] else {}) + {e.stamp.value}];
      }
    }
    assert es[..|es|] == es;
    anchors := SingleStamps(observed);
    SingletonsAreAnchors(observed, anchors, es, field);
  }

  lemma SingletonsAreAnchors(observed: map<string, set<int>>, anchors: map<string, int>, es: seq<Event>, field: Field)
    requires Observed(observed, es, field)
    requires forall id :: id in anchors <==> id in observed && |observed[id]| == 1
    requires forall id :: id in anchors ==> observed[id] == {anchors[id]}
    ensures Holds(anchors, es, field)
  {
    forall id ensures Anchor(es, field, Some(id)) == if id in anchors then Some(anchors[id]) else None {
      SingletonExactly(StampsOf(es, field, id));
    }
  }

  method SingleStamps(observed: map<string, set<int>>) returns (anchors: map<string, int>)
    ensures forall id :: id in anchors <==> id in observed && |observed[id]| == 1
    ensures forall id :: id in anchors ==> observed[id] == {anchors[id]}
  {
    anchors := map[];
    var ids := observed.Keys;
    while ids != {}
      invariant ids <= observed.Keys
      invariant forall id :: id in anchors ==> id in observed && observed[id] == {anchors[id]}
      invariant forall id :: id in observed && id !in ids && |observed[id]| == 1 ==> id in anchors
      decreases |ids|
    {
      var id :| id in ids;
      ids := ids - {id};
      SingletonExactly(observed[id]);
      if |observed[id]| == 1 {
        var stamp :| stamp in observed[id];
        anchors := anchors[id := stamp];
      }
    }
  }

  lemma NothingObserved(field: Field)
    ensures Observed(map[], [], field)
  {
  }

  lemma StampsGrow(es: seq<Event>, e: Event, field: Field, id: string)
    ensures StampsOf(es + [e], field, id)
              == StampsOf(es, field, id) + if field.Of(e) == Some(id) && e.stamp.Some? then {e.stamp.value} else {}
  {
  }

  /** Stamps the events in place, one after the other, from anchors taken before any was changed. */
  method Align(events: seq<EventCandidate>)
    requires forall i, j :: 0 <= i < j < |events| ==> events[i] != events[j]
    modifies events
    ensures Views(events) == Aligned(old(Views(events)))
  {
    hide AlignOne, Holds;
    var es := Views(events);
    var snapshots := UniqueAnchor(es, Snapshot);
    var requests := UniqueAnchor(es, Request);
    for k := 0 to |events|
      invariant forall i :: 0 <= i < |events| ==> events[i].View() == if i < k then AlignOne(es, es[i]) else es[i]
    {
      events[k].Inherit(snapshots, requests, es);
    }
    assert Views(events) == Aligned(es);
  }

  /** Collects the positions per identity in one pass, then reports a range for each. */
  method PerEpisodeRanges(t: seq<Event>) returns (ranges: map<Identity, Range>)
    ensures ranges.Keys == Identities(t)
    ensures forall id :: id in ranges ==> IndicesOf(t, id) != [] && ranges[id] == RangeOf(t, id)
  {
    hide Identities, IndicesOf, RangeFrom, Indexed;
    var indices: map<Identity, seq<nat>> := map[];
    NothingIndexed();
    for i := 0 to |t|
      invariant Indexed(indices, t[..i])
    {
      assert t[..i + 1] == t[..i] + [t[i]];
      IndexOneMore(indices, t[..i], t[i]);
      if t[i].episode.Some? {
        var id := Identity(t[i].episode.value, t[i].generation);
        indices := indices[id := (if id in indices then indices[id] else []) + [i]];
      }
    }
    assert t[..|t|] == t;
    IndexedExactly(indices, t);
    ranges := map id | id in indices :: RangeFrom(t, indices[id]);
  }

  ghost predicate Indexed(indices: map<Identity, seq<nat>>, t: seq<Event>) {
    && indices.Keys == Identities(t)
    && (forall id :: IndicesOf(t, id) == if id in indices then indices[id] else [])
    && (forall id :: id in indices ==> indices[id] != [])
  }

  lemma IndexedExactly(indices: map<Identity, seq<nat>>, t: seq<Event>)
    requires Indexed(indices, t)
    ensures indices.Keys == Identities(t)
    ensures forall id :: id in indices ==> indices[id] != [] && indices[id] == IndicesOf(t, id)
  {
    hide Identities, IndicesOf;
  }

  lemma NothingIndexed()
    ensures Indexed(map[], [])
  {
  }

  lemma IndexOneMore(indices: map<Identity, seq<nat>>, t: seq<Event>, e: Event)
    requires Indexed(indices, t)
    ensures e.episode.None? ==> Indexed(indices, t + [e])
    ensures e.episode.Some? ==>
              var id := Identity(e.episode.value, e.generation);
              Indexed(indices[id := (if id in indices then indices[id] else []) + [|t|]], t + [e])
  {
    hide Identities, IndicesOf, Belongs;
    forall id { IndicesSnoc(t, e, id); }
    OneMoreIdentity(t, e);
    BelongsExactly(e);
  }

  lemma BelongsExactly(e: Event)
    ensures forall id :: Belongs(e, id) <==> e.episode.Some? && id == Identity(e.episode.value, e.generation)
  {
  }

  lemma IndicesSnoc(t: seq<Event>, e: Event, id: Identity)
    ensures IndicesOf(t + [e], id) == IndicesOf(t, id) + (if Belongs(e, id) then [|t|] else [])
  {
    assert (t + [e])[..|t|] == t;
  }

  lemma OneMoreIdentity(t: seq<Event>, e: Event)
    ensures Identities(t + [e]) == Identities(t) + if e.episode.Some? then {Identity(e.episode.value, e.generation)} else {}
  {
    assert Identities([e]) == if e.episode.Some? then {Identity(e.episode.value, e.generation)} else {} by {
      assert e in [e];
    }
    assert Identities(t + [e]) == Identities(t) + Identities([e]) by {
      assert forall f :: f in t + [e] <==> f in t || f in [e];
    }
  }
}
