/** Burst compression of STOP candidates in scripts/analyze_t5_stop_shadows.py. */
module StopBursts {
  import opened Wrappers
  import opened Sequences
  import opened Sorting

  /** A candidate frame: episode, reset generation, sequence id. */
  datatype Key = Key(episode: string, generation: int, sequence: int) {
    function Gen(): Generation { Generation(episode, generation) }
    function Before(): Key { Key(episode, generation, sequence - 1) }
    function After(): Key { Key(episode, generation, sequence + 1) }
  }

  datatype Generation = Generation(episode: string, generation: int)

  predicate KeyLe(a: Key, b: Key) {
    if a.episode != b.episode then LexLe(a.episode, b.episode, CharLess)
    else if a.generation != b.generation then a.generation < b.generation
    else a.sequence <= b.sequence
  }

  lemma KeyLeOrders(s: seq<Key>)
    ensures Orders(s, KeyLe)
  {
    forall a, b | a in s && b in s ensures KeyLe(a, b) || KeyLe(b, a) ensures KeyLe(a, b) && KeyLe(b, a) ==> a == b {
      LexTotal(a.episode, b.episode, CharLess);
    }
    forall a, b, c | a in s && b in s && c in s && KeyLe(a, b) && KeyLe(b, c) ensures KeyLe(a, c) {
      LexTotal(a.episode, b.episode, CharLess);
      if a.episode != b.episode && b.episode != c.episode {
        LexTransitive(a.episode, b.episode, c.episode, CharLess);
      }
    }
  }

  /** Between two keys of one generation lie only keys of that generation. */
  lemma GenerationsAreContiguous(a: Key, b: Key, c: Key)
    requires KeyLe(a, b) && KeyLe(b, c) && a.Gen() == c.Gen()
    ensures b.Gen() == a.Gen() && a.sequence <= b.sequence <= c.sequence
  {
    LexTotal(a.episode, b.episode, CharLess);
  }

  // ---------- sorted(set(candidates)) ----------

  function Dedup(s: seq<Key>): seq<Key> {
    if s == [] then [] else if s[0] in s[1..] then Dedup(s[1..]) else [s[0]] + Dedup(s[1..])
  }

  function Unique(candidates: seq<Key>): seq<Key> { Sort(Dedup(candidates), KeyLe) }

  lemma {:induction false} DedupExactly(s: seq<Key>)
    ensures Distinct(Dedup(s)) && Elements(Dedup(s)) == Elements(s)
  {
    if s != [] {
      DedupExactly(s[1..]);
      assert s == [s[0]] + s[1..];
      assert Elements(s) == {s[0]} + Elements(s[1..]);
      var d := Dedup(s[1..]);
      assert forall x :: x in d <==> x in Elements(s[1..]);
      assert Elements([s[0]] + d) == {s[0]} + Elements(d);
    }
  }

  /** Strictly ascending: sorted and without repetitions. */
  ghost predicate Ascending(s: seq<Key>) { Sorted(s, KeyLe) && Distinct(s) }

  lemma UniqueExactly(candidates: seq<Key>)
    ensures Ascending(Unique(candidates)) && Elements(Unique(candidates)) == Elements(candidates)
  {
    var d := Dedup(candidates);
    DedupExactly(candidates);
    KeyLeOrders(d);
    SortSorts(d, KeyLe);
    SortKeepsElements(d, KeyLe);
    SameElements(Unique(candidates), d);
    SameElements(d, Unique(candidates));
    assert forall x :: x in Unique(candidates) <==> x in d;
    assert forall x :: x in d <==> x in Elements(d);
  }

  lemma {:induction false} DistinctSameMultiset(a: seq<Key>, b: seq<Key>)
    requires Distinct(a) && Distinct(b) && Elements(a) == Elements(b)
    ensures multiset(a) == multiset(b)
  {
    DistinctCounts(a);
    DistinctCounts(b);
    forall x ensures multiset(a)[x] == multiset(b)[x] {
      assert x in multiset(a) <==> x in Elements(a);
      assert x in multiset(b) <==> x in Elements(b);
    }
  }

  /** Order and repetitions of the candidates do not matter. */
  lemma UniqueIgnoresOrderAndRepetition(a: seq<Key>, b: seq<Key>)
    requires Elements(a) == Elements(b)
    ensures Unique(a) == Unique(b)
  {
    DedupExactly(a);
    DedupExactly(b);
    DistinctSameMultiset(Dedup(a), Dedup(b));
    KeyLeOrders(Dedup(a));
    SortIgnoresOrder(Dedup(a), Dedup(b), KeyLe);
  }

  /** Ascending order read on the keys: episodes as strings, then generations, then sequence ids. */
  lemma UniqueIsInOrder(candidates: seq<Key>, i: nat, j: nat)
    requires i < j < |Unique(candidates)|
    ensures var a, b := Unique(candidates)[i], Unique(candidates)[j];
            if a.episode != b.episode then Precedes(a.episode, b.episode)
            else if a.generation != b.generation then a.generation < b.generation
            else a.sequence < b.sequence
  {
    UniqueExactly(candidates);
    var a, b := Unique(candidates)[i], Unique(candidates)[j];
    assert a != b && KeyLe(a, b);
    StringsCompare(a.episode, b.episode);
  }

  // ---------- bursts as run-length encoding ----------

  function Last<T>(s: seq<T>): T
    requires s != []
  {
    s[|s| - 1]
  }

  /** The bursts closed so far and the one still growing. */
  datatype Scan = Scan(closed: seq<seq<Key>>, current: seq<Key>) {
    function Add(k: Key): Scan {
      if current != [] && k != Last(current).After() then Scan(closed + [current], [k])
      else Scan(closed, current + [k])
    }

    function All(): seq<seq<Key>> { if current == [] then closed else closed + [current] }
  }

  function ScanOf(keys: seq<Key>): Scan {
    if keys == [] then Scan([], []) else ScanOf(keys[..|keys| - 1]).Add(Last(keys))
  }

  /** The keys cut wherever a key is not the successor of the one before it. */
  function Bursts(keys: seq<Key>): seq<seq<Key>> { ScanOf(keys).All() }

  function Flatten(b: seq<seq<Key>>): seq<Key> {
    if b == [] then [] else Flatten(b[..|b| - 1]) + Last(b)
  }

  /** A contiguous run of one generation. */
  ghost predicate IsRun(r: seq<Key>) {
    r != [] && forall i, j :: 0 <= i && i + 1 == j && j < |r| ==> r[j] == r[i].After()
  }

  /** The frames of a run have one episode, one generation and sequence ids that count up by one. */
  lemma {:induction false} RunCountsUp(r: seq<Key>, j: nat)
    requires IsRun(r) && j < |r|
    ensures r[j] == Key(r[0].episode, r[0].generation, r[0].sequence + j)
  {
    if j > 0 {
      RunCountsUp(r, j - 1);
      assert r[j] == r[j - 1].After();
    }
  }

  /** `r` does not continue the last of the bursts. */
  ghost predicate Apart(b: seq<seq<Key>>, r: seq<Key>) {
    b != [] && Last(b) != [] && r != [] ==> r[0] != Last(Last(b)).After()
  }

  /** Runs, no two neighbours of which could be joined. */
  ghost predicate AreBursts(b: seq<seq<Key>>) {
    b == [] || (AreBursts(b[..|b| - 1]) && IsRun(Last(b)) && Apart(b[..|b| - 1], Last(b)))
  }

  lemma {:induction false} BurstsAreApart(b: seq<seq<Key>>, i: nat)
    requires AreBursts(b) && i < |b|
    ensures IsRun(b[i]) && (i + 1 < |b| ==> IsRun(b[i + 1]) && b[i + 1][0] != Last(b[i]).After())
  {
    var front := b[..|b| - 1];
    if i < |front| {
      BurstsAreApart(front, i);
    }
    if i + 1 == |front| {
      assert Last(front) == b[i];
    }
  }

  lemma ExtendRun(r: seq<Key>, k: Key)
    requires IsRun(r)
    ensures k == Last(r).After() ==> IsRun(r + [k])
    ensures IsRun([k]) && (r + [k])[0] == r[0]
  {
  }

  lemma ShortenRun(r: seq<Key>)
    requires IsRun(r) && |r| > 1
    ensures IsRun(r[..|r| - 1]) && Last(r) == Last(r[..|r| - 1]).After()
  {
  }

  lemma FlattenSnoc(b: seq<seq<Key>>, r: seq<Key>)
    ensures Flatten(b + [r]) == Flatten(b) + r
  {
    assert (b + [r])[..|b|] == b;
  }

  lemma AreBurstsSnoc(b: seq<seq<Key>>, r: seq<Key>)
    ensures AreBursts(b + [r]) <==> AreBursts(b) && IsRun(r) && Apart(b, r)
  {
    assert (b + [r])[..|b|] == b;
  }

  lemma ScanSnoc(init: seq<Key>, k: Key)
    ensures ScanOf(init + [k]) == ScanOf(init).Add(k)
  {
    assert (init + [k])[..|init|] == init;
  }

  /** What the scan keeps: closed bursts and a run in progress, together all keys so far. */
  ghost predicate Scanned(keys: seq<Key>, p: Scan) {
    && Flatten(p.closed) + p.current == keys && AreBursts(p.closed) && Apart(p.closed, p.current)
    && (if keys == [] then p == Scan([], []) else IsRun(p.current) && Last(p.current) == Last(keys))
  }

  lemma AddScanned(init: seq<Key>, p: Scan, k: Key)
    requires Scanned(init, p)
    ensures Scanned(init + [k], p.Add(k))
  {
    if init != [] {
      ExtendRun(p.current, k);
      FlattenSnoc(p.closed, p.current);
      AreBurstsSnoc(p.closed, p.current);
      assert Last(p.closed + [p.current]) == p.current;
    }
  }

  lemma {:induction false} ScanIsScanned(keys: seq<Key>)
    ensures Scanned(keys, ScanOf(keys))
  {
    if keys != [] {
      hide Scanned;
      ScanIsScanned(keys[..|keys| - 1]);
      assert keys == keys[..|keys| - 1] + [Last(keys)];
      AddScanned(keys[..|keys| - 1], ScanOf(keys[..|keys| - 1]), Last(keys));
    }
  }

  /** Concatenating the bursts gives back exactly the keys; each is a run and no two can be joined. */
  lemma BurstsAreLossless(keys: seq<Key>)
    ensures Flatten(Bursts(keys)) == keys && AreBursts(Bursts(keys))
  {
    ScanIsScanned(keys);
    var p := ScanOf(keys);
    if keys != [] {
      FlattenSnoc(p.closed, p.current);
      AreBurstsSnoc(p.closed, p.current);
    }
  }

  lemma {:induction false} ScanOfBursts(front: seq<seq<Key>>, r: seq<Key>)
    requires AreBursts(front) && IsRun(r) && Apart(front, r)
    ensures ScanOf(Flatten(front) + r) == Scan(front, r)
    decreases |front|, |r|
  {
    hide IsRun, ScanOf, Flatten, AreBursts, Apart;
    RunIsNotEmpty(r);
    var k, s := Last(r), r[..|r| - 1];
    assert r == s + [k];
    if s != [] {
      ShortenRun(r);
      ApartByFirst(front, r, s);
      ScanOfBursts(front, s);
      assert Flatten(front) + r == (Flatten(front) + s) + [k];
      ScanSnoc(Flatten(front) + s, k);
    } else if front != [] {
      var front', r' := front[..|front| - 1], Last(front);
      assert front == front' + [r'];
      AreBurstsSnoc(front', r');
      RunIsNotEmpty(r');
      ScanOfBursts(front', r');
      FlattenSnoc(front', r');
      ApartMeans(front, r);
      ScanSnoc(Flatten(front), k);
    } else {
      FirstScan(k);
    }
  }

  lemma FirstScan(k: Key)
    ensures ScanOf(Flatten([]) + [k]) == Scan([], [k])
  {
    ScanSnoc([], k);
    assert Flatten([]) + [k] == [] + [k];
  }

  lemma RunIsNotEmpty(r: seq<Key>)
    requires IsRun(r)
    ensures r != []
  {
  }

  lemma ApartByFirst(b: seq<seq<Key>>, r: seq<Key>, s: seq<Key>)
    requires Apart(b, r) && r != [] && s != [] && r[0] == s[0]
    ensures Apart(b, s)
  {
  }

  lemma ApartMeans(b: seq<seq<Key>>, r: seq<Key>)
    requires Apart(b, r) && b != [] && Last(b) != [] && r != []
    ensures r[0] != Last(Last(b)).After()
  {
  }

  /** There is no other way to cut the keys into bursts. */
  lemma BurstsAreUnique(b: seq<seq<Key>>)
    requires AreBursts(b)
    ensures Bursts(Flatten(b)) == b
  {
    if b != [] {
      var front, r := b[..|b| - 1], Last(b);
      assert b == front + [r];
      FlattenSnoc(front, r);
      ScanOfBursts(front, r);
    }
  }

  // ---------- bursts of a set of candidates ----------

  lemma Earlier(keys: seq<Key>, i: nat, j: nat)
    requires Ascending(keys) && i < |keys| && j < |keys| && KeyLe(keys[j], keys[i]) && keys[i] != keys[j]
    ensures j < i
  {
    LexTotal(keys[i].episode, keys[j].episode, CharLess);
  }

  /** In a strictly ascending list a key's predecessor, if present, stands right before it. */
  lemma NeighboursStandTogether(keys: seq<Key>, i: nat)
    requires Ascending(keys) && i < |keys|
    ensures keys[i].Before() in keys <==> i > 0 && keys[i] == keys[i - 1].After()
  {
    if keys[i].Before() in keys {
      var j :| 0 <= j < |keys| && keys[j] == keys[i].Before();
      Earlier(keys, i, j);
      if j < i - 1 {
        GenerationsAreContiguous(keys[j], keys[i - 1], keys[i]);
      }
    }
    assert i > 0 && keys[i] == keys[i - 1].After() ==> keys[i - 1] == keys[i].Before();
  }

  lemma SuccessorStandsNext(keys: seq<Key>, p: nat)
    requires Ascending(keys) && p < |keys|
    ensures keys[p].After() in keys <==> p + 1 < |keys| && keys[p + 1] == keys[p].After()
  {
    if keys[p].After() in keys {
      var j :| 0 <= j < |keys| && keys[j] == keys[p].After();
      assert keys[j].Before() == keys[p];
      NeighboursStandTogether(keys, j);
      assert keys[j - 1] == keys[p];
    }
  }

  /** The first keys of the bursts. */
  function Onsets(b: seq<seq<Key>>): seq<Key> {
    if b == [] then [] else Onsets(b[..|b| - 1]) + Last(b)[..if Last(b) == [] then 0 else 1]
  }

  lemma OnsetsSnoc(b: seq<seq<Key>>, r: seq<Key>)
    requires r != []
    ensures Onsets(b + [r]) == Onsets(b) + [r[0]]
  {
    assert (b + [r])[..|b|] == b;
  }

  lemma {:induction false} OnsetAt(b: seq<seq<Key>>, i: nat)
    requires AreBursts(b) && i < |b|
    ensures |Onsets(b)| == |b| && b[i] != [] && Onsets(b)[i] == b[i][0]
  {
    var front := b[..|b| - 1];
    if i < |front| {
      OnsetAt(front, i);
    } else if front != [] {
      OnsetAt(front, 0);
    }
  }

  /** The keys that do not continue the one before them. */
  function Heads(keys: seq<Key>): seq<Key> {
    if keys == [] then []
    else
      var init, k := keys[..|keys| - 1], Last(keys);
      if init != [] && k == Last(init).After() then Heads(init) else Heads(init) + [k]
  }

  lemma {:induction false} HeadsOfScan(keys: seq<Key>)
    requires keys != []
    ensures var p := ScanOf(keys); p.current != [] && Heads(keys) == Onsets(p.closed) + [p.current[0]]
  {
    hide Scanned, Onsets;
    var init, k := keys[..|keys| - 1], Last(keys);
    var p := ScanOf(init);
    if init == [] {
      NoOnsets();
    } else {
      HeadsOfScan(init);
      ScanEnds(init);
      OnsetsSnoc(p.closed, p.current);
    }
  }

  lemma NoOnsets()
    ensures Onsets([]) == []
  {
  }

  lemma ScanEnds(keys: seq<Key>)
    requires keys != []
    ensures ScanOf(keys).current != [] && Last(ScanOf(keys).current) == Last(keys)
  {
    ScanIsScanned(keys);
  }

  lemma HeadsAreOnsets(keys: seq<Key>)
    ensures Onsets(Bursts(keys)) == Heads(keys) && |Heads(keys)| == |Bursts(keys)|
  {
    var p, b := ScanOf(keys), Bursts(keys);
    if keys != [] {
      HeadsOfScan(keys);
      OnsetsSnoc(p.closed, p.current);
      BurstsAreLossless(keys);
      OnsetAt(b, 0);
    }
  }

  /** They are exactly the keys whose predecessor is not a candidate, each once. */
  lemma {:induction false} HeadsExactly(keys: seq<Key>, n: nat)
    requires Ascending(keys) && n <= |keys|
    ensures Distinct(Heads(keys[..n]))
    ensures forall k :: k in Heads(keys[..n]) <==> k in keys[..n] && k.Before() !in keys
  {
    hide Ascending, Distinct;
    if n == 0 {
      NoHeads();
    } else {
      var m := n - 1;
      var init, k := keys[..m], keys[m];
      HeadsExactly(keys, m);
      assert keys[..n] == init + [k] && keys[..n][..m] == init;
      NeighboursStandTogether(keys, m);
      NotYetSeen(keys, m);
      AppendDistinct(Heads(init), k);
    }
  }

  lemma NoHeads()
    ensures Distinct(Heads([]))
  {
  }

  lemma NotYetSeen(keys: seq<Key>, m: nat)
    requires Ascending(keys) && m < |keys|
    ensures keys[m] !in keys[..m]
  {
  }

  /** The number of bursts is the number of candidates whose predecessor is not a candidate. */
  lemma BurstCount(candidates: seq<Key>)
    ensures |Bursts(Unique(candidates))|
              == |set k | k in Elements(candidates) && k.Before() !in Elements(candidates)|
  {
    hide Unique, Bursts;
    var keys := Unique(candidates);
    UniqueExactly(candidates);
    UniqueMembers(candidates);
    HeadsExactly(keys, |keys|);
    HeadsAreOnsets(keys);
    assert keys[..|keys|] == keys;
    var heads := set k | k in Elements(candidates) && k.Before() !in Elements(candidates);
    assert Elements(Heads(keys)) == heads;
    DistinctSize(Heads(keys));
  }

  lemma {:induction false} DistinctSize(s: seq<Key>)
    requires Distinct(s)
    ensures |Elements(s)| == |s|
  {
    if s != [] {
      DistinctSize(s[1..]);
      assert s == [s[0]] + s[1..];
      assert Elements(s) == {s[0]} + Elements(s[1..]) && s[0] !in Elements(s[1..]);
    }
  }

  lemma {:induction false} FlattenMembers(b: seq<seq<Key>>, k: Key)
    ensures k in Flatten(b) <==> exists i :: 0 <= i < |b| && k in b[i]
  {
    if b != [] {
      FlattenMembers(b[..|b| - 1], k);
      assert forall i :: 0 <= i < |b| - 1 ==> b[..|b| - 1][i] == b[i];
    }
  }

  /** A burst cannot be extended: neither the frame before its first nor the frame after its last is a
      candidate. */
  lemma BurstsAreMaximal(candidates: seq<Key>, i: nat)
    requires i < |Bursts(Unique(candidates))|
    ensures var b := Bursts(Unique(candidates))[i];
            b != [] && b[0].Before() !in Elements(candidates) && Last(b).After() !in Elements(candidates)
  {
    hide Bursts, Unique, Ascending, AreBursts, Elements, Heads, Onsets;
    var keys := Unique(candidates);
    var bursts := Bursts(keys);
    UniqueExactly(candidates);
    UniqueMembers(candidates);
    BurstsAreLossless(keys);
    HeadsExactly(keys, |keys|);
    HeadsAreOnsets(keys);
    assert keys[..|keys|] == keys;
    OnsetAt(bursts, i);
    assert Onsets(bursts)[i] in Onsets(bursts);
    var p := BurstEnd(bursts, i);
    SuccessorStandsNext(keys, p);
  }

  lemma UniqueMembers(candidates: seq<Key>)
    ensures forall k :: k in Unique(candidates) <==> k in Elements(candidates)
  {
    UniqueExactly(candidates);
    assert forall k :: k in Unique(candidates) <==> k in Elements(Unique(candidates));
  }

  /** Where the i-th burst ends in the concatenation; what follows there does not continue it. */
  lemma BurstEnd(b: seq<seq<Key>>, i: nat) returns (p: nat)
    requires AreBursts(b) && i < |b|
    ensures b[i] != [] && p < |Flatten(b)| && Flatten(b)[p] == Last(b[i])
    ensures p + 1 < |Flatten(b)| ==> Flatten(b)[p + 1] != Last(b[i]).After()
  {
    BurstsAreApart(b, i);
    RunIsNotEmpty(b[i]);
    hide AreBursts, Flatten, IsRun;
    PieceOf(b, i);
    p := |Flatten(b[..i])| + |b[i]| - 1;
    if i + 1 < |b| {
      RunIsNotEmpty(b[i + 1]);
      PieceOf(b, i + 1);
    }
  }

  /** The i-th burst stands in the concatenation right after the ones before it. */
  lemma PieceOf(b: seq<seq<Key>>, i: nat)
    requires i < |b|
    ensures Flatten(b[..i + 1]) == Flatten(b[..i]) + b[i] && Flatten(b[..i + 1]) <= Flatten(b)
    ensures i + 1 == |b| ==> Flatten(b[..i + 1]) == Flatten(b)
  {
    hide Flatten;
    TakeOneMore(b, i);
    FlattenSnoc(b[..i], b[i]);
    FlattenPrefix(b, i + 1);
  }

  lemma {:induction false} FlattenPrefix(b: seq<seq<Key>>, n: nat)
    requires n <= |b|
    ensures Flatten(b[..n]) <= Flatten(b)
  {
    if n < |b| {
      FlattenPrefix(b[..|b| - 1], n);
      assert b[..|b| - 1][..n] == b[..n];
    } else {
      assert b[..n] == b;
    }
  }

  // ---------- labels ----------

  datatype Label = TruePositive | FalsePositive | Unresolved

  const OracleRadius := 2.5

  /** `active` maps a frame to its oracle distance, None when the row has no number there. */
  function Classify(active: map<Key, Option<real>>, k: Key): Label {
    if k !in active || active[k].None? then Unresolved
    else if active[k].value <= OracleRadius then TruePositive else FalsePositive
  }

  function Labelled(active: map<Key, Option<real>>, keys: seq<Key>, l: Label): nat {
    if keys == [] then 0
    else Labelled(active, keys[..|keys| - 1], l) + (if Classify(active, Last(keys)) == l then 1 else 0)
  }

  function LabelledFrames(active: map<Key, Option<real>>, b: seq<seq<Key>>, l: Label): nat {
    if b == [] then 0 else LabelledFrames(active, b[..|b| - 1], l) + Labelled(active, Last(b), l)
  }

  /** The frame's row gives a distance, and it is within the oracle radius of 2.5 m or beyond it. */
  predicate Near(active: map<Key, Option<real>>, k: Key) { k in active && active[k].Some? && active[k].value <= 2.5 }

  predicate Far(active: map<Key, Option<real>>, k: Key) { k in active && active[k].Some? && active[k].value > 2.5 }

  function Labels(active: map<Key, Option<real>>, l: Label): Key -> bool {
    (k: Key) => match l
                case TruePositive => Near(active, k)
                case FalsePositive => Far(active, k)
                case Unresolved => !Near(active, k) && !Far(active, k)
  }

  /** True positives are the frames within the radius, false positives those beyond it, and unresolved those
      without a distance; each label counts the places of its frames. */
  lemma {:induction false} LabelledExactly(active: map<Key, Option<real>>, keys: seq<Key>, l: Label)
    ensures Labelled(active, keys, l) == |Where(keys, Labels(active, l))|
  {
    if keys != [] {
      LabelledExactly(active, keys[..|keys| - 1], l);
      OneMorePlace(keys, Labels(active, l));
    }
  }

  lemma {:induction false} LabelledConcat(active: map<Key, Option<real>>, s: seq<Key>, t: seq<Key>, l: Label)
    ensures Labelled(active, s + t, l) == Labelled(active, s, l) + Labelled(active, t, l)
  {
    if t == [] {
      assert s + t == s;
    } else {
      var u := s + t;
      assert u[..|u| - 1] == s + t[..|t| - 1] && Last(u) == Last(t);
      LabelledConcat(active, s, t[..|t| - 1], l);
    }
  }

  lemma {:induction false} FramesOfBursts(active: map<Key, Option<real>>, b: seq<seq<Key>>, l: Label)
    ensures LabelledFrames(active, b, l) == Labelled(active, Flatten(b), l)
  {
    if b != [] {
      FramesOfBursts(active, b[..|b| - 1], l);
      LabelledConcat(active, Flatten(b[..|b| - 1]), Last(b), l);
    }
  }

  lemma {:induction false} LabelsPartition(active: map<Key, Option<real>>, keys: seq<Key>)
    ensures Labelled(active, keys, TruePositive) + Labelled(active, keys, FalsePositive)
              + Labelled(active, keys, Unresolved) == |keys|
  {
    if keys != [] {
      LabelsPartition(active, keys[..|keys| - 1]);
    }
  }

  /** Summed over all bursts, each label counts as many frames as it does among the unique candidates; the
      burst lengths add up to the candidates and the onset labels to the bursts. */
  lemma TotalsAreConserved(active: map<Key, Option<real>>, candidates: seq<Key>, l: Label)
    ensures var keys, b := Unique(candidates), Bursts(Unique(candidates));
            && LabelledFrames(active, b, l) == Labelled(active, keys, l)
            && LabelledFrames(active, b, TruePositive) + LabelledFrames(active, b, FalsePositive)
                 + LabelledFrames(active, b, Unresolved) == |keys|
            && |Heads(keys)| == |b|
            && Labelled(active, Heads(keys), TruePositive) + Labelled(active, Heads(keys), FalsePositive)
                 + Labelled(active, Heads(keys), Unresolved) == |b|
  {
    var keys := Unique(candidates);
    var b := Bursts(keys);
    BurstsAreLossless(keys);
    HeadsAreOnsets(keys);
    FramesOfBursts(active, b, l);
    FramesOfBursts(active, b, TruePositive);
    FramesOfBursts(active, b, FalsePositive);
    FramesOfBursts(active, b, Unresolved);
    LabelsPartition(active, keys);
    LabelsPartition(active, Heads(keys));
  }

  // ---------- the loops ----------

  /** The lists of a dictionary, in the order in which its keys were inserted. */
  function InOrder(order: seq<Generation>, groups: map<Generation, seq<Key>>): seq<Key>
    requires forall g :: g in order ==> g in groups
  {
    if order == [] then [] else InOrder(order[..|order| - 1], groups) + groups[Last(order)]
  }

  lemma {:induction false} InOrderElsewhere(order: seq<Generation>, groups: map<Generation, seq<Key>>, g: Generation, v: seq<Key>)
    requires (forall h :: h in order ==> h in groups) && g !in order
    ensures InOrder(order, groups[g := v]) == InOrder(order, groups)
  {
    if order != [] {
      InOrderElsewhere(order[..|order| - 1], groups, g, v);
    }
  }

  /** What the grouping loop keeps: generations in order, each with its own keys, together all keys so far. */
  ghost predicate Grouped(order: seq<Generation>, groups: map<Generation, seq<Key>>, keys: seq<Key>) {
    && Distinct(order) && (forall g :: g in groups <==> g in order)
    && (forall g :: g in groups ==> groups[g] != [] && forall k :: k in groups[g] ==> k.Gen() == g)
    && InOrder(order, groups) == keys
  }

  lemma GroupFacts(order: seq<Generation>, groups: map<Generation, seq<Key>>, keys: seq<Key>)
    requires Grouped(order, groups, keys)
    ensures forall g :: 0 <= g < |order| ==> order[g] in groups && groups[order[g]] != []
    ensures forall g, k :: 0 <= g < |order| && k in groups[order[g]] ==> k.Gen() == order[g]
    ensures forall g, h :: 0 <= g < h < |order| ==> order[g] != order[h]
    ensures InOrder(order, groups) == keys
  {
  }

  lemma EndOfGroups(order: seq<Generation>, groups: map<Generation, seq<Key>>, keys: seq<Key>, n: nat)
    requires Grouped(order, groups, keys) && 0 < n <= |order|
    ensures var part := InOrder(order[..n], groups); part != [] && Last(part).Gen() == order[n - 1]
  {
    assert Last(order[..n]) == order[n - 1];
  }

  lemma {:induction false} GroupMember(order: seq<Generation>, groups: map<Generation, seq<Key>>, g: Generation, k: Key)
    requires (forall h :: h in order ==> h in groups) && g in order && k in groups[g]
    ensures k in InOrder(order, groups)
  {
    if g != Last(order) {
      GroupMember(order[..|order| - 1], groups, g, k);
    }
  }

  /** A next key of a known generation belongs to the generation opened last. */
  lemma KnownGenerationIsLast(order: seq<Generation>, groups: map<Generation, seq<Key>>, unique: seq<Key>, i: nat)
    requires Ascending(unique) && i < |unique| && Grouped(order, groups, unique[..i]) && unique[i].Gen() in groups
    ensures order != [] && Last(order) == unique[i].Gen()
  {
    var g := unique[i].Gen();
    var k := groups[g][0];
    GroupMember(order, groups, g, k);
    var j :| 0 <= j < i && unique[j] == k;
    if j < i - 1 {
      GenerationsAreContiguous(unique[j], unique[i - 1], unique[i]);
    }
    EndOfGroups(order, groups, unique[..i], |order|);
    assert order[..|order|] == order;
  }

  lemma AddToLastGroup(order: seq<Generation>, groups: map<Generation, seq<Key>>, keys: seq<Key>, key: Key)
    requires Grouped(order, groups, keys) && order != [] && Last(order) == key.Gen()
    ensures Grouped(order, groups[key.Gen() := groups[key.Gen()] + [key]], keys + [key])
  {
    var g, front := key.Gen(), order[..|order| - 1];
    InOrderElsewhere(front, groups, g, groups[g] + [key]);
  }

  lemma OpenGroup(order: seq<Generation>, groups: map<Generation, seq<Key>>, keys: seq<Key>, key: Key)
    requires Grouped(order, groups, keys) && key.Gen() !in groups
    ensures Grouped(order + [key.Gen()], groups[key.Gen() := [key]], keys + [key])
  {
    hide InOrder, Distinct;
    var g := key.Gen();
    InOrderElsewhere(order, groups, g, [key]);
    InOrderSnoc(order, g, groups[g := [key]]);
    AppendDistinct(order, g);
  }

  lemma InOrderSnoc(order: seq<Generation>, g: Generation, groups: map<Generation, seq<Key>>)
    requires g in groups && forall h :: h in order ==> h in groups
    ensures InOrder(order + [g], groups) == InOrder(order, groups) + groups[g]
  {
    assert (order + [g])[..|order|] == order;
  }

  /** The scan after the last key of a generation, and its growing burst closed. */
  lemma CloseGroup(done: seq<Key>, k: Key)
    requires done != [] ==> Last(done).Gen() != k.Gen()
    ensures ScanOf(done).Add(k) == Scan(Bursts(done), [k])
  {
    ScanIsScanned(done);
  }

  /** The inner loop: cuts the keys of one generation, after bursts that end in another one. */
  method CutGroup(keys: seq<Key>, before: seq<seq<Key>>, ghost done: seq<Key>) returns (bursts: seq<seq<Key>>)
    requires keys != [] && before == Bursts(done)
    requires forall k, l :: k in keys && l in keys ==> k.Gen() == l.Gen()
    requires done != [] ==> Last(done).Gen() != keys[0].Gen()
    ensures bursts == Bursts(done + keys)
  {
    hide ScanOf;
    CloseGroup(done, keys[0]);
    bursts := before;
    var current: seq<Key> := [];
    for k := 0 to |keys|
      invariant if k == 0 then current == [] && bursts == before
                else Scan(bursts, current) == ScanOf(done + keys[..k]) && current != [] && Last(current) == keys[k - 1]
    {
      var key := keys[k];
      assert done + keys[..k + 1] == (done + keys[..k]) + [key] && done + keys[..0] == done;
      assert [] + [key] == [key] && key in keys && (k > 0 ==> keys[k - 1] in keys);
      ScanSnoc(done + keys[..k], key);
      if current != [] && key.sequence != Last(current).sequence + 1 {
        bursts := bursts + [current];
        current := [];
      }
      current := current + [key];
    }
    if current != [] {
      bursts := bursts + [current];
    }
    assert keys[..|keys|] == keys;
  }

  /** Groups the unique candidates by generation, then cuts every group into bursts. */
  method TemporalBursts(candidates: seq<Key>) returns (bursts: seq<seq<Key>>)
    ensures bursts == Bursts(Unique(candidates))
  {
    hide Bursts, Unique, Ascending, Grouped;
    var unique := Unique(candidates);
    UniqueExactly(candidates);
    var order, groups := GroupByGeneration(unique);
    GroupFacts(order, groups, unique);
    bursts := [];
    NoBursts();
    for g := 0 to |order|
      invariant bursts == Bursts(InOrder(order[..g], groups))
    {
      if g > 0 { EndOfGroups(order, groups, unique, g); }
      assert order[..g + 1][..g] == order[..g] && Last(order[..g + 1]) == order[g];
      bursts := CutGroup(groups[order[g]], bursts, InOrder(order[..g], groups));
    }
    assert order[..|order|] == order;
  }

  lemma NoBursts()
    ensures Bursts([]) == []
  {
  }

  method GroupByGeneration(unique: seq<Key>) returns (order: seq<Generation>, groups: map<Generation, seq<Key>>)
    requires Ascending(unique)
    ensures Grouped(order, groups, unique)
  {
    order, groups := [], map[];
    for i := 0 to |unique|
      invariant Grouped(order, groups, unique[..i])
    {
      var key := unique[i];
      assert unique[..i + 1] == unique[..i] + [key];
      if key.Gen() !in groups {
        OpenGroup(order, groups, unique[..i], key);
        order := order + [key.Gen()];
        groups := groups[key.Gen() := [key]];
      } else {
        KnownGenerationIsLast(order, groups, unique, i);
        AddToLastGroup(order, groups, unique[..i], key);
        groups := groups[key.Gen() := groups[key.Gen()] + [key]];
      }
    }
    assert unique[..|unique|] == unique;
  }
}
