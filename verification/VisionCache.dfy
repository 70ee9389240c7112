/** Ordered dictionaries as sequences of key-value pairs, oldest first. */
module OrderedDicts {
  import opened Wrappers
  import opened Sequences

  /** The pairs whose key satisfies `p`, in order. */
  function Keep<K, V>(d: seq<(K, V)>, p: K -> bool): (r: seq<(K, V)>)
    ensures |r| <= |d|
  {
    if d == [] then [] else if p(d[0].0) then [d[0]] + Keep(d[1..], p) else Keep(d[1..], p)
  }

  lemma {:induction false} KeepMembers<K, V>(d: seq<(K, V)>, p: K -> bool)
    ensures forall e :: e in Keep(d, p) ==> e in d && p(e.0)
    ensures forall e :: e in d && p(e.0) ==> e in Keep(d, p)
  {
    if d != [] {
      KeepMembers(d[1..], p);
    }
  }

  function NotKey<K(==)>(key: K): K -> bool { k => k != key }

  function NotIn<K(==)>(keys: seq<K>): K -> bool { k => k !in keys }

  function Lookup<K(==), V>(d: seq<(K, V)>, key: K): (r: Option<V>)
    ensures r.Some? ==> (key, r.value) in d
    ensures r.None? <==> forall e :: e in d ==> e.0 != key
  {
    if d == [] then None else if d[0].0 == key then Some(d[0].1) else Lookup(d[1..], key)
  }

  function KeyOf<K, V>(): ((K, V)) -> K { (e: (K, V)) => e.0 }

  ghost predicate UniqueKeys<K, V>(d: seq<(K, V)>) { DistinctBy(d, KeyOf()) }

  /** `a` is `b` with some pairs left out. */
  ghost predicate Sub<T>(a: seq<T>, b: seq<T>) {
    a == [] || (b != [] && ((a[0] == b[0] && Sub(a[1..], b[1..])) || Sub(a, b[1..])))
  }

  lemma {:induction false} KeepUnique<K, V>(d: seq<(K, V)>, p: K -> bool)
    requires UniqueKeys(d)
    ensures UniqueKeys(Keep(d, p))
  {
    if d != [] {
      KeepUnique(d[1..], p);
      KeepMembers(d[1..], p);
      var r := Keep(d[1..], p);
      if p(d[0].0) {
        forall j | 0 <= j < |r| ensures r[j].0 != d[0].0 {
          assert r[j] in d[1..];
        }
      }
    }
  }

  lemma {:induction false} KeepNotKeyLength<K, V>(d: seq<(K, V)>, key: K)
    requires UniqueKeys(d)
    ensures Lookup(d, key).None? ==> Keep(d, NotKey(key)) == d
    ensures Lookup(d, key).Some? ==> |Keep(d, NotKey(key))| == |d| - 1
  {
    if d != [] {
      KeepNotKeyLength(d[1..], key);
      if d[0].0 == key {
        assert forall e :: e in d[1..] ==> e.0 != key;
      } else {
        assert d == [d[0]] + d[1..];
      }
    }
  }

  /** Removing a key closes the gap and keeps the rest in order. */
  lemma {:induction false} KeepAround<K, V>(d: seq<(K, V)>, i: nat)
    requires UniqueKeys(d) && i < |d|
    ensures Keep(d, NotKey(d[i].0)) == d[..i] + d[i + 1..]
  {
    if i > 0 {
      assert KeyOf()(d[0]) != KeyOf()(d[i]) && d[1..][i - 1] == d[i];
      KeepAround(d[1..], i - 1);
      assert [d[0]] + (d[1..][..i - 1] + d[1..][i..]) == d[..i] + d[i + 1..];
    } else {
      KeepNotKeyLength(d[1..], d[0].0);
      assert forall e :: e in d[1..] ==> e.0 != d[0].0;
    }
  }

  lemma {:induction false} LookupUnique<K, V>(d: seq<(K, V)>, key: K, v: V)
    requires UniqueKeys(d) && (key, v) in d
    ensures Lookup(d, key) == Some(v)
  {
    if d[0] != (key, v) {
      var i :| 0 <= i < |d| && d[i] == (key, v);
      assert d[0].0 != d[i].0;
      LookupUnique(d[1..], key, v);
    }
  }

  lemma {:induction false} KeepSame<K, V>(d: seq<(K, V)>, p: K -> bool, q: K -> bool)
    requires forall e :: e in d ==> p(e.0) == q(e.0)
    ensures Keep(d, p) == Keep(d, q)
  {
    if d != [] {
      assert d[0] in d;
      KeepSame(d[1..], p, q);
    }
  }

  lemma {:induction false} KeepTwice<K, V>(d: seq<(K, V)>, p: K -> bool, q: K -> bool, both: K -> bool)
    requires forall e :: e in d ==> both(e.0) == (p(e.0) && q(e.0))
    ensures Keep(Keep(d, p), q) == Keep(d, both)
  {
    if d != [] {
      KeepTwice(d[1..], p, q, both);
      assert d[0] in d;
      if p(d[0].0) {
        var once := Keep(d, p);
        assert once[0] == d[0] && once[1..] == Keep(d[1..], p);
      }
    }
  }

  lemma {:induction false} SubTail<T>(a: seq<T>, b: seq<T>)
    requires Sub(a, b) && a != []
    ensures Sub(a[1..], b)
  {
    if a[0] == b[0] && Sub(a[1..], b[1..]) {
      if a[1..] != [] {
        assert Sub(a[1..], b);
      }
    } else {
      SubTail(a, b[1..]);
    }
  }

  lemma {:induction false} SubIn<T>(a: seq<T>, b: seq<T>, x: T)
    requires Sub(a, b) && x in a
    ensures x in b
  {
    if a[0] == b[0] && Sub(a[1..], b[1..]) {
      if x != a[0] {
        SubIn(a[1..], b[1..], x);
      }
    } else {
      SubIn(a, b[1..], x);
    }
  }

  lemma {:induction false} SubGrow<T>(a: seq<T>, b: seq<T>, x: T)
    requires Sub(a, b)
    ensures Sub(a, b + [x]) && Sub(a + [x], b + [x])
    decreases |b|
  {
    var y := b + [x];
    if b == [] {
      assert a == [] && (a + [x])[1..] == [];
    } else {
      assert y[0] == b[0] && y[1..] == b[1..] + [x];
      if a != [] && a[0] == b[0] && Sub(a[1..], b[1..]) {
        SubGrow(a[1..], b[1..], x);
        assert (a + [x])[1..] == a[1..] + [x];
      } else {
        SubGrow(a, b[1..], x);
      }
    }
  }

  /** Filtering keeps the sub-sequence relation, and never widens the gap in length. */
  lemma {:induction false} SubKeep<K, V>(a: seq<(K, V)>, b: seq<(K, V)>, p: K -> bool)
    requires Sub(a, b)
    ensures Sub(Keep(a, p), Keep(b, p))
    ensures |Keep(b, p)| - |Keep(a, p)| <= |b| - |a|
    decreases |b|
  {
    if b == [] {
    } else if a != [] && a[0] == b[0] && Sub(a[1..], b[1..]) {
      SubKeep(a[1..], b[1..], p);
      var s, t := Keep(a, p), Keep(b, p);
      if p(a[0].0) {
        assert s[1..] == Keep(a[1..], p) && t[1..] == Keep(b[1..], p);
      }
    } else {
      SubKeep(a, b[1..], p);
      if p(b[0].0) {
        assert Keep(b, p)[1..] == Keep(b[1..], p);
      }
    }
  }

  /** Cutting both ends of the relation to their capacities keeps it, when the larger one has at least as
      much room: the larger never drops a pair that the smaller still holds. */
  lemma SubCut<T>(a: seq<T>, b: seq<T>, m: nat, n: nat)
    requires Sub(a, b) && |b| - |a| <= n - m && |a| <= m + 1 && |b| <= n + 1
    ensures Sub(Cut(a, m), Cut(b, n)) && |Cut(b, n)| - |Cut(a, m)| <= n - m
  {
    if |a| > m {
      SubTail(a, b);
      assert Cut(a, m) == a[1..];
      if |b| > n {
        assert Cut(b, n) == b[1..];
        if !(a[0] == b[0] && Sub(a[1..], b[1..])) {
          SubTail(a, b[1..]);
        }
      }
    }
  }
}

/** EpisodeVisionCache of omninav_cosmos/vision_cache.py: an LRU confined to one episode, whose puts also
    remove the entries of the same view that have another size or model. */
module VisionCache {
  import opened Wrappers
  import opened OrderedDicts
  import opened Sequences

  datatype Key = Key(episode: string, frame: int, view: string, width: int, height: int, fingerprint: string)

  datatype CacheError = EpisodeIdRequired | NotBegun | CrossEpisode | InvalidDimensions | IdentityRequired

  /** Whether str.strip removes the character. */
  predicate IsSpace(c: char) {
    var n := c as int;
    9 <= n <= 13 || 28 <= n <= 32 || n == 0x85 || n == 0xA0 || n == 0x1680 || 0x2000 <= n <= 0x200A
    || n == 0x2028 || n == 0x2029 || n == 0x202F || n == 0x205F || n == 0x3000
  }

  function Strip(s: string): (r: string)
    ensures r != "" ==> !IsSpace(r[0]) && !IsSpace(r[|r| - 1])
    decreases |s|
  {
    if s == "" then ""
    else if IsSpace(s[0]) then Strip(s[1..])
    else if IsSpace(s[|s| - 1]) then Strip(s[..|s| - 1])
    else s
  }

  predicate Clashes(k: Key, newer: Key) {
    k.view == newer.view &&
    (k.width != newer.width || k.height != newer.height || k.fingerprint != newer.fingerprint)
  }

  function CompatibleWith(newer: Key): Key -> bool { k => !Clashes(k, newer) }

  datatype State<V> = State(active: string, entries: seq<(Key, V)>)

  datatype Config = Config(capacity: nat, enabled: bool)

  datatype Event<V> =
    | Begin(episode: string)
    | Reset(which: Option<string>)
    | Get(key: Key)
    | Put(key: Key, feature: V)

  datatype Outcome<V> = Done | Found(feature: V) | Missed | Failed(error: CacheError)

  function Validate(active: string, key: Key): Option<CacheError> {
    if active == "" then Some(NotBegun)
    else if key.episode != active then Some(CrossEpisode)
    else if key.frame < 0 || key.width <= 0 || key.height <= 0 then Some(InvalidDimensions)
    else if key.view == "" || key.fingerprint == "" then Some(IdentityRequired)
    else None
  }

  /** The dictionary after `key` became its newest entry. */
  function Newest<V>(entries: seq<(Key, V)>, key: Key, v: V): seq<(Key, V)> {
    Keep(entries, NotKey(key)) + [(key, v)]
  }

  function Step<V>(cfg: Config, st: State<V>, e: Event<V>): (State<V>, Outcome<V>) {
    match e
    case Begin(ep) =>
      if Strip(ep) == "" then (st, Failed(EpisodeIdRequired))
      else if Strip(ep) != st.active then (State(Strip(ep), []), Done)
      else (st, Done)
    case Reset(which) =>
      if which.None? then (State("", []), Done)
      else if which.value == st.active then (State(st.active, []), Done)
      else (st, Done)
    case Get(key) =>
      if !cfg.enabled then (st, Missed)
      else if Validate(st.active, key).Some? then (st, Failed(Validate(st.active, key).value))
      else (match Lookup(st.entries, key)
            case None => (st, Missed)
            case Some(v) => (State(st.active, Newest(st.entries, key, v)), Found(v)))
    case Put(key, v) =>
      if !cfg.enabled then (st, Done)
      else if Validate(st.active, key).Some? then (st, Failed(Validate(st.active, key).value))
      else (State(st.active, Cut(Newest(Keep(st.entries, CompatibleWith(key)), key, v), cfg.capacity)), Done)
  }

  function Run<V>(cfg: Config, st: State<V>, es: seq<Event<V>>): State<V>
    decreases |es|
  {
    if es == [] then st else Run(cfg, Step(cfg, st, es[0]).0, es[1..])
  }

  function Fresh<V>(): State<V> { State("", []) }

  /** The event empties the cache. */
  predicate Clears<V>(st: State<V>, e: Event<V>) {
    (e.Begin? && Strip(e.episode) != "" && Strip(e.episode) != st.active)
    || (e.Reset? && (e.which.None? || e.which.value == st.active))
  }

  /** The event puts a key, or gets one that is present. */
  predicate Touches<V>(cfg: Config, st: State<V>, e: Event<V>) {
    cfg.enabled && (e.Put? || e.Get?) && Validate(st.active, e.key).None?
    && (e.Get? ==> Lookup(st.entries, e.key).Some?)
  }

  // ---------- what every run keeps ----------

  /** All keys are valid keys of the active episode, none occurs twice, and entries of one view agree on
      size and model. */
  ghost predicate Tidy<V>(active: string, d: seq<(Key, V)>) {
    && UniqueKeys(d)
    && (forall e :: e in d ==> Validate(active, e.0).None?)
    && (forall e, f :: e in d && f in d ==> !Clashes(e.0, f.0))
  }

  ghost predicate Healthy<V>(cfg: Config, st: State<V>) {
    Tidy(st.active, st.entries) && |st.entries| <= cfg.capacity
  }

  lemma KeepTidy<V>(active: string, d: seq<(Key, V)>, p: Key -> bool)
    requires Tidy(active, d)
    ensures Tidy(active, Keep(d, p))
  {
    KeepUnique(d, p);
    KeepMembers(d, p);
  }

  lemma NewestTidy<V>(active: string, d: seq<(Key, V)>, key: Key, v: V)
    requires Tidy(active, d) && Validate(active, key).None?
    requires forall e :: e in d ==> !Clashes(e.0, key)
    ensures Tidy(active, Newest(d, key, v))
  {
    var kept, all := Keep(d, NotKey(key)), Newest(d, key, v);
    KeepTidy(active, d, NotKey(key));
    KeepMembers(d, NotKey(key));
    forall i, j | 0 <= i < j < |all| ensures all[i].0 != all[j].0 {
      assert kept[i] in kept;
    }
    forall e, f | e in all && f in all ensures !Clashes(e.0, f.0) {
      assert e in kept || e.0 == key;
      assert f in kept || f.0 == key;
    }
  }

  lemma CutTidy<V>(active: string, d: seq<(Key, V)>, n: nat)
    requires Tidy(active, d)
    ensures Tidy(active, Cut(d, n))
  {
    var c := Cut(d, n);
    assert forall e :: e in c ==> e in d;
  }

  lemma StepStaysHealthy<V>(cfg: Config, st: State<V>, e: Event<V>)
    requires cfg.capacity > 0 && Healthy(cfg, st)
    ensures Healthy(cfg, Step(cfg, st, e).0)
  {
    if Touches(cfg, st, e) && e.Get? {
      var v := Lookup(st.entries, e.key).value;
      assert (e.key, v) in st.entries;
      NewestTidy(st.active, st.entries, e.key, v);
      KeepNotKeyLength(st.entries, e.key);
    } else if Touches(cfg, st, e) {
      var base := Keep(st.entries, CompatibleWith(e.key));
      KeepTidy(st.active, st.entries, CompatibleWith(e.key));
      KeepMembers(st.entries, CompatibleWith(e.key));
      NewestTidy(st.active, base, e.key, e.feature);
      CutTidy(st.active, Newest(base, e.key, e.feature), cfg.capacity);
    }
  }

  lemma {:induction false} RunStaysHealthy<V>(cfg: Config, st: State<V>, es: seq<Event<V>>)
    requires cfg.capacity > 0 && Healthy(cfg, st)
    ensures Healthy(cfg, Run(cfg, st, es))
    decreases |es|
  {
    if es != [] {
      StepStaysHealthy(cfg, st, es[0]);
      RunStaysHealthy(cfg, Step(cfg, st, es[0]).0, es[1..]);
    }
  }

  /** What that means for the keys themselves, in every run: each belongs to the active episode and is complete,
      none occurs twice, and keys of one view agree on width, height and model. */
  lemma EntriesAreProper<V>(cfg: Config, es: seq<Event<V>>)
    requires cfg.capacity > 0
    ensures var st := Run(cfg, Fresh<V>(), es);
            && |st.entries| <= cfg.capacity
            && (forall e :: e in st.entries ==>
                  && e.0.episode == st.active && e.0.episode != "" && e.0.frame >= 0
                  && e.0.width > 0 && e.0.height > 0 && e.0.view != "" && e.0.fingerprint != "")
            && (forall e, f :: e in st.entries && f in st.entries && e.0.view == f.0.view ==>
                  (e.0.width, e.0.height, e.0.fingerprint) == (f.0.width, f.0.height, f.0.fingerprint))
            && (forall i, j :: 0 <= i < j < |st.entries| ==> st.entries[i].0 != st.entries[j].0)
  {
    RunStaysHealthy(cfg, Fresh<V>(), es);
    var d := Run(cfg, Fresh<V>(), es).entries;
    forall i, j | 0 <= i < j < |d| ensures d[i].0 != d[j].0 {
      assert KeyOf()(d[i]) != KeyOf()(d[j]);
    }
  }

  /** An enabled cache refuses exactly the gets and puts without an active episode, of another episode, of an
      impossible size or frame, or without view or model, in this order; a refusal changes nothing. */
  lemma AccessRefusedExactly<V>(cfg: Config, st: State<V>, key: Key, e: Event<V>)
    requires cfg.enabled && (e == Get(key) || (e.Put? && e.key == key))
    ensures var (t, r) := Step(cfg, st, e);
            var sized := key.frame >= 0 && key.width > 0 && key.height > 0;
            && (r == Failed(NotBegun) <==> st.active == "")
            && (r == Failed(CrossEpisode) <==> st.active != "" && key.episode != st.active)
            && (r == Failed(InvalidDimensions) <==> st.active != "" && key.episode == st.active && !sized)
            && (r == Failed(IdentityRequired) <==>
                  st.active != "" && key.episode == st.active && sized && (key.view == "" || key.fingerprint == ""))
            && (r.Failed? ==> t == st && r.error != EpisodeIdRequired)
  {
  }

  /** A get that is not refused is a hit exactly when the key is there, and then only moves its entry to the end. */
  lemma GetExactly<V>(cfg: Config, st: State<V>, key: Key)
    requires cfg.enabled && Healthy(cfg, st) && !Step(cfg, st, Get(key)).1.Failed?
    ensures var (t, r) := Step(cfg, st, Get(key));
            && t.active == st.active
            && (if r.Found? then exists i :: 0 <= i < |st.entries| && st.entries[i] == (key, r.feature)
                                   && t.entries == st.entries[..i] + st.entries[i + 1..] + [(key, r.feature)]
                else r == Missed && t == st && forall e :: e in st.entries ==> e.0 != key)
  {
    var r := Step(cfg, st, Get(key)).1;
    if r.Found? {
      assert (key, r.feature) in st.entries;
      var i :| 0 <= i < |st.entries| && st.entries[i] == (key, r.feature);
      KeepAround(st.entries, i);
    }
  }

  /** A disabled cache stores nothing and finds nothing; a reset clears what it names. */
  lemma DisabledAndReset<V>(cfg: Config, st: State<V>, key: Key, v: V, which: Option<string>)
    ensures !cfg.enabled ==> Step(cfg, st, Get(key)) == (st, Missed) && Step(cfg, st, Put(key, v)) == (st, Done)
    ensures Step<V>(cfg, st, Reset(which)).1 == Done
    ensures var t := Step<V>(cfg, st, Reset(which)).0;
            && (which == None ==> t.active == "" && t.entries == [])
            && (which == Some(st.active) ==> t.active == st.active && t.entries == [])
            && (which.Some? && which != Some(st.active) ==> t == st)
  {
  }

  /** A put that is not refused makes its pair the newest entry and drops what has its key, or its view with
      another size or model. It drops nothing else unless the cache is full. */
  lemma PutExactly<V>(cfg: Config, st: State<V>, key: Key, v: V, e: (Key, V))
    requires cfg.enabled && cfg.capacity > 0 && Healthy(cfg, st) && Step(cfg, st, Put(key, v)).1 == Done
    ensures var d := Step(cfg, st, Put(key, v)).0.entries;
            var spared := e.0 != key && (e.0.view != key.view
                            || (e.0.width, e.0.height, e.0.fingerprint) == (key.width, key.height, key.fingerprint));
            && d != [] && d[|d| - 1] == (key, v)
            && (e in d ==> e == (key, v) || (e in st.entries && spared))
            && (e in st.entries && spared && |st.entries| < cfg.capacity ==> e in d)
  {
    var base := Keep(st.entries, CompatibleWith(key));
    KeepMembers(st.entries, CompatibleWith(key));
    KeepMembers(base, NotKey(key));
    assert |Newest(base, key, v)| <= |st.entries| + 1;
  }

  ghost predicate Blank(s: string) { forall i :: 0 <= i < |s| ==> IsSpace(s[i]) }

  /** Trimming takes white space off both ends, as much as there is. */
  lemma {:induction false} StripExactly(s: string) returns (front: string, back: string)
    ensures s == front + Strip(s) + back && Blank(front) && Blank(back)
    ensures Strip(s) == "" <==> Blank(s)
    decreases |s|
  {
    hide IsSpace;
    front, back := "", "";
    if s != "" && IsSpace(s[0]) {
      front, back := StripExactly(s[1..]);
      front := [s[0]] + front;
      BlankRest(s);
    } else if s != "" && IsSpace(s[|s| - 1]) {
      front, back := StripExactly(s[..|s| - 1]);
      back := back + [s[|s| - 1]];
    }
  }

  lemma BlankRest(s: string)
    requires s != "" && IsSpace(s[0])
    ensures Blank(s) <==> Blank(s[1..])
  {
    if Blank(s[1..]) {
      forall i | 0 <= i < |s| ensures IsSpace(s[i]) {
        assert i > 0 ==> s[i] == s[1..][i - 1];
      }
    }
  }

  /** Beginning an episode fails exactly on a blank id; it empties the cache exactly when the trimmed id is
      not the active one. */
  lemma BeginExactly<V>(cfg: Config, st: State<V>, episode: string)
    ensures var (t, r) := Step(cfg, st, Begin(episode));
            && (r == Failed(EpisodeIdRequired) <==> Blank(episode))
            && (if r.Failed? then t == st else t.active == Strip(episode) && t.active != "")
            && t.entries == if t.active == st.active then st.entries else []
  {
    var front, back := StripExactly(episode);
  }

  // ---------- the unbounded map that the cache bounds ----------

  /** What a cache without a capacity would remember. */
  function Remembered<V>(cfg: Config, active: string, m: map<Key, V>, e: Event<V>): map<Key, V> {
    match e
    case Begin(ep) => if Strip(ep) != "" && Strip(ep) != active then map[] else m
    case Reset(which) => if which.None? || which.value == active then map[] else m
    case Get(_) => m
    case Put(key, v) =>
      if !cfg.enabled || Validate(active, key).Some? then m
      else (map k | k in m && !Clashes(k, key) :: m[k])[key := v]
  }

  ghost function Memory<V>(cfg: Config, st: State<V>, m: map<Key, V>, es: seq<Event<V>>): map<Key, V>
    decreases |es|
  {
    if es == [] then m
    else Memory(cfg, Step(cfg, st, es[0]).0, Remembered(cfg, st.active, m, es[0]), es[1..])
  }

  ghost predicate Within<V>(st: State<V>, m: map<Key, V>) {
    forall e :: e in st.entries ==> e.0 in m && m[e.0] == e.1
  }

  ghost predicate Covers<V>(st: State<V>, m: map<Key, V>) {
    forall k :: k in m ==> (k, m[k]) in st.entries
  }

  lemma StepWithinMemory<V>(cfg: Config, st: State<V>, m: map<Key, V>, e: Event<V>)
    requires Within(st, m)
    ensures Within(Step(cfg, st, e).0, Remembered(cfg, st.active, m, e))
  {
    if e.Get? || e.Put? {
      var base := if e.Get? then st.entries else Keep(st.entries, CompatibleWith(e.key));
      KeepMembers(st.entries, CompatibleWith(e.key));
      KeepMembers(base, NotKey(e.key));
    }
  }

  lemma {:induction false} RunWithinMemory<V>(cfg: Config, st: State<V>, m: map<Key, V>, es: seq<Event<V>>)
    requires cfg.capacity > 0 && Healthy(cfg, st) && Within(st, m)
    ensures Within(Run(cfg, st, es), Memory(cfg, st, m, es))
    decreases |es|
  {
    if es != [] {
      StepStaysHealthy(cfg, st, es[0]);
      StepWithinMemory(cfg, st, m, es[0]);
      RunWithinMemory(cfg, Step(cfg, st, es[0]).0, Remembered(cfg, st.active, m, es[0]), es[1..]);
    }
  }

  /** Every hit, at any point of any run, returns the value last put for exactly that key since the last
      clear, and no clashing put came after it. */
  lemma HitsReturnTheLastPut<V>(cfg: Config, es: seq<Event<V>>, key: Key)
    requires cfg.capacity > 0
    ensures var st, m := Run(cfg, Fresh(), es), Memory(cfg, Fresh(), map[], es);
            var r := Step(cfg, st, Get(key)).1;
            r.Found? ==> key in m && m[key] == r.feature
  {
    RunWithinMemory(cfg, Fresh<V>(), map[], es);
  }

  /** A put leaves at most as many entries as the unbounded map has, even before any eviction. */
  lemma PutFits<V>(cfg: Config, st: State<V>, m: map<Key, V>, key: Key, v: V)
    requires Tidy(st.active, st.entries) && Within(st, m) && Validate(st.active, key).None? && cfg.enabled
    ensures |Newest(Keep(st.entries, CompatibleWith(key)), key, v)| <= |Remembered(cfg, st.active, m, Put(key, v))|
  {
    var base := Keep(st.entries, CompatibleWith(key));
    var d, next := Newest(base, key, v), Remembered(cfg, st.active, m, Put(key, v));
    KeepMembers(st.entries, CompatibleWith(key));
    KeepMembers(base, NotKey(key));
    KeepTidy(st.active, st.entries, CompatibleWith(key));
    NewestTidy(st.active, base, key, v);
    FitsInMap(d, next);
  }

  lemma NewestCovers<V>(d: seq<(Key, V)>, key: Key, v: V, m: map<Key, V>)
    requires forall k :: k in m && k != key ==> (k, m[k]) in d
    requires key in m && m[key] == v
    ensures forall k :: k in m ==> (k, m[k]) in Newest(d, key, v)
  {
    var r := Newest(d, key, v);
    KeepMembers(d, NotKey(key));
    assert r[|r| - 1] == (key, v);
    forall k | k in m && k != key ensures (k, m[k]) in r {
      assert (k, m[k]) in Keep(d, NotKey(key));
    }
  }

  /** As long as the unbounded map itself fits, nothing is evicted. */
  lemma StepCoversMemory<V>(cfg: Config, st: State<V>, m: map<Key, V>, e: Event<V>)
    requires Covers(st, m) && Within(st, m) && Healthy(cfg, st)
    requires |Remembered(cfg, st.active, m, e)| <= cfg.capacity
    ensures Covers(Step(cfg, st, e).0, Remembered(cfg, st.active, m, e))
  {
    hide Keep, Newest, Tidy, Clashes, Lookup;
    if Touches(cfg, st, e) && e.Get? {
      var v := Lookup(st.entries, e.key).value;
      assert (e.key, v) in st.entries;
      NewestCovers(st.entries, e.key, v, m);
    } else if Touches(cfg, st, e) {
      PutFits(cfg, st, m, e.key, e.feature);
      KeepMembers(st.entries, CompatibleWith(e.key));
      NewestCovers(Keep(st.entries, CompatibleWith(e.key)), e.key, e.feature, Remembered(cfg, st.active, m, e));
    }
  }

  /** Distinct keys of a map are no more than the map has. */
  lemma FitsInMap<V>(d: seq<(Key, V)>, m: map<Key, V>)
    requires UniqueKeys(d) && forall e :: e in d ==> e.0 in m
    ensures |d| <= |m|
  {
    DistinctBound(d, KeyOf(), m.Keys);
  }

  ghost predicate KeysValid<V>(active: string, m: map<Key, V>) {
    forall k :: k in m ==> Validate(active, k).None?
  }

  /** The state and the unbounded map after the first `n` events. */
  ghost function StateAt<V>(cfg: Config, st: State<V>, es: seq<Event<V>>, n: nat): State<V>
    requires n <= |es|
  {
    Run(cfg, st, es[..n])
  }

  ghost function MapAt<V>(cfg: Config, st: State<V>, m: map<Key, V>, es: seq<Event<V>>, n: nat): map<Key, V>
    requires n <= |es|
  {
    Memory(cfg, st, m, es[..n])
  }

  /** The unbounded map never outgrows the cache during the run. */
  ghost predicate AlwaysFits<V>(cfg: Config, st: State<V>, m: map<Key, V>, es: seq<Event<V>>) {
    forall n :: 0 <= n <= |es| ==> |MapAt(cfg, st, m, es, n)| <= cfg.capacity
  }

  lemma AlwaysFitsStep<V>(cfg: Config, st: State<V>, m: map<Key, V>, es: seq<Event<V>>)
    requires es != [] && AlwaysFits(cfg, st, m, es)
    ensures |Remembered(cfg, st.active, m, es[0])| <= cfg.capacity
    ensures AlwaysFits(cfg, Step(cfg, st, es[0]).0, Remembered(cfg, st.active, m, es[0]), es[1..])
  {
    hide Step, Remembered;
    var next, m' := Step(cfg, st, es[0]).0, Remembered(cfg, st.active, m, es[0]);
    forall n | 0 <= n <= |es[1..]| ensures MapAt(cfg, next, m', es[1..], n) == MapAt(cfg, st, m, es, n + 1) {
      assert es[..n + 1][1..] == es[1..][..n] && es[..n + 1][0] == es[0];
    }
    assert MapAt(cfg, next, m', es[1..], 0) == m';
  }

  lemma {:induction false} RunCoversMemory<V>(cfg: Config, st: State<V>, m: map<Key, V>, es: seq<Event<V>>)
    requires cfg.capacity > 0 && Covers(st, m) && Within(st, m) && Healthy(cfg, st) && AlwaysFits(cfg, st, m, es)
    ensures Covers(Run(cfg, st, es), Memory(cfg, st, m, es))
    decreases |es|
  {
    hide Healthy, Covers, Within, AlwaysFits, Step, Remembered;
    if es != [] {
      AlwaysFitsStep(cfg, st, m, es);
      StepStaysHealthy(cfg, st, es[0]);
      StepWithinMemory(cfg, st, m, es[0]);
      StepCoversMemory(cfg, st, m, es[0]);
      RunCoversMemory(cfg, Step(cfg, st, es[0]).0, Remembered(cfg, st.active, m, es[0]), es[1..]);
    }
  }

  lemma {:induction false} RunKeepsKeysValid<V>(cfg: Config, st: State<V>, m: map<Key, V>, es: seq<Event<V>>)
    requires KeysValid(st.active, m)
    ensures KeysValid(Run(cfg, st, es).active, Memory(cfg, st, m, es))
    decreases |es|
  {
    if es != [] {
      RunKeepsKeysValid(cfg, Step(cfg, st, es[0]).0, Remembered(cfg, st.active, m, es[0]), es[1..]);
    }
  }

  /** Every valid key is a hit exactly when the unbounded map has it, with the value of the map. */
  ghost predicate AnswersLike<V>(cfg: Config, st: State<V>, m: map<Key, V>) {
    forall key :: Validate(st.active, key).None? ==>
      Step(cfg, st, Get(key)).1 == if key in m then Found(m[key]) else Missed
  }

  lemma AnswersLikeExactly<V>(cfg: Config, st: State<V>, m: map<Key, V>)
    requires cfg.enabled && Healthy(cfg, st) && Within(st, m) && KeysValid(st.active, m)
    ensures AnswersLike(cfg, st, m) <==> Covers(st, m)
    ensures Covers(st, m) ==> |m| <= cfg.capacity
  {
    forall k | k in m ensures (k, m[k]) in st.entries <==> Step(cfg, st, Get(k)).1 == Found(m[k]) {
      if (k, m[k]) in st.entries {
        LookupUnique(st.entries, k, m[k]);
      }
    }
    if Covers(st, m) {
      CoveredIsSmall(st.entries, m);
    }
  }

  lemma CoveredIsSmall<V>(d: seq<(Key, V)>, m: map<Key, V>)
    requires forall k :: k in m ==> (k, m[k]) in d
    ensures |m| <= |d|
  {
    var keys := set e | e in d :: KeyOf()(e);
    forall k | k in m ensures k in keys {
      assert KeyOf()((k, m[k])) == k;
    }
    SubsetSize(m.Keys, keys);
    FewKeys(d);
  }

  lemma {:induction false} FewKeys<V>(d: seq<(Key, V)>)
    ensures |set e | e in d :: KeyOf()(e)| <= |d|
  {
    if d != [] {
      FewKeys(d[1..]);
      var all, rest := set e | e in d :: KeyOf()(e), set e | e in d[1..] :: KeyOf()(e);
      assert all == {KeyOf()(d[0])} + rest;
    }
  }

  /** The cache answers like the unbounded map all through a run exactly when that map never holds more than
      `capacity` keys during the run. */
  lemma RoomyCacheIsTheMap<V>(cfg: Config, es: seq<Event<V>>)
    requires cfg.enabled && cfg.capacity > 0
    ensures AlwaysFits(cfg, Fresh<V>(), map[], es) <==>
              forall n :: 0 <= n <= |es| ==>
                AnswersLike(cfg, StateAt(cfg, Fresh<V>(), es, n), MapAt(cfg, Fresh<V>(), map[], es, n))
  {
    hide AnswersLike, Covers, Healthy, Within, Step;
    var st, m := Fresh<V>(), map[];
    FreshMatches<V>(cfg);
    forall n | 0 <= n <= |es|
      ensures AnswersLike(cfg, StateAt(cfg, st, es, n), MapAt(cfg, st, m, es, n)) ==> |MapAt(cfg, st, m, es, n)| <= cfg.capacity
      ensures AlwaysFits(cfg, st, m, es) ==> AnswersLike(cfg, StateAt(cfg, st, es, n), MapAt(cfg, st, m, es, n))
    {
      RunStaysHealthy(cfg, st, es[..n]);
      RunWithinMemory(cfg, st, m, es[..n]);
      RunKeepsKeysValid(cfg, st, m, es[..n]);
      AnswersLikeExactly(cfg, StateAt(cfg, st, es, n), MapAt(cfg, st, m, es, n));
      if AlwaysFits(cfg, st, m, es) {
        forall k | 0 <= k <= n ensures MapAt(cfg, st, m, es[..n], k) == MapAt(cfg, st, m, es, k) {
          assert es[..n][..k] == es[..k];
        }
        RunCoversMemory(cfg, st, m, es[..n]);
      }
    }
  }

  lemma FreshMatches<V>(cfg: Config)
    ensures Healthy(cfg, Fresh<V>()) && Within(Fresh<V>(), map[]) && Covers(Fresh<V>(), map[])
  {
  }

  // ---------- stack inclusion ----------

  /** The smaller cache holds a sub-sequence of the larger one, which has at least as much room left. */
  ghost predicate Included<V>(small: Config, large: Config, s: State<V>, t: State<V>) {
    s.active == t.active && Sub(s.entries, t.entries)
    && |t.entries| - |s.entries| <= large.capacity - small.capacity
  }

  /** A hit moves its key to the end of whichever cache holds it. */
  lemma GetStaysIncluded<V>(small: Config, large: Config, s: State<V>, t: State<V>, key: Key)
    requires small.enabled == large.enabled && Included(small, large, s, t)
    requires UniqueKeys(s.entries) && UniqueKeys(t.entries)
    ensures Included(small, large, Step(small, s, Get(key)).0, Step(large, t, Get(key)).0)
    ensures Step(small, s, Get(key)).1.Found? ==> Step(large, t, Get(key)).1 == Step(small, s, Get(key)).1
  {
    hide Sub, UniqueKeys, Keep, Lookup;
    SubKeep(s.entries, t.entries, NotKey(key));
    KeepNotKeyLength(s.entries, key);
    KeepNotKeyLength(t.entries, key);
    var inSmall, inLarge := Lookup(s.entries, key), Lookup(t.entries, key);
    if inSmall.Some? {
      SubIn(s.entries, t.entries, (key, inSmall.value));
      LookupUnique(t.entries, key, inSmall.value);
    }
    if inLarge.Some? {
      SubGrow(Keep(s.entries, NotKey(key)), Keep(t.entries, NotKey(key)), (key, inLarge.value));
    }
  }

  lemma PutStaysIncluded<V>(small: Config, large: Config, s: State<V>, t: State<V>, key: Key, v: V)
    requires small.capacity <= large.capacity && small.enabled == large.enabled && Included(small, large, s, t)
    requires |s.entries| <= small.capacity && |t.entries| <= large.capacity
    ensures Included(small, large, Step(small, s, Put(key, v)).0, Step(large, t, Put(key, v)).0)
  {
    hide Sub, Keep, Cut;
    var a, b := Keep(s.entries, CompatibleWith(key)), Keep(t.entries, CompatibleWith(key));
    SubKeep(s.entries, t.entries, CompatibleWith(key));
    SubKeep(a, b, NotKey(key));
    SubGrow(Keep(a, NotKey(key)), Keep(b, NotKey(key)), (key, v));
    SubCut(Newest(a, key, v), Newest(b, key, v), small.capacity, large.capacity);
  }

  lemma StepStaysIncluded<V>(small: Config, large: Config, s: State<V>, t: State<V>, e: Event<V>)
    requires 0 < small.capacity <= large.capacity && small.enabled == large.enabled
    requires Healthy(small, s) && Healthy(large, t) && Included(small, large, s, t)
    ensures Included(small, large, Step(small, s, e).0, Step(large, t, e).0)
    ensures Step(small, s, e).1.Found? ==> Step(large, t, e).1 == Step(small, s, e).1
  {
    match e
    case Get(key) => GetStaysIncluded(small, large, s, t, key);
    case Put(key, v) => PutStaysIncluded(small, large, s, t, key, v);
    case _ =>
  }

  lemma {:induction false} RunStaysIncluded<V>(small: Config, large: Config, s: State<V>, t: State<V>, es: seq<Event<V>>)
    requires 0 < small.capacity <= large.capacity && small.enabled == large.enabled
    requires Healthy(small, s) && Healthy(large, t) && Included(small, large, s, t)
    ensures Included(small, large, Run(small, s, es), Run(large, t, es))
    ensures Healthy(small, Run(small, s, es)) && Healthy(large, Run(large, t, es))
    decreases |es|
  {
    if es != [] {
      StepStaysIncluded(small, large, s, t, es[0]);
      StepStaysHealthy(small, s, es[0]);
      StepStaysHealthy(large, t, es[0]);
      RunStaysIncluded(small, large, Step(small, s, es[0]).0, Step(large, t, es[0]).0, es[1..]);
    }
  }

  /** On every trace the smaller of two caches holds a sub-sequence of the larger, same recency order and
      same values, so more capacity never turns a hit into a miss. */
  lemma StackInclusion<V>(small: Config, large: Config, es: seq<Event<V>>, key: Key)
    requires 0 < small.capacity <= large.capacity && small.enabled == large.enabled
    ensures Sub(Run(small, Fresh(), es).entries, Run(large, Fresh<V>(), es).entries)
    ensures var r := Step(small, Run(small, Fresh<V>(), es), Get(key)).1;
            r.Found? ==> Step(large, Run(large, Fresh<V>(), es), Get(key)).1 == r
  {
    RunStaysIncluded(small, large, Fresh<V>(), Fresh<V>(), es);
    StepStaysIncluded(small, large, Run(small, Fresh<V>(), es), Run(large, Fresh<V>(), es), Get(key));
  }

  // ---------- the hit guarantee ----------

  /** The key that an event touches, if any. */
  ghost function TouchedBy<V>(cfg: Config, st: State<V>, e: Event<V>): set<Key> {
    if Touches(cfg, st, e) then {e.key} else {}
  }

  ghost function Touched<V>(cfg: Config, st: State<V>, es: seq<Event<V>>): set<Key>
    decreases |es|
  {
    if es == [] then {}
    else TouchedBy(cfg, st, es[0]) + Touched(cfg, Step(cfg, st, es[0]).0, es[1..])
  }

  /** No event of the run clears the cache, touches `key`, or puts a key that clashes with it. */
  ghost predicate Undisturbed<V>(cfg: Config, st: State<V>, es: seq<Event<V>>, key: Key)
    decreases |es|
  {
    es == [] ||
    (!Clears(st, es[0])
     && (Touches(cfg, st, es[0]) ==> es[0].key != key && (es[0].Put? ==> !Clashes(key, es[0].key)))
     && Undisturbed(cfg, Step(cfg, st, es[0]).0, es[1..], key))
  }

  lemma {:induction false} KeepRecent<V>(d: seq<(Key, V)>, p: Key -> bool, pair: (Key, V), newer: set<Key>)
    requires Behind(d, pair, KeyOf(), newer) && p(pair.0)
    ensures Behind(Keep(d, p), pair, KeyOf(), newer)
  {
    var i :| 0 <= i < |d| && d[i] == pair && forall j :: i < j < |d| ==> KeyOf()(d[j]) in newer;
    var rest, r := Keep(d[1..], p), Keep(d, p);
    if i == 0 {
      KeepMembers(d[1..], p);
      assert r == [pair] + rest && r[0] == pair;
      forall j | 0 < j < |r| ensures r[j].0 in newer {
        assert r[j] == rest[j - 1] && rest[j - 1] in rest;
      }
    } else {
      assert d[1..][i - 1] == pair;
      KeepRecent(d[1..], p, pair, newer);
      if p(d[0].0) {
        PrependRecent(d[0], rest, pair, newer);
      }
    }
  }

  lemma PrependRecent<V>(e: (Key, V), d: seq<(Key, V)>, pair: (Key, V), newer: set<Key>)
    requires Behind(d, pair, KeyOf(), newer)
    ensures Behind([e] + d, pair, KeyOf(), newer)
  {
    var i :| 0 <= i < |d| && d[i] == pair && forall j :: i < j < |d| ==> KeyOf()(d[j]) in newer;
    assert ([e] + d)[i + 1] == pair;
  }

  lemma NewestRecent<V>(d: seq<(Key, V)>, key: Key, v: V, pair: (Key, V), newer: set<Key>)
    requires Behind(d, pair, KeyOf(), newer) && key != pair.0
    ensures Behind(Newest(d, key, v), pair, KeyOf(), newer + {key})
  {
    KeepRecent(d, NotKey(key), pair, newer);
    AppendKeepsBehind(Keep(d, NotKey(key)), (key, v), pair, KeyOf(), newer);
  }

  lemma StepKeepsRecent<V>(cfg: Config, st: State<V>, e: Event<V>, pair: (Key, V), newer: set<Key>)
    requires Healthy(cfg, st) && Behind(st.entries, pair, KeyOf(), newer) && !Clears(st, e)
    requires Touches(cfg, st, e) ==> e.key != pair.0 && (e.Put? ==> !Clashes(pair.0, e.key))
    requires |newer + TouchedBy(cfg, st, e)| < cfg.capacity
    ensures Behind(Step(cfg, st, e).0.entries, pair, KeyOf(), newer + TouchedBy(cfg, st, e))
  {
    hide Behind, Tidy;
    assert newer + {} == newer;
    if Touches(cfg, st, e) && e.Get? {
      NewestRecent(st.entries, e.key, Lookup(st.entries, e.key).value, pair, newer);
    } else if Touches(cfg, st, e) {
      var base := Keep(st.entries, CompatibleWith(e.key));
      KeepRecent(st.entries, CompatibleWith(e.key), pair, newer);
      NewestRecent(base, e.key, e.feature, pair, newer);
      KeepMembers(st.entries, CompatibleWith(e.key));
      KeepTidy(st.active, st.entries, CompatibleWith(e.key));
      NewestTidy(st.active, base, e.key, e.feature);
      TidyIsUnique(st.active, Newest(base, e.key, e.feature));
      CutKeepsBehind(Newest(base, e.key, e.feature), cfg.capacity, pair, KeyOf(), newer + {e.key});
    }
  }

  lemma TidyIsUnique<V>(active: string, d: seq<(Key, V)>)
    requires Tidy(active, d)
    ensures UniqueKeys(d)
  {
  }

  lemma NothingTouched<V>(cfg: Config, st: State<V>, newer: set<Key>)
    ensures Run(cfg, st, []) == st && newer + Touched(cfg, st, []) == newer
  {
  }

  lemma UnionParts(a: set<Key>, b: set<Key>, c: set<Key>)
    ensures a + (b + c) == (a + b) + c && |a + b| <= |a + (b + c)|
  {
    assert a + (b + c) == (a + b) + c;
    SubsetSize(a + b, a + b + c);
  }

  lemma PeelRun<V>(cfg: Config, st: State<V>, es: seq<Event<V>>, key: Key)
    requires es != [] && Undisturbed(cfg, st, es, key)
    ensures var next := Step(cfg, st, es[0]).0;
            && !Clears(st, es[0]) && Undisturbed(cfg, next, es[1..], key)
            && (Touches(cfg, st, es[0]) ==> es[0].key != key && (es[0].Put? ==> !Clashes(key, es[0].key)))
            && Touched(cfg, st, es) == TouchedBy(cfg, st, es[0]) + Touched(cfg, next, es[1..])
            && Run(cfg, st, es) == Run(cfg, next, es[1..])
  {
    hide Step;
  }

  lemma {:induction false} RunKeepsRecent<V>(cfg: Config, st: State<V>, es: seq<Event<V>>, pair: (Key, V), newer: set<Key>)
    requires cfg.capacity > 0 && Healthy(cfg, st) && Behind(st.entries, pair, KeyOf(), newer)
    requires Undisturbed(cfg, st, es, pair.0) && |newer + Touched(cfg, st, es)| < cfg.capacity
    ensures Behind(Run(cfg, st, es).entries, pair, KeyOf(), newer + Touched(cfg, st, es))
    decreases |es|
  {
    hide Behind, Healthy, Step, Undisturbed, Touched, Run, TouchedBy, Clears;
    if es == [] {
      NothingTouched(cfg, st, newer);
    } else {
      var next := Step(cfg, st, es[0]).0;
      var now, later := TouchedBy(cfg, st, es[0]), Touched(cfg, next, es[1..]);
      PeelRun(cfg, st, es, pair.0);
      UnionParts(newer, now, later);
      StepKeepsRecent(cfg, st, es[0], pair, newer);
      StepStaysHealthy(cfg, st, es[0]);
      RunKeepsRecent(cfg, next, es[1..], pair, newer + now);
    }
  }

  /** Right after its put or hit a key is the newest entry. It is still there, with its value, as long as
      fewer than `capacity` distinct other keys were put or hit, nothing cleared the cache and no clashing
      key was put. */
  lemma HitGuarantee<V>(cfg: Config, es: seq<Event<V>>, touch: Event<V>, later: seq<Event<V>>)
    requires cfg.capacity > 0 && Touches(cfg, Run(cfg, Fresh(), es), touch)
    requires var st := Step(cfg, Run(cfg, Fresh(), es), touch).0;
             Undisturbed(cfg, st, later, touch.key) && |Touched(cfg, st, later)| < cfg.capacity
    ensures var before := Run(cfg, Fresh<V>(), es);
            var st := Step(cfg, before, touch).0;
            Step(cfg, Run(cfg, st, later), Get(touch.key)).1
              == Found(if touch.Put? then touch.feature else Lookup(before.entries, touch.key).value)
  {
    hide Healthy, Tidy, Step, Touched, Undisturbed, Behind;
    var before := Run(cfg, Fresh<V>(), es);
    var st := Step(cfg, before, touch).0;
    FreshIsHealthy<V>(cfg);
    RunStaysHealthy(cfg, Fresh<V>(), es);
    var v := TouchMakesNewest(cfg, before, touch);
    StepStaysHealthy(cfg, before, touch);
    assert {} + Touched(cfg, st, later) == Touched(cfg, st, later);
    RunKeepsRecent(cfg, st, later, (touch.key, v), {});
    RunStaysHealthy(cfg, st, later);
    UndisturbedKeepsActive(cfg, st, later, touch.key);
    RecentIsHit(cfg, Run(cfg, st, later), touch.key, v, {} + Touched(cfg, st, later));
  }

  lemma FreshIsHealthy<V>(cfg: Config)
    ensures Healthy(cfg, Fresh<V>())
  {
  }

  lemma TouchMakesNewest<V>(cfg: Config, st: State<V>, e: Event<V>) returns (v: V)
    requires cfg.capacity > 0 && Touches(cfg, st, e)
    ensures v == if e.Put? then e.feature else Lookup(st.entries, e.key).value
    ensures cfg.enabled && Validate(st.active, e.key).None? && Step(cfg, st, e).0.active == st.active
    ensures Behind(Step(cfg, st, e).0.entries, (e.key, v), KeyOf(), {})
  {
    v := if e.Put? then e.feature else Lookup(st.entries, e.key).value;
    var d := Step(cfg, st, e).0.entries;
    assert d[|d| - 1] == (e.key, v);
  }

  lemma {:induction false} UndisturbedKeepsActive<V>(cfg: Config, st: State<V>, es: seq<Event<V>>, key: Key)
    requires Undisturbed(cfg, st, es, key)
    ensures Run(cfg, st, es).active == st.active
    decreases |es|
  {
    if es != [] {
      UndisturbedKeepsActive(cfg, Step(cfg, st, es[0]).0, es[1..], key);
    }
  }

  lemma RecentIsHit<V>(cfg: Config, st: State<V>, key: Key, v: V, newer: set<Key>)
    requires cfg.enabled && Validate(st.active, key).None?
    requires Healthy(cfg, st) && Behind(st.entries, (key, v), KeyOf(), newer)
    ensures Step(cfg, st, Get(key)).1 == Found(v)
  {
    LookupUnique(st.entries, key, v);
  }

  // ---------- the cache object ----------

  class EpisodeVisionCache<V> {
    const capacity: nat
    const enabled: bool
    var activeEpisode: string
    var entries: seq<(Key, V)>

    constructor (capacity: nat, enabled: bool)
      requires capacity > 0
      ensures this.capacity == capacity && this.enabled == enabled && View() == Fresh()
    {
      this.capacity := capacity;
      this.enabled := enabled;
      activeEpisode := "";
      entries := [];
    }

    function View(): State<V>
      reads this
    {
      State(activeEpisode, entries)
    }

    function Settings(): Config { Config(capacity, enabled) }

    method BeginEpisode(episode: string) returns (r: Outcome<V>)
      modifies this
      ensures (View(), r) == Step(Settings(), old(View()), Begin(episode))
    {
      var id := Strip(episode);
      if id == "" { return Failed(EpisodeIdRequired); }
      if id != activeEpisode {
        entries := [];
        activeEpisode := id;
      }
      return Done;
    }

    method Clear(episode: Option<string>) returns (r: Outcome<V>)
      modifies this
      ensures (View(), r) == Step(Settings(), old(View()), Reset(episode))
    {
      if episode.None? || episode.value == activeEpisode {
        entries := [];
        if episode.None? {
          activeEpisode := "";
        }
      }
      return Done;
    }

    method Fetch(key: Key) returns (r: Outcome<V>)
      modifies this
      ensures (View(), r) == Step(Settings(), old(View()), Get(key))
    {
      if !enabled { return Missed; }
      var error := Validate(activeEpisode, key);
      if error.Some? { return Failed(error.value); }
      var value := Lookup(entries, key);
      if value.None? { return Missed; }
      entries := Newest(entries, key, value.value);
      return Found(value.value);
    }

    method Store(key: Key, feature: V) returns (r: Outcome<V>)
      modifies this
      ensures (View(), r) == Step(Settings(), old(View()), Put(key, feature))
    {
      if !enabled { return Done; }
      var error := Validate(activeEpisode, key);
      if error.Some? { return Failed(error.value); }
      InvalidateIncompatible(key);
      entries := Newest(entries, key, feature);
      ghost var all := entries;
      while |entries| > capacity
        invariant |entries| <= |all| && entries == all[|all| - |entries|..]
        invariant activeEpisode == old(activeEpisode)
        invariant |entries| < capacity ==> |entries| == |all|
      {
        entries := entries[1..];
      }
      assert all[0..] == all;
      return Done;
    }

    /** Collects the clashing keys first and then deletes them one by one. */
    method InvalidateIncompatible(newKey: Key)
      modifies this`entries
      ensures entries == Keep(old(entries), CompatibleWith(newKey))
    {
      var incompatible: seq<Key> := [];
      for i := 0 to |entries|
        invariant forall k :: k in incompatible <==> Clashes(k, newKey) && exists j :: 0 <= j < i && entries[j].0 == k
      {
        if Clashes(entries[i].0, newKey) {
          incompatible := incompatible + [entries[i].0];
        }
      }
      ghost var all := entries;
      KeepAll(all, NotIn(incompatible[..0]));
      for i := 0 to |incompatible|
        invariant entries == Keep(all, NotIn(incompatible[..i]))
      {
        assert incompatible[..i + 1] == incompatible[..i] + [incompatible[i]];
        KeepTwice(all, NotIn(incompatible[..i]), NotKey(incompatible[i]), NotIn(incompatible[..i + 1]));
        entries := Keep(entries, NotKey(incompatible[i]));
      }
      assert incompatible[..|incompatible|] == incompatible;
      KeepSame(all, NotIn(incompatible), CompatibleWith(newKey));
    }
  }

  lemma {:induction false} KeepAll<V>(d: seq<(Key, V)>, p: Key -> bool)
    requires forall e :: e in d ==> p(e.0)
    ensures Keep(d, p) == d
  {
    if d != [] {
      assert d[0] in d;
      KeepAll(d[1..], p);
    }
  }
}
