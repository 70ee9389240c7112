/** The two result shapes used throughout: an optional value and a computation that may raise. */
module Wrappers {

  /** A value that Python would model as `T | None`. */
  datatype Option<+T> = None | Some(value: T) {
    function GetOr(default: T): T { if Some? then value else default }
  }

  /** A call that returns a value or raises an exception. */
  datatype Result<+T, +E> = Ok(value: T) | Raised(error: E)
}

/** Sequences and the sets of their elements. */
module Sequences {

  /** The newest `n` elements. */
  function Cut<T>(s: seq<T>, n: nat): (r: seq<T>)
    ensures |r| <= n
  {
    if |s| > n then s[|s| - n..] else s
  }

  function Elements<T>(s: seq<T>): (r: set<T>) { set x | x in s }

  lemma TakeOneMore<T>(s: seq<T>, i: nat)
    requires i < |s|
    ensures s[..i + 1] == s[..i] + [s[i]] && (i + 1 == |s| ==> s[..i + 1] == s)
  {
  }

  /** The places of the elements with the property. */
  ghost function Where<T>(s: seq<T>, p: T -> bool): (places: set<int>)
    ensures forall i :: i in places <==> 0 <= i < |s| && p(s[i])
  {
    set i | 0 <= i < |s| && p(s[i])
  }

  lemma OneMorePlace<T>(s: seq<T>, p: T -> bool)
    requires s != []
    ensures var n := |s| - 1; |Where(s, p)| == |Where(s[..n], p)| + if p(s[n]) then 1 else 0
  {
    var n := |s| - 1;
    assert n !in Where(s[..n], p);
    assert Where(s, p) == if p(s[n]) then Where(s[..n], p) + {n} else Where(s[..n], p);
  }

  ghost predicate Distinct<T>(s: seq<T>) {
    forall i, j :: 0 <= i < j < |s| ==> s[i] != s[j]
  }

  lemma AppendDistinct<T>(s: seq<T>, x: T)
    requires Distinct(s)
    ensures Distinct(s + [x]) <==> x !in s
    ensures Elements(s + [x]) == Elements(s) + {x}
  {
    var t := s + [x];
    if x in s {
      var i :| 0 <= i < |s| && s[i] == x;
      assert t[i] == t[|s|];
    }
  }

  lemma PrefixDistinct<T>(s: seq<T>, t: seq<T>)
    requires Distinct(s + t)
    ensures Distinct(s)
  {
    assert forall i :: 0 <= i < |s| ==> (s + t)[i] == s[i];
  }

  function Itself<T>(): T -> T { (x: T) => x }

  ghost predicate DistinctBy<T, K>(s: seq<T>, key: T -> K) {
    forall i, j :: 0 <= i < j < |s| ==> key(s[i]) != key(s[j])
  }

  /** Elements with distinct keys drawn from a set are at most as many as the set has. */
  lemma {:induction false} DistinctBound<T, K>(s: seq<T>, key: T -> K, within: set<K>)
    requires DistinctBy(s, key) && forall i :: 0 <= i < |s| ==> key(s[i]) in within
    ensures |s| <= |within|
  {
    if s != [] {
      DistinctBound(s[1..], key, within - {key(s[0])});
    }
  }

  lemma {:induction false} SubsetSize<T>(a: set<T>, b: set<T>)
    requires a <= b
    ensures |a| <= |b|
  {
    if a != {} {
      var x :| x in a;
      SubsetSize(a - {x}, b - {x});
    }
  }

  /** `x` is in the sequence, and the keys of everything after it belong to `newer`. */
  ghost predicate Behind<T, K>(s: seq<T>, x: T, key: T -> K, newer: set<K>) {
    exists i :: 0 <= i < |s| && s[i] == x && forall j :: i < j < |s| ==> key(s[j]) in newer
  }

  /** An element with fewer than `n` distinct newer keys survives the cut to `n`. */
  lemma CutKeepsBehind<T, K>(s: seq<T>, n: nat, x: T, key: T -> K, newer: set<K>)
    requires Behind(s, x, key, newer) && DistinctBy(s, key) && |newer| < n
    ensures Behind(Cut(s, n), x, key, newer)
  {
    var i :| 0 <= i < |s| && s[i] == x && forall j :: i < j < |s| ==> key(s[j]) in newer;
    DistinctBound(s[i + 1..], key, newer);
    if |s| > n {
      var drop := |s| - n;
      assert i >= drop && s[drop..][i - drop] == x;
      assert forall j :: i - drop < j < n ==> s[drop..][j] == s[j + drop];
    }
  }

  lemma AppendKeepsBehind<T, K>(s: seq<T>, y: T, x: T, key: T -> K, newer: set<K>)
    requires Behind(s, x, key, newer)
    ensures Behind(s + [y], x, key, newer + {key(y)})
  {
    var i :| 0 <= i < |s| && s[i] == x && forall j :: i < j < |s| ==> key(s[j]) in newer;
    assert (s + [y])[i] == x;
  }
}
