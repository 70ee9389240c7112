/** Orders and sorting: what Python's tuple comparison and sorted() promise. */
module Sorting {
  import opened Sequences

  // ---------- orders ----------

  ghost predicate StrictTotal<T(!new)>(less: (T, T) -> bool) {
    && (forall x :: !less(x, x))
    && (forall x, y :: x == y || less(x, y) || less(y, x))
    && (forall x, y, z :: less(x, y) && less(y, z) ==> less(x, z))
  }

  predicate CharLess(c: char, d: char) { c < d }

  predicate RealLess(x: real, y: real) { x < y }

  /** Lexicographic comparison of two sequences, as Python compares strings and tuples. */
  predicate LexLe<T(==)>(a: seq<T>, b: seq<T>, less: (T, T) -> bool) {
    a == [] || (b != [] && (less(a[0], b[0]) || (a[0] == b[0] && LexLe(a[1..], b[1..], less))))
  }

  lemma {:induction false} LexTotal<T(!new)>(a: seq<T>, b: seq<T>, less: (T, T) -> bool)
    requires StrictTotal(less)
    ensures LexLe(a, b, less) || LexLe(b, a, less)
    ensures LexLe(a, b, less) && LexLe(b, a, less) ==> a == b
  {
    if a != [] && b != [] && a[0] == b[0] {
      LexTotal(a[1..], b[1..], less);
      assert a == [a[0]] + a[1..] && b == [b[0]] + b[1..];
    }
  }

  lemma {:induction false} LexTransitive<T(!new)>(a: seq<T>, b: seq<T>, c: seq<T>, less: (T, T) -> bool)
    requires StrictTotal(less) && LexLe(a, b, less) && LexLe(b, c, less)
    ensures LexLe(a, c, less)
  {
    if a != [] && a[0] == b[0] == c[0] {
      LexTransitive(a[1..], b[1..], c[1..], less);
    }
  }

  /** The comparison from place `k` on: decided there, or passed on to the next place. */
  lemma LexPeel<T>(x: seq<T>, y: seq<T>, k: nat, less: (T, T) -> bool)
    requires k < |x| && k < |y|
    ensures LexLe(x[k..], y[k..], less) <==> less(x[k], y[k]) || (x[k] == y[k] && LexLe(x[k + 1..], y[k + 1..], less))
  {
    assert x[k..][1..] == x[k + 1..] && y[k..][1..] == y[k + 1..];
  }

  /** One string comes before another: as a prefix, or by the first character in which they differ. */
  ghost predicate Precedes(a: string, b: string) {
    a < b || exists i :: 0 <= i < |a| && i < |b| && DifferAt(a, b, i)
  }

  predicate DifferAt(a: string, b: string, i: nat)
    requires i < |a| && i < |b|
  {
    a[..i] == b[..i] && a[i] < b[i]
  }

  lemma {:induction false} StringsCompare(a: string, b: string)
    ensures LexLe(a, b, CharLess) <==> a == b || Precedes(a, b)
  {
    if a != [] && b != [] && a[0] == b[0] {
      var x, y := a[1..], b[1..];
      StringsCompare(x, y);
      assert a == [a[0]] + x && b == [b[0]] + y;
      if i :| 0 <= i < |x| && i < |y| && DifferAt(x, y, i) {
        assert a[..i + 1] == [a[0]] + x[..i] && b[..i + 1] == [b[0]] + y[..i];
        assert DifferAt(a, b, i + 1);
      }
      if i :| 0 <= i < |a| && i < |b| && DifferAt(a, b, i) {
        assert i > 0;
        assert x[..i - 1] == a[..i][1..] && y[..i - 1] == b[..i][1..];
        assert DifferAt(x, y, i - 1);
      }
    } else if a != [] && b != [] {
      assert a[..0] == b[..0];
      if CharLess(a[0], b[0]) {
        assert DifferAt(a, b, 0);
      }
      forall i | 0 < i < |a| && i < |b| ensures !DifferAt(a, b, i) {
        assert a[..i][0] == a[0] && b[..i][0] == b[0];
      }
    }
  }

  /** Whether `le` orders the elements of `s` totally and tells different ones apart. */
  ghost predicate Orders<T>(s: seq<T>, le: (T, T) -> bool) {
    && (forall x, y :: x in s && y in s ==> le(x, y) || le(y, x))
    && (forall x, y :: x in s && y in s && le(x, y) && le(y, x) ==> x == y)
    && (forall x, y, z :: x in s && y in s && z in s && le(x, y) && le(y, z) ==> le(x, z))
  }

  // ---------- sorting ----------

  function Insert<T>(x: T, s: seq<T>, le: (T, T) -> bool): seq<T> {
    if s == [] || le(x, s[0]) then [x] + s else [s[0]] + Insert(x, s[1..], le)
  }

  /** A stable sort. */
  function Sort<T>(s: seq<T>, le: (T, T) -> bool): (r: seq<T>)
  {
    if s == [] then [] else Insert(s[0], Sort(s[1..], le), le)
  }

  ghost predicate Sorted<T>(s: seq<T>, le: (T, T) -> bool) {
    forall i, j :: 0 <= i < j < |s| ==> le(s[i], s[j])
  }

  lemma {:induction false} InsertKeepsElements<T>(x: T, s: seq<T>, le: (T, T) -> bool)
    ensures multiset(Insert(x, s, le)) == multiset(s) + multiset{x}
  {
    if s != [] && !le(x, s[0]) {
      InsertKeepsElements(x, s[1..], le);
      assert s == [s[0]] + s[1..];
    }
  }

  lemma {:induction false} SortKeepsElements<T>(s: seq<T>, le: (T, T) -> bool)
    ensures multiset(Sort(s, le)) == multiset(s)
  {
    if s != [] {
      SortKeepsElements(s[1..], le);
      InsertKeepsElements(s[0], Sort(s[1..], le), le);
      assert s == [s[0]] + s[1..];
    }
  }

  /** Same elements, same counts: so same length and same membership. */
  lemma SameElements<T>(a: seq<T>, b: seq<T>)
    requires multiset(a) == multiset(b)
    ensures |a| == |b| && forall x :: x in a ==> x in b
    ensures Distinct(b) ==> Distinct(a)
  {
    assert |a| == |multiset(a)| && |b| == |multiset(b)|;
    forall x | x in a ensures x in b { assert x in multiset(a); }
    if Distinct(b) {
      DistinctCounts(b);
      forall i, j | 0 <= i < j < |a| ensures a[i] != a[j] {
        if a[i] == a[j] {
          TwiceCounts(a, i, j);
        }
      }
    }
  }

  lemma {:induction false} DistinctCounts<T>(s: seq<T>)
    requires Distinct(s)
    ensures forall x :: x in multiset(s) ==> multiset(s)[x] == 1
  {
    if s != [] {
      DistinctCounts(s[1..]);
      assert s == [s[0]] + s[1..];
      assert s[0] !in s[1..];
    }
  }

  lemma RemoveOne<T>(s: seq<T>, i: nat)
    requires i < |s|
    ensures multiset(s[..i] + s[i + 1..]) == multiset(s) - multiset{s[i]}
  {
    assert s == s[..i] + [s[i]] + s[i + 1..];
  }

  /** `f` applied to every element. */
  function Map<A, B>(s: seq<A>, f: A --> B): (r: seq<B>)
    requires forall x :: x in s ==> f.requires(x)
    ensures |r| == |s|
  {
    seq(|s|, i requires 0 <= i < |s| => f(s[i]))
  }

  lemma MapWithoutOne<A, B>(s: seq<A>, i: nat, f: A --> B)
    requires i < |s| && forall x :: x in s ==> f.requires(x)
    ensures forall x :: x in s[..i] + s[i + 1..] ==> x in s
    ensures multiset(Map(s, f)) == multiset(Map(s[..i] + s[i + 1..], f)) + multiset{f(s[i])}
  {
    var rest, m := s[..i] + s[i + 1..], Map(s, f);
    assert m[..i] + m[i + 1..] == Map(rest, f);
    RemoveOne(m, i);
    assert m[i] in multiset(m);
  }

  /** Rearranging the arguments rearranges the results. */
  lemma {:induction false} MapKeepsElements<A, B>(a: seq<A>, b: seq<A>, f: A --> B)
    requires multiset(a) == multiset(b)
    requires (forall x :: x in a ==> f.requires(x)) && (forall x :: x in b ==> f.requires(x))
    ensures multiset(Map(a, f)) == multiset(Map(b, f))
    decreases |a|
  {
    hide Map;
    if a == [] {
      assert |multiset(b)| == |b|;
    } else {
      var i := FindFirst(a, b);
      MapWithoutOne(a, 0, f);
      MapWithoutOne(b, i, f);
      assert a[..0] + a[1..] == a[1..];
      MapKeepsElements(a[1..], b[..i] + b[i + 1..], f);
    }
  }

  /** Where the other arrangement has the first element, and that the rests have the same elements. */
  lemma FindFirst<T>(a: seq<T>, b: seq<T>) returns (i: nat)
    requires multiset(a) == multiset(b) && a != []
    ensures i < |b| && b[i] == a[0] && multiset(a[1..]) == multiset(b[..i] + b[i + 1..])
  {
    TailElements(a);
    i := PlaceOf(a[0], b);
    RemoveOne(b, i);
  }

  lemma TailElements<T>(s: seq<T>)
    requires s != []
    ensures s[0] in multiset(s) && multiset(s[1..]) == multiset(s) - multiset{s[0]}
  {
    assert s == [s[0]] + s[1..];
  }

  lemma PlaceOf<T>(x: T, s: seq<T>) returns (i: nat)
    requires x in multiset(s)
    ensures i < |s| && s[i] == x
  {
    i :| 0 <= i < |s| && s[i] == x;
  }

  /** Rearranging keeps keys distinct. */
  lemma DistinctIgnoresOrder<T, K>(a: seq<T>, b: seq<T>, key: T -> K)
    requires multiset(a) == multiset(b) && DistinctBy(a, key)
    ensures DistinctBy(b, key)
  {
    MapKeepsElements(a, b, key);
    assert Distinct(Map(a, key));
    SameElements(Map(b, key), Map(a, key));
    forall i, j | 0 <= i < j < |b| ensures key(b[i]) != key(b[j]) {
      assert Map(b, key)[i] != Map(b, key)[j];
    }
  }

  lemma TwiceCounts<T>(s: seq<T>, i: nat, j: nat)
    requires i < j < |s| && s[i] == s[j]
    ensures multiset(s)[s[i]] >= 2
  {
    assert s == s[..i] + [s[i]] + s[i + 1..j] + [s[j]] + s[j + 1..];
  }

  lemma PrependSorted<T>(x: T, s: seq<T>, le: (T, T) -> bool)
    requires Sorted(s, le) && forall y :: y in s ==> le(x, y)
    ensures Sorted([x] + s, le)
  {
    var r := [x] + s;
    forall i, j | 0 <= i < j < |r| ensures le(r[i], r[j]) {
      assert r[j] == s[j - 1] && s[j - 1] in s;
    }
  }

  lemma SortedBehindFirst<T>(s: seq<T>, le: (T, T) -> bool)
    requires s != [] && Sorted(s, le)
    ensures Sorted(s[1..], le) && forall y :: y in s[1..] ==> le(s[0], y)
  {
    forall y | y in s[1..] ensures le(s[0], y) {
      var k :| 0 <= k < |s[1..]| && s[1..][k] == y;
      assert s[k + 1] == y;
    }
  }

  lemma OrdersPart<T>(s: seq<T>, part: seq<T>, le: (T, T) -> bool)
    requires Orders(s, le) && forall y :: y in part ==> y in s
    ensures Orders(part, le)
  {
  }

  lemma {:induction false} InsertSorted<T>(x: T, s: seq<T>, le: (T, T) -> bool)
    requires Orders([x] + s, le) && Sorted(s, le)
    ensures Sorted(Insert(x, s, le), le)
  {
    hide Sorted;
    if s == [] {
      NoneSorted(le);
      PrependSorted(x, s, le);
    } else {
      var all := [x] + s;
      SortedBehindFirst(s, le);
      assert x in all && s[0] in all && forall y :: y in s[1..] ==> y in all;
      if le(x, s[0]) {
        forall y | y in s ensures le(x, y) {
          assert y == s[0] || y in s[1..];
        }
        PrependSorted(x, s, le);
      } else {
        OrdersPart(all, [x] + s[1..], le);
        InsertSorted(x, s[1..], le);
        InsertKeepsElements(x, s[1..], le);
        var t := Insert(x, s[1..], le);
        forall y | y in t ensures le(s[0], y) {
          assert y in multiset(t);
          assert y == x || y in s[1..];
        }
        PrependSorted(s[0], t, le);
      }
    }
  }

  lemma NoneSorted<T>(le: (T, T) -> bool)
    ensures Sorted([], le)
  {
  }

  lemma {:induction false} SortSorts<T>(s: seq<T>, le: (T, T) -> bool)
    requires Orders(s, le)
    ensures Sorted(Sort(s, le), le)
  {
    if s != [] {
      assert forall y :: y in s[1..] ==> y in s;
      SortSorts(s[1..], le);
      SortKeepsElements(s[1..], le);
      SameElements(Sort(s[1..], le), s[1..]);
      assert forall y :: y in [s[0]] + Sort(s[1..], le) ==> y in s;
      InsertSorted(s[0], Sort(s[1..], le), le);
    }
  }

  lemma LeastComesFirst<T>(a: seq<T>, b: seq<T>, le: (T, T) -> bool)
    requires multiset(a) == multiset(b) && Orders(a, le) && Sorted(a, le) && Sorted(b, le) && a != []
    ensures b != [] && a[0] == b[0]
  {
    SameElements(a, b);
    SameElements(b, a);
    assert a[0] in b && b[0] in a;
    var i :| 0 <= i < |b| && b[i] == a[0];
    var j :| 0 <= j < |a| && a[j] == b[0];
  }

  /** There is only one sorted arrangement of given elements. */
  lemma {:induction false} SortedUnique<T>(a: seq<T>, b: seq<T>, le: (T, T) -> bool)
    requires multiset(a) == multiset(b) && Orders(a, le) && Sorted(a, le) && Sorted(b, le)
    ensures a == b
  {
    hide Orders, Sorted;
    if a == [] {
      SameElements(a, b);
    } else {
      LeastComesFirst(a, b, le);
      assert a == [a[0]] + a[1..] && b == [b[0]] + b[1..];
      assert multiset(a[1..]) == multiset(a) - multiset{a[0]} == multiset(b[1..]);
      TailOrders(a, b, le);
      SortedUnique(a[1..], b[1..], le);
    }
  }

  lemma TailOrders<T>(a: seq<T>, b: seq<T>, le: (T, T) -> bool)
    requires a != [] && b != [] && Orders(a, le) && Sorted(a, le) && Sorted(b, le)
    ensures Orders(a[1..], le) && Sorted(a[1..], le) && Sorted(b[1..], le)
  {
    assert forall y :: y in a[1..] ==> y in a;
  }

  /** Sorting forgets the order in which the elements came. */
  lemma SortIgnoresOrder<T>(a: seq<T>, b: seq<T>, le: (T, T) -> bool)
    requires multiset(a) == multiset(b) && Orders(a, le)
    ensures Sort(a, le) == Sort(b, le)
  {
    SameElements(b, a);
    SortSorts(a, le);
    SortSorts(b, le);
    SortKeepsElements(a, le);
    SortKeepsElements(b, le);
    SameElements(Sort(a, le), a);
    SortedUnique(Sort(a, le), Sort(b, le), le);
  }
}
