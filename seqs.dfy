/** Collection operations the commands lean on: Collection::filter, the stable
    sorts behind Collection::sortBy and Collection::sort, and PHP's string order. */
module Seqs {

  /** Collection::filter (keys are not re-indexed in PHP; iteration order is kept). */
  function Filter<T(!new)>(s: seq<T>, p: T -> bool): (r: seq<T>)
    ensures |r| <= |s|
    ensures forall x :: x in r <==> x in s && p(x)
    ensures forall i :: 0 <= i < |r| ==> p(r[i])
  {
    if s == [] then []
    else
      var rest := Filter(s[..|s| - 1], p);
      assert s == s[..|s| - 1] + [s[|s| - 1]];
      if p(s[|s| - 1]) then rest + [s[|s| - 1]] else rest
  }

  /** Nothing passes the filter when no element satisfies the predicate. */
  lemma {:induction false} FilterNone<T(!new)>(s: seq<T>, p: T -> bool)
    requires forall i :: 0 <= i < |s| ==> !p(s[i])
    ensures Filter(s, p) == []
    decreases |s|
  {
    if s != [] {
      FilterNone(s[..|s| - 1], p);
    }
  }

  // ---------------------------------------------------------------- orders

  ghost predicate Total<T(!new)>(le: (T, T) -> bool)
  {
    forall a, b :: le(a, b) || le(b, a)
  }

  ghost predicate Transitive<T(!new)>(le: (T, T) -> bool)
  {
    forall a, b, c :: le(a, b) && le(b, c) ==> le(a, c)
  }

  ghost predicate Sorted<T>(s: seq<T>, le: (T, T) -> bool)
  {
    forall i, j :: 0 <= i < j < |s| ==> le(s[i], s[j])
  }

  // ---------------------------------------------------------------- stable insertion sort

  /** Insert x after every element that is not greater than it (keeps equal
      elements in arrival order). */
  function Insert<T>(x: T, s: seq<T>, le: (T, T) -> bool): (r: seq<T>)
    ensures multiset(r) == multiset(s) + multiset{x}
    ensures |r| == |s| + 1
  {
    if s == [] then [x]
    else if le(s[|s| - 1], x) then s + [x]
    else
      assert s == s[..|s| - 1] + [s[|s| - 1]];
      Insert(x, s[..|s| - 1], le) + [s[|s| - 1]]
  }

  /** A stable sort: each element in turn is inserted after its equals. */
  function SortBy<T>(s: seq<T>, le: (T, T) -> bool): (r: seq<T>)
    ensures multiset(r) == multiset(s)
    ensures |r| == |s|
  {
    if s == [] then []
    else
      assert s == s[..|s| - 1] + [s[|s| - 1]];
      Insert(s[|s| - 1], SortBy(s[..|s| - 1], le), le)
  }

  lemma {:induction false} InsertSorted<T(!new)>(x: T, s: seq<T>, le: (T, T) -> bool)
    requires Total(le) && Transitive(le)
    requires Sorted(s, le)
    ensures Sorted(Insert(x, s, le), le)
  {
    if s == [] {
    } else if le(s[|s| - 1], x) {
      var r := s + [x];
      forall i, j | 0 <= i < j < |r| ensures le(r[i], r[j]) {
        if j == |s| && i < |s| - 1 {
          assert le(s[i], s[|s| - 1]);
        }
      }
    } else {
      var p := s[..|s| - 1];
      var last := s[|s| - 1];
      InsertSorted(x, p, le);
      var q := Insert(x, p, le);
      assert le(x, last);
      forall y | y in multiset(q) ensures le(y, last) {
        assert y in multiset(p) + multiset{x};
        if y != x {
          assert y in p;
          var k :| 0 <= k < |p| && p[k] == y;
          assert le(s[k], s[|s| - 1]);
        }
      }
      var r := q + [last];
      forall i, j | 0 <= i < j < |r| ensures le(r[i], r[j]) {
        if j == |q| {
          assert r[i] in multiset(q);
        }
      }
    }
  }

  /** The stable sort yields an ascending permutation of its input. */
  lemma {:induction false} SortBySorted<T(!new)>(s: seq<T>, le: (T, T) -> bool)
    requires Total(le) && Transitive(le)
    ensures Sorted(SortBy(s, le), le)
    ensures multiset(SortBy(s, le)) == multiset(s)
  {
    if s != [] {
      SortBySorted(s[..|s| - 1], le);
      InsertSorted(s[|s| - 1], SortBy(s[..|s| - 1], le), le);
    }
  }

  /** The order that Collection::sortBy($key) uses for integer keys. */
  function ByKey<T>(key: T -> int): (le: (T, T) -> bool)
  {
    (a: T, b: T) => key(a) <= key(b)
  }

  lemma ByKeyIsTotalPreorder<T(!new)>(key: T -> int)
    ensures Total(ByKey(key)) && Transitive(ByKey(key))
  {
  }

  /** sortBy on an integer key: ascending by key and a permutation of the input. */
  lemma SortByKeyAscending<T(!new)>(s: seq<T>, key: T -> int)
    ensures var r := SortBy(s, ByKey(key));
      multiset(r) == multiset(s) &&
      forall i, j :: 0 <= i < j < |r| ==> key(r[i]) <= key(r[j])
  {
    ByKeyIsTotalPreorder(key);
    SortBySorted(s, ByKey(key));
  }

  // ---------------------------------------------------------------- string order

  /** strcmp order on strings (code-point lexicographic order, a prefix first). */
  predicate LexLe(a: string, b: string)
    decreases |a|
  {
    if a == [] then true
    else if b == [] then false
    else if a[0] != b[0] then a[0] < b[0]
    else LexLe(a[1..], b[1..])
  }

  lemma {:induction false} LexLeTotal(a: string, b: string)
    ensures LexLe(a, b) || LexLe(b, a)
    decreases |a|
  {
    if a != [] && b != [] && a[0] == b[0] {
      LexLeTotal(a[1..], b[1..]);
    }
  }

  lemma {:induction false} LexLeTransitive(a: string, b: string, c: string)
    requires LexLe(a, b) && LexLe(b, c)
    ensures LexLe(a, c)
    decreases |a|
  {
    if a != [] && b != [] && c != [] && a[0] == b[0] && b[0] == c[0] {
      LexLeTransitive(a[1..], b[1..], c[1..]);
    }
  }

  lemma {:induction false} LexLeAntisymmetric(a: string, b: string)
    requires LexLe(a, b) && LexLe(b, a)
    ensures a == b
    decreases |a|
  {
    if a != [] && b != [] {
      LexLeAntisymmetric(a[1..], b[1..]);
      assert a == [a[0]] + a[1..] && b == [b[0]] + b[1..];
    }
  }

  function StringOrder(): (le: (string, string) -> bool)
  {
    (a: string, b: string) => LexLe(a, b)
  }

  lemma StringOrderIsTotalPreorder()
    ensures Total(StringOrder()) && Transitive(StringOrder())
  {
    forall a, b ensures LexLe(a, b) || LexLe(b, a) { LexLeTotal(a, b); }
    forall a, b, c | LexLe(a, b) && LexLe(b, c) ensures LexLe(a, c) { LexLeTransitive(a, b, c); }
  }

  /** Collection::sort on strings: ascending in strcmp order, a permutation of the input. */
  lemma SortStringsAscending(s: seq<string>)
    ensures var r := SortBy(s, StringOrder());
      multiset(r) == multiset(s) &&
      forall i, j :: 0 <= i < j < |r| ==> LexLe(r[i], r[j])
  {
    StringOrderIsTotalPreorder();
    SortBySorted(s, StringOrder());
  }
}
