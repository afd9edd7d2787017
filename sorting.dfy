/**
 * The library sort the source calls (`Array.prototype.sort`), which is
 * stable: a comparator `cmp` is read as the order `le(a, b) == cmp(a, b) <= 0`,
 * and elements the comparator calls equal keep their relative order.
 * Stability comes from the construction (an element is inserted after
 * every element that is not strictly greater); sortedness and permutation
 * are proved.
 */
module Sorting {

  /** `le` is total and transitive: what a consistent comparator gives. */
  ghost predicate TotalPreorder<T(!new)>(le: (T, T) -> bool)
  {
    && (forall a, b :: le(a, b) || le(b, a))
    && (forall a, b, c :: le(a, b) && le(b, c) ==> le(a, c))
  }

  /** Every earlier element is `le` every later one. */
  ghost predicate SortedWith<T>(s: seq<T>, le: (T, T) -> bool)
  {
    forall i, j :: 0 <= i < j < |s| ==> le(s[i], s[j])
  }

  /** Inserts `x` after every element `e` of `s` with `le(e, x)`. */
  function InsertWith<T(!new)>(x: T, s: seq<T>, le: (T, T) -> bool): (r: seq<T>)
    requires TotalPreorder(le) && SortedWith(s, le)
    ensures SortedWith(r, le)
    ensures multiset(r) == multiset(s) + multiset{x}
    ensures |r| == |s| + 1
  {
    if s == [] then [x]
    else if !le(s[0], x) then
      assert le(x, s[0]);
      [x] + s
    else
      var rest := InsertWith(x, s[1..], le);
      HeadBeforeRest(s, x, rest, le);
      assert s == [s[0]] + s[1..];
      [s[0]] + rest
  }

  /** Every element of a permutation of `s[1..]` plus `x` comes after `s[0]`. */
  lemma HeadBeforeRest<T(!new)>(s: seq<T>, x: T, rest: seq<T>, le: (T, T) -> bool)
    requires |s| > 0 && SortedWith(s, le) && le(s[0], x)
    requires multiset(rest) == multiset(s[1..]) + multiset{x}
    ensures forall k :: 0 <= k < |rest| ==> le(s[0], rest[k])
  {
    forall k | 0 <= k < |rest| ensures le(s[0], rest[k]) {
      assert rest[k] in multiset(rest);
      if rest[k] != x {
        assert rest[k] in multiset(s[1..]);
        var m :| 0 <= m < |s[1..]| && s[1..][m] == rest[k];
        assert s[m + 1] == rest[k];
      }
    }
  }

  /** Stable sort of `s` by the order `le`. */
  function SortWith<T(!new)>(s: seq<T>, le: (T, T) -> bool): (r: seq<T>)
    requires TotalPreorder(le)
    ensures SortedWith(r, le)
    ensures multiset(r) == multiset(s)
    ensures |r| == |s|
    decreases |s|
  {
    if s == [] then []
    else
      assert s == s[..|s| - 1] + [s[|s| - 1]];
      InsertWith(s[|s| - 1], SortWith(s[..|s| - 1], le), le)
  }

  /** A sort keeps exactly the elements it was given. */
  lemma SortedMembers<T(!new)>(s: seq<T>, le: (T, T) -> bool)
    requires TotalPreorder(le)
    ensures forall x :: x in SortWith(s, le) <==> x in s
  {
    var r := SortWith(s, le);
    forall x ensures x in r <==> x in s {
      assert x in r <==> x in multiset(r);
      assert x in s <==> x in multiset(s);
    }
  }

  /** The order of a numeric comparator `a.key - b.key`. */
  function KeyLe<T>(key: T -> int): (T, T) -> bool
  {
    (a: T, b: T) => key(a) <= key(b)
  }

  /** Every earlier element has a key no greater than every later one. */
  ghost predicate SortedBy<T>(s: seq<T>, key: T -> int)
  {
    forall i, j :: 0 <= i < j < |s| ==> key(s[i]) <= key(s[j])
  }

  /** Stable ascending sort of `s` by `key`. */
  function SortByKey<T(!new)>(s: seq<T>, key: T -> int): (r: seq<T>)
    ensures SortedBy(r, key)
    ensures multiset(r) == multiset(s)
    ensures |r| == |s|
  {
    assert TotalPreorder(KeyLe(key));
    SortWith(s, KeyLe(key))
  }

  /** Descending order is ascending order of the negated key (`b.key - a.key`). */
  lemma SortedByNegated<T>(s: seq<T>, key: T -> int)
    requires SortedBy(s, x => -key(x))
    ensures forall i, j :: 0 <= i < j < |s| ==> key(s[i]) >= key(s[j])
  {
    forall i, j | 0 <= i < j < |s| ensures key(s[i]) >= key(s[j]) {
      assert (x => -key(x))(s[i]) <= (x => -key(x))(s[j]);
    }
  }
}
