/**
 * A stable insertion sort over a total preorder: the model of `Array.prototype.sort`
 * with a comparator, which is stable in every current JavaScript engine.
 */
module Sorting {

  /** `le(a, b)`: `a` may stand before `b` (the comparator returns a value `<= 0`). */
  ghost predicate TotalPreorder<T(!new)>(le: (T, T) -> bool) {
    && (forall a, b :: le(a, b) || le(b, a))
    && (forall a, b, c :: le(a, b) && le(b, c) ==> le(a, c))
  }

  ghost predicate SortedBy<T>(s: seq<T>, le: (T, T) -> bool) {
    forall i, j :: 0 <= i < j < |s| ==> le(s[i], s[j])
  }

  /** Inserts `x` before the first element it may precede. */
  function Insert<T(!new)>(x: T, s: seq<T>, le: (T, T) -> bool): (r: seq<T>)
    requires TotalPreorder(le) && SortedBy(s, le)
    ensures SortedBy(r, le)
    ensures multiset(r) == multiset(s) + multiset{x}
    ensures |r| == |s| + 1
  {
    if s == [] then [x]
    else if le(x, s[0]) then
      BeforeHeadBeforeAll(x, s, le);
      PrependFirst(x, s, le);
      [x] + s
    else
      HeadFirst(s, le);
      var t := Insert(x, s[1..], le);
      assert s == [s[0]] + s[1..];
      assert le(s[0], x);
      FirstBeforeAll(s[0], x, s[1..], t, le);
      PrependFirst(s[0], t, le);
      [s[0]] + t
  }

  /** In a sorted sequence the head may precede every later element, and the tail is sorted. */
  lemma HeadFirst<T(!new)>(s: seq<T>, le: (T, T) -> bool)
    requires SortedBy(s, le) && s != []
    ensures forall k :: 0 <= k < |s[1..]| ==> le(s[0], s[1..][k])
    ensures SortedBy(s[1..], le)
  {
    forall k | 0 <= k < |s[1..]|
      ensures le(s[0], s[1..][k])
    {
      assert s[1..][k] == s[k + 1];
    }
  }

  /** What may precede the head of a sorted sequence may precede all of it. */
  lemma BeforeHeadBeforeAll<T(!new)>(x: T, s: seq<T>, le: (T, T) -> bool)
    requires TotalPreorder(le) && SortedBy(s, le) && s != [] && le(x, s[0])
    ensures forall k :: 0 <= k < |s| ==> le(x, s[k])
  {
    forall k | 0 < k < |s|
      ensures le(x, s[k])
    {
      assert le(s[0], s[k]);
    }
  }

  /** An element that may precede every element of a sorted sequence may go in front of it. */
  lemma PrependFirst<T>(first: T, t: seq<T>, le: (T, T) -> bool)
    requires SortedBy(t, le) && forall k :: 0 <= k < |t| ==> le(first, t[k])
    ensures SortedBy([first] + t, le)
  {
    forall i, j | 0 <= i < j < |t| + 1
      ensures le(([first] + t)[i], ([first] + t)[j])
    {
      assert ([first] + t)[j] == t[j - 1];
      if i > 0 {
        assert ([first] + t)[i] == t[i - 1];
      }
    }
  }

  /** A reordering of `rest` and `x` holds only elements `first` may precede when both do. */
  lemma FirstBeforeAll<T>(first: T, x: T, rest: seq<T>, t: seq<T>, le: (T, T) -> bool)
    requires forall i :: 0 <= i < |rest| ==> le(first, rest[i])
    requires le(first, x)
    requires multiset(t) == multiset(rest) + multiset{x}
    ensures forall k :: 0 <= k < |t| ==> le(first, t[k])
  {
    forall k | 0 <= k < |t|
      ensures le(first, t[k])
    {
      assert t[k] in multiset(t);
      if t[k] != x {
        assert t[k] in multiset(rest);
        var m :| 0 <= m < |rest| && rest[m] == t[k];
      }
    }
  }

  /**
   * Sorts `s` so that `le` holds between every earlier and later element; elements
   * that `le` ranks equal keep their relative order.
   */
  function Sort<T(!new)>(s: seq<T>, le: (T, T) -> bool): (r: seq<T>)
    requires TotalPreorder(le)
    ensures SortedBy(r, le)
    ensures multiset(r) == multiset(s)
    ensures |r| == |s|
  {
    if s == [] then []
    else
      assert s == [s[0]] + s[1..];
      Insert(s[0], Sort(s[1..], le), le)
  }

  /** The elements of `s` that `le` ranks equal to `c`, in their order in `s`. */
  function Ties<T>(s: seq<T>, le: (T, T) -> bool, c: T): (r: seq<T>)
    ensures |r| <= |s|
    ensures forall k :: 0 <= k < |r| ==> le(r[k], c) && le(c, r[k])
  {
    if s == [] then []
    else (if le(s[0], c) && le(c, s[0]) then [s[0]] else []) + Ties(s[1..], le, c)
  }

  /** `Ties` of a sequence with a known first element. */
  lemma TiesCons<T>(y: T, s: seq<T>, le: (T, T) -> bool, c: T)
    ensures Ties([y] + s, le, c) == (if le(y, c) && le(c, y) then [y] else []) + Ties(s, le, c)
  {
    assert ([y] + s)[1..] == s;
  }

  /** Insertion puts `x` in front of every element it ties with and keeps their order. */
  lemma {:induction false} InsertTies<T(!new)>(x: T, t: seq<T>, le: (T, T) -> bool, c: T)
    requires TotalPreorder(le) && SortedBy(t, le)
    ensures Ties(Insert(x, t, le), le, c) == (if le(x, c) && le(c, x) then [x] else []) + Ties(t, le, c)
  {
    if t == [] || le(x, t[0]) {
      assert Insert(x, t, le) == [x] + t;
      TiesCons(x, t, le, c);
    } else {
      HeadFirst(t, le);
      InsertTies(x, t[1..], le, c);
      NoTwoTies(x, t[0], le, c);
      var rest := Insert(x, t[1..], le);
      assert Insert(x, t, le) == [t[0]] + rest;
      TiesAfterHead(x, t, rest, le, c);
    }
  }

  /**
   * When `x` is inserted after the head of `t`, and `x` and that head do not both tie with `c`,
   * `x` still lands in front of the elements it ties with.
   */
  lemma TiesAfterHead<T>(x: T, t: seq<T>, rest: seq<T>, le: (T, T) -> bool, c: T)
    requires t != []
    requires !(le(x, c) && le(c, x)) || !(le(t[0], c) && le(c, t[0]))
    requires Ties(rest, le, c) == (if le(x, c) && le(c, x) then [x] else []) + Ties(t[1..], le, c)
    ensures Ties([t[0]] + rest, le, c) == (if le(x, c) && le(c, x) then [x] else []) + Ties(t, le, c)
  {
    TiesCons(t[0], rest, le, c);
    assert t == [t[0]] + t[1..];
    TiesCons(t[0], t[1..], le, c);
    if le(x, c) && le(c, x) {
      assert Ties(t, le, c) == Ties(t[1..], le, c);
    } else {
      assert Ties(rest, le, c) == Ties(t[1..], le, c);
    }
  }

  /** Two elements that both tie with `c` tie with each other, so either may precede the other. */
  lemma NoTwoTies<T(!new)>(x: T, y: T, le: (T, T) -> bool, c: T)
    requires TotalPreorder(le) && !le(x, y)
    ensures !(le(x, c) && le(c, x)) || !(le(y, c) && le(c, y))
  {
  }

  /** The sort is stable: elements ranked equal keep their relative order. */
  lemma {:induction false} SortIsStable<T(!new)>(s: seq<T>, le: (T, T) -> bool, c: T)
    requires TotalPreorder(le)
    ensures Ties(Sort(s, le), le, c) == Ties(s, le, c)
  {
    if s != [] {
      SortIsStable(s[1..], le, c);
      InsertTies(s[0], Sort(s[1..], le), le, c);
    }
  }

  /** A permutation holds exactly the same elements. */
  lemma SameElements<T>(r: seq<T>, s: seq<T>, x: T)
    requires multiset(r) == multiset(s)
    ensures x in r <==> x in s
  {
    assert x in r <==> x in multiset(r);
    assert x in s <==> x in multiset(s);
  }

  /** Two equal elements at different positions count twice. */
  lemma CountAtLeastTwo<T>(s: seq<T>, i: nat, j: nat)
    requires i < j < |s| && s[i] == s[j]
    ensures multiset(s)[s[i]] >= 2
  {
    assert s == s[..j] + [s[j]] + s[j + 1..];
    assert s[..j][i] == s[i];
  }

  /** An element counted twice occurs at two positions. */
  lemma {:induction false} TwoOccurrences<T>(s: seq<T>, x: T)
    requires multiset(s)[x] >= 2
    ensures exists p, q :: 0 <= p < q < |s| && s[p] == x && s[q] == x
  {
    var t := s[1..];
    assert s == [s[0]] + t;
    if s[0] == x {
      assert x in multiset(t);
      var m :| 0 <= m < |t| && t[m] == x;
      assert s[m + 1] == x;
    } else {
      TwoOccurrences(t, x);
      var p, q :| 0 <= p < q < |t| && t[p] == x && t[q] == x;
      assert s[p + 1] == x && s[q + 1] == x;
    }
  }

  ghost predicate KeysDistinctBy<T, K>(s: seq<T>, key: T -> K) {
    forall i, j :: 0 <= i < j < |s| ==> key(s[i]) != key(s[j])
  }

  /** Reordering cannot make two elements share a key. */
  lemma PermutationKeepsKeysDistinct<T, K>(r: seq<T>, s: seq<T>, key: T -> K)
    requires multiset(r) == multiset(s) && KeysDistinctBy(s, key)
    ensures KeysDistinctBy(r, key)
  {
    forall i, j | 0 <= i < j < |r|
      ensures key(r[i]) != key(r[j])
    {
      if r[i] == r[j] {
        CountAtLeastTwo(r, i, j);
        TwoOccurrences(s, r[i]);
      } else {
        assert r[i] in multiset(s) && r[j] in multiset(s);
        var p :| 0 <= p < |s| && s[p] == r[i];
        var q :| 0 <= q < |s| && s[q] == r[j];
        assert p != q;
      }
    }
  }
}
