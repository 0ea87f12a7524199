/** Ordering of query results (`.order(...)`): a sort by a total preorder,
    specified as a sorted permutation of its input. */
module Sorting {

  /** `le` is a total preorder: every two values compare and `le` is transitive. */
  ghost predicate TotalPreorder<T(!new)>(le: (T, T) -> bool) {
    && (forall a, b :: le(a, b) || le(b, a))
    && (forall a, b, c :: le(a, b) && le(b, c) ==> le(a, c))
  }

  predicate SortedBy<T>(s: seq<T>, le: (T, T) -> bool) {
    forall i, j :: 0 <= i < j < |s| ==> le(s[i], s[j])
  }

  /** Inserts `x` into the sorted `s`, after every element it does not precede. */
  function Insert<T(!new)>(x: T, s: seq<T>, le: (T, T) -> bool): (r: seq<T>)
    requires TotalPreorder(le)
    requires SortedBy(s, le)
    ensures SortedBy(r, le)
    ensures multiset(r) == multiset(s) + multiset{x}
    ensures |r| == |s| + 1
  {
    if s == [] then [x]
    else if le(x, s[0]) then
      PrecedesSorted(x, s, le);
      PrependKeepsSorted(x, s, le);
      [x] + s
    else
      var rest := s[1..];
      assert s == [s[0]] + rest;
      TailSorted(s, le);
      var t := Insert(x, rest, le);
      assert le(s[0], s[0]);
      PrecedesSorted(s[0], s, le);
      PrecedesInserted(s[0], x, rest, t, le);
      PrependKeepsSorted(s[0], t, le);
      [s[0]] + t
  }

  /** The tail of a sorted sequence is sorted. */
  lemma TailSorted<T>(s: seq<T>, le: (T, T) -> bool)
    requires SortedBy(s, le) && s != []
    ensures SortedBy(s[1..], le)
  {
    forall i, j | 0 <= i < j < |s[1..]| ensures le(s[1..][i], s[1..][j]) {
      assert s[1..][i] == s[i + 1] && s[1..][j] == s[j + 1];
    }
  }

  /** A value that precedes the first element of a sorted sequence precedes all of it. */
  lemma PrecedesSorted<T(!new)>(x: T, s: seq<T>, le: (T, T) -> bool)
    requires TotalPreorder(le) && SortedBy(s, le) && s != []
    requires le(x, s[0])
    ensures forall y :: y in s ==> le(x, y)
  {
    forall y | y in s ensures le(x, y) {
      var k :| 0 <= k < |s| && s[k] == y;
      if k > 0 {
        assert le(s[0], s[k]);
      }
    }
  }

  /** A value preceding `x` and everything in `s` precedes everything in `s` with `x` added. */
  lemma PrecedesInserted<T>(h: T, x: T, s: seq<T>, t: seq<T>, le: (T, T) -> bool)
    requires le(h, x) && (forall y :: y in s ==> le(h, y))
    requires multiset(t) == multiset(s) + multiset{x}
    ensures forall y :: y in t ==> le(h, y)
  {
    forall y | y in t ensures le(h, y) {
      assert y in multiset(t);
      if y != x {
        assert y in multiset(s);
      }
    }
  }

  /** Prepending a value that precedes every element keeps a sequence sorted. */
  lemma PrependKeepsSorted<T>(x: T, s: seq<T>, le: (T, T) -> bool)
    requires SortedBy(s, le)
    requires forall y :: y in s ==> le(x, y)
    ensures SortedBy([x] + s, le)
  {
    var t := [x] + s;
    forall i, j | 0 <= i < j < |t| ensures le(t[i], t[j]) {
      assert t[j] == s[j - 1];
      if i == 0 {
        assert s[j - 1] in s;
      } else {
        assert t[i] == s[i - 1];
      }
    }
  }

  /** Insertion sort: a permutation of `s` ordered by `le`. */
  function Sort<T(!new)>(s: seq<T>, le: (T, T) -> bool): (r: seq<T>)
    requires TotalPreorder(le)
    ensures SortedBy(r, le)
    ensures multiset(r) == multiset(s)
    ensures |r| == |s|
  {
    if s == [] then []
    else
      assert s == [s[0]] + s[1..];
      Insert(s[0], Sort(s[1..], le), le)
  }

  /** In a sorted sequence every element of a prefix precedes every element after it. */
  lemma SortedPrefixPrecedesRest<T>(s: seq<T>, le: (T, T) -> bool, k: nat)
    requires SortedBy(s, le) && k <= |s|
    ensures forall x, y :: x in s[k..] && y in s[..k] ==> le(y, x)
  {
    forall x, y | x in s[k..] && y in s[..k] ensures le(y, x) {
      var a :| 0 <= a < |s[k..]| && s[k..][a] == x;
      var b :| 0 <= b < k && s[..k][b] == y;
      assert s[b] == y && s[k + a] == x;
    }
  }
}
