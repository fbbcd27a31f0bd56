/**
 * `ORDER BY`: the listings return their rows sorted by a key. The database promises a
 * sorted permutation of the rows; the model computes one with an insertion sort and proves
 * both halves of that promise. String keys compare by code point, lexicographically.
 */
module Ordering {

  /** `le` is total and transitive, so it can drive a sort. */
  ghost predicate IsTotalPreorder<T(!new)>(le: (T, T) -> bool) {
    && (forall a: T, b: T :: le(a, b) || le(b, a))
    && (forall a: T, b: T, c: T :: le(a, b) && le(b, c) ==> le(a, c))
  }

  predicate SortedBy<T>(s: seq<T>, le: (T, T) -> bool) {
    forall i, j :: 0 <= i < j < |s| ==> le(s[i], s[j])
  }

  /** Inserts `x` before the first element it may precede. */
  function InsertBy<T>(x: T, s: seq<T>, le: (T, T) -> bool): (r: seq<T>)
    ensures multiset(r) == multiset(s) + multiset{x}
  {
    if s == [] || le(x, s[0]) then [x] + s
    else
      assert s == [s[0]] + s[1..];
      [s[0]] + InsertBy(x, s[1..], le)
  }

  function SortBy<T>(s: seq<T>, le: (T, T) -> bool): (r: seq<T>)
    ensures multiset(r) == multiset(s)
  {
    if s == [] then []
    else
      assert s == [s[0]] + s[1..];
      InsertBy(s[0], SortBy(s[1..], le), le)
  }

  lemma {:induction false} InsertBySorted<T(!new)>(x: T, s: seq<T>, le: (T, T) -> bool)
    requires IsTotalPreorder(le) && SortedBy(s, le)
    ensures SortedBy(InsertBy(x, s, le), le)
  {
    if s == [] || le(x, s[0]) {
      forall y | y in s ensures le(x, y) {
        var k :| 0 <= k < |s| && s[k] == y;
        if k > 0 {
          assert le(s[0], s[k]);
        }
      }
      SortedCons(x, s, le);
    } else {
      var tail := InsertBy(x, s[1..], le);
      assert SortedBy(s[1..], le);
      InsertBySorted(x, s[1..], le);
      assert le(s[0], x);
      forall y | y in tail
        ensures le(s[0], y)
      {
        assert y in multiset(tail);
        assert y == x || y in multiset(s[1..]);
        if y != x {
          var k :| 1 <= k < |s| && s[k] == y by { assert y in s[1..]; }
        }
      }
      SortedCons(s[0], tail, le);
    }
  }

  /** An element below every element of a sorted sequence may go in front of it. */
  lemma SortedCons<T>(h: T, s: seq<T>, le: (T, T) -> bool)
    requires SortedBy(s, le) && forall y :: y in s ==> le(h, y)
    ensures SortedBy([h] + s, le)
  {
    var r := [h] + s;
    forall i, j | 0 <= i < j < |r| ensures le(r[i], r[j]) {
      if i == 0 {
        assert r[j] == s[j - 1] && s[j - 1] in s;
      } else {
        assert r[i] == s[i - 1] && r[j] == s[j - 1];
      }
    }
  }

  /** The listing is ordered by its key. */
  lemma {:induction false} SortBySorted<T(!new)>(s: seq<T>, le: (T, T) -> bool)
    requires IsTotalPreorder(le)
    ensures SortedBy(SortBy(s, le), le)
  {
    if s != [] {
      SortBySorted(s[1..], le);
      InsertBySorted(s[0], SortBy(s[1..], le), le);
    }
  }

  /** Code-point lexicographic order on strings. */
  predicate LexLe(a: string, b: string)
    decreases |a|
  {
    a == [] || (b != [] && (a[0] < b[0] || (a[0] == b[0] && LexLe(a[1..], b[1..]))))
  }

  lemma {:induction false} LexLeTotal(a: string, b: string)
    ensures LexLe(a, b) || LexLe(b, a)
    decreases |a|
  {
    if a != [] && b != [] && a[0] == b[0] {
      LexLeTotal(a[1..], b[1..]);
    }
  }

  lemma {:induction false} LexLeTransitive(a: string, b: string, c: string)
    requires LexLe(a, b) && LexLe(b, c)
    ensures LexLe(a, c)
    decreases |a|
  {
    if a != [] && a[0] == b[0] && b[0] == c[0] {
      LexLeTransitive(a[1..], b[1..], c[1..]);
    }
  }

  lemma {:induction false} LexLeAntisymmetric(a: string, b: string)
    requires LexLe(a, b) && LexLe(b, a)
    ensures a == b
    decreases |a|
  {
    if a != [] {
      LexLeAntisymmetric(a[1..], b[1..]);
      assert a == [a[0]] + a[1..] && b == [b[0]] + b[1..];
    }
  }

  /** Strings that agree up to `i` and differ there are ordered, strictly, by the characters at `i`. */
  lemma {:induction false} LexLeAt(a: string, b: string, i: nat)
    requires i < |a| && i < |b| && a[..i] == b[..i] && a[i] < b[i]
    ensures LexLe(a, b) && !LexLe(b, a)
    decreases i
  {
    if i > 0 {
      assert a[0] == a[..i][0] && b[0] == b[..i][0];
      assert a[1..][..i - 1] == a[..i][1..] && b[1..][..i - 1] == b[..i][1..];
      LexLeAt(a[1..], b[1..], i - 1);
    }
  }

  /** Sorting two elements puts the second first exactly when the first may not precede it. */
  lemma SortPair<T>(x: T, y: T, le: (T, T) -> bool)
    ensures SortBy([x, y], le) == if le(x, y) then [x, y] else [y, x]
  {
    assert [x, y][1..] == [y];
    assert SortBy([y], le) == [y] by {
      assert [y][1..] == [];
    }
  }

  /** Ascending order of a string key, as `ORDER BY name ASC` applies it. */
  lemma LexLeIsTotalPreorder()
    ensures IsTotalPreorder(LexLe)
  {
    forall a: string, b: string ensures LexLe(a, b) || LexLe(b, a) {
      LexLeTotal(a, b);
    }
    forall a: string, b: string, c: string | LexLe(a, b) && LexLe(b, c) ensures LexLe(a, c) {
      LexLeTransitive(a, b, c);
    }
  }
}
