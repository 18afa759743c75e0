/**
 * The JavaScript array operations the pages rely on: `filter`, and the
 * default `sort()` of an array of strings, which orders by comparing the
 * strings character by character.
 */
module JsArray {

  // ---------------------------------------------------------------------------
  // filter
  // ---------------------------------------------------------------------------

  /** `s.filter(p)`. */
  function Filter<T>(s: seq<T>, p: T -> bool): (r: seq<T>)
    ensures |r| <= |s|
  {
    if |s| == 0 then [] else (if p(s[0]) then [s[0]] else []) + Filter(s[1..], p)
  }

  /** `a` is `b` with some elements left out, the rest in their order. */
  predicate IsSubsequence<T(==)>(a: seq<T>, b: seq<T>)
  {
    |a| == 0 || (|b| > 0 && ((a[0] == b[0] && IsSubsequence(a[1..], b[1..])) || IsSubsequence(a, b[1..])))
  }

  /** An element is kept exactly when it is in the input and passes the test. */
  lemma {:induction false} FilterMembership<T>(s: seq<T>, p: T -> bool)
    ensures forall x :: x in Filter(s, p) <==> x in s && p(x)
  {
    if |s| > 0 {
      FilterMembership(s[1..], p);
      assert s == [s[0]] + s[1..];
    }
  }

  /** Filtering keeps the input order: the result is a subsequence of the input. */
  lemma {:induction false} FilterIsSubsequence<T>(s: seq<T>, p: T -> bool)
    ensures IsSubsequence(Filter(s, p), s)
  {
    if |s| > 0 {
      FilterIsSubsequence(s[1..], p);
      var r := Filter(s, p);
      if p(s[0]) {
        assert r[0] == s[0] && r[1..] == Filter(s[1..], p);
      } else {
        assert r == Filter(s[1..], p);
      }
    }
  }

  /** Filtering a concatenation filters each part. */
  lemma {:induction false} FilterAppend<T>(s: seq<T>, t: seq<T>, p: T -> bool)
    ensures Filter(s + t, p) == Filter(s, p) + Filter(t, p)
  {
    if |s| > 0 {
      FilterAppend(s[1..], t, p);
      assert (s + t)[1..] == s[1..] + t;
      assert (s + t)[0] == s[0];
    } else {
      assert s + t == t;
    }
  }

  /** When every element passes, nothing is dropped. */
  lemma {:induction false} FilterKeepsAll<T>(s: seq<T>, p: T -> bool)
    requires forall x | x in s :: p(x)
    ensures Filter(s, p) == s
  {
    if |s| > 0 {
      assert s[0] in s;
      assert forall x | x in s[1..] :: x in s;
      FilterKeepsAll(s[1..], p);
      assert s == [s[0]] + s[1..];
    }
  }

  /** When no element passes, nothing is kept. */
  lemma {:induction false} FilterKeepsNone<T>(s: seq<T>, p: T -> bool)
    requires forall x | x in s :: !p(x)
    ensures Filter(s, p) == []
  {
    if |s| > 0 {
      assert s[0] in s;
      assert forall x | x in s[1..] :: x in s;
      FilterKeepsNone(s[1..], p);
    }
  }

  /** Two tests that agree on the input's elements yield the same result. */
  lemma {:induction false} FilterAgrees<T>(s: seq<T>, p: T -> bool, q: T -> bool)
    requires forall x | x in s :: p(x) == q(x)
    ensures Filter(s, p) == Filter(s, q)
  {
    if |s| > 0 {
      assert s[0] in s;
      assert forall x | x in s[1..] :: x in s;
      FilterAgrees(s[1..], p, q);
    }
  }

  /** A stricter test keeps a subsequence of what a looser test keeps. */
  lemma {:induction false} FilterNarrower<T>(s: seq<T>, p: T -> bool, q: T -> bool)
    requires forall x | x in s :: p(x) ==> q(x)
    ensures IsSubsequence(Filter(s, p), Filter(s, q))
  {
    if |s| > 0 {
      assert s[0] in s;
      assert forall x | x in s[1..] :: x in s;
      FilterNarrower(s[1..], p, q);
      var fp := Filter(s, p);
      var fq := Filter(s, q);
      if p(s[0]) {
        assert fp[0] == s[0] == fq[0] && fp[1..] == Filter(s[1..], p) && fq[1..] == Filter(s[1..], q);
      } else if q(s[0]) {
        assert fp == Filter(s[1..], p) && fq[1..] == Filter(s[1..], q);
        SubsequenceSkip(fp, fq);
      } else {
        assert fp == Filter(s[1..], p) && fq == Filter(s[1..], q);
      }
    }
  }

  /** Dropping the head of the longer side keeps a subsequence relation. */
  lemma SubsequenceSkip<T>(a: seq<T>, b: seq<T>)
    requires |b| > 0 && IsSubsequence(a, b[1..])
    ensures IsSubsequence(a, b)
  {
  }

  /** Every element of a subsequence is an element of the sequence. */
  lemma {:induction false} SubsequenceMembers<T>(a: seq<T>, b: seq<T>)
    requires IsSubsequence(a, b)
    ensures forall x | x in a :: x in b
    decreases |b|
  {
    if |a| > 0 {
      if a[0] == b[0] && IsSubsequence(a[1..], b[1..]) {
        SubsequenceMembers(a[1..], b[1..]);
        assert a == [a[0]] + a[1..];
        assert forall x | x in b[1..] :: x in b;
      } else {
        SubsequenceMembers(a, b[1..]);
        assert forall x | x in b[1..] :: x in b;
      }
    }
  }

  // ---------------------------------------------------------------------------
  // the default sort order of strings
  // ---------------------------------------------------------------------------

  /** `a < b` on strings: a proper prefix comes first, otherwise the first differing character decides. */
  predicate LexLess(a: string, b: string)
  {
    if |a| == 0 then |b| > 0
    else if |b| == 0 then false
    else if a[0] != b[0] then a[0] < b[0]
    else LexLess(a[1..], b[1..])
  }

  lemma {:induction false} LexLessIrreflexive(a: string)
    ensures !LexLess(a, a)
  {
    if |a| > 0 {
      LexLessIrreflexive(a[1..]);
    }
  }

  lemma {:induction false} LexLessTransitive(a: string, b: string, c: string)
    requires LexLess(a, b) && LexLess(b, c)
    ensures LexLess(a, c)
  {
    if |a| > 0 && |b| > 0 && |c| > 0 && a[0] == b[0] && b[0] == c[0] {
      LexLessTransitive(a[1..], b[1..], c[1..]);
    }
  }

  /** Two different strings are ordered one way or the other, never both. */
  lemma {:induction false} LexLessTotal(a: string, b: string)
    ensures a != b <==> LexLess(a, b) || LexLess(b, a)
    ensures !(LexLess(a, b) && LexLess(b, a))
  {
    if |a| > 0 && |b| > 0 {
      LexLessTotal(a[1..], b[1..]);
      if a[0] == b[0] {
        assert a == [a[0]] + a[1..] && b == [b[0]] + b[1..];
      }
    } else if a == b {
      LexLessIrreflexive(a);
    }
  }

  /** Ascending, ties allowed. */
  predicate Sorted(s: seq<string>)
  {
    forall i, j | 0 <= i < j < |s| :: !LexLess(s[j], s[i])
  }

  /** Ascending without ties, so also free of duplicates. */
  predicate StrictlySorted(s: seq<string>)
  {
    forall i, j | 0 <= i < j < |s| :: LexLess(s[i], s[j])
  }

  predicate Distinct<T(==)>(s: seq<T>)
  {
    forall i, j | 0 <= i < j < |s| :: s[i] != s[j]
  }

  /** Places `x` in front of the first element that does not come before it. */
  function Insert(x: string, s: seq<string>): (r: seq<string>)
    ensures multiset(r) == multiset(s) + multiset{x}
  {
    if |s| == 0 then [x]
    else if LexLess(s[0], x) then (assert s == [s[0]] + s[1..]; [s[0]] + Insert(x, s[1..]))
    else [x] + s
  }

  /** `Array.from(...).sort()` on strings: insertion sort, which orders as the default comparison does. */
  function Sort(s: seq<string>): (r: seq<string>)
    ensures multiset(r) == multiset(s)
  {
    if |s| == 0 then [] else (assert s == [s[0]] + s[1..]; Insert(s[0], Sort(s[1..])))
  }

  lemma {:induction false} InsertSorted(x: string, s: seq<string>)
    requires Sorted(s)
    ensures Sorted(Insert(x, s))
  {
    if |s| > 0 && LexLess(s[0], x) {
      InsertSorted(x, s[1..]);
      InsertBehindHead(x, s);
    } else if |s| > 0 {
      InsertInFront(x, s);
    }
  }

  /** `x` goes in front when it does not come after the head. */
  lemma InsertInFront(x: string, s: seq<string>)
    requires Sorted(s) && |s| > 0 && !LexLess(s[0], x)
    ensures Sorted(Insert(x, s))
  {
    var r := Insert(x, s);
    assert r == [x] + s;
    forall j | 0 < j < |r| ensures !LexLess(r[j], x) {
      assert r[j] == s[j - 1];
      if LexLess(s[j - 1], x) && j - 1 > 0 {
        LexLessTotal(s[0], s[j - 1]);
        if s[0] != s[j - 1] {
          LexLessTransitive(s[0], s[j - 1], x);
        }
      }
    }
  }

  /** The head stays in front when `x` comes after it and the rest is sorted. */
  lemma InsertBehindHead(x: string, s: seq<string>)
    requires Sorted(s) && |s| > 0 && LexLess(s[0], x) && Sorted(Insert(x, s[1..]))
    ensures Sorted(Insert(x, s))
  {
    var r := Insert(x, s);
    var tail := Insert(x, s[1..]);
    assert r == [s[0]] + tail;
    forall j | 0 < j < |r| ensures !LexLess(r[j], s[0]) {
      var y := r[j];
      assert y == tail[j - 1];
      assert y in multiset(tail);
      if y == x {
        LexLessTotal(s[0], x);
      } else {
        assert y in multiset(s[1..]);
        var k :| 0 <= k < |s[1..]| && s[1..][k] == y;
        assert s[k + 1] == y;
      }
    }
  }

  /** The default sort returns an ascending arrangement of its input. */
  lemma {:induction false} SortSorts(s: seq<string>)
    ensures Sorted(Sort(s)) && multiset(Sort(s)) == multiset(s)
  {
    if |s| > 0 {
      SortSorts(s[1..]);
      InsertSorted(s[0], Sort(s[1..]));
    }
  }

  /** Sorting a duplicate-free sequence gives a strictly ascending sequence of the same elements. */
  lemma SortDistinct(s: seq<string>)
    requires Distinct(s)
    ensures StrictlySorted(Sort(s))
    ensures forall x :: x in Sort(s) <==> x in s
  {
    SortSorts(s);
    var r := Sort(s);
    assert forall x :: x in r <==> x in multiset(r);
    assert forall x :: x in s <==> x in multiset(s);
    forall i, j | 0 <= i < j < |r| ensures LexLess(r[i], r[j]) {
      if r[i] == r[j] {
        DistinctCount(s, r[i]);
        assert multiset(r)[r[i]] >= 2 by {
          TwoOccurrences(r, i, j);
        }
        assert false;
      }
      LexLessTotal(r[i], r[j]);
    }
  }

  lemma {:induction false} DistinctCount(s: seq<string>, x: string)
    requires Distinct(s)
    ensures multiset(s)[x] <= 1
  {
    if |s| > 0 {
      assert s == [s[0]] + s[1..];
      assert Distinct(s[1..]);
      DistinctCount(s[1..], x);
      if x == s[0] {
        assert x !in s[1..];
      }
    }
  }

  lemma {:induction false} TwoOccurrences(r: seq<string>, i: nat, j: nat)
    requires i < j < |r| && r[i] == r[j]
    ensures multiset(r)[r[i]] >= 2
  {
    assert r == r[..i] + [r[i]] + r[i + 1..j] + [r[j]] + r[j + 1..];
  }

  /** A subsequence of a strictly ascending sequence is strictly ascending. */
  lemma {:induction false} SubsequenceStrictlySorted(a: seq<string>, b: seq<string>)
    requires IsSubsequence(a, b) && StrictlySorted(b)
    ensures StrictlySorted(a)
    decreases |b|
  {
    if |a| > 0 {
      if a[0] == b[0] && IsSubsequence(a[1..], b[1..]) {
        SubsequenceStrictlySorted(a[1..], b[1..]);
        SubsequenceMembers(a[1..], b[1..]);
        forall i, j | 0 <= i < j < |a| ensures LexLess(a[i], a[j]) {
          if i == 0 {
            assert a[j] in a[1..];
            var k :| 0 <= k < |b[1..]| && b[1..][k] == a[j];
            assert b[k + 1] == a[j];
          } else {
            assert a[i] == a[1..][i - 1] && a[j] == a[1..][j - 1];
          }
        }
      } else {
        SubsequenceStrictlySorted(a, b[1..]);
      }
    }
  }
}
