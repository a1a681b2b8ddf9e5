/** `Array.prototype.filter` and the notions used to state what it keeps. */
module Collections {

  /** a can be obtained from b by deleting elements: a keeps b's order. */
  predicate IsSubsequence<T(==)>(a: seq<T>, b: seq<T>) {
    if a == [] then true
    else if b == [] then false
    else if a[0] == b[0] then IsSubsequence(a[1..], b[1..])
    else IsSubsequence(a, b[1..])
  }

  /** `s.filter(keep)`: the elements that satisfy keep, in their original order. */
  function Filter<T>(s: seq<T>, keep: T -> bool): (r: seq<T>)
    ensures |r| <= |s|
    ensures forall x | x in r :: x in s && keep(x)
    ensures forall x | x in s && keep(x) :: x in r
  {
    if s == [] then []
    else if keep(s[0]) then [s[0]] + Filter(s[1..], keep)
    else Filter(s[1..], keep)
  }

  lemma {:induction false} FilterIsSubsequence<T>(s: seq<T>, keep: T -> bool)
    ensures IsSubsequence(Filter(s, keep), s)
  {
    if s != [] {
      FilterIsSubsequence(s[1..], keep);
      if keep(s[0]) {
        assert ([s[0]] + Filter(s[1..], keep))[1..] == Filter(s[1..], keep);
      } else {
        SubsequenceOfTail(Filter(s[1..], keep), s);
      }
    }
  }

  lemma {:induction false} SubsequenceReflexive<T>(s: seq<T>)
    ensures IsSubsequence(s, s)
  {
    if s != [] {
      SubsequenceReflexive(s[1..]);
    }
  }

  /** A subsequence of s's tail is a subsequence of s. */
  lemma {:induction false} SubsequenceOfTail<T>(a: seq<T>, s: seq<T>)
    requires s != [] && IsSubsequence(a, s[1..])
    ensures IsSubsequence(a, s)
    decreases |s|, 0
  {
    if a != [] && a[0] == s[0] {
      SubsequenceDropHead(a, s[1..]);
    }
  }

  /** Dropping the first element of a subsequence leaves a subsequence. */
  lemma {:induction false} SubsequenceDropHead<T>(a: seq<T>, b: seq<T>)
    requires a != [] && IsSubsequence(a, b)
    ensures IsSubsequence(a[1..], b)
    decreases |b|, 1
  {
    if a[0] == b[0] {
      SubsequenceOfTail(a[1..], b);
    } else {
      SubsequenceDropHead(a, b[1..]);
      SubsequenceOfTail(a[1..], b);
    }
  }

  lemma {:induction false} SubsequenceTransitive<T>(a: seq<T>, b: seq<T>, c: seq<T>)
    requires IsSubsequence(a, b) && IsSubsequence(b, c)
    ensures IsSubsequence(a, c)
    decreases |c|
  {
    if a != [] {
      assert b != [] && c != [];
      if b[0] == c[0] {
        assert IsSubsequence(b[1..], c[1..]);
        if a[0] == b[0] {
          assert IsSubsequence(a[1..], b[1..]);
          SubsequenceTransitive(a[1..], b[1..], c[1..]);
        } else {
          assert IsSubsequence(a, b[1..]);
          SubsequenceTransitive(a, b[1..], c[1..]);
        }
      } else {
        assert IsSubsequence(b, c[1..]);
        SubsequenceTransitive(a, b, c[1..]);
        SubsequenceOfTail(a, c);
      }
    }
  }

  /** Filtering a concatenation filters each part. */
  lemma {:induction false} FilterConcat<T>(s: seq<T>, t: seq<T>, keep: T -> bool)
    ensures Filter(s + t, keep) == Filter(s, keep) + Filter(t, keep)
  {
    if s == [] {
      assert s + t == t;
    } else {
      assert (s + t)[0] == s[0] && (s + t)[1..] == s[1..] + t;
      FilterConcat(s[1..], t, keep);
      if keep(s[0]) {
        assert Filter(s, keep) + Filter(t, keep)
            == [s[0]] + (Filter(s[1..], keep) + Filter(t, keep));
      }
    }
  }

  /** A filter that keeps everything returns its input unchanged. */
  lemma {:induction false} FilterAll<T>(s: seq<T>, keep: T -> bool)
    requires forall x | x in s :: keep(x)
    ensures Filter(s, keep) == s
  {
    if s != [] {
      FilterAll(s[1..], keep);
    }
  }

  /** A filter that keeps nothing returns []. */
  lemma {:induction false} FilterNone<T>(s: seq<T>, keep: T -> bool)
    requires forall x | x in s :: !keep(x)
    ensures Filter(s, keep) == []
  {
    if s != [] {
      FilterNone(s[1..], keep);
    }
  }

  /** Every kept element appears in the result as often as in s, and the others not at
      all: the filter neither duplicates nor merges equal elements. */
  lemma {:induction false} FilterMultiplicity<T>(s: seq<T>, keep: T -> bool)
    ensures forall x | x in s :: multiset(Filter(s, keep))[x] == if keep(x) then multiset(s)[x] else 0
  {
    if s != [] {
      FilterMultiplicity(s[1..], keep);
      assert s == [s[0]] + s[1..];
      forall x | x in s
        ensures multiset(Filter(s, keep))[x] == if keep(x) then multiset(s)[x] else 0
      {
        if x !in s[1..] {
          assert x !in Filter(s[1..], keep);
        }
      }
    }
  }

  /** Number of elements of s that satisfy p (a `count: "exact"` query). */
  function Count<T>(s: seq<T>, p: T -> bool): (n: nat)
    ensures n == |Filter(s, p)|
  {
    if s == [] then 0 else (if p(s[0]) then 1 else 0) + Count(s[1..], p)
  }

  /** Ordered by key, largest first (the `order(..., { ascending: false })` of a query). */
  predicate Descending<T>(s: seq<T>, key: T -> int) {
    forall i, j | 0 <= i < j < |s| :: key(s[i]) >= key(s[j])
  }

  /** Puts x in front of the first element whose key is not larger than its own. */
  function InsertDescending<T>(x: T, s: seq<T>, key: T -> int): (r: seq<T>)
    ensures multiset(r) == multiset(s) + multiset{x}
  {
    if s == [] || key(s[0]) <= key(x) then
      [x] + s
    else
      assert s == [s[0]] + s[1..];
      [s[0]] + InsertDescending(x, s[1..], key)
  }

  lemma {:induction false} InsertKeepsDescending<T>(x: T, s: seq<T>, key: T -> int)
    requires Descending(s, key)
    ensures Descending(InsertDescending(x, s, key), key)
  {
    if s != [] && key(s[0]) > key(x) {
      var rest := InsertDescending(x, s[1..], key);
      InsertKeepsDescending(x, s[1..], key);
      var r := [s[0]] + rest;
      forall j | 0 <= j < |rest| ensures key(s[0]) >= key(rest[j]) {
        assert rest[j] in multiset(s[1..]) + multiset{x};
        if rest[j] != x {
          var k :| 0 <= k < |s[1..]| && s[1..][k] == rest[j];
          assert s[k + 1] == rest[j];
        }
      }
      assert forall j | 0 < j < |r| :: r[j] == rest[j - 1];
    }
  }

  /** s sorted by key, largest first (insertion sort). */
  function SortDescending<T>(s: seq<T>, key: T -> int): (r: seq<T>)
    ensures Descending(r, key)
    ensures multiset(r) == multiset(s)
  {
    if s == [] then []
    else
      assert s == [s[0]] + s[1..];
      InsertKeepsDescending(s[0], SortDescending(s[1..], key), key);
      InsertDescending(s[0], SortDescending(s[1..], key), key)
  }

  /** The first n elements, or all of them when there are fewer (a query's `limit(n)`). */
  function TakeAtMost<T>(s: seq<T>, n: nat): (r: seq<T>)
    ensures |r| == if |s| <= n then |s| else n
  {
    if |s| <= n then s else s[..n]
  }

  lemma TakeAtMostSubMultiset<T>(s: seq<T>, n: nat)
    ensures multiset(TakeAtMost(s, n)) <= multiset(s)
  {
    if |s| > n {
      assert s == s[..n] + s[n..];
    }
  }

  /** The n largest elements by key: ordered, taken from s with no element repeated more
      often than in s, and none left out is larger than one kept. */
  lemma {:induction false} TopByKey<T>(s: seq<T>, key: T -> int, n: nat)
    ensures var r := TakeAtMost(SortDescending(s, key), n);
      && |r| == (if |s| <= n then |s| else n)
      && multiset(r) <= multiset(s)
      && (forall x | x in r :: x in s)
      && Descending(r, key)
      && (forall x, y | x in s && x !in r && y in r :: key(y) >= key(x))
  {
    var sorted := SortDescending(s, key);
    var r := TakeAtMost(sorted, n);
    assert |sorted| == |s| by {
      assert |multiset(sorted)| == |multiset(s)|;
    }
    TakeAtMostSubMultiset(sorted, n);
    assert multiset(sorted) == multiset(s);
    assert multiset(r) <= multiset(s);
    forall x | x in r ensures x in s {
      assert x in multiset(r);
      assert x in multiset(s);
    }
    forall x, y | x in s && x !in r && y in r ensures key(y) >= key(x) {
      assert x in multiset(sorted);
      var i :| 0 <= i < |sorted| && sorted[i] == x;
      var j :| 0 <= j < |r| && r[j] == y;
      assert sorted[j] == y;
    }
  }

  /** Two properties no element has at once are counted at most |s| times together. */
  lemma {:induction false} CountDisjoint<T>(s: seq<T>, p: T -> bool, q: T -> bool)
    requires forall x | x in s :: !(p(x) && q(x))
    ensures Count(s, p) + Count(s, q) <= |s|
  {
    if s != [] {
      CountDisjoint(s[1..], p, q);
    }
  }
}
