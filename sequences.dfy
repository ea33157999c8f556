/** Query building blocks shared by the scopes, the portal and the dashboard:
    `where` filters, `count()`, `orderBy`, `limit` and SQL `LIKE '%term%'`,
    each stated over the table's rows as a sequence. */
module Sequences {

  /** `r` is `s` with some elements dropped: order kept, nothing added. */
  ghost predicate Subsequence<T>(r: seq<T>, s: seq<T>)
    decreases |s|
  {
    if r == [] then true
    else if s == [] then false
    else if r[0] == s[0] then Subsequence(r[1..], s[1..])
    else Subsequence(r, s[1..])
  }

  /** A relation holding between every earlier and every later element. */
  ghost predicate Pairwise<T>(s: seq<T>, rel: (T, T) -> bool)
  {
    forall i, j :: 0 <= i < j < |s| ==> rel(s[i], s[j])
  }

  /** A `where` clause: the rows satisfying `p`, in table order. */
  function Filter<T(!new)>(s: seq<T>, p: T -> bool): (r: seq<T>)
    ensures |r| <= |s|
    ensures forall x :: x in r <==> x in s && p(x)
    ensures forall x :: multiset(r)[x] == if p(x) then multiset(s)[x] else 0
    ensures Subsequence(r, s)
  {
    if s == [] then []
    else
      var rest := Filter(s[1..], p);
      assert s == [s[0]] + s[1..];
      if p(s[0]) then [s[0]] + rest else rest
  }

  /** `count()` after a `where` clause. */
  function Count<T(!new)>(s: seq<T>, p: T -> bool): (n: nat)
    ensures n <= |s|
  {
    |Filter(s, p)|
  }

  /** Dropping elements keeps every relation that held between earlier and later ones. */
  lemma {:induction false} PairwiseSubsequence<T>(r: seq<T>, s: seq<T>, rel: (T, T) -> bool)
    requires Subsequence(r, s)
    requires Pairwise(s, rel)
    ensures Pairwise(r, rel)
    decreases |s|
  {
    if r != [] && s != [] {
      assert Pairwise(s[1..], rel) by {
        forall i, j | 0 <= i < j < |s[1..]| ensures rel(s[1..][i], s[1..][j]) {
          assert s[1..][i] == s[i + 1] && s[1..][j] == s[j + 1];
        }
      }
      if r[0] == s[0] {
        PairwiseSubsequence(r[1..], s[1..], rel);
        SubsequenceMembers(r[1..], s[1..]);
        forall i, j | 0 <= i < j < |r| ensures rel(r[i], r[j]) {
          if i == 0 {
            assert r[j] == r[1..][j - 1] && r[j] in s[1..];
            var k :| 0 <= k < |s[1..]| && s[1..][k] == r[j];
            assert rel(s[0], s[k + 1]);
          } else {
            assert r[i] == r[1..][i - 1] && r[j] == r[1..][j - 1];
          }
        }
      } else {
        PairwiseSubsequence(r, s[1..], rel);
      }
    }
  }

  /** Appending an element related to every earlier one keeps a pairwise relation. */
  lemma PairwiseAppend<T>(s: seq<T>, x: T, rel: (T, T) -> bool)
    requires Pairwise(s, rel)
    requires forall y :: y in s ==> rel(y, x)
    ensures Pairwise(s + [x], rel)
  {
    var t := s + [x];
    forall i, j | 0 <= i < j < |t| ensures rel(t[i], t[j]) {
      assert t[i] == s[i];
      if j < |s| { assert t[j] == s[j]; }
    }
  }

  /** Every element of a subsequence comes from the sequence. */
  lemma {:induction false} SubsequenceMembers<T>(r: seq<T>, s: seq<T>)
    requires Subsequence(r, s)
    ensures forall x :: x in r ==> x in s
    decreases |s|
  {
    if r != [] && s != [] {
      if r[0] == s[0] {
        SubsequenceMembers(r[1..], s[1..]);
        assert r == [r[0]] + r[1..];
      } else {
        SubsequenceMembers(r, s[1..]);
      }
      assert s == [s[0]] + s[1..];
    }
  }

  /** Two filters whose conditions agree on every row select the same rows. */
  lemma {:induction false} FilterCongruent<T(!new)>(s: seq<T>, p: T -> bool, q: T -> bool)
    requires forall x :: x in s ==> p(x) == q(x)
    ensures Filter(s, p) == Filter(s, q)
  {
    if s != [] {
      FilterCongruent(s[1..], p, q);
    }
  }

  /** `count()` of a row set split by two exclusive conditions. */
  lemma {:induction false} CountSplit<T(!new)>(s: seq<T>, p: T -> bool, q: T -> bool, both: T -> bool)
    requires forall x :: x in s ==> !(p(x) && q(x))
    requires forall x :: x in s ==> both(x) == (p(x) || q(x))
    ensures Count(s, p) + Count(s, q) == Count(s, both)
  {
    if s != [] {
      CountSplit(s[1..], p, q, both);
    }
  }

  /** A row failing the condition is not counted, so the count falls short. */
  lemma {:induction false} CountMissing<T(!new)>(s: seq<T>, p: T -> bool, x: T)
    requires x in s && !p(x)
    ensures Count(s, p) < |s|
  {
    if s[0] != x {
      CountMissing(s[1..], p, x);
    }
  }

  /** The id column of a table, row for row (`pluck('id')`). */
  function Ids<T>(s: seq<T>, id: T -> nat): (ids: seq<nat>)
    ensures |ids| == |s|
    ensures forall i :: 0 <= i < |s| ==> ids[i] == id(s[i])
  {
    seq(|s|, i requires 0 <= i < |s| => id(s[i]))
  }

  /** `limit(k)`. */
  function Take<T>(s: seq<T>, k: nat): (r: seq<T>)
    ensures |r| <= k && |r| <= |s|
    ensures r == s[..|r|]
    ensures |s| >= k ==> |r| == k
  {
    if |s| <= k then s else s[..k]
  }

  // ----- orderBy(column, 'desc') over an integer column -----

  ghost predicate SortedDescending<T>(s: seq<T>, key: T -> int)
  {
    forall i, j :: 0 <= i < j < |s| ==> key(s[i]) >= key(s[j])
  }

  function InsertDescending<T>(x: T, s: seq<T>, key: T -> int): (r: seq<T>)
    requires SortedDescending(s, key)
    ensures multiset(r) == multiset(s) + multiset{x}
    ensures SortedDescending(r, key)
  {
    if s == [] then [x]
    else if key(x) >= key(s[0]) then [x] + s
    else
      var rest := InsertDescending(x, s[1..], key);
      assert s == [s[0]] + s[1..];
      HeadDominates(s[0], s[1..], key);
      ConsDescending(s[0], rest, key);
      [s[0]] + rest
  }

  /** In a list sorted newest first, the head is at least as new as every later row. */
  lemma HeadDominates<T>(h: T, t: seq<T>, key: T -> int)
    requires SortedDescending([h] + t, key)
    ensures forall y :: y in multiset(t) ==> key(h) >= key(y)
  {
    forall y | y in multiset(t) ensures key(h) >= key(y) {
      var k :| 0 <= k < |t| && t[k] == y;
      assert ([h] + t)[0] == h && ([h] + t)[k + 1] == y;
    }
  }

  /** A row at least as new as every row of a sorted list may go in front of it. */
  lemma ConsDescending<T>(h: T, r: seq<T>, key: T -> int)
    requires SortedDescending(r, key)
    requires forall y :: y in multiset(r) ==> key(h) >= key(y)
    ensures SortedDescending([h] + r, key)
  {
    forall i, j | 0 <= i < j < |[h] + r| ensures key(([h] + r)[i]) >= key(([h] + r)[j]) {
      if i == 0 {
        assert r[j - 1] in multiset(r);
      }
    }
  }

  /** The rows ordered newest (largest key) first; equal keys keep table order. */
  function SortDescending<T>(s: seq<T>, key: T -> int): (r: seq<T>)
    ensures multiset(r) == multiset(s)
    ensures |r| == |s|
    ensures SortedDescending(r, key)
  {
    if s == [] then []
    else
      assert s == [s[0]] + s[1..];
      InsertDescending(s[0], SortDescending(s[1..], key), key)
  }

  /** `orderBy(key, 'desc')->limit(k)`: no row left out is newer than a row kept. */
  lemma LatestAreNewest<T>(s: seq<T>, key: T -> int, k: nat)
    ensures forall x :: x in s ==>
      x in Take(SortDescending(s, key), k) ||
      forall y :: y in Take(SortDescending(s, key), k) ==> key(y) >= key(x)
  {
    var sorted := SortDescending(s, key);
    var top := Take(sorted, k);
    forall x | x in s
      ensures x in top || forall y :: y in top ==> key(y) >= key(x)
    {
      assert x in multiset(sorted);
      var j :| 0 <= j < |sorted| && sorted[j] == x;
      if j >= |top| {
        forall y | y in top ensures key(y) >= key(x) {
          var i :| 0 <= i < |top| && top[i] == y;
          assert sorted[i] == y;
        }
      } else {
        assert top[j] == x;
      }
    }
  }

  /** `orderBy(key, 'desc')->limit(k)`: at most `k` rows of `s`, newest
      first, and no row left out is newer than a row kept. */
  function Latest<T>(s: seq<T>, key: T -> int, k: nat): (r: seq<T>)
    ensures |r| == if |s| <= k then |s| else k
    ensures multiset(r) <= multiset(s)
    ensures SortedDescending(r, key)
    ensures forall x :: x in s ==> x in r || forall y :: y in r ==> key(y) >= key(x)
  {
    var sorted := SortDescending(s, key);
    var r := Take(sorted, k);
    LatestAreNewest(s, key, k);
    PrefixWithin(sorted, |r|, key);
    r
  }

  /** A prefix of a list is part of it, and a prefix of a sorted list is sorted. */
  lemma PrefixWithin<T>(s: seq<T>, n: nat, key: T -> int)
    requires n <= |s|
    ensures multiset(s[..n]) <= multiset(s)
    ensures SortedDescending(s, key) ==> SortedDescending(s[..n], key)
  {
    assert s == s[..n] + s[n..];
    assert multiset(s) == multiset(s[..n]) + multiset(s[n..]);
  }

  // ----- orderBy(column) over a string column -----

  /** Lexicographic order on code points. */
  predicate LexLe(a: string, b: string)
  {
    a == [] || (b != [] && (a[0] < b[0] || (a[0] == b[0] && LexLe(a[1..], b[1..]))))
  }

  lemma {:induction false} LexLeTotal(a: string, b: string)
    ensures LexLe(a, b) || LexLe(b, a)
  {
    if a != [] && b != [] && a[0] == b[0] {
      LexLeTotal(a[1..], b[1..]);
    }
  }

  lemma {:induction false} LexLeTransitive(a: string, b: string, c: string)
    requires LexLe(a, b) && LexLe(b, c)
    ensures LexLe(a, c)
  {
    if a != [] && b != [] && c != [] && a[0] == b[0] && b[0] == c[0] {
      LexLeTransitive(a[1..], b[1..], c[1..]);
    }
  }

  ghost predicate SortedAscending<T>(s: seq<T>, key: T -> string)
  {
    forall i, j :: 0 <= i < j < |s| ==> LexLe(key(s[i]), key(s[j]))
  }

  /** A contiguous slice of a sorted list is sorted. */
  lemma SortedAscendingSlice<T>(s: seq<T>, key: T -> string, lo: nat, hi: nat)
    requires lo <= hi <= |s|
    requires SortedAscending(s, key)
    ensures SortedAscending(s[lo..hi], key)
  {
    forall i, j | 0 <= i < j < hi - lo ensures LexLe(key(s[lo..hi][i]), key(s[lo..hi][j])) {
      assert s[lo..hi][i] == s[lo + i] && s[lo..hi][j] == s[lo + j];
    }
  }

  function InsertAscending<T>(x: T, s: seq<T>, key: T -> string): (r: seq<T>)
    requires SortedAscending(s, key)
    ensures multiset(r) == multiset(s) + multiset{x}
    ensures SortedAscending(r, key)
  {
    if s == [] then [x]
    else if LexLe(key(x), key(s[0])) then
      InFrontAscending(x, s, key);
      [x] + s
    else
      var rest := InsertAscending(x, s[1..], key);
      assert s == [s[0]] + s[1..];
      LexLeTotal(key(x), key(s[0]));
      BehindHeadAscending(s[0], x, s[1..], rest, key);
      [s[0]] + rest
  }

  /** A row whose name comes no later than the head of a sorted list may go in front of it. */
  lemma InFrontAscending<T>(x: T, s: seq<T>, key: T -> string)
    requires SortedAscending(s, key) && s != [] && LexLe(key(x), key(s[0]))
    ensures SortedAscending([x] + s, key)
  {
    assert s == [s[0]] + s[1..];
    HeadLeads(s[0], s[1..], key);
    forall y | y in multiset(s) ensures LexLe(key(x), key(y)) {
      if y != s[0] { LexLeTransitive(key(x), key(s[0]), key(y)); }
    }
    ConsAscending(x, s, key);
  }

  /** The head of a sorted list stays in front when a row it precedes joins the rest. */
  lemma BehindHeadAscending<T>(h: T, x: T, t: seq<T>, rest: seq<T>, key: T -> string)
    requires SortedAscending([h] + t, key) && SortedAscending(rest, key)
    requires multiset(rest) == multiset(t) + multiset{x} && LexLe(key(h), key(x))
    ensures SortedAscending([h] + rest, key)
  {
    HeadLeads(h, t, key);
    ConsAscending(h, rest, key);
  }

  /** In a list sorted by name, the head comes no later than every later row. */
  lemma HeadLeads<T>(h: T, t: seq<T>, key: T -> string)
    requires SortedAscending([h] + t, key)
    ensures forall y :: y in multiset(t) ==> LexLe(key(h), key(y))
  {
    forall y | y in multiset(t) ensures LexLe(key(h), key(y)) {
      var k :| 0 <= k < |t| && t[k] == y;
      assert ([h] + t)[0] == h && ([h] + t)[k + 1] == y;
    }
  }

  /** A row whose name comes no later than every row of a sorted list may go in front of it. */
  lemma ConsAscending<T>(h: T, r: seq<T>, key: T -> string)
    requires SortedAscending(r, key)
    requires forall y :: y in multiset(r) ==> LexLe(key(h), key(y))
    ensures SortedAscending([h] + r, key)
  {
    forall i, j | 0 <= i < j < |[h] + r| ensures LexLe(key(([h] + r)[i]), key(([h] + r)[j])) {
      if i == 0 {
        assert r[j - 1] in multiset(r);
      }
    }
  }

  /** The rows ordered by a text column ascending. */
  function SortAscending<T>(s: seq<T>, key: T -> string): (r: seq<T>)
    ensures multiset(r) == multiset(s)
    ensures |r| == |s|
    ensures SortedAscending(r, key)
  {
    if s == [] then []
    else
      assert s == [s[0]] + s[1..];
      InsertAscending(s[0], SortAscending(s[1..], key), key)
  }

  // ----- LIKE '%term%' -----

  /** `term` occurs somewhere in `text`. */
  predicate Contains(text: string, term: string)
  {
    exists i :: 0 <= i <= |text| - |term| && OccursAt(text, term, i)
  }

  predicate OccursAt(text: string, term: string, i: int)
    requires 0 <= i <= |text| - |term|
  {
    text[i..i + |term|] == term
  }
}
