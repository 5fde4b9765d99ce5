/** `Array.prototype.filter` and `slice(0, end)` on sequences. */
module Sequences {

  /** `s.filter(f)`: the elements for which f holds, in their order. */
  function Filter<T>(s: seq<T>, f: T -> bool): (r: seq<T>)
    ensures |r| <= |s|
  {
    if |s| == 0 then [] else if f(s[0]) then [s[0]] + Filter(s[1..], f) else Filter(s[1..], f)
  }

  /** Filtering a concatenation filters each part. */
  lemma {:induction false} FilterAppend<T>(s: seq<T>, t: seq<T>, f: T -> bool)
    ensures Filter(s + t, f) == Filter(s, f) + Filter(t, f)
    decreases |s|
  {
    if |s| == 0 {
      assert s + t == t;
    } else {
      assert (s + t)[1..] == s[1..] + t;
      FilterAppend(s[1..], t, f);
    }
  }

  /** r is s with some elements left out; the rest keep their order. */
  ghost predicate Subsequence<T>(r: seq<T>, s: seq<T>)
    decreases |s|
  {
    if |r| == 0 then true
    else if |s| == 0 then false
    else (r[0] == s[0] && Subsequence(r[1..], s[1..])) || Subsequence(r, s[1..])
  }

  /** An element is kept exactly when it is in s and passes the test. */
  lemma {:induction false} FilterMembers<T>(s: seq<T>, f: T -> bool)
    ensures forall x :: x in Filter(s, f) <==> x in s && f(x)
  {
    if |s| > 0 {
      FilterMembers(s[1..], f);
      assert s == [s[0]] + s[1..];
    }
  }

  /** Everything is kept when every element passes the test. */
  lemma {:induction false} FilterAll<T>(s: seq<T>, f: T -> bool)
    requires forall x :: x in s ==> f(x)
    ensures Filter(s, f) == s
  {
    if |s| > 0 {
      assert forall x :: x in s[1..] ==> x in s;
      FilterAll(s[1..], f);
    }
  }

  /** Nothing is kept when no element passes the test. */
  lemma {:induction false} FilterNone<T>(s: seq<T>, f: T -> bool)
    requires forall x :: x in s ==> !f(x)
    ensures Filter(s, f) == []
  {
    if |s| > 0 {
      assert forall x :: x in s[1..] ==> x in s;
      FilterNone(s[1..], f);
    }
  }

  lemma {:induction false} FilterSubsequence<T>(s: seq<T>, f: T -> bool)
    ensures Subsequence(Filter(s, f), s)
  {
    if |s| > 0 {
      FilterSubsequence(s[1..], f);
      if f(s[0]) {
        assert ([s[0]] + Filter(s[1..], f))[1..] == Filter(s[1..], f);
      }
    }
  }

  /** Two tests that agree on every element keep the same elements. */
  lemma {:induction false} FilterAgree<T>(s: seq<T>, f: T -> bool, g: T -> bool)
    requires forall x :: x in s ==> f(x) == g(x)
    ensures Filter(s, f) == Filter(s, g)
  {
    if |s| > 0 {
      assert forall x :: x in s[1..] ==> x in s;
      FilterAgree(s[1..], f, g);
    }
  }

  /** Filtering twice keeps what passes both tests. */
  lemma {:induction false} FilterFilter<T>(s: seq<T>, f: T -> bool, g: T -> bool, fg: T -> bool)
    requires forall x :: fg(x) == (f(x) && g(x))
    ensures Filter(Filter(s, f), g) == Filter(s, fg)
  {
    if |s| > 0 {
      FilterFilter(s[1..], f, g, fg);
      if f(s[0]) {
        assert ([s[0]] + Filter(s[1..], f))[1..] == Filter(s[1..], f);
      }
    }
  }

  /** A weaker test keeps at least what a stronger one keeps, in the same order. */
  lemma {:induction false} FilterWeaker<T>(s: seq<T>, f: T -> bool, g: T -> bool)
    requires forall x :: f(x) ==> g(x)
    ensures Subsequence(Filter(s, f), Filter(s, g))
  {
    if |s| > 0 {
      FilterWeaker(s[1..], f, g);
      var r, t := Filter(s[1..], f), Filter(s[1..], g);
      if f(s[0]) {
        assert ([s[0]] + r)[1..] == r && ([s[0]] + t)[1..] == t;
      } else if g(s[0]) {
        SubsequenceTail(Filter(s, f), t, s[0]);
      }
    }
  }

  /** Putting one more element in front of the longer sequence keeps the relation. */
  lemma SubsequenceTail<T>(r: seq<T>, t: seq<T>, x: T)
    requires Subsequence(r, t)
    ensures Subsequence(r, [x] + t)
  {
    assert ([x] + t)[1..] == t;
  }

  /** A prefix is a subsequence. */
  lemma {:induction false} PrefixSubsequence<T>(s: seq<T>, n: nat)
    requires n <= |s|
    ensures Subsequence(s[..n], s)
  {
    if n > 0 {
      PrefixSubsequence(s[1..], n - 1);
      assert s[..n][1..] == s[1..][..n - 1];
    }
  }

  /** A subsequence of a subsequence of t is a subsequence of t. */
  lemma {:induction false} SubsequenceTrans<T>(r: seq<T>, s: seq<T>, t: seq<T>)
    requires Subsequence(r, s) && Subsequence(s, t)
    ensures Subsequence(r, t)
    decreases |t|
  {
    if |r| > 0 {
      if Subsequence(s, t[1..]) {
        SubsequenceTrans(r, s, t[1..]);
      } else if r[0] == s[0] && Subsequence(r[1..], s[1..]) {
        SubsequenceTrans(r[1..], s[1..], t[1..]);
      } else {
        SubsequenceTrans(r, s[1..], t[1..]);
      }
    }
  }

  /** The end that `slice(0, end)` uses on a sequence of length n. */
  function SliceEnd(n: nat, end: int): (e: nat)
    ensures e <= n
    ensures 0 <= end ==> e == if end <= n then end else n
  {
    if end < 0 then (if n + end < 0 then 0 else n + end)
    else if end <= n then end else n
  }

  /** `s.slice(0, end)`. */
  function Slice<T>(s: seq<T>, end: int): (r: seq<T>)
    ensures |r| <= |s| && r == s[..|r|]
    ensures 0 <= end ==> |r| == if end <= |s| then end else |s|
    ensures end < 0 ==> |r| == if |s| + end < 0 then 0 else |s| + end
  {
    s[..SliceEnd(|s|, end)]
  }

  /** Slicing twice with non-negative ends is slicing once with the smaller end. */
  lemma SliceSlice<T>(s: seq<T>, a: int, b: int)
    requires 0 <= a && 0 <= b
    ensures Slice(Slice(s, a), b) == Slice(s, if a <= b then a else b)
  {
  }

  /** A negative end drops that many elements from the back, or all of them when there are fewer. */
  lemma SliceNegative<T>(s: seq<T>, end: int)
    requires end < 0
    ensures var r := Slice(s, end);
      && r + s[|r|..] == s
      && |s[|r|..]| == if -end <= |s| then -end else |s|
  {
  }
}
