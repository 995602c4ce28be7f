/** Sequence helpers shared by the scheduler, the vector store and the session logic. */
module Seqs {

  /** The elements of `s` satisfying `p`, in order (a SQL `WHERE`). */
  function Filter<T(!new)>(p: T -> bool, s: seq<T>): (r: seq<T>)
    ensures |r| <= |s|
    ensures forall x :: x in r <==> x in s && p(x)
    ensures multiset(r) <= multiset(s)
    decreases |s|
  {
    if |s| == 0 then []
    else
      assert s == [s[0]] + s[1..];
      if p(s[0]) then [s[0]] + Filter(p, s[1..])
      else Filter(p, s[1..])
  }

  /** Number of elements of `s` satisfying `p` (a SQL `COUNT` with a `WHERE`). */
  function Count<T(!new)>(p: T -> bool, s: seq<T>): nat
  {
    |Filter(p, s)|
  }

  function Min(a: nat, b: nat): nat
  {
    if a <= b then a else b
  }

  /** Python's `s[:n]` and SQL's `LIMIT n` for a non-negative `n`. */
  function Take<T>(s: seq<T>, n: nat): (r: seq<T>)
    ensures |r| == Min(n, |s|)
    ensures r == s[..|r|]
  {
    if n <= |s| then s[..n] else s
  }

  lemma AppendAssociates<T>(a: seq<T>, b: seq<T>, c: seq<T>)
    ensures a + (b + c) == (a + b) + c
  {
  }

  /** A non-empty sequence is its head followed by its tail, before and after appending. */
  lemma ConsAppend<T>(x: T, rest: seq<T>, b: seq<T>)
    ensures ([x] + rest)[0] == x && ([x] + rest)[1..] == rest
    ensures ([x] + rest) + b == [x] + (rest + b)
  {
  }

  /** `Filter` distributes over concatenation. */
  lemma {:induction false} FilterAppend<T(!new)>(p: T -> bool, a: seq<T>, b: seq<T>)
    ensures Filter(p, a + b) == Filter(p, a) + Filter(p, b)
    decreases |a|
  {
    if |a| == 0 {
      assert a + b == b;
    } else {
      assert (a + b)[1..] == a[1..] + b;
      FilterAppend(p, a[1..], b);
    }
  }

  /** Filtering with a predicate that keeps every element of `s` returns `s`. */
  lemma {:induction false} FilterAll<T(!new)>(p: T -> bool, s: seq<T>)
    requires forall i :: 0 <= i < |s| ==> p(s[i])
    ensures Filter(p, s) == s
    decreases |s|
  {
    if |s| > 0 {
      FilterAll(p, s[1..]);
    }
  }

  /** When the first `n` elements satisfy `p`, at least `n` elements do. */
  lemma CountAtLeastPrefix<T(!new)>(p: T -> bool, s: seq<T>, n: nat)
    requires n <= |s| && forall i :: 0 <= i < n ==> p(s[i])
    ensures Count(p, s) >= n
  {
    assert s == s[..n] + s[n..];
    FilterAppend(p, s[..n], s[n..]);
    FilterAll(p, s[..n]);
  }

  /** Filtering with a predicate that keeps no element of `s` returns nothing. */
  lemma {:induction false} FilterNone<T(!new)>(p: T -> bool, s: seq<T>)
    requires forall i :: 0 <= i < |s| ==> !p(s[i])
    ensures Filter(p, s) == []
    decreases |s|
  {
    if |s| > 0 {
      FilterNone(p, s[1..]);
    }
  }

  /** Two predicates that agree on a sequence filter it identically. */
  lemma {:induction false} FilterCongruent<T(!new)>(p: T -> bool, q: T -> bool, s: seq<T>)
    requires forall i :: 0 <= i < |s| ==> p(s[i]) == q(s[i])
    ensures Filter(p, s) == Filter(q, s)
    decreases |s|
  {
    if |s| > 0 {
      FilterCongruent(p, q, s[1..]);
    }
  }

  /** Counting does not depend on the order of the elements. */
  lemma {:induction false} CountPermutation<T(!new)>(p: T -> bool, s: seq<T>, t: seq<T>)
    requires multiset(s) == multiset(t)
    ensures Count(p, s) == Count(p, t)
    decreases |s|
  {
    if |s| == 0 {
      assert |t| == |multiset(t)|;
    } else {
      var x := s[0];
      assert x in multiset(t);
      var i :| 0 <= i < |t| && t[i] == x;
      var before, after := t[..i], t[i + 1..];
      SameRest(s, t, i);
      CountPermutation(p, s[1..], before + after);
      assert t == before + [x] + after;
      assert s == [x] + s[1..];
      FilterAppend(p, [x], s[1..]);
      CountWithout(p, before, x, after);
    }
  }

  /** Two permutations of each other stay so when the first loses its head and the second the same element. */
  lemma SameRest<T>(s: seq<T>, t: seq<T>, i: nat)
    requires multiset(s) == multiset(t) && |s| > 0 && i < |t| && t[i] == s[0]
    ensures multiset(s[1..]) == multiset(t[..i] + t[i + 1..])
  {
    assert s == [s[0]] + s[1..];
    assert t == t[..i] + [t[i]] + t[i + 1..];
    assert multiset(s[1..]) == multiset(s) - multiset{s[0]};
    assert multiset(t[..i] + t[i + 1..]) == multiset(t) - multiset{t[i]};
  }

  /** Taking one element out of a sequence takes its share out of a count. */
  lemma CountWithout<T(!new)>(p: T -> bool, before: seq<T>, x: T, after: seq<T>)
    ensures Count(p, before + [x] + after) == Count(p, [x]) + Count(p, before + after)
  {
    FilterAppend(p, before + [x], after);
    FilterAppend(p, before, [x]);
    FilterAppend(p, before, after);
  }

  /**
   * When `p` and `q` never both hold and `r` holds exactly when one of them does,
   * the `r`-count is the sum of the `p`- and `q`-counts.
   */
  lemma {:induction false} CountDisjointUnion<T(!new)>(p: T -> bool, q: T -> bool, r: T -> bool, s: seq<T>)
    requires forall i :: 0 <= i < |s| ==> !(p(s[i]) && q(s[i]))
    requires forall i :: 0 <= i < |s| ==> (r(s[i]) <==> p(s[i]) || q(s[i]))
    ensures Count(r, s) == Count(p, s) + Count(q, s)
    decreases |s|
  {
    if |s| > 0 {
      CountDisjointUnion(p, q, r, s[1..]);
    }
  }
}

/** A stable insertion sort over any total preorder, used for due dates and distances. */
module Sorting {
  import Seqs

  ghost predicate TotalPreorder<T(!new)>(le: (T, T) -> bool)
  {
    && (forall a, b :: le(a, b) || le(b, a))
    && (forall a, b, c :: le(a, b) && le(b, c) ==> le(a, c))
  }

  predicate SortedBy<T>(le: (T, T) -> bool, s: seq<T>)
  {
    forall i, j :: 0 <= i < j < |s| ==> le(s[i], s[j])
  }

  /** Places `x` in front of the first element it does not come after. */
  function Insert<T(!new)>(le: (T, T) -> bool, x: T, s: seq<T>): (r: seq<T>)
    ensures |r| == |s| + 1
    ensures multiset(r) == multiset(s) + multiset{x}
    ensures TotalPreorder(le) && SortedBy(le, s) ==> SortedBy(le, r)
    decreases |s|
  {
    if |s| == 0 then [x]
    else if le(x, s[0]) then [x] + s
    else
      var rest := Insert(le, x, s[1..]);
      assert s == [s[0]] + s[1..];
      InsertAfterHead(le, x, s, rest);
      [s[0]] + rest
  }

  lemma InsertAfterHead<T(!new)>(le: (T, T) -> bool, x: T, s: seq<T>, rest: seq<T>)
    requires |s| > 0 && !le(x, s[0])
    requires multiset(rest) == multiset(s[1..]) + multiset{x}
    requires TotalPreorder(le) && SortedBy(le, s) ==> SortedBy(le, rest)
    ensures TotalPreorder(le) && SortedBy(le, s) ==> SortedBy(le, [s[0]] + rest)
  {
    if TotalPreorder(le) && SortedBy(le, s) {
      forall j | 0 <= j < |rest|
        ensures le(s[0], rest[j])
      {
        assert rest[j] in multiset(rest);
        if rest[j] == x {
        } else {
          assert rest[j] in multiset(s[1..]);
          var k :| 0 <= k < |s[1..]| && s[1..][k] == rest[j];
          assert s[k + 1] == rest[j];
        }
      }
    }
  }

  /** Sorts `s` by `le`, keeping a permutation of its elements. */
  function Sort<T(!new)>(le: (T, T) -> bool, s: seq<T>): (r: seq<T>)
    ensures |r| == |s|
    ensures multiset(r) == multiset(s)
    ensures TotalPreorder(le) ==> SortedBy(le, r)
    decreases |s|
  {
    if |s| == 0 then []
    else
      assert s == [s[0]] + s[1..];
      Insert(le, s[0], Sort(le, s[1..]))
  }

  /** Filtering keeps a sorted sequence sorted: it only drops elements. */
  lemma {:induction false} FilterKeepsSorted<T(!new)>(le: (T, T) -> bool, p: T -> bool, s: seq<T>)
    requires SortedBy(le, s)
    ensures SortedBy(le, Seqs.Filter(p, s))
    decreases |s|
  {
    if |s| > 0 {
      FilterKeepsSorted(le, p, s[1..]);
      var rest := Seqs.Filter(p, s[1..]);
      forall x | x in rest ensures le(s[0], x) {
        var k :| 0 <= k < |s[1..]| && s[1..][k] == x;
        assert s[k + 1] == x;
      }
    }
  }

  /** In a sorted sequence, everything before position `n` comes before everything after it. */
  lemma SortedSplit<T>(le: (T, T) -> bool, s: seq<T>, n: nat)
    requires SortedBy(le, s) && n <= |s|
    ensures forall i, j :: 0 <= i < n <= j < |s| ==> le(s[i], s[j])
  {
  }
}
