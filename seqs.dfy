/**
 * `Array.prototype.filter` and `find`, and the subsequence relation a
 * filter's result stands in to its input: every list the handlers and
 * components narrow down is such a subsequence.
 */
module Seqs {
  import opened Wrappers

  /** `a` is `b` with some elements left out and the order of the rest kept. */
  predicate Subsequence<T(==)>(a: seq<T>, b: seq<T>)
    decreases |b|
  {
    if b == [] then a == []
    else (a != [] && a[0] == b[0] && Subsequence(a[1..], b[1..])) || Subsequence(a, b[1..])
  }

  /** `s.filter(f)`. */
  function Filter<T(==,!new)>(s: seq<T>, f: T -> bool): (r: seq<T>)
    ensures |r| <= |s|
    ensures forall x :: x in r <==> x in s && f(x)
    ensures Subsequence(r, s)
  {
    if s == [] then []
    else
      var rest := Filter(s[1..], f);
      if f(s[0]) then
        assert ([s[0]] + rest)[1..] == rest;
        [s[0]] + rest
      else rest
  }

  /** How many elements of `s` pass `f`, counted one element at a time. */
  function CountWhere<T>(s: seq<T>, f: T -> bool): nat {
    if s == [] then 0 else (if f(s[0]) then 1 else 0) + CountWhere(s[1..], f)
  }

  /** `s.filter(f).length` is the number of elements that pass `f`. */
  lemma {:induction false} FilterCount<T(!new)>(s: seq<T>, f: T -> bool)
    ensures |Filter(s, f)| == CountWhere(s, f)
  {
    if s != [] {
      FilterCount(s[1..], f);
    }
  }

  /** Every sequence is a subsequence of itself. */
  lemma {:induction false} SubsequenceReflexive<T>(s: seq<T>)
    ensures Subsequence(s, s)
  {
    if s != [] {
      SubsequenceReflexive(s[1..]);
    }
  }

  /** A subsequence of a subsequence is a subsequence: chained filters keep the input order. */
  lemma {:induction false} SubsequenceTransitive<T>(a: seq<T>, b: seq<T>, c: seq<T>)
    requires Subsequence(a, b) && Subsequence(b, c)
    ensures Subsequence(a, c)
    decreases |c|
  {
    if c == [] {
    } else if Subsequence(b, c[1..]) {
      SubsequenceTransitive(a, b, c[1..]);
    } else {
      assert b != [] && b[0] == c[0] && Subsequence(b[1..], c[1..]);
      if Subsequence(a, b[1..]) {
        SubsequenceTransitive(a, b[1..], c[1..]);
      } else {
        assert a != [] && a[0] == b[0] && Subsequence(a[1..], b[1..]);
        SubsequenceTransitive(a[1..], b[1..], c[1..]);
      }
    }
  }

  /** The empty sequence is a subsequence of every sequence: filtering everything out. */
  lemma {:induction false} EmptySubsequence<T>(s: seq<T>)
    ensures Subsequence([], s)
    decreases |s|
  {
    if s != [] {
      EmptySubsequence(s[1..]);
    }
  }
  /** A filter whose test every element passes returns its input. */
  lemma {:induction false} FilterAll<T(!new)>(s: seq<T>, f: T -> bool)
    requires forall i :: 0 <= i < |s| ==> f(s[i])
    ensures Filter(s, f) == s
  {
    if s != [] {
      FilterAll(s[1..], f);
      assert [s[0]] + s[1..] == s;
    }
  }

  /** Filtering `[x] + s` tests `x`, then filters `s`. */
  lemma FilterCons<T(!new)>(x: T, s: seq<T>, f: T -> bool)
    ensures Filter([x] + s, f) == if f(x) then [x] + Filter(s, f) else Filter(s, f)
  {
    assert ([x] + s)[0] == x && ([x] + s)[1..] == s;
  }

  lemma AppendAssoc<T>(a: seq<T>, b: seq<T>, c: seq<T>)
    ensures a + (b + c) == (a + b) + c
  {
  }

  /** One step of `FilterAppend`: putting `x` in front of both sides keeps them equal. */
  lemma FilterAppendStep<T(!new)>(x: T, t: seq<T>, b: seq<T>, f: T -> bool)
    requires Filter(t + b, f) == Filter(t, f) + Filter(b, f)
    ensures Filter([x] + (t + b), f) == Filter([x] + t, f) + Filter(b, f)
  {
    FilterCons(x, t + b, f);
    FilterCons(x, t, f);
    AppendAssoc([x], Filter(t, f), Filter(b, f));
  }

  /** Filtering a concatenation filters each part: `(a.concat(b)).filter(f)`. */
  lemma {:induction false} FilterAppend<T(!new)>(a: seq<T>, b: seq<T>, f: T -> bool)
    ensures Filter(a + b, f) == Filter(a, f) + Filter(b, f)
  {
    if a == [] {
      assert a + b == b;
    } else {
      FilterAppend(a[1..], b, f);
      FilterAppendStep(a[0], a[1..], b, f);
      assert a == [a[0]] + a[1..];
      AppendAssoc([a[0]], a[1..], b);
    }
  }

  /** A filter whose test no element passes returns nothing. */
  lemma {:induction false} FilterNone<T(!new)>(s: seq<T>, f: T -> bool)
    requires forall i :: 0 <= i < |s| ==> !f(s[i])
    ensures Filter(s, f) == []
  {
    if s != [] {
      FilterNone(s[1..], f);
    }
  }

  /** A subsequence is no longer than the sequence it is taken from. */
  lemma {:induction false} SubsequenceLength<T>(a: seq<T>, b: seq<T>)
    requires Subsequence(a, b)
    ensures |a| <= |b|
    decreases |b|
  {
    if b != [] {
      if Subsequence(a, b[1..]) {
        SubsequenceLength(a, b[1..]);
      } else {
        SubsequenceLength(a[1..], b[1..]);
      }
    }
  }

  /** Every element of a subsequence is an element of the sequence. */
  lemma {:induction false} SubsequenceMembers<T>(a: seq<T>, b: seq<T>)
    requires Subsequence(a, b)
    ensures forall x :: x in a ==> x in b
    decreases |b|
  {
    if b != [] {
      if Subsequence(a, b[1..]) {
        SubsequenceMembers(a, b[1..]);
      } else {
        SubsequenceMembers(a[1..], b[1..]);
        forall x | x in a
          ensures x in b
        {
          if x != a[0] {
            assert x in a[1..];
          }
        }
      }
    }
  }

  /** `p` holds of every element and every later one: an order or a distinctness. */
  predicate Pairwise<T>(s: seq<T>, p: (T, T) -> bool) {
    forall i, j :: 0 <= i < j < |s| ==> p(s[i], s[j])
  }

  /** A subsequence keeps every pairwise relation of the sequence, since it keeps the order. */
  lemma {:induction false} SubsequencePairwise<T>(a: seq<T>, b: seq<T>, p: (T, T) -> bool)
    requires Subsequence(a, b) && Pairwise(b, p)
    ensures Pairwise(a, p)
    decreases |b|
  {
    if b != [] {
      assert Pairwise(b[1..], p) by {
        forall i, j | 0 <= i < j < |b[1..]|
          ensures p(b[1..][i], b[1..][j])
        {
          assert b[1..][i] == b[i + 1] && b[1..][j] == b[j + 1];
        }
      }
      if Subsequence(a, b[1..]) {
        SubsequencePairwise(a, b[1..], p);
      } else {
        SubsequencePairwise(a[1..], b[1..], p);
        SubsequenceMembers(a[1..], b[1..]);
        forall i, j | 0 <= i < j < |a|
          ensures p(a[i], a[j])
        {
          assert a[j] == a[1..][j - 1];
          if i > 0 {
            assert a[i] == a[1..][i - 1];
          } else {
            assert a[j] in b[1..];
            var k :| 0 <= k < |b[1..]| && b[1..][k] == a[j];
            assert b[k + 1] == a[j];
          }
        }
      }
    }
  }

  /** An element appended last that the test rejects leaves the filtered sequence as it was. */
  lemma {:induction false} FilterSnocDropped<T(!new)>(s: seq<T>, x: T, f: T -> bool)
    requires !f(x)
    ensures Filter(s + [x], f) == Filter(s, f)
    decreases |s|
  {
    if s == [] {
      assert [x][1..] == [];
    } else {
      FilterSnocDropped(s[1..], x, f);
      assert (s + [x])[1..] == s[1..] + [x];
    }
  }

  /** `s.find(p)`: the first element passing `p`, if any. */
  function FindFirst<T>(s: seq<T>, p: T -> bool): (r: Option<T>)
    ensures r.Some? <==> exists i :: 0 <= i < |s| && p(s[i])
    ensures r.Some? ==> exists i :: 0 <= i < |s| && s[i] == r.value && p(s[i]) && forall j :: 0 <= j < i ==> !p(s[j])
  {
    if s == [] then None
    else if p(s[0]) then Some(s[0])
    else
      var r := FindFirst(s[1..], p);
      assert forall i :: 1 <= i < |s| ==> s[i] == s[1..][i - 1];
      assert r.Some? ==> exists i :: 1 <= i < |s| && s[i] == r.value && p(s[i]) && forall j :: 0 <= j < i ==> !p(s[j]);
      r
  }
}
