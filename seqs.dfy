/**
 * Generic sequence helpers shared by the pages: the copy-on-write `filter`
 * that every delete operation uses, and an integer sum over a sequence
 * (the `reduce((acc, x) => acc + f(x), 0)` idiom of the pages).
 */
module Seqs {

  /** The last element. */
  function Last<T>(s: seq<T>): T
    requires s != []
  {
    s[|s| - 1]
  }

  /** All but the last element. */
  function Front<T>(s: seq<T>): seq<T>
    requires s != []
  {
    s[..|s| - 1]
  }

  /**
   * `r` is `s` with some elements left out: the elements of `r` occur in `s`
   * in the same order, at strictly increasing positions.
   */
  ghost predicate Subseq<T>(r: seq<T>, s: seq<T>)
    decreases |s|
  {
    r == [] || (s != [] && ((r[0] == s[0] && Subseq(r[1..], s[1..])) || Subseq(r, s[1..])))
  }

  /** Every sequence is a subsequence of itself. */
  lemma {:induction false} SubseqRefl<T>(s: seq<T>)
    ensures Subseq(s, s)
    decreases |s|
  {
    if s != [] {
      SubseqRefl(s[1..]);
    }
  }

  /** Appending the same element to both sides, or to the sequence alone, keeps a subsequence. */
  lemma {:induction false} SubseqSnoc<T>(r: seq<T>, s: seq<T>, x: T)
    requires Subseq(r, s)
    ensures Subseq(r + [x], s + [x]) && Subseq(r, s + [x])
    decreases |s|
  {
    if s == [] {
      assert r == [] && ([x] + [])[1..] == [];
    } else {
      assert (s + [x])[1..] == s[1..] + [x];
      if r == [] {
        SubseqSnoc(r, s[1..], x);
      } else {
        assert (r + [x])[1..] == r[1..] + [x];
        if r[0] == s[0] && Subseq(r[1..], s[1..]) {
          SubseqSnoc(r[1..], s[1..], x);
        } else {
          SubseqSnoc(r, s[1..], x);
        }
      }
    }
  }

  /** A subsequence holds each value at most as often as the sequence does. */
  lemma {:induction false} SubseqCount<T>(r: seq<T>, s: seq<T>)
    requires Subseq(r, s)
    ensures forall x :: multiset(r)[x] <= multiset(s)[x]
    decreases |s|
  {
    if r != [] {
      assert s == [s[0]] + s[1..];
      if r[0] == s[0] && Subseq(r[1..], s[1..]) {
        assert r == [r[0]] + r[1..];
        SubseqCount(r[1..], s[1..]);
      } else {
        SubseqCount(r, s[1..]);
      }
    }
  }

  /** `s.filter(keep)`: the elements that satisfy `keep`, in their original order. */
  function Filter<T(!new)>(s: seq<T>, keep: T -> bool): (r: seq<T>)
    ensures |r| <= |s|
    ensures forall x :: x in r <==> x in s && keep(x)
  {
    if s == [] then []
    else
      assert s == [s[0]] + s[1..];
      var rest := Filter(s[1..], keep);
      if keep(s[0]) then [s[0]] + rest else rest
  }

  /** The kept elements stay in their order and keep their multiplicity; the others are gone. */
  lemma {:induction false} FilterKeeps<T(!new)>(s: seq<T>, keep: T -> bool)
    ensures Subseq(Filter(s, keep), s)
    ensures forall x :: multiset(Filter(s, keep))[x] == if keep(x) then multiset(s)[x] else 0
  {
    if s != [] {
      assert s == [s[0]] + s[1..];
      FilterKeeps(s[1..], keep);
      var rest := Filter(s[1..], keep);
      if keep(s[0]) {
        assert ([s[0]] + rest)[1..] == rest;
      }
    }
  }

  /** The order and multiplicity that `FilterKeeps` states determine the filtered sequence. */
  lemma {:induction false} FilterUnique<T(!new)>(r: seq<T>, s: seq<T>, keep: T -> bool)
    requires Subseq(r, s)
    requires forall x :: multiset(r)[x] == if keep(x) then multiset(s)[x] else 0
    ensures r == Filter(s, keep)
    decreases |s|
  {
    if s != [] {
      var x0 := s[0];
      assert s == [x0] + s[1..];
      if keep(x0) {
        if !(r != [] && r[0] == x0 && Subseq(r[1..], s[1..])) {
          SubseqCount(r, s[1..]);
          assert false;
        }
        assert r == [x0] + r[1..];
        FilterUnique(r[1..], s[1..], keep);
      } else {
        assert x0 !in r;
        assert Subseq(r, s[1..]);
        FilterUnique(r, s[1..], keep);
      }
    }
  }

  /** Filtering commutes with concatenation, so the kept elements keep their relative order. */
  lemma {:induction false} FilterConcat<T(!new)>(a: seq<T>, b: seq<T>, keep: T -> bool)
    ensures Filter(a + b, keep) == Filter(a, keep) + Filter(b, keep)
  {
    if a == [] {
      assert a + b == b;
    } else {
      assert (a + b)[0] == a[0];
      assert (a + b)[1..] == a[1..] + b;
      FilterConcat(a[1..], b, keep);
      var ra := Filter(a[1..], keep);
      var rb := Filter(b, keep);
      if keep(a[0]) {
        assert Filter(a + b, keep) == [a[0]] + (ra + rb);
        assert Filter(a, keep) == [a[0]] + ra;
      } else {
        assert Filter(a + b, keep) == ra + rb;
        assert Filter(a, keep) == ra;
      }
    }
  }

  /** Filtering with a predicate that holds everywhere changes nothing. */
  lemma {:induction false} FilterAll<T(!new)>(s: seq<T>, keep: T -> bool)
    requires forall x :: x in s ==> keep(x)
    ensures Filter(s, keep) == s
  {
    if s != [] {
      FilterAll(s[1..], keep);
    }
  }

  /** `s.reduce((acc, x) => acc + f(x), 0)`. */
  function Sum<T>(s: seq<T>, f: T -> int): int
  {
    if s == [] then 0 else f(s[0]) + Sum(s[1..], f)
  }

  lemma {:induction false} SumConcat<T>(a: seq<T>, b: seq<T>, f: T -> int)
    ensures Sum(a + b, f) == Sum(a, f) + Sum(b, f)
  {
    if a == [] {
      assert a + b == b;
    } else {
      assert (a + b)[1..] == a[1..] + b;
      SumConcat(a[1..], b, f);
    }
  }

  /** Removing the element at `j` takes exactly its term out of the sum. */
  lemma SumRemoveAt<T>(b: seq<T>, j: nat, f: T -> int)
    requires j < |b|
    ensures Sum(b, f) == f(b[j]) + Sum(b[..j] + b[j + 1..], f)
  {
    assert b == b[..j] + ([b[j]] + b[j + 1..]);
    SumConcat(b[..j], [b[j]] + b[j + 1..], f);
    assert ([b[j]] + b[j + 1..])[1..] == b[j + 1..];
    SumConcat(b[..j], b[j + 1..], f);
  }

  /** A sum does not depend on the order of the summed sequence. */
  lemma {:induction false} SumPermutation<T>(a: seq<T>, b: seq<T>, f: T -> int)
    requires multiset(a) == multiset(b)
    ensures Sum(a, f) == Sum(b, f)
    decreases |a|
  {
    if a == [] {
      assert |b| == |multiset(b)| == 0;
    } else {
      var x := a[0];
      assert x in multiset(b);
      var j :| 0 <= j < |b| && b[j] == x;
      var rest := b[..j] + b[j + 1..];
      SumRemoveAt(b, j, f);
      assert multiset(a[1..]) == multiset(rest) by {
        assert a == [x] + a[1..];
        assert b == b[..j] + [x] + b[j + 1..];
        assert multiset(a[1..]) == multiset(a) - multiset{x};
        assert multiset(rest) == multiset(b) - multiset{x};
      }
      SumPermutation(a[1..], rest, f);
    }
  }
}
