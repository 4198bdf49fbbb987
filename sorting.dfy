/**
 * The stable sort the grid relies on. `Array.prototype.sort` orders records
 * by a comparator and keeps records the comparator does not separate in their
 * input order. Here the comparator is `before(a, b)`, "the comparator returns
 * a negative number", and the sort is an insertion sort, specified by a
 * functional `InsertionSorted` and proved to return a permutation of its
 * input, ordered by the comparator and stable.
 */
module Sorting {
  import opened Seqs

  /** `before` never orders two records both ways. */
  ghost predicate Asymmetric<T(!new)>(before: (T, T) -> bool)
  {
    forall a, b :: before(a, b) ==> !before(b, a)
  }

  /** "Not before" is transitive: together with asymmetry, `before` is a strict weak order. */
  ghost predicate NegativelyTransitive<T(!new)>(before: (T, T) -> bool)
  {
    forall a, b, c {:trigger before(a, b), before(b, c)} :: !before(a, b) && !before(b, c) ==> !before(a, c)
  }

  /** Records with the same key are never ordered against each other. */
  ghost predicate TiesShareKeys<T(!new), K>(before: (T, T) -> bool, key: T -> K)
  {
    forall a, b :: key(a) == key(b) ==> !before(a, b)
  }

  /** Insert `x` after the last element it does not go before, scanning from the right. */
  function Insert<T>(before: (T, T) -> bool, s: seq<T>, x: T): seq<T>
  {
    if s == [] then [x]
    else if before(x, Last(s)) then Insert(before, Front(s), x) + [Last(s)]
    else s + [x]
  }

  /** Insertion sort: sort all but the last element, then insert the last. */
  function InsertionSorted<T>(before: (T, T) -> bool, s: seq<T>): seq<T>
  {
    if s == [] then [] else Insert(before, InsertionSorted(before, Front(s)), Last(s))
  }

  /** No later element goes before an earlier one. */
  ghost predicate Sorted<T>(before: (T, T) -> bool, s: seq<T>)
  {
    forall i, j :: 0 <= i < j < |s| ==> !before(s[j], s[i])
  }

  /** The records whose key is `k`. */
  function WithKey<T, K(==)>(key: T -> K, k: K): T -> bool
  {
    (t: T) => key(t) == k
  }

  /** Inserting at position `j`, as the shifting loop does, gives the same list as `Insert`. */
  lemma {:induction false} InsertAt<T>(before: (T, T) -> bool, s: seq<T>, x: T, j: nat)
    requires j <= |s|
    requires j == 0 || !before(x, s[j - 1])
    requires forall k :: j <= k < |s| ==> before(x, s[k])
    ensures Insert(before, s, x) == s[..j] + [x] + s[j..]
  {
    if s == [] {
    } else if j < |s| {
      var front, last := Front(s), Last(s);
      assert Insert(before, s, x) == Insert(before, front, x) + [last] by {
        assert before(x, last);
      }
      InsertAt(before, front, x, j);
      assert s[..j] == front[..j];
      assert s[j..] == front[j..] + [last];
    } else {
      assert s[..j] == s && s[j..] == [];
    }
  }

  lemma {:induction false} InsertPermutes<T>(before: (T, T) -> bool, s: seq<T>, x: T)
    ensures multiset(Insert(before, s, x)) == multiset(s) + multiset{x}
  {
    if s != [] && before(x, Last(s)) {
      InsertPermutes(before, Front(s), x);
      assert s == Front(s) + [Last(s)];
    }
  }

  /** Appending an element that goes before none of a sorted list keeps it sorted. */
  lemma SortedSnoc<T>(before: (T, T) -> bool, s: seq<T>, y: T)
    requires Sorted(before, s)
    requires forall i :: 0 <= i < |s| ==> !before(y, s[i])
    ensures Sorted(before, s + [y])
  {
    forall i, j | 0 <= i < j < |s| + 1
      ensures !before((s + [y])[j], (s + [y])[i])
    {
      if j < |s| {
        assert (s + [y])[j] == s[j] && (s + [y])[i] == s[i];
      }
    }
  }

  lemma {:induction false} InsertSorted<T(!new)>(before: (T, T) -> bool, s: seq<T>, x: T)
    requires Asymmetric(before) && NegativelyTransitive(before)
    requires Sorted(before, s)
    ensures Sorted(before, Insert(before, s, x))
  {
    if s == [] {
    } else if before(x, Last(s)) {
      var front, last := Front(s), Last(s);
      InsertSorted(before, front, x);
      InsertPermutes(before, front, x);
      var head := Insert(before, front, x);
      forall i | 0 <= i < |head|
        ensures !before(last, head[i])
      {
        assert head[i] in multiset(front) + multiset{x};
        if head[i] != x {
          var k :| 0 <= k < |front| && front[k] == head[i];
          assert s[k] == head[i] && s[|s| - 1] == last;
        }
      }
      SortedSnoc(before, head, last);
    } else {
      forall i | 0 <= i < |s|
        ensures !before(x, s[i])
      {
        if i < |s| - 1 {
          assert !before(x, Last(s)) && !before(Last(s), s[i]);
        }
      }
      SortedSnoc(before, s, x);
    }
  }

  /** Insertion keeps every key group in order and puts the new element after the others of its key. */
  lemma {:induction false} InsertStable<T(!new), K>(before: (T, T) -> bool, key: T -> K, s: seq<T>, x: T, k: K)
    requires TiesShareKeys(before, key)
    ensures Filter(Insert(before, s, x), WithKey(key, k)) == Filter(s, WithKey(key, k)) + Filter([x], WithKey(key, k))
  {
    var keep := WithKey(key, k);
    if s == [] {
      assert Filter(s, keep) == [];
    } else if before(x, Last(s)) {
      var front, last := Front(s), Last(s);
      InsertStable(before, key, front, x, k);
      FilterConcat(Insert(before, front, x), [last], keep);
      FilterConcat(front, [last], keep);
      assert s == front + [last];
      assert !(keep(x) && keep(last));
      assert Filter([x], keep) + Filter([last], keep) == Filter([last], keep) + Filter([x], keep);
    } else {
      FilterConcat(s, [x], keep);
    }
  }

  /** The sort keeps the multiset of records. */
  lemma {:induction false} SortPermutes<T>(before: (T, T) -> bool, s: seq<T>)
    ensures multiset(InsertionSorted(before, s)) == multiset(s)
  {
    if s != [] {
      SortPermutes(before, Front(s));
      InsertPermutes(before, InsertionSorted(before, Front(s)), Last(s));
      assert s == Front(s) + [Last(s)];
    }
  }

  /** The sort orders the records by the comparator. */
  lemma {:induction false} SortOrders<T(!new)>(before: (T, T) -> bool, s: seq<T>)
    requires Asymmetric(before) && NegativelyTransitive(before)
    ensures Sorted(before, InsertionSorted(before, s))
  {
    if s != [] {
      SortOrders(before, Front(s));
      InsertSorted(before, InsertionSorted(before, Front(s)), Last(s));
    }
  }

  /** The sort is stable: records with the same key keep their input order. */
  lemma {:induction false} SortStable<T(!new), K>(before: (T, T) -> bool, key: T -> K, s: seq<T>, k: K)
    requires TiesShareKeys(before, key)
    ensures Filter(InsertionSorted(before, s), WithKey(key, k)) == Filter(s, WithKey(key, k))
  {
    if s != [] {
      var front, last := Front(s), Last(s);
      SortStable(before, key, front, k);
      InsertStable(before, key, InsertionSorted(before, front), last, k);
      FilterConcat(front, [last], WithKey(key, k));
      assert s == front + [last];
    }
  }

  /** One step of the sort: insert `a[i]` into the sorted prefix `a[..i]`, shifting the larger elements one place right. */
  method InsertLast<T>(a: array<T>, i: nat, before: (T, T) -> bool)
    requires i < a.Length
    modifies a
    ensures a[..i + 1] == Insert(before, old(a[..i]), old(a[i]))
    ensures a[i + 1..] == old(a[i + 1..])
  {
    ghost var sorted := a[..i];
    var x := a[i];
    var j := i;
    while j > 0 && before(x, a[j - 1])
      invariant 0 <= j <= i
      invariant forall k :: 0 <= k < j ==> a[k] == sorted[k]
      invariant forall k :: j < k <= i ==> a[k] == sorted[k - 1]
      invariant forall k :: i < k < a.Length ==> a[k] == old(a[k])
      invariant forall k :: j <= k < i ==> before(x, sorted[k])
    {
      a[j] := a[j - 1];
      j := j - 1;
    }
    a[j] := x;
    InsertAt(before, sorted, x, j);
    Spliced(a[..i + 1], sorted, x, j);
  }

  /** A list that agrees with `sorted` before `j`, holds `x` at `j` and `sorted` shifted right after it. */
  lemma Spliced<T>(r: seq<T>, sorted: seq<T>, x: T, j: nat)
    requires |r| == |sorted| + 1 && j <= |sorted|
    requires forall k :: 0 <= k < j ==> r[k] == sorted[k]
    requires r[j] == x
    requires forall k :: j < k < |r| ==> r[k] == sorted[k - 1]
    ensures r == sorted[..j] + [x] + sorted[j..]
  {
  }

  /** Sort an array in place by insertion. */
  method SortInPlace<T>(a: array<T>, before: (T, T) -> bool)
    modifies a
    ensures a[..] == InsertionSorted(before, old(a[..]))
  {
    ghost var input := a[..];
    for i := 0 to a.Length
      invariant a[..i] == InsertionSorted(before, input[..i])
      invariant a[i..] == input[i..]
    {
      InsertLast(a, i, before);
      assert input[..i + 1] == input[..i] + [input[i]];
    }
    assert input[..a.Length] == input;
  }
}
