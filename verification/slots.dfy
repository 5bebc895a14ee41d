/** The time slots a reorder hands out: the original times sorted
    chronologically. The program sorts them with `Array.prototype.sort` and
    a comparator on the parsed times; since a sorted permutation of a
    multiset of times is unique (`SortedUnique`), the insertion sort below
    yields exactly what any correct sort yields. */
module Slots {
  import opened Clock
  import opened Sequences

  predicate Sorted(xs: seq<Minute>) {
    forall i, j :: 0 <= i < j < |xs| ==> xs[i] <= xs[j]
  }

  /** Putting a lower bound of a sorted sequence in front keeps it sorted. */
  lemma ConsSorted(h: Minute, t: seq<Minute>)
    requires Sorted(t)
    requires forall y :: y in multiset(t) ==> h <= y
    ensures Sorted([h] + t)
  {
    forall k | 0 <= k < |t|
      ensures h <= t[k]
    {
      assert t[k] in multiset(t);
    }
  }

  /** Insert `x` in front of the first element not below it. */
  function Insert(x: Minute, xs: seq<Minute>): (r: seq<Minute>)
    ensures |r| == |xs| + 1
    decreases |xs|
  {
    if |xs| == 0 || x <= xs[0] then [x] + xs
    else [xs[0]] + Insert(x, xs[1..])
  }

  lemma {:induction false} InsertMultiset(x: Minute, xs: seq<Minute>)
    ensures multiset(Insert(x, xs)) == multiset(xs) + multiset{x}
    decreases |xs|
  {
    if |xs| > 0 && x > xs[0] {
      InsertMultiset(x, xs[1..]);
      HeadMultiset(xs);
    }
  }

  /** Inserting into a sorted sequence keeps it sorted. */
  lemma {:induction false} InsertSorted(x: Minute, xs: seq<Minute>)
    requires Sorted(xs)
    ensures Sorted(Insert(x, xs))
    decreases |xs|
  {
    if |xs| == 0 || x <= xs[0] {
      ConsSorted(x, xs);
    } else {
      var tail := Insert(x, xs[1..]);
      InsertSorted(x, xs[1..]);
      InsertMultiset(x, xs[1..]);
      assert forall y :: y in multiset(tail) ==> xs[0] <= y by {
        forall y | y in multiset(tail)
          ensures xs[0] <= y
        {
          if y != x {
            assert y in multiset(xs[1..]);
            assert y in xs[1..];
          }
        }
      }
      ConsSorted(xs[0], tail);
    }
  }

  /** `[...times].sort((a, b) => parseTime(a) - parseTime(b))`. */
  function Sort(xs: seq<Minute>): (r: seq<Minute>)
    ensures |r| == |xs|
    ensures Sorted(r)
    ensures multiset(r) == multiset(xs)
    decreases |xs|
  {
    if |xs| == 0 then []
    else
      var rest := Sort(xs[1..]);
      InsertSorted(xs[0], rest);
      InsertMultiset(xs[0], rest);
      HeadMultiset(xs);
      Insert(xs[0], rest)
  }

  /** The head of a non-empty sorted sequence is its least element. */
  lemma SortedHeadLeast(a: seq<Minute>, y: Minute)
    requires Sorted(a) && |a| > 0 && y in multiset(a)
    ensures a[0] <= y
  {
    assert y in a;
  }

  /** Two sequences with the same multiset and the same head have tails
      with the same multiset. */
  lemma SameTails(a: seq<Minute>, b: seq<Minute>)
    requires |a| > 0 && |b| > 0 && a[0] == b[0]
    requires multiset(a) == multiset(b)
    ensures multiset(a[1..]) == multiset(b[1..])
  {
    assert a == [a[0]] + a[1..] && b == [b[0]] + b[1..];
    assert multiset(a[1..]) == multiset(a) - multiset{a[0]};
    assert multiset(b[1..]) == multiset(b) - multiset{b[0]};
  }

  /** A multiset of times has exactly one sorted arrangement. */
  lemma {:induction false} SortedUnique(a: seq<Minute>, b: seq<Minute>)
    requires Sorted(a) && Sorted(b)
    requires multiset(a) == multiset(b)
    ensures a == b
    decreases |a|
  {
    assert |a| == |b| by {
      assert |a| == |multiset(a)| && |b| == |multiset(b)|;
    }
    if |a| > 0 {
      assert a[0] == b[0] by {
        assert a[0] in multiset(a) && b[0] in multiset(b);
        SortedHeadLeast(a, b[0]);
        SortedHeadLeast(b, a[0]);
      }
      SameTails(a, b);
      SortedUnique(a[1..], b[1..]);
      assert a == [a[0]] + a[1..] && b == [b[0]] + b[1..];
    }
  }

  /** Sorting a sequence that is already sorted changes nothing. */
  lemma SortSorted(xs: seq<Minute>)
    requires Sorted(xs)
    ensures Sort(xs) == xs
  {
    SortedUnique(Sort(xs), xs);
  }
}
