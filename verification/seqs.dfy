/** Sequence facts used by both components: order-preserving filtering. */
module Seqs {

  /** `a` can be obtained from `b` by deleting elements, keeping the order of the rest. */
  predicate IsSubsequence<T(==)>(a: seq<T>, b: seq<T>)
    decreases |b|
  {
    |a| == 0 || (|b| > 0 && if a[0] == b[0] then IsSubsequence(a[1..], b[1..]) else IsSubsequence(a, b[1..]))
  }

  /** The elements of `s` that `keep` accepts, in their original order. */
  function Filter<T(==,!new)>(s: seq<T>, keep: T -> bool): (r: seq<T>)
    ensures IsSubsequence(r, s) && |r| <= |s|
    ensures forall x :: x in r <==> x in s && keep(x)
    decreases |s|
  {
    if |s| == 0 then []
    else
      var rest := Filter(s[1..], keep);
      assert s == [s[0]] + s[1..];
      if keep(s[0]) then [s[0]] + rest else rest
  }

  /** Filtering keeps every occurrence of an accepted element and none of a rejected one. */
  lemma {:induction false} FilterCount<T(!new)>(s: seq<T>, keep: T -> bool, x: T)
    ensures multiset(Filter(s, keep))[x] == if keep(x) then multiset(s)[x] else 0
    decreases |s|
  {
    if |s| > 0 {
      FilterCount(s[1..], keep, x);
      assert s == [s[0]] + s[1..];
    }
  }

  /** Filtering with a predicate that accepts everything returns the input. */
  lemma {:induction false} FilterAll<T(!new)>(s: seq<T>, keep: T -> bool)
    requires forall x :: x in s ==> keep(x)
    ensures Filter(s, keep) == s
    decreases |s|
  {
    if |s| > 0 {
      FilterAll(s[1..], keep);
    }
  }

  /** Filtering distributes over concatenation. */
  lemma {:induction false} FilterAppend<T(!new)>(a: seq<T>, b: seq<T>, keep: T -> bool)
    ensures Filter(a + b, keep) == Filter(a, keep) + Filter(b, keep)
    decreases |a|
  {
    if |a| == 0 {
      assert a + b == b;
    } else {
      assert (a + b)[1..] == a[1..] + b;
      FilterAppend(a[1..], b, keep);
    }
  }

  /** What filtering keeps of a single element. */
  function Keep<T>(x: T, keep: T -> bool): seq<T>
  {
    if keep(x) then [x] else []
  }

  /** Filtering a sequence with a given first element: the element is kept
      exactly when the filter accepts it. */
  lemma FilterCons<T(!new)>(x: T, b: seq<T>, keep: T -> bool)
    ensures Filter([x] + b, keep) == Keep(x, keep) + Filter(b, keep)
  {
    assert ([x] + b)[1..] == b;
  }

  /** A rejected first element is dropped. */
  lemma FilterConsRejected<T(!new)>(x: T, b: seq<T>, keep: T -> bool)
    requires !keep(x)
    ensures Filter([x] + b, keep) == Filter(b, keep)
  {
    FilterCons(x, b, keep);
    assert [] + Filter(b, keep) == Filter(b, keep);
  }

  /** Removing an element the filter rejects does not change the filtered sequence. */
  lemma FilterRemoveRejected<T(!new)>(s: seq<T>, i: nat, keep: T -> bool)
    requires i < |s| && !keep(s[i])
    ensures Filter(s[..i] + s[i + 1..], keep) == Filter(s, keep)
  {
    var a, b := s[..i], s[i + 1..];
    assert s[i..] == [s[i]] + b;
    assert s == a + s[i..];
    FilterAppend(a, [s[i]] + b, keep);
    FilterConsRejected(s[i], b, keep);
    FilterAppend(a, b, keep);
  }

  /** Appending an element the filter rejects does not change the filtered sequence. */
  lemma FilterAppendRejected<T(!new)>(s: seq<T>, x: T, keep: T -> bool)
    requires !keep(x)
    ensures Filter(s + [x], keep) == Filter(s, keep)
  {
    FilterAppend(s, [x], keep);
  }
}
