/** The sequence helpers of `epub2audio/common.py`, and the order-preserving
    filter that the rest of the model uses for list comprehensions and for
    character-class deletions. */
module Common {
  import opened Wrappers

  /** `first`: the first element, or None for an empty sequence. */
  function First<T>(xs: seq<T>): (r: Option<T>)
    ensures r.None? <==> |xs| == 0
    ensures r.Some? ==> r.value == xs[0]
  {
    if |xs| == 0 then None else Some(xs[0])
  }

  /** The stream `sep, x1, sep, x2, ...` that `chain(zip(repeat(sep), xs))`
      produces. */
  function SeparatedPairs<T>(xs: seq<T>, sep: T): seq<T>
  {
    if |xs| == 0 then [] else [sep, xs[0]] + SeparatedPairs(xs[1..], sep)
  }

  /** `intersperse`: the separated stream with its first element sliced off. */
  function Intersperse<T>(xs: seq<T>, sep: T): seq<T>
  {
    var pairs := SeparatedPairs(xs, sep);
    if |pairs| == 0 then [] else pairs[1..]
  }

  /** Moves the last piece of a concatenation from one side to the other. */
  lemma ShiftAppend<T>(whole: seq<T>, tail: seq<T>, front: seq<T>, h: seq<T>, x: seq<T>, y: seq<T>)
    requires whole == h + tail && tail == x + y && front == h + x
    ensures whole == front + y
  {
    assert h + (x + y) == (h + x) + y;
  }

  lemma {:induction false} SeparatedPairsShape<T>(xs: seq<T>, sep: T)
    ensures |SeparatedPairs(xs, sep)| == 2 * |xs|
    ensures forall j :: 0 <= j < |SeparatedPairs(xs, sep)| ==>
              SeparatedPairs(xs, sep)[j] == if j % 2 == 0 then sep else xs[j / 2]
    ensures multiset(SeparatedPairs(xs, sep))[sep] == |xs| + multiset(xs)[sep]
  {
    if |xs| > 0 {
      var rest := SeparatedPairs(xs[1..], sep);
      SeparatedPairsShape(xs[1..], sep);
      forall j | 0 <= j < 2 * |xs|
        ensures SeparatedPairs(xs, sep)[j] == if j % 2 == 0 then sep else xs[j / 2]
      {
        SeparatedPairsAt(xs, sep, j);
      }
      SeparatedPairsCountStep(xs, sep);
    }
  }

  /** Position `j` of the stream, given the shape of the stream of the tail. */
  lemma SeparatedPairsAt<T>(xs: seq<T>, sep: T, j: nat)
    requires |xs| > 0 && j < 2 * |xs|
    requires |SeparatedPairs(xs[1..], sep)| == 2 * (|xs| - 1)
    requires forall k :: 0 <= k < |SeparatedPairs(xs[1..], sep)| ==>
               SeparatedPairs(xs[1..], sep)[k] == if k % 2 == 0 then sep else xs[1..][k / 2]
    ensures SeparatedPairs(xs, sep)[j] == if j % 2 == 0 then sep else xs[j / 2]
  {
    var rest := SeparatedPairs(xs[1..], sep);
    assert SeparatedPairs(xs, sep) == [sep, xs[0]] + rest;
    if j >= 2 {
      assert SeparatedPairs(xs, sep)[j] == rest[j - 2];
      assert (j - 2) / 2 == j / 2 - 1 && (j - 2) % 2 == j % 2;
      assert xs[1..][(j - 2) / 2] == xs[j / 2];
    }
  }

  lemma SeparatedPairsCountStep<T>(xs: seq<T>, sep: T)
    requires |xs| > 0
    requires multiset(SeparatedPairs(xs[1..], sep))[sep] == |xs| - 1 + multiset(xs[1..])[sep]
    ensures multiset(SeparatedPairs(xs, sep))[sep] == |xs| + multiset(xs)[sep]
  {
    CountPair(sep, xs[0], SeparatedPairs(xs[1..], sep), sep);
    CountHeadTail(xs, sep);
  }

  lemma CountPair<T>(a: T, b: T, s: seq<T>, v: T)
    ensures multiset([a, b] + s)[v] == (if a == v then 1 else 0) + (if b == v then 1 else 0) + multiset(s)[v]
  {
    assert multiset([a, b] + s) == multiset{a, b} + multiset(s);
  }

  /** Counting in a non-empty sequence: the head, then the rest. */
  lemma CountHeadTail<T>(xs: seq<T>, v: T)
    requires |xs| > 0
    ensures multiset(xs)[v] == (if xs[0] == v then 1 else 0) + multiset(xs[1..])[v]
  {
    assert xs == [xs[0]] + xs[1..];
    assert multiset(xs) == multiset{xs[0]} + multiset(xs[1..]);
  }

  /** The shape promised by `intersperse`: nothing for no input; for n inputs,
      2n - 1 elements with the inputs, in order, at the even positions and the
      separator at the odd ones; so it never starts or ends with the
      separator, and adds exactly n - 1 copies of it. */
  lemma IntersperseShape<T>(xs: seq<T>, sep: T)
    ensures |xs| == 0 ==> Intersperse(xs, sep) == []
    ensures |xs| > 0 ==> |Intersperse(xs, sep)| == 2 * |xs| - 1
    ensures forall j :: 0 <= j < |Intersperse(xs, sep)| ==>
              Intersperse(xs, sep)[j] == if j % 2 == 0 then xs[j / 2] else sep
    ensures |xs| > 0 ==> Intersperse(xs, sep)[0] == xs[0]
    ensures |xs| > 0 ==> Intersperse(xs, sep)[|Intersperse(xs, sep)| - 1] == xs[|xs| - 1]
    ensures |xs| > 0 ==> multiset(Intersperse(xs, sep))[sep] == |xs| - 1 + multiset(xs)[sep]
  {
    SeparatedPairsShape(xs, sep);
    var pairs := SeparatedPairs(xs, sep);
    if |xs| > 0 {
      var r := Intersperse(xs, sep);
      forall j | 0 <= j < |r|
        ensures r[j] == if j % 2 == 0 then xs[j / 2] else sep
      {
        IntersperseAt(xs, sep, j);
      }
      var last := 2 * |xs| - 2;
      assert last % 2 == 0 && last / 2 == |xs| - 1;
      IntersperseAt(xs, sep, last);
      IntersperseAt(xs, sep, 0);
      IntersperseCount(xs, sep);
    }
  }

  lemma IntersperseAt<T>(xs: seq<T>, sep: T, j: nat)
    requires |xs| > 0 && j < 2 * |xs| - 1
    requires |SeparatedPairs(xs, sep)| == 2 * |xs|
    requires forall j :: 0 <= j < |SeparatedPairs(xs, sep)| ==>
               SeparatedPairs(xs, sep)[j] == if j % 2 == 0 then sep else xs[j / 2]
    ensures |Intersperse(xs, sep)| == 2 * |xs| - 1
    ensures Intersperse(xs, sep)[j] == if j % 2 == 0 then xs[j / 2] else sep
  {
    var pairs := SeparatedPairs(xs, sep);
    assert Intersperse(xs, sep)[j] == pairs[j + 1];
    assert (j + 1) / 2 == j / 2 || j % 2 == 1;
  }

  lemma IntersperseCount<T>(xs: seq<T>, sep: T)
    requires |xs| > 0
    requires |SeparatedPairs(xs, sep)| == 2 * |xs|
    requires SeparatedPairs(xs, sep)[0] == sep
    requires multiset(SeparatedPairs(xs, sep))[sep] == |xs| + multiset(xs)[sep]
    ensures multiset(Intersperse(xs, sep))[sep] == |xs| - 1 + multiset(xs)[sep]
  {
    CountHeadTail(SeparatedPairs(xs, sep), sep);
  }

  /** The elements of `xs` that satisfy `keep`, in their original order. */
  function Filter<T(==)>(xs: seq<T>, keep: T -> bool): (r: seq<T>)
    ensures |r| <= |xs|
    ensures forall i :: 0 <= i < |r| ==> keep(r[i]) && r[i] in xs
    ensures forall i :: 0 <= i < |xs| && keep(xs[i]) ==> xs[i] in r
    ensures IsSubsequence(r, xs)
  {
    if |xs| == 0 then []
    else if keep(xs[0]) then [xs[0]] + Filter(xs[1..], keep)
    else Filter(xs[1..], keep)
  }

  /** Filtering keeps every passing element as often as it occurs, and drops
      every other one entirely. */
  lemma {:induction false} FilterCounts<T(!new)>(xs: seq<T>, keep: T -> bool)
    ensures forall x :: multiset(Filter(xs, keep))[x] == if keep(x) then multiset(xs)[x] else 0
  {
    if |xs| > 0 {
      FilterCounts(xs[1..], keep);
      var rest := Filter(xs[1..], keep);
      forall x
        ensures multiset(Filter(xs, keep))[x] == if keep(x) then multiset(xs)[x] else 0
      {
        CountHeadTail(xs, x);
        if keep(xs[0]) {
          CountHeadTail(Filter(xs, keep), x);
          assert Filter(xs, keep)[1..] == rest;
        }
      }
    }
  }

  /** `a` is obtained from `b` by deleting elements, without reordering. */
  predicate IsSubsequence<T(==)>(a: seq<T>, b: seq<T>)
  {
    if |a| == 0 then true
    else if |b| == 0 then false
    else (a[0] == b[0] && IsSubsequence(a[1..], b[1..])) || IsSubsequence(a, b[1..])
  }

  /** Filtering distributes over concatenation. */
  lemma {:induction false} FilterAppend<T>(a: seq<T>, b: seq<T>, keep: T -> bool)
    ensures Filter(a + b, keep) == Filter(a, keep) + Filter(b, keep)
  {
    if |a| > 0 {
      assert (a + b)[1..] == a[1..] + b;
      FilterAppend(a[1..], b, keep);
    } else {
      assert a + b == b;
    }
  }

  /** A sequence whose every element passes the test is its own filter, so
      filtering twice is filtering once. */
  lemma {:induction false} FilterKeepsAll<T>(xs: seq<T>, keep: T -> bool)
    requires forall i :: 0 <= i < |xs| ==> keep(xs[i])
    ensures Filter(xs, keep) == xs
  {
    if |xs| > 0 {
      FilterKeepsAll(xs[1..], keep);
    }
  }

  lemma FilterIdempotent<T>(xs: seq<T>, keep: T -> bool)
    ensures Filter(Filter(xs, keep), keep) == Filter(xs, keep)
  {
    var r := Filter(xs, keep);
    FilterKeepsAll(r, keep);
  }
}
