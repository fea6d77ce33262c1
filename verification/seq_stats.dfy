/** Reference definitions over finite integer sequences — the sum, the
    minimum and the maximum — and the facts about them that the statistics
    aggregator relies on, in particular that none of them depends on the
    order of the elements. */
module SeqStats {

  /** Sum of all elements, peeled from the back so that it follows a
      left-to-right accumulation one element at a time. */
  function Sum(xs: seq<int>): int
  {
    if |xs| == 0 then 0 else Sum(xs[..|xs| - 1]) + xs[|xs| - 1]
  }

  /** The smallest element: no element is smaller (and, by `MinAttained`,
      it occurs in the sequence). */
  function SeqMin(xs: seq<int>): (r: int)
    requires |xs| > 0
    ensures forall i :: 0 <= i < |xs| ==> r <= xs[i]
  {
    if |xs| == 1 then xs[0]
    else
      var m := SeqMin(xs[..|xs| - 1]);
      if m > xs[|xs| - 1] then xs[|xs| - 1] else m
  }

  /** The largest element: no element is larger (and, by `MaxAttained`,
      it occurs in the sequence). */
  function SeqMax(xs: seq<int>): (r: int)
    requires |xs| > 0
    ensures forall i :: 0 <= i < |xs| ==> xs[i] <= r
  {
    if |xs| == 1 then xs[0]
    else
      var m := SeqMax(xs[..|xs| - 1]);
      if m < xs[|xs| - 1] then xs[|xs| - 1] else m
  }

  /** Element-wise image of a sequence under `f`. */
  function MapSeq<T>(xs: seq<T>, f: T -> int): (r: seq<int>)
    ensures |r| == |xs|
    ensures forall i :: 0 <= i < |xs| ==> r[i] == f(xs[i])
  {
    seq(|xs|, i requires 0 <= i < |xs| => f(xs[i]))
  }

  /** The sum splits over concatenation. */
  lemma {:induction false} SumAppend(a: seq<int>, b: seq<int>)
    ensures Sum(a + b) == Sum(a) + Sum(b)
    decreases |b|
  {
    if |b| == 0 {
      assert a + b == a;
    } else {
      var b' := b[..|b| - 1];
      assert (a + b)[..|a + b| - 1] == a + b';
      SumAppend(a, b');
    }
  }

  /** Reordering the elements does not change the sum. */
  lemma {:induction false} SumPermutation(xs: seq<int>, ys: seq<int>)
    requires multiset(xs) == multiset(ys)
    ensures Sum(xs) == Sum(ys)
    decreases |xs|
  {
    if |xs| == 0 {
      assert |multiset(ys)| == 0;
    } else {
      var x := xs[|xs| - 1];
      var j := MatchLast(xs, ys);
      SumPermutation(xs[..|xs| - 1], ys[..j] + ys[j + 1..]);
      assert ys == ys[..j] + [x] + ys[j + 1..];
      SumAppend(ys[..j], [x]);
      SumAppend(ys[..j] + [x], ys[j + 1..]);
      SumAppend(ys[..j], ys[j + 1..]);
      assert Sum([x]) == x by { assert [x][..0] == []; }
    }
  }

  /** The last element of `xs` sits at some position `j` of its permutation
      `ys`, and removing both leaves permutations of each other. */
  lemma MatchLast<T>(xs: seq<T>, ys: seq<T>) returns (j: nat)
    requires |xs| > 0 && multiset(xs) == multiset(ys)
    ensures j < |ys| && ys[j] == xs[|xs| - 1]
    ensures multiset(xs[..|xs| - 1]) == multiset(ys[..j] + ys[j + 1..])
  {
    var x := xs[|xs| - 1];
    var xs' := xs[..|xs| - 1];
    assert xs == xs' + [x];
    assert x in multiset(ys);
    j :| 0 <= j < |ys| && ys[j] == x;
    var ys' := ys[..j] + ys[j + 1..];
    assert multiset(ys) == multiset(ys') + multiset{x} by {
      assert ys == ys[..j] + [x] + ys[j + 1..];
    }
    assert multiset(xs') == multiset(xs) - multiset{x};
    assert multiset(ys') == multiset(ys) - multiset{x};
  }

  /** The minimum is the element at some position. */
  lemma {:induction false} MinAttained(xs: seq<int>) returns (j: nat)
    requires |xs| > 0
    ensures j < |xs| && xs[j] == SeqMin(xs)
  {
    if |xs| == 1 {
      j := 0;
    } else {
      var xs' := xs[..|xs| - 1];
      j := MinAttained(xs');
      if SeqMin(xs') > xs[|xs| - 1] {
        j := |xs| - 1;
      }
    }
  }

  /** The maximum is the element at some position. */
  lemma {:induction false} MaxAttained(xs: seq<int>) returns (j: nat)
    requires |xs| > 0
    ensures j < |xs| && xs[j] == SeqMax(xs)
  {
    if |xs| == 1 {
      j := 0;
    } else {
      var xs' := xs[..|xs| - 1];
      j := MaxAttained(xs');
      if SeqMax(xs') < xs[|xs| - 1] {
        j := |xs| - 1;
      }
    }
  }

  /** Reordering the elements does not change the minimum. */
  lemma MinPermutation(xs: seq<int>, ys: seq<int>)
    requires |xs| > 0 && multiset(xs) == multiset(ys)
    ensures |ys| > 0 && SeqMin(xs) == SeqMin(ys)
  {
    assert |ys| == |multiset(ys)| == |xs|;
    var a := MinAttained(xs);
    var b := MinAttained(ys);
    assert xs[a] in multiset(ys) && ys[b] in multiset(xs);
  }

  /** Reordering the elements does not change the maximum. */
  lemma MaxPermutation(xs: seq<int>, ys: seq<int>)
    requires |xs| > 0 && multiset(xs) == multiset(ys)
    ensures |ys| > 0 && SeqMax(xs) == SeqMax(ys)
  {
    assert |ys| == |multiset(ys)| == |xs|;
    var a := MaxAttained(xs);
    var b := MaxAttained(ys);
    assert xs[a] in multiset(ys) && ys[b] in multiset(xs);
  }

  /** Mapping a permutation gives a permutation of the images. */
  lemma {:induction false} MapPermutation<T>(xs: seq<T>, ys: seq<T>, f: T -> int)
    requires multiset(xs) == multiset(ys)
    ensures multiset(MapSeq(xs, f)) == multiset(MapSeq(ys, f))
    decreases |xs|
  {
    if |xs| == 0 {
      assert |multiset(ys)| == 0;
      assert MapSeq(ys, f) == [];
    } else {
      var x := xs[|xs| - 1];
      var j := MatchLast(xs, ys);
      var xs', ys' := xs[..|xs| - 1], ys[..j] + ys[j + 1..];
      MapPermutation(xs', ys', f);
      assert xs == xs' + [x];
      assert ys == ys[..j] + [x] + ys[j + 1..];
      MapAppend(xs', [x], f);
      MapAppend(ys[..j], ys[j + 1..], f);
      MapAppend(ys[..j], [x], f);
      MapAppend(ys[..j] + [x], ys[j + 1..], f);
    }
  }

  lemma MapAppend<T>(a: seq<T>, b: seq<T>, f: T -> int)
    ensures MapSeq(a + b, f) == MapSeq(a, f) + MapSeq(b, f)
  {
  }

  /** When every element lies between `lo` and `hi`, the sum lies between
      `|xs| * lo` and `|xs| * hi`. */
  lemma {:induction false} SumBetween(xs: seq<int>, lo: int, hi: int)
    requires forall i :: 0 <= i < |xs| ==> lo <= xs[i] <= hi
    ensures |xs| * lo <= Sum(xs) <= |xs| * hi
    decreases |xs|
  {
    if |xs| > 0 {
      var xs' := xs[..|xs| - 1];
      assert forall i :: 0 <= i < |xs'| ==> xs'[i] == xs[i];
      SumBetween(xs', lo, hi);
      assert |xs| * lo == |xs'| * lo + lo;
      assert |xs| * hi == |xs'| * hi + hi;
    }
  }
}
