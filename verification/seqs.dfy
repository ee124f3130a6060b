/** Sequence operations the repository layer is built from: filtering, counting,
    Python slicing, and the subsequence order that query results keep. */
module Seqs {

  function Min(a: int, b: int): int { if a <= b then a else b }

  function Max(a: int, b: int): int { if a <= b then b else a }

  /** The elements of `xs` that satisfy `p`, in their original order. */
  function Filter<T>(xs: seq<T>, p: T -> bool): (r: seq<T>)
    ensures |r| <= |xs|
    ensures forall x :: x in r ==> x in xs && p(x)
    ensures forall x :: x in xs && p(x) ==> x in r
  {
    if xs == [] then []
    else if p(xs[0]) then [xs[0]] + Filter(xs[1..], p)
    else Filter(xs[1..], p)
  }

  /** The negation of a predicate. */
  function Not<T>(p: T -> bool): T -> bool {
    x => !p(x)
  }

  /** The number of elements of `xs` that satisfy `p`, counted one by one. */
  function CountWhere<T>(xs: seq<T>, p: T -> bool): (n: nat)
    ensures n <= |xs|
  {
    if xs == [] then 0
    else (if p(xs[0]) then 1 else 0) + CountWhere(xs[1..], p)
  }

  /** Python's `xs[start:end]` for non-negative bounds: both bounds are clamped
      to the length, and the slice is empty when `end <= start`. */
  function PySlice<T>(xs: seq<T>, start: nat, end: nat): (r: seq<T>)
    ensures |r| == if start < end && start < |xs| then Min(end, |xs|) - start else 0
    ensures forall k :: 0 <= k < |r| ==> r[k] == xs[start + k]
  {
    var s := Min(start, |xs|);
    var e := Max(s, Min(end, |xs|));
    xs[s..e]
  }

  /** `xs` is obtained from `ys` by dropping elements, keeping the order. */
  ghost predicate IsSubseq<T>(xs: seq<T>, ys: seq<T>)
    decreases |ys|
  {
    || xs == []
    || (&& ys != []
        && ((xs[0] == ys[0] && IsSubseq(xs[1..], ys[1..])) || IsSubseq(xs, ys[1..])))
  }

  /** Nothing passes a predicate that no element satisfies. */
  lemma {:induction false} FilterNone<T>(xs: seq<T>, p: T -> bool)
    requires forall x :: x in xs ==> !p(x)
    ensures Filter(xs, p) == []
  {
    if xs != [] {
      assert xs[0] in xs;
      FilterNone(xs[1..], p);
    }
  }

  /** Filtering a three-element sequence, spelled out element by element. */
  lemma FilterThree<T>(x: T, y: T, z: T, p: T -> bool)
    ensures Filter([x, y, z], p)
         == (if p(x) then [x] else []) + (if p(y) then [y] else []) + (if p(z) then [z] else [])
  {
    var px, py, pz := (if p(x) then [x] else []), (if p(y) then [y] else []), (if p(z) then [z] else []);
    assert [z][1..] == [];
    assert Filter([z], p) == pz;
    assert [y, z][1..] == [z];
    assert Filter([y, z], p) == py + pz;
    assert [x, y, z][1..] == [y, z];
    assert Filter([x, y, z], p) == px + (py + pz);
  }

  /** Counting one by one gives the length of the filtered sequence. */
  lemma {:induction false} CountIsFilterLength<T>(xs: seq<T>, p: T -> bool)
    ensures CountWhere(xs, p) == |Filter(xs, p)|
  {
    if xs != [] {
      CountIsFilterLength(xs[1..], p);
    }
  }

  /** Every element goes to exactly one side of a predicate. */
  lemma {:induction false} FilterSplit<T>(xs: seq<T>, p: T -> bool)
    ensures |Filter(xs, p)| + |Filter(xs, Not(p))| == |xs|
  {
    if xs != [] {
      FilterSplit(xs[1..], p);
    }
  }

  /** The first element kept by a filter is the first element of `xs` that satisfies `p`. */
  lemma {:induction false} FilterHead<T>(xs: seq<T>, p: T -> bool)
    ensures Filter(xs, p) != [] ==>
      exists i :: && 0 <= i < |xs| && xs[i] == Filter(xs, p)[0] && p(xs[i])
                  && forall j :: 0 <= j < i ==> !p(xs[j])
  {
    if xs != [] && !p(xs[0]) && Filter(xs, p) != [] {
      var tail := xs[1..];
      FilterHead(tail, p);
      var i :| && 0 <= i < |tail| && tail[i] == Filter(tail, p)[0] && p(tail[i])
               && forall j :: 0 <= j < i ==> !p(tail[j]);
      forall j | 0 <= j < i + 1
        ensures !p(xs[j])
      {
        if j > 0 {
          assert xs[j] == tail[j - 1];
        }
      }
      assert xs[i + 1] == tail[i];
    }
  }

  lemma {:induction false} SubseqRefl<T>(xs: seq<T>)
    ensures IsSubseq(xs, xs)
  {
    if xs != [] {
      SubseqRefl(xs[1..]);
    }
  }

  lemma {:induction false} SubseqTrans<T>(a: seq<T>, b: seq<T>, c: seq<T>)
    requires IsSubseq(a, b) && IsSubseq(b, c)
    ensures IsSubseq(a, c)
    decreases |c|
  {
    if a != [] {
      if b[0] == c[0] && IsSubseq(b[1..], c[1..]) {
        if a[0] == b[0] && IsSubseq(a[1..], b[1..]) {
          SubseqTrans(a[1..], b[1..], c[1..]);
        } else {
          SubseqTrans(a, b[1..], c[1..]);
        }
      } else {
        SubseqTrans(a, b, c[1..]);
      }
    }
  }

  /** Filtering keeps the order of what it keeps. */
  lemma {:induction false} FilterIsSubseq<T>(xs: seq<T>, p: T -> bool)
    ensures IsSubseq(Filter(xs, p), xs)
  {
    if xs != [] {
      FilterIsSubseq(xs[1..], p);
      if p(xs[0]) {
        var r := Filter(xs, p);
        assert r[0] == xs[0] && r[1..] == Filter(xs[1..], p);
      }
    }
  }

  /** A contiguous window is a subsequence. */
  lemma {:induction false} SliceIsSubseq<T>(ys: seq<T>, i: nat, j: nat)
    requires i <= j <= |ys|
    ensures IsSubseq(ys[i..j], ys)
    decreases |ys|
  {
    if i < j {
      var tail := ys[1..];
      if i == 0 {
        SliceIsSubseq(tail, 0, j - 1);
        assert tail[0..j - 1] == ys[0..j][1..];
      } else {
        SliceIsSubseq(tail, i - 1, j - 1);
        assert tail[i - 1..j - 1] == ys[i..j];
      }
    }
  }
}
