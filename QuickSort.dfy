/** The `quickSort` generator of `quickSortGen(initialArray)`: it works in place on the
    array it is given (`currentArray` is `initialArray` itself). A call on a segment of
    length at least 2 shows the segment with its first value as pivot, classifies the
    other values into those below the pivot and the rest, showing each one as it goes,
    writes `left ++ [pivot] ++ right` over the segment with `splice`, shows where the
    pivot came to rest, and recurses on each part longer than 1. The outermost call ends
    with a step that highlights nothing. */
module QuickSort {
  import opened Steps

  // ---------------------------------------------------------------------------
  // The partition

  /** `leftArr`: the values of `s` strictly below the pivot `p`, in the order they come
      in `s` (each one is pushed as the scan meets it). */
  function Below(s: seq<int>, p: int): (r: seq<int>)
    ensures |r| <= |s|
    decreases |s|
  {
    if s == [] then [] else Below(s[..|s| - 1], p) + (if s[|s| - 1] < p then [s[|s| - 1]] else [])
  }

  /** `rightArr`: the values of `s` at least `p`, in order; together with `Below` it
      accounts for every position of `s`. */
  function AtLeast(s: seq<int>, p: int): (r: seq<int>)
    ensures |Below(s, p)| + |r| == |s|
    decreases |s|
  {
    if s == [] then [] else AtLeast(s[..|s| - 1], p) + (if s[|s| - 1] < p then [] else [s[|s| - 1]])
  }

  /** Every value of `leftArr` is below the pivot and every value of `rightArr` is at
      least the pivot. */
  lemma {:induction false} PartitionBounds(s: seq<int>, p: int)
    ensures BelowAll(Below(s, p), p) && AtLeastAll(AtLeast(s, p), p)
    decreases |s|
  {
    if s != [] {
      var t, x := s[..|s| - 1], s[|s| - 1];
      PartitionBounds(t, p);
      var l, r := Below(t, p), AtLeast(t, p);
      if x < p {
        assert Below(s, p) == l + [x] && AtLeast(s, p) == r + [];
        assert forall k | 0 <= k < |l + [x]| :: (l + [x])[k] == if k < |l| then l[k] else x;
      } else {
        assert Below(s, p) == l + [] && AtLeast(s, p) == r + [x];
        assert forall k | 0 <= k < |r + [x]| :: (r + [x])[k] == if k < |r| then r[k] else x;
      }
    }
  }

  /** Together `leftArr` and `rightArr` hold every scanned value with its multiplicity. */
  lemma {:induction false} PartitionPermutes(s: seq<int>, p: int)
    ensures multiset(Below(s, p)) + multiset(AtLeast(s, p)) == multiset(s)
    decreases |s|
  {
    if s != [] {
      var t, x := s[..|s| - 1], s[|s| - 1];
      PartitionPermutes(t, p);
      MultisetDropLast(s);
      if x < p {
        assert Below(s, p) == Below(t, p) + [x] && AtLeast(s, p) == AtLeast(t, p) + [];
      } else {
        assert Below(s, p) == Below(t, p) + [] && AtLeast(s, p) == AtLeast(t, p) + [x];
      }
    }
  }

  /** Scanning one more value pushes it onto exactly one of the two parts. */
  lemma PartitionSnoc(s: seq<int>, i: nat, p: int)
    requires 1 <= i < |s|
    ensures Below(s[1..i + 1], p) == Below(s[1..i], p) + (if s[i] < p then [s[i]] else [])
    ensures AtLeast(s[1..i + 1], p) == AtLeast(s[1..i], p) + (if s[i] < p then [] else [s[i]])
  {
    assert s[1..i + 1][..i - 1] == s[1..i];
  }

  /** A step of this generator: it is never skipped. */
  function Marked(values: seq<int>, highlighted: int, secondary: Range, range: Range): Step {
    Step(values, highlighted, secondary, range, false)
  }

  /** The steps the classification loop has yielded before it classifies position `i`
      of a segment of length `len` at `start`: one for each of the positions
      `1, ..., i - 1`, highlighting the pivot and, as secondary range, that position. */
  function Classified(whole: seq<int>, start: int, len: nat, i: nat): seq<Step>
    decreases i
  {
    if i <= 1 then []
    else Classified(whole, start, len, i - 1) + [Marked(whole, start, Range(start + i - 1, start + i), Range(start, start + len))]
  }

  /** The classification steps, one by one. */
  lemma {:induction false} ClassifiedShape(whole: seq<int>, start: int, len: nat, i: nat)
    ensures var c := Classified(whole, start, len, i);
      |c| == (if i >= 1 then i - 1 else 0) &&
      forall k | 0 <= k < |c| :: c[k] == Marked(whole, start, Range(start + k + 1, start + k + 2), Range(start, start + len))
    decreases i
  {
    if i > 1 {
      ClassifiedShape(whole, start, len, i - 1);
    }
  }

  /** The classification loop: scans positions `1, ..., len - 1` of the segment, pushes
      each value onto `left` when it is below the pivot and onto `right` otherwise, and
      yields a step after each value. The array is not written while it runs. */
  method Partition(a: array<int>, seg: seq<int>, start: nat) returns (classified: seq<Step>, left: seq<int>, right: seq<int>)
    requires |seg| >= 1
    ensures left == Below(seg[1..], seg[0]) && right == AtLeast(seg[1..], seg[0])
    ensures classified == Classified(a[..], start, |seg|, |seg|)
  {
    var pivot := seg[0];
    left, right, classified := [], [], [];
    var i := 1;
    while i < |seg|
      invariant 1 <= i <= |seg|
      invariant left == Below(seg[1..i], pivot) && right == AtLeast(seg[1..i], pivot)
      invariant classified == Classified(a[..], start, |seg|, i)
    {
      PartitionSnoc(seg, i, pivot);
      if seg[i] < pivot {
        left := left + [seg[i]];
      } else {
        right := right + [seg[i]];
      }
      classified := classified + [Marked(a[..], start, Range(start + i, start + i + 1), Range(start, start + |seg|))];
      i := i + 1;
    }
    assert seg[1..i] == seg[1..];
  }

  // ---------------------------------------------------------------------------
  // The recursive generator

  /** The values a call of `quickSort` leaves over its segment (the source returns
      nothing; they are read off `currentArray`): those below the pivot as the call on
      them leaves them, the pivot, then the others as the call on them leaves them. A
      segment of length at most 1 is left as it is. */
  function QuickValues(seg: seq<int>): (r: seq<int>)
    ensures |r| == |seg|
    decreases |seg|
  {
    if |seg| <= 1 then seg
    else QuickValues(Below(seg[1..], seg[0])) + [seg[0]] + QuickValues(AtLeast(seg[1..], seg[0]))
  }

  /** Reference definition of the steps of `quickSort(arr, startingPoint)`, with
      `currentArray` made of `pre`, the segment `seg` and `post`, so that
      `startingPoint` is `|pre|` and `initialArray.length` is `|pre + seg + post|`. A
      segment of length at most 1 yields nothing; a longer one yields its `Body`, then,
      for the outermost call, the last step. */
  function QuickFrom(pre: seq<int>, seg: seq<int>, post: seq<int>): seq<Step>
    decreases |seg|, 1
  {
    if |seg| <= 1 then [] else Body(pre, seg, post) + Closing(pre, seg, post)
  }

  /** The steps of a call on at least two values other than its last step. A part of
      length at most 1 is not recursed on, which yields nothing as well; so both
      recursive calls are written out unguarded. The right part is sorted with the
      sorted left part and the pivot in front of it. */
  function Body(pre: seq<int>, seg: seq<int>, post: seq<int>): seq<Step>
    requires |seg| >= 2
    decreases |seg|, 0
  {
    var pivot := seg[0];
    var left, right := Below(seg[1..], pivot), AtLeast(seg[1..], pivot);
    Call(pre, seg, post, QuickFrom(pre, left, [pivot] + right + post), QuickFrom(pre + QuickValues(left) + [pivot], right, post))
  }

  /** The steps of a call around the steps `ls` and `rs` of its recursive calls, in
      order: the pivot step, the classification steps, the step after the splice, which
      highlights where the pivot came to rest, then `ls` and `rs`. */
  function Call(pre: seq<int>, seg: seq<int>, post: seq<int>, ls: seq<Step>, rs: seq<Step>): seq<Step>
    requires |seg| >= 1
  {
    var start, pivot := |pre|, seg[0];
    var left, right := Below(seg[1..], pivot), AtLeast(seg[1..], pivot);
    var range := Range(start, start + |seg|);
    Laid(Marked(pre + seg + post, start, NoRange, range), Classified(pre + seg + post, start, |seg|, |seg|),
      Marked(pre + (left + [pivot] + right) + post, start + |left|, NoRange, range), ls, rs)
  }

  /** The steps of one call other than its last step, in the order they are yielded. */
  function Laid(first: Step, classified: seq<Step>, placed: Step, ls: seq<Step>, rs: seq<Step>): seq<Step> {
    [first] + classified + [placed] + ls + rs
  }

  /** The last step, yielded when `arr.length === initialArray.length`, which holds
      exactly for the call on the whole array. */
  function Closing(pre: seq<int>, seg: seq<int>, post: seq<int>): seq<Step> {
    if |pre + seg + post| == |seg| then [Marked(pre + QuickValues(seg) + post, NoHighlight, NoRange, NoRange)] else []
  }

  /** A call on at least two values yields its body, then its last step if any. */
  lemma QuickFromSplit(pre: seq<int>, seg: seq<int>, post: seq<int>)
    requires |seg| >= 2
    ensures QuickFrom(pre, seg, post) == Body(pre, seg, post) + Closing(pre, seg, post)
  {
  }

  /** The body of a call, put together from its own steps and its recursive calls'. */
  lemma BodySteps(pre: seq<int>, seg: seq<int>, post: seq<int>, left: seq<int>, right: seq<int>, range: Range,
                  first: Step, classified: seq<Step>, placed: Step, ls: seq<Step>, rs: seq<Step>)
    requires |seg| >= 2 && left == Below(seg[1..], seg[0]) && right == AtLeast(seg[1..], seg[0])
    requires range == Range(|pre|, |pre| + |seg|)
    requires first == Marked(pre + seg + post, |pre|, NoRange, range)
    requires classified == Classified(pre + seg + post, |pre|, |seg|, |seg|)
    requires placed == Marked(pre + (left + [seg[0]] + right) + post, |pre| + |left|, NoRange, range)
    requires ls == QuickFrom(pre, left, [seg[0]] + right + post)
    requires rs == QuickFrom(pre + QuickValues(left) + [seg[0]], right, post)
    ensures Body(pre, seg, post) == Laid(first, classified, placed, ls, rs)
  {
    BodyCall(pre, seg, post, ls, rs);
    CallLaid(pre, seg, post, left, right, range, first, classified, placed, ls, rs);
  }

  /** The body of a call, as `Call` around its recursive calls. */
  lemma BodyCall(pre: seq<int>, seg: seq<int>, post: seq<int>, ls: seq<Step>, rs: seq<Step>)
    requires |seg| >= 2
    requires ls == QuickFrom(pre, Below(seg[1..], seg[0]), [seg[0]] + AtLeast(seg[1..], seg[0]) + post)
    requires rs == QuickFrom(pre + QuickValues(Below(seg[1..], seg[0])) + [seg[0]], AtLeast(seg[1..], seg[0]), post)
    ensures Body(pre, seg, post) == Call(pre, seg, post, ls, rs)
  {
  }

  /** `Call`, spelled out. */
  lemma CallLaid(pre: seq<int>, seg: seq<int>, post: seq<int>, left: seq<int>, right: seq<int>, range: Range,
                 first: Step, classified: seq<Step>, placed: Step, ls: seq<Step>, rs: seq<Step>)
    requires |seg| >= 1 && left == Below(seg[1..], seg[0]) && right == AtLeast(seg[1..], seg[0])
    requires range == Range(|pre|, |pre| + |seg|)
    requires first == Marked(pre + seg + post, |pre|, NoRange, range)
    requires classified == Classified(pre + seg + post, |pre|, |seg|, |seg|)
    requires placed == Marked(pre + (left + [seg[0]] + right) + post, |pre| + |left|, NoRange, range)
    ensures Call(pre, seg, post, ls, rs) == Laid(first, classified, placed, ls, rs)
  {
  }

  // ---------------------------------------------------------------------------
  // The values

  /** Values below the pivot, then the pivot, then values at least the pivot, each part
      sorted, make a sorted sequence. */
  lemma SortedAround(ls: seq<int>, pivot: int, rs: seq<int>)
    requires Sorted(ls) && Sorted(rs) && BelowAll(ls, pivot) && AtLeastAll(rs, pivot)
    ensures Sorted(ls + [pivot] + rs)
  {
    var s := ls + [pivot] + rs;
    forall p, q | 0 <= p < q < |s| ensures s[p] <= s[q] {
      if q < |ls| {
        assert s[p] == ls[p] && s[q] == ls[q];
      } else if p > |ls| {
        assert s[p] == rs[p - |ls| - 1] && s[q] == rs[q - |ls| - 1];
      } else if p == |ls| {
        assert s[q] == rs[q - |ls| - 1];
      } else if q == |ls| {
        assert s[p] == ls[p];
      } else {
        assert s[p] == ls[p] && s[q] == rs[q - |ls| - 1];
      }
    }
  }

  /** A call leaves its segment sorted, holding the values it was given. */
  lemma {:induction false} QuickValuesSorts(seg: seq<int>)
    ensures Sorted(QuickValues(seg)) && multiset(QuickValues(seg)) == multiset(seg)
    decreases |seg|
  {
    if |seg| >= 2 {
      var pivot := seg[0];
      var left, right := Below(seg[1..], pivot), AtLeast(seg[1..], pivot);
      var ls, rs := QuickValues(left), QuickValues(right);
      assert QuickValues(seg) == ls + [pivot] + rs;
      QuickValuesSorts(left);
      QuickValuesSorts(right);
      assert Sorted(ls + [pivot] + rs) by {
        PartitionBounds(seg[1..], pivot);
        BoundsOfPermutation(ls, left, pivot);
        BoundsOfPermutation(rs, right, pivot);
        SortedAround(ls, pivot, rs);
      }
      assert multiset(ls + [pivot] + rs) == multiset(seg) by {
        PartitionPermutes(seg[1..], pivot);
        MultisetDropFirst(seg);
      }
    } else {
      assert |seg| == 0 || seg == [seg[0]];
    }
  }

  /** After the splice the segment holds the values below the pivot, then the pivot at
      `startingPoint + leftArr.length`, then the values at least the pivot; the values
      around the segment are as they were, and the segment holds the values it held. */
  lemma PlacedPartition(pre: seq<int>, seg: seq<int>, post: seq<int>, pivot: int, left: seq<int>, right: seq<int>)
    requires |seg| >= 1 && pivot == seg[0] && left == Below(seg[1..], pivot) && right == AtLeast(seg[1..], pivot)
    ensures |pre + (left + [pivot] + right) + post| == |pre| + |seg| + |post|
    ensures (pre + (left + [pivot] + right) + post)[..|pre|] == pre
    ensures (pre + (left + [pivot] + right) + post)[|pre| + |seg|..] == post
    ensures (pre + (left + [pivot] + right) + post)[|pre| + |left|] == pivot
    ensures forall k | |pre| <= k < |pre| + |left| :: (pre + (left + [pivot] + right) + post)[k] < pivot
    ensures forall k | |pre| + |left| < k < |pre| + |seg| :: pivot <= (pre + (left + [pivot] + right) + post)[k]
    ensures multiset((pre + (left + [pivot] + right) + post)[|pre|..|pre| + |seg|]) == multiset(seg)
  {
    var mid := left + [pivot] + right;
    var v, p := pre + mid + post, |pre| + |left|;
    OfParts(pre, mid, post);
    PartitionBounds(seg[1..], pivot);
    forall k | |pre| <= k < p ensures v[k] < pivot {
      assert v[k] == left[k - |pre|];
    }
    forall k | p < k < |pre| + |seg| ensures pivot <= v[k] {
      assert v[k] == right[k - p - 1];
    }
    SegmentValues(seg);
  }

  // ---------------------------------------------------------------------------
  // The steps

  /** A step as every step of a call inside `[lo, hi)` looks, except the last step of
      the run: not skipped, an array of length `n`, an index in `[lo, hi)`
      highlighted, and both ranges inside `[lo, hi]`. */
  predicate MarkedWithin(x: Step, lo: int, hi: int, n: nat) {
    !x.skip && |x.values| == n && lo <= x.highlighted < hi &&
    RangeWithin(x.range, lo, hi) && RangeWithin(x.secondary, lo, hi)
  }

  /** Step `k` of `steps` exists and looks like `MarkedWithin`. */
  predicate MarkedAt(steps: seq<Step>, k: int, lo: int, hi: int, n: nat) {
    0 <= k < |steps| && MarkedWithin(steps[k], lo, hi, n)
  }

  predicate AllMarkedWithin(steps: seq<Step>, lo: int, hi: int, n: nat) {
    forall k | 0 <= k < |steps| :: MarkedAt(steps, k, lo, hi, n)
  }

  lemma AllMarkedConcat(xs: seq<Step>, ys: seq<Step>, lo: int, hi: int, n: nat)
    requires AllMarkedWithin(xs, lo, hi, n) && AllMarkedWithin(ys, lo, hi, n)
    ensures AllMarkedWithin(xs + ys, lo, hi, n)
  {
    forall k | 0 <= k < |xs + ys| ensures MarkedAt(xs + ys, k, lo, hi, n) {
      if k < |xs| {
        assert MarkedAt(xs, k, lo, hi, n);
        assert (xs + ys)[k] == xs[k];
      } else {
        assert MarkedAt(ys, k - |xs|, lo, hi, n);
        assert (xs + ys)[k] == ys[k - |xs|];
      }
    }
  }

  lemma AllMarkedWiden(steps: seq<Step>, lo: int, hi: int, lo': int, hi': int, n: nat)
    requires AllMarkedWithin(steps, lo', hi', n) && lo <= lo' && hi' <= hi
    ensures AllMarkedWithin(steps, lo, hi, n)
  {
    forall k | 0 <= k < |steps| ensures MarkedAt(steps, k, lo, hi, n) {
      assert MarkedAt(steps, k, lo', hi', n);
    }
  }

  /** The classification steps highlight the pivot and one position of the segment. */
  lemma ClassifiedWithin(whole: seq<int>, start: int, len: nat, hi: int, n: nat)
    requires |whole| == n && len >= 1 && hi == start + len
    ensures AllMarkedWithin(Classified(whole, start, len, len), start, hi, n)
  {
    ClassifiedShape(whole, start, len, len);
    var c := Classified(whole, start, len, len);
    forall k | 0 <= k < |c| ensures MarkedAt(c, k, start, hi, n) {
      assert c[k].highlighted == start;
    }
  }

  /** The steps of a call put together from its own steps and its recursive calls'. */
  lemma MarkedLaid(first: Step, classified: seq<Step>, placed: Step, ls: seq<Step>, rs: seq<Step>, lo: int, hi: int, n: nat)
    requires MarkedWithin(first, lo, hi, n) && MarkedWithin(placed, lo, hi, n)
    requires AllMarkedWithin(classified, lo, hi, n) && AllMarkedWithin(ls, lo, hi, n) && AllMarkedWithin(rs, lo, hi, n)
    ensures AllMarkedWithin(Laid(first, classified, placed, ls, rs), lo, hi, n)
  {
    assert MarkedAt([first], 0, lo, hi, n) && MarkedAt([placed], 0, lo, hi, n);
    AllMarkedConcat([first], classified, lo, hi, n);
    AllMarkedConcat([first] + classified, [placed], lo, hi, n);
    AllMarkedConcat([first] + classified + [placed], ls, lo, hi, n);
    AllMarkedConcat([first] + classified + [placed] + ls, rs, lo, hi, n);
    assert Laid(first, classified, placed, ls, rs) == [first] + classified + [placed] + ls + rs;
  }

  /** One call's own steps stay inside its segment when its recursive calls' steps stay
      inside their parts: the left part `[lo, lo + |left|)` and the right part
      `[lo + |left| + 1, lo + len)`. */
  lemma AroundWithin(whole: seq<int>, placed: seq<int>, left: seq<int>, ls: seq<Step>, rs: seq<Step>, lo: int, len: nat, n: nat)
    requires len >= 2 && |whole| == n && |placed| == n && |left| < len
    requires AllMarkedWithin(ls, lo, lo + |left|, n) && AllMarkedWithin(rs, lo + |left| + 1, lo + len, n)
    ensures AllMarkedWithin(Laid(Marked(whole, lo, NoRange, Range(lo, lo + len)), Classified(whole, lo, len, len),
      Marked(placed, lo + |left|, NoRange, Range(lo, lo + len)), ls, rs), lo, lo + len, n)
  {
    ClassifiedWithin(whole, lo, len, lo + len, n);
    AllMarkedWiden(ls, lo, lo + len, lo, lo + |left|, n);
    AllMarkedWiden(rs, lo, lo + len, lo + |left| + 1, lo + len, n);
    MarkedLaid(Marked(whole, lo, NoRange, Range(lo, lo + len)), Classified(whole, lo, len, len),
      Marked(placed, lo + |left|, NoRange, Range(lo, lo + len)), ls, rs, lo, lo + len, n);
  }

  /** The sizes of a call's recursive calls. */
  lemma ChildSizes(pre: seq<int>, seg: seq<int>, post: seq<int>, left: seq<int>, right: seq<int>, n: nat)
    requires |seg| >= 2 && left == Below(seg[1..], seg[0]) && right == AtLeast(seg[1..], seg[0])
    requires n == |pre| + |seg| + |post|
    ensures n == |pre| + |left| + |[seg[0]] + right + post| && |left| < n
    ensures n == |pre + QuickValues(left) + [seg[0]]| + |right| + |post| && |right| < n
  {
  }

  /** The sizes of a call's parts and of the array around them. */
  lemma PartSizes(pre: seq<int>, seg: seq<int>, post: seq<int>, left: seq<int>, right: seq<int>, n: nat)
    requires |seg| >= 2 && left == Below(seg[1..], seg[0]) && right == AtLeast(seg[1..], seg[0])
    requires n == |pre| + |seg| + |post|
    ensures |pre + QuickValues(left) + [seg[0]]| == |pre| + |left| + 1
    ensures |pre + QuickValues(left) + [seg[0]]| + |right| == |pre| + |seg|
    ensures |pre + seg + post| == n && |pre + (left + [seg[0]] + right) + post| == n && |left| < |seg|
  {
  }

  /** The same steps, with their bounds written differently. */
  lemma AllMarkedRebound(steps: seq<Step>, lo: int, hi: int, lo': int, hi': int, n: nat)
    requires AllMarkedWithin(steps, lo, hi, n) && lo == lo' && hi == hi'
    ensures AllMarkedWithin(steps, lo', hi', n)
  {
  }

  /** A call's own steps other than the last step stay inside its segment when its
      recursive calls' steps stay inside their parts. */
  lemma CallBodyWithin(pre: seq<int>, seg: seq<int>, post: seq<int>, left: seq<int>, right: seq<int>,
                       ls: seq<Step>, rs: seq<Step>, n: nat)
    requires |seg| >= 2 && left == Below(seg[1..], seg[0]) && right == AtLeast(seg[1..], seg[0])
    requires n == |pre| + |seg| + |post|
    requires AllMarkedWithin(ls, |pre|, |pre| + |left|, n)
    requires AllMarkedWithin(rs, |pre + QuickValues(left) + [seg[0]]|, |pre + QuickValues(left) + [seg[0]]| + |right|, n)
    ensures AllMarkedWithin(Laid(Marked(pre + seg + post, |pre|, NoRange, Range(|pre|, |pre| + |seg|)),
      Classified(pre + seg + post, |pre|, |seg|, |seg|),
      Marked(pre + (left + [seg[0]] + right) + post, |pre| + |left|, NoRange, Range(|pre|, |pre| + |seg|)),
      ls, rs), |pre|, |pre| + |seg|, n)
  {
    var shifted := pre + QuickValues(left) + [seg[0]];
    PartSizes(pre, seg, post, left, right, n);
    AllMarkedRebound(rs, |shifted|, |shifted| + |right|, |pre| + |left| + 1, |pre| + |seg|, n);
    AroundWithin(pre + seg + post, pre + (left + [seg[0]] + right) + post, left, ls, rs, |pre|, |seg|, n);
  }

  /** Every step of a call that is not on the whole array is unskipped, shows the whole
      array, highlights an index of the segment and ranges inside it. */
  lemma {:induction false} QuickFromWithin(pre: seq<int>, seg: seq<int>, post: seq<int>, n: nat)
    requires n == |pre| + |seg| + |post| && |seg| < n
    ensures AllMarkedWithin(QuickFrom(pre, seg, post), |pre|, |pre| + |seg|, n)
    decreases |seg|, 1
  {
    if |seg| >= 2 {
      BodyWithin(pre, seg, post, n);
      QuickFromSplit(pre, seg, post);
      assert Closing(pre, seg, post) == [];
      assert QuickFrom(pre, seg, post) == Body(pre, seg, post);
    }
  }

  /** The body of any call stays inside its segment. */
  lemma {:induction false} BodyWithin(pre: seq<int>, seg: seq<int>, post: seq<int>, n: nat)
    requires n == |pre| + |seg| + |post| && |seg| >= 2
    ensures AllMarkedWithin(Body(pre, seg, post), |pre|, |pre| + |seg|, n)
    decreases |seg|, 0
  {
    var pivot := seg[0];
    var left, right := Below(seg[1..], pivot), AtLeast(seg[1..], pivot);
    var range := Range(|pre|, |pre| + |seg|);
    var ls := QuickFrom(pre, left, [pivot] + right + post);
    var rs := QuickFrom(pre + QuickValues(left) + [pivot], right, post);
    ChildSizes(pre, seg, post, left, right, n);
    QuickFromWithin(pre, left, [pivot] + right + post, n);
    QuickFromWithin(pre + QuickValues(left) + [pivot], right, post, n);
    CallBodyWithin(pre, seg, post, left, right, ls, rs, n);
    BodySteps(pre, seg, post, left, right, range, Marked(pre + seg + post, |pre|, NoRange, range),
      Classified(pre + seg + post, |pre|, |seg|, |seg|), Marked(pre + (left + [pivot] + right) + post, |pre| + |left|, NoRange, range), ls, rs);
  }

  /** The values a call and its recursive calls show, all rearrangements of the array
      the call was given. */
  lemma NodeValues(pre: seq<int>, seg: seq<int>, post: seq<int>, pivot: int, left: seq<int>, right: seq<int>,
                   ls: seq<int>, rs: seq<int>, values: multiset<int>)
    requires values == multiset(pre + seg + post) && multiset(seg) == multiset(left) + multiset{pivot} + multiset(right)
    requires multiset(ls) == multiset(left) && multiset(rs) == multiset(right)
    ensures multiset(pre + (left + [pivot] + right) + post) == values
    ensures multiset(pre + left + ([pivot] + right + post)) == values
    ensures multiset((pre + ls + [pivot]) + right + post) == values
    ensures multiset(pre + (ls + [pivot] + rs) + post) == values
  {
  }

  /** The segment is the pivot and the values scanned after it. */
  lemma SegmentValues(seg: seq<int>)
    requires |seg| >= 1
    ensures multiset(seg) == multiset(Below(seg[1..], seg[0])) + multiset{seg[0]} + multiset(AtLeast(seg[1..], seg[0]))
  {
    PartitionPermutes(seg[1..], seg[0]);
    MultisetDropFirst(seg);
  }

  /** The steps of a call put together from its own steps and its recursive calls'. */
  lemma PermuteLaid(first: Step, classified: seq<Step>, placed: Step, ls: seq<Step>, rs: seq<Step>, values: multiset<int>)
    requires multiset(first.values) == values && multiset(placed.values) == values
    requires AllPermute(classified, values) && AllPermute(ls, values) && AllPermute(rs, values)
    ensures AllPermute(Laid(first, classified, placed, ls, rs), values)
  {
    assert AllPermute([first], values) && AllPermute([placed], values);
    AllPermuteConcat([first], classified, values);
    AllPermuteConcat([first] + classified, [placed], values);
    AllPermuteConcat([first] + classified + [placed], ls, values);
    AllPermuteConcat([first] + classified + [placed] + ls, rs, values);
  }

  /** The classification steps show the array the call was given. */
  lemma ClassifiedPermute(whole: seq<int>, start: int, len: nat, values: multiset<int>)
    requires multiset(whole) == values
    ensures AllPermute(Classified(whole, start, len, len), values)
  {
    ClassifiedShape(whole, start, len, len);
  }

  /** The last step of the outermost call shows the values the call leaves. */
  lemma ClosingPermute(pre: seq<int>, seg: seq<int>, post: seq<int>, values: multiset<int>)
    requires values == multiset(pre + seg + post)
    ensures AllPermute(Closing(pre, seg, post), values)
  {
    QuickValuesSorts(seg);
    assert multiset(pre + QuickValues(seg) + post) == multiset(pre) + multiset(QuickValues(seg)) + multiset(post);
  }

  /** Every step of a call shows a rearrangement of the array the call was given. */
  lemma {:induction false} QuickFromPermutes(pre: seq<int>, seg: seq<int>, post: seq<int>, values: multiset<int>)
    requires values == multiset(pre + seg + post)
    ensures AllPermute(QuickFrom(pre, seg, post), values)
    decreases |seg|, 1
  {
    if |seg| >= 2 {
      QuickFromSplit(pre, seg, post);
      BodyPermutes(pre, seg, post, values);
      ClosingPermute(pre, seg, post, values);
      AllPermuteConcat(Body(pre, seg, post), Closing(pre, seg, post), values);
    }
  }

  /** Every step of the body of a call shows a rearrangement of the array the call was
      given. */
  lemma {:induction false} BodyPermutes(pre: seq<int>, seg: seq<int>, post: seq<int>, values: multiset<int>)
    requires |seg| >= 2 && values == multiset(pre + seg + post)
    ensures AllPermute(Body(pre, seg, post), values)
    decreases |seg|, 0
  {
    var pivot := seg[0];
    var left, right := Below(seg[1..], pivot), AtLeast(seg[1..], pivot);
    var whole, placed := pre + seg + post, pre + (left + [pivot] + right) + post;
    var range := Range(|pre|, |pre| + |seg|);
    var first, classified := Marked(whole, |pre|, NoRange, range), Classified(whole, |pre|, |seg|, |seg|);
    var mark := Marked(placed, |pre| + |left|, NoRange, range);
    var ls := QuickFrom(pre, left, [pivot] + right + post);
    var rs := QuickFrom(pre + QuickValues(left) + [pivot], right, post);
    BodySteps(pre, seg, post, left, right, range, first, classified, mark, ls, rs);
    QuickValuesSorts(left);
    QuickValuesSorts(right);
    SegmentValues(seg);
    NodeValues(pre, seg, post, pivot, left, right, QuickValues(left), QuickValues(right), values);
    QuickFromPermutes(pre, left, [pivot] + right + post, values);
    QuickFromPermutes(pre + QuickValues(left) + [pivot], right, post, values);
    ClassifiedPermute(whole, |pre|, |seg|, values);
    PermuteLaid(first, classified, mark, ls, rs, values);
  }

  /** A call on a segment of length `len` at least 2 first yields the pivot step, which
      highlights `startingPoint` and the segment; then the `len - 1` steps of the
      classification loop (`ClassifiedShape` says what each highlights); then the step
      after the splice, which highlights where the pivot came to rest. */
  lemma QuickFromShape(pre: seq<int>, seg: seq<int>, post: seq<int>, pivot: int, left: seq<int>, right: seq<int>)
    requires |seg| >= 2 && pivot == seg[0] && left == Below(seg[1..], pivot) && right == AtLeast(seg[1..], pivot)
    ensures |QuickFrom(pre, seg, post)| > |seg|
    ensures QuickFrom(pre, seg, post)[0] == Marked(pre + seg + post, |pre|, NoRange, Range(|pre|, |pre| + |seg|))
    ensures QuickFrom(pre, seg, post)[1..|seg|] == Classified(pre + seg + post, |pre|, |seg|, |seg|)
    ensures QuickFrom(pre, seg, post)[|seg|] ==
      Marked(pre + (left + [pivot] + right) + post, |pre| + |left|, NoRange, Range(|pre|, |pre| + |seg|))
  {
    var range := Range(|pre|, |pre| + |seg|);
    var first, placed := Marked(pre + seg + post, |pre|, NoRange, range), Marked(pre + (left + [pivot] + right) + post, |pre| + |left|, NoRange, range);
    var ls := QuickFrom(pre, left, [pivot] + right + post);
    var rs := QuickFrom(pre + QuickValues(left) + [pivot], right, post);
    BodySteps(pre, seg, post, left, right, range, first, Classified(pre + seg + post, |pre|, |seg|, |seg|), placed, ls, rs);
    QuickFromSplit(pre, seg, post);
    CallShape(pre + seg + post, |pre|, |seg|, first, placed, ls, rs, Closing(pre, seg, post), QuickFrom(pre, seg, post));
  }

  /** `QuickFromShape` for the steps `st` of a call on the segment of length `len` at
      `start` of `whole`, put together from its own steps. */
  lemma CallShape(whole: seq<int>, start: int, len: nat, first: Step, placed: Step,
                  ls: seq<Step>, rs: seq<Step>, closing: seq<Step>, st: seq<Step>)
    requires len >= 2 && st == Laid(first, Classified(whole, start, len, len), placed, ls, rs) + closing
    ensures |st| > len && st[0] == first && st[len] == placed
    ensures st[1..len] == Classified(whole, start, len, len)
  {
    var classified := Classified(whole, start, len, len);
    ClassifiedShape(whole, start, len, len);
    var head := [first] + classified;
    assert st == head + ([placed] + ls + rs + closing);
    assert st[..len] == head;
    assert st[1..len] == head[1..] == classified;
  }

  // ---------------------------------------------------------------------------
  // The whole run

  /** The whole run of `quickSortGen(initialArray)` on the array it is given. */
  function QuickRun(initial: seq<int>): Run {
    Run(QuickValues(initial), QuickFrom([], initial, []))
  }

  /** The run leaves the array sorted, holding the values it started with. */
  lemma QuickSortSorts(initial: seq<int>)
    ensures Sorted(QuickRun(initial).final) && multiset(QuickRun(initial).final) == multiset(initial)
  {
    QuickValuesSorts(initial);
  }

  /** Steps that end with a last step are the steps without it, which stay inside
      `[lo, hi)` when the body does, then the last step. */
  lemma BodyLast(body: seq<Step>, last: Step, lo: int, hi: int, lo': int, hi': int, n: nat, st: seq<Step>)
    requires st == body + [last] && lo == lo' && hi == hi'
    ensures |st| >= 1 && st[|st| - 1] == last
    ensures AllMarkedWithin(body, lo, hi, n) ==> AllMarkedWithin(st[..|st| - 1], lo', hi', n)
  {
    assert st[..|st| - 1] == body;
  }

  /** The outermost call's steps other than the last one stay inside `[0, n)`. */
  lemma TopWithin(pre: seq<int>, seg: seq<int>, post: seq<int>, st: seq<Step>)
    requires |seg| >= 2 && pre == [] && post == [] && st == QuickFrom(pre, seg, post)
    ensures |st| >= 1 && AllMarkedWithin(st[..|st| - 1], 0, |seg|, |seg|)
  {
    BodyWithin(pre, seg, post, |seg|);
    QuickFromSplit(pre, seg, post);
    ClosingWhole(pre, seg, post);
    BodyLast(Body(pre, seg, post), Marked(QuickValues(seg), NoHighlight, NoRange, NoRange), |pre|, |pre| + |seg|, 0, |seg|, |seg|, st);
  }

  /** The outermost call's last step highlights nothing on the values it leaves. */
  lemma TopLast(pre: seq<int>, seg: seq<int>, post: seq<int>, st: seq<Step>)
    requires |seg| >= 2 && pre == [] && post == [] && st == QuickFrom(pre, seg, post)
    ensures |st| >= 1 && st[|st| - 1] == Marked(QuickValues(seg), NoHighlight, NoRange, NoRange)
  {
    QuickFromSplit(pre, seg, post);
    ClosingWhole(pre, seg, post);
    BodyLast(Body(pre, seg, post), Marked(QuickValues(seg), NoHighlight, NoRange, NoRange), |pre|, |pre| + |seg|, |pre|, |pre| + |seg|, |seg|, st);
  }

  /** The outermost call's closing step, and its bounds. */
  lemma ClosingWhole(pre: seq<int>, seg: seq<int>, post: seq<int>)
    requires pre == [] && post == []
    ensures Closing(pre, seg, post) == [Marked(QuickValues(seg), NoHighlight, NoRange, NoRange)]
    ensures |pre| == 0 && |pre| + |seg| == |seg|
  {
    assert pre + QuickValues(seg) + post == QuickValues(seg);
  }

  /** For fewer than two values the run yields nothing and leaves the array as it is.
      Otherwise its last step highlights -1 and no range on the final array, and every
      other step is unskipped, highlights an index of the array and ranges inside it;
      so the last step is the only one that highlights -1. Every step shows a
      rearrangement of the input. */
  lemma QuickSortSteps(initial: seq<int>)
    ensures var r := QuickRun(initial); var n := |initial|;
      (n <= 1 ==> r.steps == [] && r.final == initial) &&
      (n >= 2 ==>
        |r.steps| >= 1 && r.steps[|r.steps| - 1] == Marked(r.final, NoHighlight, NoRange, NoRange) &&
        AllMarkedWithin(r.steps[..|r.steps| - 1], 0, n, n)) &&
      AllPermute(r.steps, multiset(initial))
  {
    var none: seq<int> := [];
    assert none + initial + none == initial;
    QuickFromPermutes(none, initial, none, multiset(initial));
    if |initial| >= 2 {
      TopWithin(none, initial, none, QuickRun(initial).steps);
      TopLast(none, initial, none, QuickRun(initial).steps);
    }
  }

  /** A call on fewer than two values yields nothing and leaves them as they are. */
  lemma ShortCall(pre: seq<int>, seg: seq<int>, post: seq<int>)
    requires |seg| <= 1
    ensures QuickFrom(pre, seg, post) == [] && QuickValues(seg) == seg
  {
  }

  /** What a call that recurses leaves after its recursive calls is `QuickValues` over its
      segment. */
  lemma ValuesAfter(pre: seq<int>, seg: seq<int>, post: seq<int>, left: seq<int>, right: seq<int>, after: seq<int>)
    requires |seg| >= 2 && left == Below(seg[1..], seg[0]) && right == AtLeast(seg[1..], seg[0])
    requires after == pre + QuickValues(left) + [seg[0]] + QuickValues(right) + post
    ensures after == pre + QuickValues(seg) + post
  {
    RegroupAround(pre, QuickValues(left), [seg[0]], QuickValues(right), post);
  }

  /** The arrangements of the array a call goes through, regrouped. */
  lemma RegroupAround(pre: seq<int>, x: seq<int>, y: seq<int>, z: seq<int>, post: seq<int>)
    ensures pre + (x + y + z) + post == pre + x + (y + z + post) == pre + x + y + z + post
  {
  }

  /** The closing step of a call is there exactly when its segment is the whole array. */
  lemma ClosingAfter(pre: seq<int>, seg: seq<int>, post: seq<int>, after: seq<int>, n: int, closing: seq<Step>)
    requires after == pre + QuickValues(seg) + post && n == |after|
    requires closing == if n == |seg| then [Marked(after, NoHighlight, NoRange, NoRange)] else []
    ensures closing == Closing(pre, seg, post)
  {
  }

  /** What a call that recurses leaves and yields, from what its parts leave and yield. */
  lemma CallEnd(pre: seq<int>, seg: seq<int>, post: seq<int>, left: seq<int>, right: seq<int>, range: Range,
                first: Step, classified: seq<Step>, placed: Step, ls: seq<Step>, rs: seq<Step>,
                after: seq<int>, n: int, closing: seq<Step>, steps: seq<Step>)
    requires |seg| >= 2 && left == Below(seg[1..], seg[0]) && right == AtLeast(seg[1..], seg[0])
    requires range == Range(|pre|, |pre| + |seg|)
    requires first == Marked(pre + seg + post, |pre|, NoRange, range)
    requires classified == Classified(pre + seg + post, |pre|, |seg|, |seg|)
    requires placed == Marked(pre + (left + [seg[0]] + right) + post, |pre| + |left|, NoRange, range)
    requires ls == QuickFrom(pre, left, [seg[0]] + right + post)
    requires rs == QuickFrom(pre + QuickValues(left) + [seg[0]], right, post)
    requires after == pre + QuickValues(left) + [seg[0]] + QuickValues(right) + post && n == |after|
    requires closing == (if n == |seg| then [Marked(after, NoHighlight, NoRange, NoRange)] else [])
    requires steps == Laid(first, classified, placed, ls, rs) + closing
    ensures after == pre + QuickValues(seg) + post && steps == QuickFrom(pre, seg, post)
  {
    ValuesAfter(pre, seg, post, left, right, after);
    ClosingAfter(pre, seg, post, after, n, closing);
    BodySteps(pre, seg, post, left, right, range, first, classified, placed, ls, rs);
    QuickFromSplit(pre, seg, post);
  }

  // ---------------------------------------------------------------------------
  // The generator

  /** The first part of the inner generator on a segment of at least two values: the
      pivot step, the classification loop, the splice of the values below the pivot,
      the pivot and the others back over the segment, and the step after it. */
  method Place(a: array<int>, ghost pre: seq<int>, seg: seq<int>, ghost post: seq<int>, start: nat)
    returns (first: Step, classified: seq<Step>, placed: Step, left: seq<int>, right: seq<int>)
    requires a[..] == pre + seg + post && start == |pre| && |seg| >= 2
    modifies a
    ensures left == Below(seg[1..], seg[0]) && right == AtLeast(seg[1..], seg[0])
    ensures a[..] == pre + left + ([seg[0]] + right + post)
    ensures first == Marked(pre + seg + post, |pre|, NoRange, Range(|pre|, |pre| + |seg|))
    ensures classified == Classified(pre + seg + post, |pre|, |seg|, |seg|)
    ensures placed == Marked(pre + (left + [seg[0]] + right) + post, |pre| + |left|, NoRange, Range(|pre|, |pre| + |seg|))
  {
    var range := Range(start, start + |seg|);
    first := Marked(a[..], start, NoRange, range);
    var pivot := seg[0];
    classified, left, right := Partition(a, seg, start);
    SplicedMiddle(pre, seg, left + [pivot] + right, post);
    Splice(a, start, left + [pivot] + right);
    placed := Marked(a[..], start + |left|, NoRange, range);
    RegroupAround(pre, left, [pivot], right, post);
  }

  /** The inner generator, in place on `currentArray`, for the segment `seg` that sits
      after `pre` and before `post`: it returns the yielded steps and leaves the values
      `QuickValues(seg)` over the segment. */
  method SortSegment(a: array<int>, ghost pre: seq<int>, seg: seq<int>, ghost post: seq<int>, start: nat)
    returns (steps: seq<Step>)
    requires a[..] == pre + seg + post && start == |pre|
    modifies a
    ensures a[..] == pre + QuickValues(seg) + post
    ensures steps == QuickFrom(pre, seg, post)
    decreases |seg|
  {
    if |seg| <= 1 {
      return [];
    }
    var range := Range(start, start + |seg|);
    var pivot := seg[0];
    var first, classified, placed, left, right := Place(a, pre, seg, post, start);
    var leftSteps := [];
    if |left| > 1 {
      leftSteps := SortSegment(a, pre, left, [pivot] + right + post, start);
    } else {
      ShortCall(pre, left, [pivot] + right + post);
    }
    RegroupAround(pre, QuickValues(left), [pivot], right, post);
    var rightSteps := [];
    if |right| > 1 {
      rightSteps := SortSegment(a, pre + QuickValues(left) + [pivot], right, post, start + |left| + 1);
    } else {
      ShortCall(pre + QuickValues(left) + [pivot], right, post);
    }
    var closing := if a.Length == |seg| then [Marked(a[..], NoHighlight, NoRange, NoRange)] else [];
    steps := Laid(first, classified, placed, leftSteps, rightSteps) + closing;
    CallEnd(pre, seg, post, left, right, range, first, classified, placed, leftSteps, rightSteps, a[..], a.Length, closing, steps);
  }

  /** `quickSortGen(initialArray)`: runs the inner generator on the whole array, in place,
      and returns the steps it yields. */
  method QuickSort(a: array<int>) returns (trace: seq<Step>)
    modifies a
    ensures a[..] == QuickRun(old(a[..])).final && trace == QuickRun(old(a[..])).steps
  {
    var arr := a[..];
    assert a[..] == [] + arr + [];
    trace := SortSegment(a, [], arr, [], 0);
    NoContext(a[..], QuickValues(arr));
  }
}
