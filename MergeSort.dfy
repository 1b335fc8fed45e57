/** The `mergeSort` generator: it works on a copy `currentArray` of the input, splits each
    segment of length at least 2 into a left part of `ceil(len / 2)` values and the rest,
    sorts both parts recursively, merges them, and writes the merged values back into
    `currentArray` with `splice`. Around each merge it yields a step before and after
    the write, and the value it finally returns is shown as the last step. */
module MergeSort {
  import opened Steps

  // ---------------------------------------------------------------------------
  // merge

  /** `merge(leftArr, rightArr)`: repeatedly takes the head of the left part when it is
      strictly smaller than the head of the right part and the head of the right part
      otherwise, then appends whatever is left. */
  function Merged(l: seq<int>, r: seq<int>): (m: seq<int>)
    ensures |m| == |l| + |r|
    decreases |l| + |r|
  {
    if l == [] then r
    else if r == [] then l
    else if l[0] < r[0] then [l[0]] + Merged(l[1..], r)
    else [r[0]] + Merged(l, r[1..])
  }

  /** Merging keeps every value of both parts with its multiplicity. */
  lemma {:induction false} MergedPermutes(l: seq<int>, r: seq<int>)
    ensures multiset(Merged(l, r)) == multiset(l) + multiset(r)
    decreases |l| + |r|
  {
    if l != [] && r != [] {
      if l[0] < r[0] {
        MergedPermutes(l[1..], r);
        MultisetDropFirst(l);
      } else {
        MergedPermutes(l, r[1..]);
        MultisetDropFirst(r);
      }
    }
  }

  /** A value followed by a sorted sequence whose head is not smaller is sorted. */
  lemma SortedCons(x: int, t: seq<int>)
    requires Sorted(t) && (t != [] ==> x <= t[0])
    ensures Sorted([x] + t)
  {
    var s := [x] + t;
    forall p, q | 0 <= p < q < |s| ensures s[p] <= s[q] {
      if p == 0 {
        assert s[q] == t[q - 1];
        assert t[0] <= t[q - 1] || q == 1;
      } else {
        assert s[p] == t[p - 1] && s[q] == t[q - 1];
      }
    }
  }

  /** The head of a merge of non-empty parts is the head of one of them. */
  lemma MergedHead(l: seq<int>, r: seq<int>)
    requires Merged(l, r) != []
    ensures (l != [] && Merged(l, r)[0] == l[0]) || (r != [] && Merged(l, r)[0] == r[0])
  {
  }

  /** Merging two sorted parts gives a sorted sequence. */
  lemma {:induction false} MergedSorted(l: seq<int>, r: seq<int>)
    requires Sorted(l) && Sorted(r)
    ensures Sorted(Merged(l, r))
    decreases |l| + |r|
  {
    if l != [] && r != [] {
      if l[0] < r[0] {
        SortedTail(l);
        MergedSorted(l[1..], r);
        var t := Merged(l[1..], r);
        if t != [] {
          MergedHead(l[1..], r);
          assert |l| > 1 ==> l[0] <= l[1];
        }
        SortedCons(l[0], t);
      } else {
        SortedTail(r);
        MergedSorted(l, r[1..]);
        var t := Merged(l, r[1..]);
        if t != [] {
          MergedHead(l, r[1..]);
          assert |r| > 1 ==> r[0] <= r[1];
        }
        SortedCons(r[0], t);
      }
    }
  }

  /** On sorted parts the merge is the one sorted arrangement of their values. */
  lemma MergedIsSortedUnion(l: seq<int>, r: seq<int>, t: seq<int>)
    requires Sorted(l) && Sorted(r) && Sorted(t) && multiset(t) == multiset(l) + multiset(r)
    ensures Merged(l, r) == t
  {
    MergedSorted(l, r);
    MergedPermutes(l, r);
    SortedPermutationsEqual(Merged(l, r), t);
  }

  /** One turn of the `merge` loop keeps what the output and the merge of what is left
      of both parts make together. */
  lemma MergeAdvance(out: seq<int>, l: seq<int>, r: seq<int>, total: seq<int>)
    requires l != [] && r != [] && out + Merged(l, r) == total
    ensures l[0] < r[0] ==> (out + [l[0]]) + Merged(l[1..], r) == total
    ensures !(l[0] < r[0]) ==> (out + [r[0]]) + Merged(l, r[1..]) == total
  {
    if l[0] < r[0] {
      assert Merged(l, r) == [l[0]] + Merged(l[1..], r);
      assert out + ([l[0]] + Merged(l[1..], r)) == (out + [l[0]]) + Merged(l[1..], r);
    } else {
      assert Merged(l, r) == [r[0]] + Merged(l, r[1..]);
      assert out + ([r[0]] + Merged(l, r[1..])) == (out + [r[0]]) + Merged(l, r[1..]);
    }
  }

  /** Once a part is empty, the output followed by what is left is the merge. */
  lemma MergeFinish(out: seq<int>, l: seq<int>, r: seq<int>, total: seq<int>)
    requires (l == [] || r == []) && out + Merged(l, r) == total
    ensures out + l + r == total
  {
    assert Merged(l, r) == l + r;
    assert out + l + r == out + (l + r);
  }

  /** The `merge` loop, shifting heads off the two parts into the output. */
  method Merge(left: seq<int>, right: seq<int>) returns (merged: seq<int>)
    ensures merged == Merged(left, right)
  {
    var l, r := left, right;
    var out := [];
    while |l| > 0 && |r| > 0
      invariant out + Merged(l, r) == Merged(left, right)
      decreases |l| + |r|
    {
      MergeAdvance(out, l, r, Merged(left, right));
      if l[0] < r[0] {
        out, l := out + [l[0]], l[1..];
      } else {
        out, r := out + [r[0]], r[1..];
      }
    }
    MergeFinish(out, l, r, Merged(left, right));
    merged := out + l + r;
  }

  // ---------------------------------------------------------------------------
  // The recursive generator

  /** What one call of the inner generator produced: the steps it yielded and the
      `subArr` of the value it returned. */
  datatype SegmentRun = SegmentRun(steps: seq<Step>, sorted: seq<int>)

  /** A step of this generator: no highlighted index, the given secondary range and
      range, and no skip. */
  function Shown(s: seq<int>, secondary: Range, range: Range): Step {
    Step(s, NoHighlight, secondary, range, false)
  }

  /** Reference definition of `mergeSort(unsortedArr, startIndex)`, with `currentArray`
      made of the values `pre` before the segment, the segment `seg` itself and the
      values `post` after it, so that `startIndex` is `|pre|`. A segment of length below
      2 yields nothing and returns itself. Otherwise the left `ceil(len / 2)` values are
      cut off the segment; the left part is sorted in place first, and the right part
      then sees the sorted left part in front of it. */
  function MergeSortFrom(pre: seq<int>, seg: seq<int>, post: seq<int>): (r: SegmentRun)
    ensures |r.sorted| == |seg|
    decreases |seg|
  {
    if |seg| < 2 then SegmentRun([], seg)
    else
      var middle := (|seg| + 1) / 2;
      var left := MergeSortFrom(pre, seg[..middle], seg[middle..] + post);
      var right := MergeSortFrom(pre + left.sorted, seg[middle..], post);
      Around(pre, seg, post, middle, left, right)
  }

  /** The steps of a call around its two recursive calls `left` and `right`: first the
      split step, which highlights `[start, start + len - middle)`, as many positions as
      the segment has left once its first `middle` values are cut off; then the steps of
      both calls; then the merge of the two returned parts, shown before and after it is
      written over the segment. */
  function Around(pre: seq<int>, seg: seq<int>, post: seq<int>, middle: nat, left: SegmentRun, right: SegmentRun): (r: SegmentRun)
    ensures |r.sorted| == |left.sorted| + |right.sorted|
  {
    var start := |pre|;
    var merged := Merged(left.sorted, right.sorted);
    var span := Range(start, start + |merged|);
    SegmentRun(
      Framed(Shown(pre + seg + post, NoRange, Range(start, start + |seg| - middle)), left.steps, right.steps,
        Shown(pre + left.sorted + right.sorted + post, span, span), Shown(pre + merged + post, span, span)),
      merged)
  }

  /** The split step, the steps of both recursive calls, and the two merge steps. */
  function Framed(first: Step, ls: seq<Step>, rs: seq<Step>, before: Step, after: Step): (r: seq<Step>)
    ensures |r| == |ls| + |rs| + 3 && r[0] == first && r[|r| - 2] == before && r[|r| - 1] == after
  {
    [first] + ls + rs + [before, after]
  }

  /** The steps of a call around its recursive calls, spelled out. */
  lemma AroundFramed(pre: seq<int>, seg: seq<int>, post: seq<int>, middle: nat, left: SegmentRun, right: SegmentRun,
                     ls: seq<int>, rs: seq<int>, span: Range, first: Step, before: Step, after: Step)
    requires ls == left.sorted && rs == right.sorted && span == Range(|pre|, |pre| + |Merged(ls, rs)|)
    requires first == Shown(pre + seg + post, NoRange, Range(|pre|, |pre| + |seg| - middle))
    requires before == Shown(pre + ls + rs + post, span, span)
    requires after == Shown(pre + Merged(ls, rs) + post, span, span)
    ensures Around(pre, seg, post, middle, left, right).steps == Framed(first, left.steps, right.steps, before, after)
    ensures Around(pre, seg, post, middle, left, right).sorted == Merged(ls, rs)
  {
  }

  /** A call returns a sorted rearrangement of its segment. */
  lemma {:induction false} MergeSortFromSorts(pre: seq<int>, seg: seq<int>, post: seq<int>)
    ensures var r := MergeSortFrom(pre, seg, post);
      Sorted(r.sorted) && multiset(r.sorted) == multiset(seg)
    decreases |seg|
  {
    if |seg| >= 2 {
      var middle := (|seg| + 1) / 2;
      var left := MergeSortFrom(pre, seg[..middle], seg[middle..] + post);
      var right := MergeSortFrom(pre + left.sorted, seg[middle..], post);
      var merged := Merged(left.sorted, right.sorted);
      assert MergeSortFrom(pre, seg, post).sorted == merged;
      MergeSortFromSorts(pre, seg[..middle], seg[middle..] + post);
      MergeSortFromSorts(pre + left.sorted, seg[middle..], post);
      assert Sorted(merged) by {
        MergedSorted(left.sorted, right.sorted);
      }
      assert multiset(merged) == multiset(seg) by {
        MergedPermutes(left.sorted, right.sorted);
        SplitAt(seg, middle);
      }
    }
  }

  /** A call yields three steps for each split it makes: `3 (len - 1)` for a non-empty
      segment. */
  lemma {:induction false} MergeSortFromCount(pre: seq<int>, seg: seq<int>, post: seq<int>)
    ensures |MergeSortFrom(pre, seg, post).steps| == if |seg| == 0 then 0 else 3 * (|seg| - 1)
    decreases |seg|
  {
    if |seg| >= 2 {
      var middle := (|seg| + 1) / 2;
      var left := MergeSortFrom(pre, seg[..middle], seg[middle..] + post);
      MergeSortFromCount(pre, seg[..middle], seg[middle..] + post);
      MergeSortFromCount(pre + left.sorted, seg[middle..], post);
    }
  }

  /** A step as every step of a call inside `[lo, hi)` looks: no highlighted index, no
      skip, an array of length `n`, and both ranges inside `[lo, hi]`. */
  predicate ShownWithin(x: Step, lo: int, hi: int, n: nat) {
    x.highlighted == NoHighlight && !x.skip && |x.values| == n &&
    RangeWithin(x.range, lo, hi) && RangeWithin(x.secondary, lo, hi)
  }

  predicate AllShownWithin(steps: seq<Step>, lo: int, hi: int, n: nat) {
    forall k | 0 <= k < |steps| :: ShownWithin(steps[k], lo, hi, n)
  }

  lemma AllShownConcat(xs: seq<Step>, ys: seq<Step>, lo: int, hi: int, n: nat)
    requires AllShownWithin(xs, lo, hi, n) && AllShownWithin(ys, lo, hi, n)
    ensures AllShownWithin(xs + ys, lo, hi, n)
  {
    forall k | 0 <= k < |xs + ys| ensures ShownWithin((xs + ys)[k], lo, hi, n) {
      if k >= |xs| {
        assert (xs + ys)[k] == ys[k - |xs|];
      }
    }
  }

  lemma AllShownWiden(steps: seq<Step>, lo: int, hi: int, lo': int, hi': int, n: nat)
    requires AllShownWithin(steps, lo', hi', n) && lo <= lo' && hi' <= hi
    ensures AllShownWithin(steps, lo, hi, n)
  {
    forall k | 0 <= k < |steps| ensures ShownWithin(steps[k], lo, hi, n) {
      assert ShownWithin(steps[k], lo', hi', n);
    }
  }

  /** The steps of a call put together from the split step, the two recursive calls'
      steps and the two merge steps. */
  lemma ShownAround(first: Step, ls: seq<Step>, rs: seq<Step>, before: Step, after: Step, lo: int, hi: int, n: nat)
    requires ShownWithin(first, lo, hi, n) && ShownWithin(before, lo, hi, n) && ShownWithin(after, lo, hi, n)
    requires AllShownWithin(ls, lo, hi, n) && AllShownWithin(rs, lo, hi, n)
    ensures AllShownWithin(Framed(first, ls, rs, before, after), lo, hi, n)
  {
    assert AllShownWithin([first], lo, hi, n);
    assert AllShownWithin([before, after], lo, hi, n);
    AllShownConcat([first], ls, lo, hi, n);
    AllShownConcat([first] + ls, rs, lo, hi, n);
    AllShownConcat([first] + ls + rs, [before, after], lo, hi, n);
  }

  /** One call's own steps stay inside its segment when its recursive calls' steps stay
      inside their parts. */
  lemma AroundShown(pre: seq<int>, seg: seq<int>, post: seq<int>, middle: nat, left: SegmentRun, right: SegmentRun,
                    lo: int, hi: int, n: nat)
    requires middle <= |seg| && |left.sorted| == middle && |right.sorted| == |seg| - middle
    requires lo == |pre| && hi == lo + |seg| && n == hi + |post|
    requires AllShownWithin(left.steps, lo, lo + middle, n) && AllShownWithin(right.steps, lo + middle, hi, n)
    ensures AllShownWithin(Around(pre, seg, post, middle, left, right).steps, lo, hi, n)
  {
    var merged := Merged(left.sorted, right.sorted);
    var span := Range(|pre|, |pre| + |merged|);
    var first := Shown(pre + seg + post, NoRange, Range(|pre|, |pre| + |seg| - middle));
    var before := Shown(pre + left.sorted + right.sorted + post, span, span);
    var after := Shown(pre + merged + post, span, span);
    AroundFramed(pre, seg, post, middle, left, right, left.sorted, right.sorted, span, first, before, after);
    AllShownWiden(left.steps, lo, hi, lo, lo + middle, n);
    AllShownWiden(right.steps, lo, hi, lo + middle, hi, n);
    ShownAround(first, left.steps, right.steps, before, after, lo, hi, n);
  }

  /** Every step of a call highlights no index, is not skipped, shows the whole array,
      and highlights ranges inside the call's segment. */
  lemma {:induction false} MergeSortFromShown(pre: seq<int>, seg: seq<int>, post: seq<int>, lo: int, hi: int, n: nat)
    requires lo == |pre| && hi == lo + |seg| && n == hi + |post|
    ensures AllShownWithin(MergeSortFrom(pre, seg, post).steps, lo, hi, n)
    decreases |seg|
  {
    if |seg| >= 2 {
      var middle := (|seg| + 1) / 2;
      var left := MergeSortFrom(pre, seg[..middle], seg[middle..] + post);
      var right := MergeSortFrom(pre + left.sorted, seg[middle..], post);
      MergeSortFromShown(pre, seg[..middle], seg[middle..] + post, lo, lo + middle, n);
      MergeSortFromShown(pre + left.sorted, seg[middle..], post, lo + middle, hi, n);
      AroundShown(pre, seg, post, middle, left, right, lo, hi, n);
    }
  }

  lemma PermuteAround(first: Step, ls: seq<Step>, rs: seq<Step>, before: Step, after: Step, values: multiset<int>)
    requires multiset(first.values) == multiset(before.values) == multiset(after.values) == values
    requires AllPermute(ls, values) && AllPermute(rs, values)
    ensures AllPermute(Framed(first, ls, rs, before, after), values)
  {
    assert AllPermute([first], values);
    assert AllPermute([before, after], values);
    AllPermuteConcat([first], ls, values);
    AllPermuteConcat([first] + ls, rs, values);
    AllPermuteConcat([first] + ls + rs, [before, after], values);
  }

  /** The values of an array made of four parts. */
  lemma MultisetOfParts(a: seq<int>, b: seq<int>, c: seq<int>, d: seq<int>)
    ensures multiset(a + b + c + d) == multiset(a) + multiset(b) + multiset(c) + multiset(d)
  {
  }

  /** Where a segment and its two parts sit when `currentArray` is `pre + seg + post`. */
  lemma SplitParts(pre: seq<int>, seg: seq<int>, post: seq<int>, middle: nat)
    requires middle <= |seg|
    ensures pre + seg + post == pre + seg[..middle] + (seg[middle..] + post)
    ensures multiset(pre + seg + post) == multiset(pre) + multiset(seg[..middle]) + multiset(seg[middle..]) + multiset(post)
  {
    SplitAt(seg, middle);
    assert pre + seg + post == pre + seg[..middle] + seg[middle..] + post;
    MultisetOfParts(pre, seg[..middle], seg[middle..], post);
  }

  /** One call's own steps show rearrangements of its array when its recursive calls'
      steps show rearrangements of theirs and return rearrangements of their parts. */
  lemma AroundPermutes(pre: seq<int>, seg: seq<int>, post: seq<int>, middle: nat, left: SegmentRun, right: SegmentRun)
    requires middle <= |seg|
    requires AllPermute(left.steps, multiset(pre + seg[..middle] + (seg[middle..] + post)))
    requires AllPermute(right.steps, multiset(pre + left.sorted + seg[middle..] + post))
    requires multiset(left.sorted) == multiset(seg[..middle]) && multiset(right.sorted) == multiset(seg[middle..])
    requires |left.sorted| == middle && |right.sorted| == |seg| - middle
    ensures AllPermute(Around(pre, seg, post, middle, left, right).steps, multiset(pre + seg + post))
  {
    var merged := Merged(left.sorted, right.sorted);
    var span := Range(|pre|, |pre| + |merged|);
    var first := Shown(pre + seg + post, NoRange, Range(|pre|, |pre| + |seg| - middle));
    var before := Shown(pre + left.sorted + right.sorted + post, span, span);
    var after := Shown(pre + merged + post, span, span);
    AroundFramed(pre, seg, post, middle, left, right, left.sorted, right.sorted, span, first, before, after);
    MergedPermutes(left.sorted, right.sorted);
    NodeValues(pre, seg, post, middle, left.sorted, right.sorted, merged);
    PermuteAround(first, left.steps, right.steps, before, after, multiset(pre + seg + post));
  }

  /** The arrays a call shows hold the same values: the one it was given, the one each
      recursive call was given, and the one before and after the merge. */
  lemma NodeValues(pre: seq<int>, seg: seq<int>, post: seq<int>, middle: nat, ls: seq<int>, rs: seq<int>, merged: seq<int>)
    requires middle <= |seg|
    requires multiset(ls) == multiset(seg[..middle]) && multiset(rs) == multiset(seg[middle..])
    requires multiset(merged) == multiset(ls) + multiset(rs)
    ensures var values := multiset(pre + seg + post);
      multiset(pre + seg[..middle] + (seg[middle..] + post)) == values &&
      multiset(pre + ls + seg[middle..] + post) == values &&
      multiset(pre + ls + rs + post) == values &&
      multiset(pre + merged + post) == values
  {
    SplitParts(pre, seg, post, middle);
    MultisetOfParts(pre, ls, seg[middle..], post);
    MultisetOfParts(pre, ls, rs, post);
    assert multiset(pre + merged + post) == multiset(pre) + multiset(merged) + multiset(post);
  }

  /** Every step of a call shows a rearrangement of the array the call was given. */
  lemma {:induction false} MergeSortFromPermutes(pre: seq<int>, seg: seq<int>, post: seq<int>)
    ensures AllPermute(MergeSortFrom(pre, seg, post).steps, multiset(pre + seg + post))
    decreases |seg|
  {
    if |seg| >= 2 {
      var middle := (|seg| + 1) / 2;
      var left := MergeSortFrom(pre, seg[..middle], seg[middle..] + post);
      var right := MergeSortFrom(pre + left.sorted, seg[middle..], post);
      MergeSortFromPermutes(pre, seg[..middle], seg[middle..] + post);
      MergeSortFromSorts(pre, seg[..middle], seg[middle..] + post);
      MergeSortFromPermutes(pre + left.sorted, seg[middle..], post);
      MergeSortFromSorts(pre + left.sorted, seg[middle..], post);
      AroundPermutes(pre, seg, post, middle, left, right);
    }
  }

  /** How a call `r` of the segment `seg`, given the array `pre + seg + post`, is shown:
      its first step is that array with the range `[start, start + half)`; its last two
      steps highlight the whole segment as both ranges, the first before the merged
      values are written and the second after; the second is the first spliced with the
      returned `subArr`, so that part of the array is sorted, and the first holds the
      segment's values there. */
  predicate EndsShown(r: SegmentRun, pre: seq<int>, seg: seq<int>, post: seq<int>, half: int) {
    var k := |r.steps|;
    var lo, hi := |pre|, |pre| + |seg|; var span := Range(lo, hi);
    k >= 3 && hi <= |r.steps[k - 2].values| && hi <= |r.steps[k - 1].values| && lo + |r.sorted| <= |r.steps[k - 2].values| &&
    r.steps[0] == Shown(pre + seg + post, NoRange, Range(lo, lo + half)) &&
    r.steps[k - 2].secondary == r.steps[k - 2].range == span &&
    r.steps[k - 1] == Shown(pre + r.sorted + post, span, span) &&
    |r.steps[k - 2].values| == hi + |post| &&
    r.steps[k - 1].values == Spliced(r.steps[k - 2].values, lo, r.sorted) &&
    Sorted(r.steps[k - 1].values[lo..hi]) &&
    multiset(r.steps[k - 2].values[lo..hi]) == multiset(seg)
  }

  /** One call is shown so when its recursive calls return sorted rearrangements of its
      two parts; `half` is the length of the second part. */
  lemma AroundEnds(pre: seq<int>, seg: seq<int>, post: seq<int>, middle: nat, left: SegmentRun, right: SegmentRun, half: int)
    requires middle <= |seg| && |left.sorted| == middle && |right.sorted| == |seg| - middle && half == |seg| - middle
    requires Sorted(left.sorted) && Sorted(right.sorted)
    requires multiset(left.sorted) + multiset(right.sorted) == multiset(seg)
    ensures EndsShown(Around(pre, seg, post, middle, left, right), pre, seg, post, half)
  {
    var merged := Merged(left.sorted, right.sorted);
    var both := left.sorted + right.sorted;
    var span := Range(|pre|, |pre| + |seg|);
    var first := Shown(pre + seg + post, NoRange, Range(|pre|, |pre| + half));
    var before := Shown(pre + left.sorted + right.sorted + post, span, span);
    var after := Shown(pre + merged + post, span, span);
    AroundFramed(pre, seg, post, middle, left, right, left.sorted, right.sorted, span, first, before, after);
    assert pre + left.sorted + right.sorted + post == pre + both + post;
    MergedSorted(left.sorted, right.sorted);
    SplicedMiddle(pre, both, merged, post);
    OfParts(pre, merged, post);
    OfParts(pre, both, post);
  }

  /** Every call of a segment of length at least 2 is shown so, with its first step
      highlighting `[start, start + floor(len / 2))`. */
  lemma MergeSortFromEnds(pre: seq<int>, seg: seq<int>, post: seq<int>)
    requires |seg| >= 2
    ensures EndsShown(MergeSortFrom(pre, seg, post), pre, seg, post, |seg| / 2)
  {
    var middle := (|seg| + 1) / 2;
    var left := MergeSortFrom(pre, seg[..middle], seg[middle..] + post);
    var right := MergeSortFrom(pre + left.sorted, seg[middle..], post);
    assert MergeSortFrom(pre, seg, post) == Around(pre, seg, post, middle, left, right);
    MergeSortFromSorts(pre, seg[..middle], seg[middle..] + post);
    MergeSortFromSorts(pre + left.sorted, seg[middle..], post);
    SplitAt(seg, middle);
    AroundEnds(pre, seg, post, middle, left, right, |seg| / 2);
  }

  // ---------------------------------------------------------------------------
  // The whole run

  /** The value the outermost call returns, which the driver shows as the last step:
      for fewer than two values it highlights the range `[0, n)`, otherwise, because at
      the top `unsortedArr` is `initialArray` itself, it highlights no range at all. */
  function Returned(initial: seq<int>, final: seq<int>): Step {
    if |initial| < 2 then Shown(final, NoRange, Range(0, |initial|)) else Shown(final, NoRange, NoRange)
  }

  /** The whole run of `mergeSort(initialArray)`. */
  function MergeSortRun(initial: seq<int>): Run {
    var r := MergeSortFrom([], initial, []);
    Run(r.sorted, r.steps + [Returned(initial, r.sorted)])
  }

  /** The run ends with `currentArray` sorted and holding the starting values. */
  lemma MergeSortSorts(initial: seq<int>)
    ensures var r := MergeSortRun(initial);
      Sorted(r.final) && multiset(r.final) == multiset(initial)
  {
    MergeSortFromSorts([], initial, []);
  }

  /** The outermost call, given the whole array, shows it with ranges inside `[0, n)`. */
  lemma TopShown(initial: seq<int>)
    ensures AllShownWithin(MergeSortFrom([], initial, []).steps, 0, |initial|, |initial|)
  {
    MergeSortFromShown([], initial, [], 0, |initial|, |initial|);
  }

  /** The outermost call's steps show rearrangements of the input, and it returns one. */
  lemma TopPermutes(initial: seq<int>)
    ensures var s := MergeSortFrom([], initial, []);
      AllPermute(s.steps, multiset(initial)) && multiset(s.sorted) == multiset(initial)
  {
    var none: seq<int> := [];
    assert none + initial + none == initial;
    MergeSortFromPermutes(none, initial, none);
    MergeSortFromSorts(none, initial, none);
  }

  lemma AllShownSnoc(steps: seq<Step>, last: Step, lo: int, hi: int, n: nat)
    requires AllShownWithin(steps, lo, hi, n) && ShownWithin(last, lo, hi, n)
    ensures AllShownWithin(steps + [last], lo, hi, n)
  {
    assert AllShownWithin([last], lo, hi, n);
    AllShownConcat(steps, [last], lo, hi, n);
  }

  /** Every step of the run is unskipped, highlights no index, shows a rearrangement of
      the input and highlights ranges inside `[0, n]`. */
  lemma MergeSortShown(initial: seq<int>)
    ensures var r := MergeSortRun(initial); var n := |initial|;
      AllShownWithin(r.steps, 0, n, n) && AllPermute(r.steps, multiset(initial))
  {
    var s := MergeSortFrom([], initial, []);
    var n := |initial|;
    var last := Returned(initial, s.sorted);
    TopShown(initial);
    TopPermutes(initial);
    AllShownSnoc(s.steps, last, 0, n, n);
    AllPermuteSnoc(s.steps, last, multiset(initial));
  }

  /** There are `3 (n - 1) + 1` steps for a non-empty input and one for the empty input;
      the last shows the final array, with no range when there are at least two values
      and with the range `[0, n)` otherwise. */
  lemma MergeSortShape(initial: seq<int>)
    ensures var r := MergeSortRun(initial); var n := |initial|; var last := r.steps[|r.steps| - 1];
      |r.steps| == (if n == 0 then 1 else 3 * (n - 1) + 1) &&
      last.values == r.final &&
      (if n >= 2 then last.range == NoRange == last.secondary else last.range == Range(0, n))
  {
    MergeSortFromCount([], initial, []);
  }

  // ---------------------------------------------------------------------------
  // The generator

  /** A call of a segment of length at least 2 is its split step, its recursive calls'
      steps and its two merge steps, and returns the merge of what they return. */
  lemma CallSteps(pre: seq<int>, seg: seq<int>, post: seq<int>, middle: nat, lr: SegmentRun, rr: SegmentRun,
                  left: seq<int>, right: seq<int>, first: Step, before: Step, after: Step)
    requires |seg| >= 2 && middle == (|seg| + 1) / 2
    requires lr == MergeSortFrom(pre, seg[..middle], seg[middle..] + post) && left == lr.sorted
    requires rr == MergeSortFrom(pre + left, seg[middle..], post) && right == rr.sorted
    requires first == Shown(pre + seg + post, NoRange, Range(|pre|, |pre| + |seg| - middle))
    requires before == Shown(pre + left + right + post, Range(|pre|, |pre| + |Merged(left, right)|), Range(|pre|, |pre| + |Merged(left, right)|))
    requires after == Shown(pre + Merged(left, right) + post, Range(|pre|, |pre| + |Merged(left, right)|), Range(|pre|, |pre| + |Merged(left, right)|))
    ensures MergeSortFrom(pre, seg, post).steps == Framed(first, lr.steps, rr.steps, before, after)
    ensures MergeSortFrom(pre, seg, post).sorted == Merged(left, right)
  {
    assert MergeSortFrom(pre, seg, post) == Around(pre, seg, post, middle, lr, rr);
    AroundFramed(pre, seg, post, middle, lr, rr, left, right, Range(|pre|, |pre| + |Merged(left, right)|), first, before, after);
  }

  /** The end of one call: merges the two sorted parts that sit after `pre`, shows the
      array, writes the merged values over both parts and shows the array again. */
  method MergeInto(a: array<int>, ghost pre: seq<int>, left: seq<int>, right: seq<int>, ghost post: seq<int>, start: nat)
    returns (before: Step, after: Step, merged: seq<int>)
    requires a[..] == pre + left + right + post && start == |pre|
    modifies a
    ensures var span := Range(|pre|, |pre| + |Merged(left, right)|);
      merged == Merged(left, right) && a[..] == pre + merged + post &&
      before == Shown(pre + left + right + post, span, span) && after == Shown(pre + merged + post, span, span)
  {
    merged := Merge(left, right);
    var span := Range(start, start + |merged|);
    before := Shown(a[..], span, span);
    Regroup(pre, left, right, post);
    SplicedMiddle(pre, left + right, merged, post);
    Splice(a, start, merged);
    after := Shown(a[..], span, span);
  }

  /** The inner generator, in place on `currentArray`, for the segment `seg` that sits
      after `pre` and before `post`: it returns the yielded steps and the `subArr` of its
      return value, and leaves the returned values over the segment. */
  method SortSegment(a: array<int>, ghost pre: seq<int>, seg: seq<int>, ghost post: seq<int>, start: nat)
    returns (steps: seq<Step>, sorted: seq<int>)
    requires a[..] == pre + seg + post && start == |pre|
    modifies a
    ensures a[..] == pre + sorted + post
    ensures steps == MergeSortFrom(pre, seg, post).steps && sorted == MergeSortFrom(pre, seg, post).sorted
    decreases |seg|
  {
    if |seg| < 2 {
      return [], seg;
    }
    var middle := (|seg| + 1) / 2;
    var leftSub := seg[..middle];
    var unsorted := seg[middle..];
    var split := Shown(a[..], NoRange, Range(start, start + |unsorted|));
    assert split == Shown(pre + seg + post, NoRange, Range(|pre|, |pre| + |seg| - middle));
    SplitParts(pre, seg, post, middle);
    var leftSteps, left := SortSegment(a, pre, leftSub, unsorted + post, start);
    ghost var lr := MergeSortFrom(pre, leftSub, unsorted + post);
    Regroup(pre, left, unsorted, post);
    var rightSteps, right := SortSegment(a, pre + left, unsorted, post, start + middle);
    ghost var rr := MergeSortFrom(pre + left, unsorted, post);
    assert |left| == middle && |right| == |seg| - middle;
    var before, after, merged := MergeInto(a, pre, left, right, post, start);
    steps := Framed(split, leftSteps, rightSteps, before, after);
    sorted := merged;
    CallSteps(pre, seg, post, middle, lr, rr, left, right, split, before, after);
  }

  /** The run is the outermost call's steps followed by the step for its return value. */
  lemma RunOfCall(initial: seq<int>, steps: seq<Step>, final: seq<int>)
    requires steps == MergeSortFrom([], initial, []).steps && final == MergeSortFrom([], initial, []).sorted
    ensures MergeSortRun(initial) == Run(final, steps + [Returned(initial, final)])
  {
  }

  /** `mergeSort(initialArray)`: copies the input into `currentArray`, runs the inner
      generator on the whole of it, and ends with the value it returns. */
  method MergeSort(initial: seq<int>) returns (trace: seq<Step>, final: seq<int>)
    ensures trace == MergeSortRun(initial).steps && final == MergeSortRun(initial).final
  {
    var current := CopyOf(initial);
    assert current[..] == [] + initial + [];
    var steps, sorted := SortSegment(current, [], initial, [], 0);
    final := current[..];
    NoContext(final, sorted);
    trace := steps + [Returned(initial, final)];
    RunOfCall(initial, steps, final);
  }
}
