/** Values shared by the four step generators: the snapshot each generator yields,
    and the array operations they are built from. */
module Steps {

  /** A highlighted index range `[start, end)`; NoRange is the empty object `{}`
      (or an absent field) that the renderer draws as no range at all. */
  datatype Range = NoRange | Range(start: int, end: int)

  /** The sentinel for "no highlighted index". */
  const NoHighlight: int := -1

  /** One snapshot handed to the playback driver: the current array contents, the
      highlighted index, the secondary highlight, the highlighted sub-array and the
      flag that asks the driver to show the next step without a delay. */
  datatype Step = Step(values: seq<int>, highlighted: int, secondary: Range, range: Range, skip: bool)

  /** Ascending order, with equal neighbours allowed. */
  predicate Sorted(s: seq<int>) {
    forall p, q | 0 <= p < q < |s| :: s[p] <= s[q]
  }

  /** Every element is at least `b`. */
  predicate AtLeastAll(s: seq<int>, b: int) {
    forall k | 0 <= k < |s| :: b <= s[k]
  }

  /** Every element is below `b`. */
  predicate BelowAll(s: seq<int>, b: int) {
    forall k | 0 <= k < |s| :: s[k] < b
  }

  /** A range lies inside `[lo, hi]`; NoRange always does. */
  predicate RangeWithin(r: Range, lo: int, hi: int) {
    r.Range? ==> lo <= r.start <= r.end <= hi
  }

  /** Exchanges positions `i` and `j` (the `temp` swap and the destructuring swap of the
      source); nothing else moves. */
  function SwapAt(s: seq<int>, i: nat, j: nat): (r: seq<int>)
    requires i < |s| && j < |s|
    ensures |r| == |s|
  {
    seq(|s|, k requires 0 <= k < |s| => if k == j then s[i] else if k == i then s[j] else s[k])
  }

  /** An exchange keeps every value with its multiplicity. */
  lemma SwapAtPermutes(s: seq<int>, i: nat, j: nat)
    requires i < |s| && j < |s|
    ensures multiset(SwapAt(s, i, j)) == multiset(s)
  {
    assert SwapAt(s, i, j) == s[i := s[j]][j := s[i]];
  }

  /** `xs.splice(start, |items|, ...items)`: the slice `[start, start + |items|)` is
      replaced by `items` and the length does not change. */
  function Spliced(s: seq<int>, start: nat, items: seq<int>): (r: seq<int>)
    requires start + |items| <= |s|
    ensures |r| == |s|
  {
    s[..start] + items + s[start + |items|..]
  }

  /** A splice keeps the positions outside the replaced slice, puts `items` in it, and
      keeps every value when `items` rearranges the slice it replaces. */
  lemma SplicedParts(s: seq<int>, start: nat, items: seq<int>)
    requires start + |items| <= |s|
    ensures var r := Spliced(s, start, items);
      r[..start] == s[..start] && r[start + |items|..] == s[start + |items|..] &&
      r[start..start + |items|] == items &&
      (forall k | 0 <= k < |r| :: r[k] == if start <= k < start + |items| then items[k - start] else s[k]) &&
      (multiset(items) == multiset(s[start..start + |items|]) ==> multiset(r) == multiset(s))
  {
    assert s == s[..start] + s[start..start + |items|] + s[start + |items|..];
  }

  /** The in-place `splice` on the shared array, for an equal-length replacement. */
  method Splice(a: array<int>, start: nat, items: seq<int>)
    requires start + |items| <= a.Length
    modifies a
    ensures a[..] == Spliced(old(a[..]), start, items)
  {
    forall k | 0 <= k < |items| {
      a[start + k] := items[k];
    }
    SplicedParts(old(a[..]), start, items);
  }

  /** The in-place exchange through a temporary. */
  method Swap(a: array<int>, i: nat, j: nat)
    requires i < a.Length && j < a.Length
    modifies a
    ensures a[..] == SwapAt(old(a[..]), i, j)
  {
    var temp := a[i];
    a[i] := a[j];
    a[j] := temp;
  }

  /** `[...xs]`: a fresh array holding a copy of the values. */
  method CopyOf(xs: seq<int>) returns (b: array<int>)
    ensures fresh(b) && b[..] == xs
  {
    b := new int[|xs|];
    forall k | 0 <= k < |xs| {
      b[k] := xs[k];
    }
  }

  /** What a generator produced: the array it left behind and the steps it yielded. */
  datatype Run = Run(final: seq<int>, steps: seq<Step>)

  /** The highlighted indices of the steps the driver shows with the normal delay
      (those without `skip`), in order. */
  function Paced(steps: seq<Step>): seq<int>
  {
    if steps == [] then [] else (if steps[0].skip then [] else [steps[0].highlighted]) + Paced(steps[1..])
  }

  lemma PacedCons(x: Step, rest: seq<Step>)
    ensures Paced([x] + rest) == (if x.skip then [] else [x.highlighted]) + Paced(rest)
  {
    assert ([x] + rest)[1..] == rest;
  }

  lemma {:induction false} PacedConcat(xs: seq<Step>, ys: seq<Step>)
    ensures Paced(xs + ys) == Paced(xs) + Paced(ys)
  {
    if xs != [] {
      assert (xs + ys)[1..] == xs[1..] + ys;
      PacedConcat(xs[1..], ys);
    } else {
      assert xs + ys == ys;
    }
  }

  /** Every step is related to the next one by `follows`. */
  predicate Chained(steps: seq<Step>, follows: (Step, Step) -> bool)
  {
    forall k | 0 <= k < |steps| - 1 :: follows(steps[k], steps[k + 1])
  }

  lemma ChainedCons(x: Step, rest: seq<Step>, follows: (Step, Step) -> bool)
    requires Chained(rest, follows) && rest != [] && follows(x, rest[0])
    ensures Chained([x] + rest, follows)
  {
    var steps := [x] + rest;
    forall k | 0 <= k < |steps| - 1 ensures follows(steps[k], steps[k + 1]) {
      if k > 0 {
        assert steps[k] == rest[k - 1] && steps[k + 1] == rest[k];
      }
    }
  }

  /** Equal step sequences are chained alike. */
  lemma ChainedSame(xs: seq<Step>, ys: seq<Step>, follows: (Step, Step) -> bool)
    requires xs == ys && Chained(ys, follows)
    ensures Chained(xs, follows)
  {
  }

  lemma ConcatAssoc(xs: seq<Step>, ys: seq<Step>, zs: seq<Step>)
    ensures (xs + ys) + zs == xs + (ys + zs)
  {
  }

  /** The last step of a concatenation is the last step of its second part. */
  lemma LastOfConcat(xs: seq<Step>, ys: seq<Step>)
    requires ys != []
    ensures (xs + ys)[|xs + ys| - 1] == ys[|ys| - 1]
  {
  }

  /** `[lo, lo + 1, ..., hi - 1]`. */
  function Between(lo: int, hi: int): (r: seq<int>)
    ensures |r| == if lo < hi then hi - lo else 0
    ensures forall k | 0 <= k < |r| :: r[k] == lo + k
    decreases hi - lo
  {
    if lo >= hi then [] else [lo] + Between(lo + 1, hi)
  }

  /** Multiset union cancels a common element. */
  lemma MultisetCancel(a: multiset<int>, b: multiset<int>, v: int)
    requires a + multiset{v} == b + multiset{v}
    ensures a == b
  {
    assert forall x :: a[x] == (a + multiset{v})[x] - multiset{v}[x];
    assert forall x :: b[x] == (b + multiset{v})[x] - multiset{v}[x];
  }

  /** A sequence is its first `k` elements followed by the rest, and so are its values. */
  lemma SplitAt(s: seq<int>, k: nat)
    requires k <= |s|
    ensures s == s[..k] + s[k..] && multiset(s) == multiset(s[..k]) + multiset(s[k..])
  {
    assert s == s[..k] + s[k..];
  }

  /** A non-empty sequence is its prefix followed by its last element. */
  lemma SplitLast(s: seq<int>)
    requires |s| > 0
    ensures s == s[..|s| - 1] + [s[|s| - 1]]
  {
  }

  /** The elements of a non-empty sequence are its last one and those before it. */
  lemma MultisetDropLast(s: seq<int>)
    requires |s| > 0
    ensures multiset(s) == multiset(s[..|s| - 1]) + multiset{s[|s| - 1]}
  {
    assert s == s[..|s| - 1] + [s[|s| - 1]];
  }

  /** Appending one element adds it to the elements. */
  lemma MultisetAppend(s: seq<int>, x: int)
    ensures multiset(s + [x]) == multiset(s) + multiset{x}
  {
  }

  /** The elements of a non-empty sequence are its first one and those after it. */
  lemma MultisetDropFirst(s: seq<int>)
    requires |s| > 0
    ensures multiset(s) == multiset(s[1..]) + multiset{s[0]}
  {
    assert s == [s[0]] + s[1..];
  }

  /** The head of a sorted sequence is its least element. */
  lemma SortedHeadIsLeast(s: seq<int>, x: int)
    requires Sorted(s) && x in multiset(s)
    ensures |s| > 0 && s[0] <= x
  {
    assert x in s;
    var p :| 0 <= p < |s| && s[p] == x;
    assert p == 0 || s[0] <= s[p];
  }

  /** A sorted sequence stays sorted without its head. */
  lemma SortedTail(s: seq<int>)
    requires Sorted(s) && |s| > 0
    ensures Sorted(s[1..])
  {
    forall p, q | 0 <= p < q < |s| - 1 ensures s[1..][p] <= s[1..][q] {
      assert s[1..][p] == s[p + 1] && s[1..][q] == s[q + 1];
    }
  }

  /** Two non-empty sequences with the same head and the same tail are equal. */
  lemma HeadTailDetermine(a: seq<int>, b: seq<int>)
    requires |a| > 0 && |b| > 0 && a[0] == b[0] && a[1..] == b[1..]
    ensures a == b
  {
    assert a == [a[0]] + a[1..] && b == [b[0]] + b[1..];
  }

  /** Two sorted sequences with the same elements are the same sequence. */
  lemma {:induction false} SortedPermutationsEqual(a: seq<int>, b: seq<int>)
    requires Sorted(a) && Sorted(b) && multiset(a) == multiset(b)
    ensures a == b
  {
    if a != [] {
      assert a[0] in multiset(a);
      SortedHeadIsLeast(b, a[0]);
      assert b[0] in multiset(b);
      SortedHeadIsLeast(a, b[0]);
      MultisetDropFirst(a);
      MultisetDropFirst(b);
      MultisetCancel(multiset(a[1..]), multiset(b[1..]), a[0]);
      SortedTail(a);
      SortedTail(b);
      SortedPermutationsEqual(a[1..], b[1..]);
      HeadTailDetermine(a, b);
    } else {
      assert |b| == |multiset(b)| == 0;
    }
  }

  /** The lower and upper bounds of a sequence carry over to any permutation of it. */
  lemma BoundsOfPermutation(a: seq<int>, b: seq<int>, p: int)
    requires multiset(a) == multiset(b)
    ensures AtLeastAll(b, p) ==> AtLeastAll(a, p)
    ensures BelowAll(b, p) ==> BelowAll(a, p)
  {
    forall k | 0 <= k < |a| ensures a[k] in b {
      assert a[k] in multiset(a);
    }
  }

  /** Every step shows a rearrangement of `values`. */
  predicate AllPermute(steps: seq<Step>, values: multiset<int>) {
    forall k | 0 <= k < |steps| :: multiset(steps[k].values) == values
  }

  lemma AllPermuteConcat(xs: seq<Step>, ys: seq<Step>, values: multiset<int>)
    requires AllPermute(xs, values) && AllPermute(ys, values)
    ensures AllPermute(xs + ys, values)
  {
    forall k | 0 <= k < |xs + ys| ensures multiset((xs + ys)[k].values) == values {
      if k >= |xs| {
        assert (xs + ys)[k] == ys[k - |xs|];
      }
    }
  }

  lemma AllPermuteSnoc(steps: seq<Step>, last: Step, values: multiset<int>)
    requires AllPermute(steps, values) && multiset(last.values) == values
    ensures AllPermute(steps + [last], values)
  {
    assert AllPermute([last], values);
    AllPermuteConcat(steps, [last], values);
  }

  /** Splicing items over the middle part of an array of three parts replaces it. */
  lemma SplicedMiddle(pre: seq<int>, mid: seq<int>, items: seq<int>, post: seq<int>)
    requires |items| == |mid|
    ensures Spliced(pre + mid + post, |pre|, items) == pre + items + post
  {
    var s := pre + mid + post;
    assert s[..|pre|] == pre;
    assert s[|pre| + |items|..] == post;
  }

  /** The parts of an array of three parts. */
  lemma OfParts(pre: seq<int>, mid: seq<int>, post: seq<int>)
    ensures var s := pre + mid + post;
      s[..|pre|] == pre && s[|pre|..|pre| + |mid|] == mid && s[|pre| + |mid|..] == post
  {
  }

  /** The second part of an array of three parts, split again. */
  lemma Regroup(pre: seq<int>, x: seq<int>, y: seq<int>, post: seq<int>)
    ensures pre + x + (y + post) == (pre + x) + y + post
    ensures (pre + x) + y + post == pre + (x + y) + post
  {
  }

  /** An array with nothing before and after the segment is the segment. */
  lemma NoContext(a: seq<int>, seg: seq<int>)
    requires a == [] + seg + []
    ensures a == seg
  {
  }
}
