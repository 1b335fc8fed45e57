/** The `insertSort` generator: for `i = 1, ..., n - 1` and then `j = i - 1` down to 0 (the
    inner loop has no early exit), it yields a step highlighting `j + 1` and then exchanges
    `j` and `j + 1` when they are strictly out of order; it ends with a step highlighting 0
    and a step highlighting -1. No step asks the driver to skip the delay. */
module InsertSort {
  import opened Steps

  /** The step yielded before comparing positions `c - 1` and `c`. */
  function Probe(s: seq<int>, c: int): Step {
    Step(s, c, NoRange, NoRange, false)
  }

  /** The array after comparing positions `j` and `j + 1`: they are exchanged when
      `a[j + 1] < a[j]`. */
  function Next(s: seq<int>, j: nat): (r: seq<int>)
    requires j + 1 < |s|
    ensures |r| == |s|
  {
    if s[j + 1] < s[j] then SwapAt(s, j, j + 1) else s
  }

  /** Reference definition of the rest of the inner loop, from the comparison that
      highlights `c = j + 1` down to the one that highlights 1. */
  function Sift(s: seq<int>, c: nat): (r: Run)
    requires c < |s|
    ensures |r.final| == |s|
    decreases c
  {
    if c == 0 then Run(s, [])
    else
      var rest := Sift(Next(s, c - 1), c - 1);
      Run(rest.final, [Probe(s, c)] + rest.steps)
  }

  /** The two steps after the loops, highlighting 0 and then -1. */
  function Closing(s: seq<int>): seq<Step> {
    [Probe(s, 0), Probe(s, NoHighlight)]
  }

  /** Reference definition of the generator from the start of outer iteration `i`. */
  function InsertFrom(s: seq<int>, i: nat): Run
    decreases |s| - i
  {
    if i >= |s| then Run(s, Closing(s))
    else
      var p := Sift(s, i);
      var rest := InsertFrom(p.final, i + 1);
      Run(rest.final, p.steps + rest.steps)
  }

  /** The whole run on the array handed to the generator. */
  function InsertRun(s: seq<int>): Run {
    InsertFrom(s, 1)
  }

  // ---------------------------------------------------------------------------
  // The array

  /** Positions `[lo, hi)` are in ascending order. */
  predicate SortedIn(s: seq<int>, lo: int, hi: int) {
    forall p, q | lo <= p < q < hi && 0 <= p && q < |s| :: s[p] <= s[q]
  }

  /** The inner loop's invariant while the value that was at `i` travels down and sits
      at `c`: the values before `c` are in order, the values from `c` to `i` are in
      order, and every value before `c` is at most every value after `c` up to `i`. */
  predicate Sifting(s: seq<int>, c: nat, i: nat) {
    c <= i < |s| && SortedIn(s, 0, c) && SortedIn(s, c, i + 1) &&
    forall p, q | 0 <= p < c < q <= i :: s[p] <= s[q]
  }

  /** One comparison of the inner loop keeps its invariant one position lower. */
  lemma SiftStep(s: seq<int>, c: nat, i: nat)
    requires 0 < c && Sifting(s, c, i)
    ensures Sifting(Next(s, c - 1), c - 1, i)
  {
    var t := Next(s, c - 1);
    if s[c] < s[c - 1] {
      assert forall k | 0 <= k < |s| && k != c - 1 && k != c :: t[k] == s[k];
      assert t[c - 1] == s[c] && t[c] == s[c - 1];
      forall p, q | c - 1 <= p < q <= i ensures t[p] <= t[q] {
        if p == c - 1 && q > c {
          assert s[c] <= s[q];
        }
      }
    }
  }

  /** Only positions `j` and `j + 1` can change, and only when strictly out of order. */
  lemma NextChanges(s: seq<int>, j: nat)
    requires j + 1 < |s|
    ensures var t := Next(s, j);
      (forall k | 0 <= k < |s| && k != j && k != j + 1 :: t[k] == s[k]) &&
      (s[j + 1] < s[j] <==> t != s) &&
      (s[j + 1] < s[j] ==> t[j] == s[j + 1] && t[j + 1] == s[j])
  {
    if s[j + 1] < s[j] {
      assert Next(s, j)[j] != s[j];
    }
  }

  /** The rest of the inner loop leaves positions `[0, i]` in order and positions after
      `i` as they were. */
  lemma {:induction false} SiftSorts(s: seq<int>, c: nat, i: nat)
    requires Sifting(s, c, i)
    ensures SortedIn(Sift(s, c).final, 0, i + 1)
    ensures forall k | i < k < |s| :: Sift(s, c).final[k] == s[k]
    decreases c
  {
    if c > 0 {
      SiftStep(s, c, i);
      NextChanges(s, c - 1);
      SiftSorts(Next(s, c - 1), c - 1, i);
    }
  }

  /** After outer iteration `i`, positions `[0, i]` are in order and the positions after
      `i` are unchanged. */
  lemma IterationSorts(s: seq<int>, i: nat)
    requires i < |s| && SortedIn(s, 0, i)
    ensures SortedIn(Sift(s, i).final, 0, i + 1)
    ensures Sift(s, i).final[i + 1..] == s[i + 1..]
  {
    SiftSorts(s, i, i);
    assert Sifting(s, i, i);
  }

  /** From the start of outer iteration `i` with positions before `i` in order, the run
      ends sorted. */
  lemma {:induction false} InsertFromSorts(s: seq<int>, i: nat)
    requires 0 < i && SortedIn(s, 0, i)
    ensures Sorted(InsertFrom(s, i).final)
    decreases |s| - i
  {
    if i < |s| {
      IterationSorts(s, i);
      InsertFromSorts(Sift(s, i).final, i + 1);
    } else {
      assert SortedIn(s, 0, |s|);
    }
  }

  /** The run leaves a rearrangement of the array it started from. */
  lemma {:induction false} SiftPermutes(s: seq<int>, c: nat)
    requires c < |s|
    ensures multiset(Sift(s, c).final) == multiset(s)
    decreases c
  {
    if c > 0 {
      SiftPermutes(Next(s, c - 1), c - 1);
      if s[c] < s[c - 1] {
        SwapAtPermutes(s, c - 1, c);
      }
    }
  }

  lemma {:induction false} InsertFromPermutes(s: seq<int>, i: nat)
    ensures multiset(InsertFrom(s, i).final) == multiset(s)
    decreases |s| - i
  {
    if i < |s| {
      SiftPermutes(s, i);
      InsertFromPermutes(Sift(s, i).final, i + 1);
    }
  }

  /** On termination the array is sorted ascending and holds the starting values. */
  lemma InsertSortSorts(s: seq<int>)
    ensures Sorted(InsertRun(s).final) && multiset(InsertRun(s).final) == multiset(s)
  {
    InsertFromSorts(s, 1);
    InsertFromPermutes(s, 1);
  }

  // ---------------------------------------------------------------------------
  // The steps

  /** How one step leads to the next. After the step that highlights `c >= 1`, the next
      step shows the array after comparing `c - 1` and `c` (exchanged exactly when
      strictly out of order); after the step that highlights 0 comes the step that
      highlights -1 on the same array. No step is skipped. */
  predicate InsertFollows(x: Step, y: Step) {
    !x.skip && !y.skip &&
    if x.highlighted >= 1 then
      x.highlighted < |x.values| && y.values == Next(x.values, x.highlighted - 1)
    else
      x.highlighted == 0 && y == Probe(x.values, NoHighlight)
  }

  /** A step that may come next on the array `s`: a comparison step or the step that
      highlights 0, on `s`. */
  predicate Resumes(y: Step, s: seq<int>) {
    y.values == s && y.highlighted >= 0 && !y.skip
  }

  /** The steps of the rest of the inner loop, followed by a chain that may come next on
      the array it leaves, form a chain that starts on the array it was given. */
  lemma {:induction false} SiftChained(s: seq<int>, c: nat, zs: seq<Step>)
    requires c < |s| && zs != [] && Chained(zs, InsertFollows) && Resumes(zs[0], Sift(s, c).final)
    ensures Chained(Sift(s, c).steps + zs, InsertFollows) && Resumes((Sift(s, c).steps + zs)[0], s)
    decreases c
  {
    if c == 0 {
      assert Sift(s, c).steps + zs == zs;
    } else {
      var rest := Sift(Next(s, c - 1), c - 1).steps;
      SiftChained(Next(s, c - 1), c - 1, zs);
      ChainedCons(Probe(s, c), rest + zs, InsertFollows);
      ConcatAssoc([Probe(s, c)], rest, zs);
    }
  }

  /** Every step of a run follows the one before it as `InsertFollows` says, the first
      step shows the array the run was given, and the run ends with the step that
      highlights 0 and the step that highlights -1, both on the final array. */
  lemma {:induction false} InsertFromChained(s: seq<int>, i: nat)
    ensures var r := InsertFrom(s, i);
      |r.steps| >= 2 && Chained(r.steps, InsertFollows) && Resumes(r.steps[0], s) &&
      r.steps[|r.steps| - 2..] == Closing(r.final)
    decreases |s| - i
  {
    if i >= |s| {
      assert InsertFollows(Probe(s, 0), Probe(s, NoHighlight));
    } else {
      var p := Sift(s, i);
      var rest := InsertFrom(p.final, i + 1).steps;
      InsertFromChained(p.final, i + 1);
      SiftChained(s, i, rest);
      LastTwoOfConcat(p.steps, rest);
    }
  }

  lemma LastTwoOfConcat(xs: seq<Step>, ys: seq<Step>)
    requires |ys| >= 2
    ensures (xs + ys)[|xs + ys| - 2..] == ys[|ys| - 2..]
  {
  }

  /** Consecutive steps show arrays with the same values. */
  lemma FollowsPermutes(x: Step, y: Step)
    requires InsertFollows(x, y)
    ensures |y.values| == |x.values| && multiset(y.values) == multiset(x.values)
  {
    if x.highlighted >= 1 && x.values[x.highlighted] < x.values[x.highlighted - 1] {
      SwapAtPermutes(x.values, x.highlighted - 1, x.highlighted);
    }
  }

  /** Every step of a chain shows a rearrangement of the array of its first step. */
  lemma {:induction false} ChainPermutes(steps: seq<Step>, k: nat)
    requires Chained(steps, InsertFollows) && k < |steps|
    ensures |steps[k].values| == |steps[0].values| && multiset(steps[k].values) == multiset(steps[0].values)
  {
    if k > 0 {
      ChainPermutes(steps, k - 1);
      FollowsPermutes(steps[k - 1], steps[k]);
    }
  }

  /** Every step the run yields shows a rearrangement of the starting array. */
  lemma InsertRunPermutes(s: seq<int>)
    ensures var r := InsertRun(s);
      forall k | 0 <= k < |r.steps| :: |r.steps[k].values| == |s| && multiset(r.steps[k].values) == multiset(s)
  {
    var r := InsertRun(s);
    InsertFromChained(s, 1);
    forall k | 0 <= k < |r.steps|
      ensures |r.steps[k].values| == |s| && multiset(r.steps[k].values) == multiset(s)
    {
      ChainPermutes(r.steps, k);
    }
  }

  /** `[c, c - 1, ..., 1]`: the highlights of outer iteration `c`. */
  function Down(c: nat): (r: seq<int>)
    ensures |r| == c && forall k | 0 <= k < c :: 1 <= r[k] <= c
  {
    if c == 0 then [] else [c] + Down(c - 1)
  }

  /** The comparisons of outer iterations `i, i + 1, ..., n - 1`. */
  function Rounds(n: nat, i: nat): seq<int>
    decreases n - i
  {
    if i >= n then [] else Down(i) + Rounds(n, i + 1)
  }

  /** The highlights of the rest of the inner loop are `c, c - 1, ..., 1`. */
  lemma {:induction false} SiftPaced(s: seq<int>, c: nat)
    requires c < |s|
    ensures Paced(Sift(s, c).steps) == Down(c)
    decreases c
  {
    if c == 0 {
      assert Paced(Sift(s, c).steps) == [];
    } else {
      SiftPaced(Next(s, c - 1), c - 1);
      PacedCons(Probe(s, c), Sift(Next(s, c - 1), c - 1).steps);
    }
  }

  /** The highlights of a run are the comparisons, iteration by iteration, then 0 and -1. */
  lemma {:induction false} InsertFromPaced(s: seq<int>, i: nat)
    ensures Paced(InsertFrom(s, i).steps) == Rounds(|s|, i) + [0, NoHighlight]
    decreases |s| - i
  {
    if i >= |s| {
      PacedCons(Probe(s, NoHighlight), []);
      PacedCons(Probe(s, 0), [Probe(s, NoHighlight)]);
      assert Closing(s) == [Probe(s, 0)] + [Probe(s, NoHighlight)];
      assert [Probe(s, NoHighlight)] == [Probe(s, NoHighlight)] + [];
    } else {
      var p := Sift(s, i);
      var rest := InsertFrom(p.final, i + 1).steps;
      InsertFromPaced(p.final, i + 1);
      SiftPaced(s, i);
      PacedConcat(p.steps, rest);
      assert Down(i) + (Rounds(|s|, i + 1) + [0, NoHighlight]) == (Down(i) + Rounds(|s|, i + 1)) + [0, NoHighlight];
    }
  }

  /** Outer iterations `i, ..., n - 1` make `(n (n - 1) - i (i - 1)) / 2` comparisons. */
  lemma {:induction false} RoundsCount(n: nat, i: nat)
    requires i <= n
    ensures 2 * |Rounds(n, i)| == n * (n - 1) - i * (i - 1)
    decreases n - i
  {
    if i < n {
      RoundsCount(n, i + 1);
      assert (i + 1) * i - i * (i - 1) == 2 * i;
    }
  }

  /** The whole run, as the driver sees it: no step is skipped; the steps highlight the
      comparisons `i, i - 1, ..., 1` of each iteration `i = 1, ..., n - 1`, in order,
      so there are `n (n - 1) / 2` of them and `n (n - 1) / 2 + 2` steps in all, then 0
      and -1; every step follows the one before it as `InsertFollows` says, and the run
      ends sorted. */
  lemma InsertRunSteps(s: seq<int>)
    ensures var r := InsertRun(s);
      Paced(r.steps) == Rounds(|s|, 1) + [0, NoHighlight] &&
      |Paced(r.steps)| == |r.steps| &&
      2 * (|r.steps| - 2) == |s| * (|s| - 1) &&
      Chained(r.steps, InsertFollows) && r.steps[|r.steps| - 2..] == Closing(r.final) &&
      Sorted(r.final)
  {
    var r := InsertRun(s);
    InsertFromPaced(s, 1);
    InsertFromChained(s, 1);
    InsertFromSorts(s, 1);
    PacedAll(r.steps);
    if |s| >= 1 {
      RoundsCount(|s|, 1);
    } else {
      assert Rounds(|s|, 1) == [];
    }
  }

  /** The highlights of steps of which none is skipped are all of their highlights. */
  lemma {:induction false} PacedAll(steps: seq<Step>)
    requires Chained(steps, InsertFollows) && (steps != [] ==> !steps[0].skip)
    ensures |Paced(steps)| == |steps|
  {
    if steps != [] {
      if |steps| > 1 {
        assert InsertFollows(steps[0], steps[1]);
        assert Chained(steps[1..], InsertFollows) by {
          forall k | 0 <= k < |steps[1..]| - 1
            ensures InsertFollows(steps[1..][k], steps[1..][k + 1])
          {
            assert steps[1..][k] == steps[k + 1] && steps[1..][k + 1] == steps[k + 2];
          }
        }
      }
      PacedAll(steps[1..]);
    }
  }

  /** For one value or none, the two closing steps are the only steps. */
  lemma ShortRun(s: seq<int>)
    requires |s| <= 1
    ensures InsertRun(s).steps == Closing(s) && InsertRun(s).final == s
  {
  }

  // ---------------------------------------------------------------------------
  // The generator

  /** The body of the inner loop: yield the step highlighting `j + 1`, then exchange
      `j` and `j + 1` when strictly out of order. */
  method CompareAt(a: array<int>, j: nat) returns (yielded: Step)
    requires j + 1 < a.Length
    modifies a
    ensures a[..] == Next(old(a[..]), j) && yielded == Probe(old(a[..]), j + 1)
  {
    yielded := Probe(a[..], j + 1);
    if a[j + 1] < a[j] {
      Swap(a, j, j + 1);
    }
  }

  /** The inner loop of outer iteration `i`, in place. */
  method SiftDown(a: array<int>, i: nat) returns (yielded: seq<Step>)
    requires i < a.Length
    modifies a
    ensures a[..] == Sift(old(a[..]), i).final && yielded == Sift(old(a[..]), i).steps
  {
    ghost var sift := Sift(a[..], i);
    yielded := [];
    var j: int := i - 1;
    while j > -1
      invariant -1 <= j < i && a.Length == |sift.final|
      invariant yielded + Sift(a[..], j + 1).steps == sift.steps
      invariant Sift(a[..], j + 1).final == sift.final
    {
      ghost var s := a[..];
      var y := CompareAt(a, j);
      SiftAdvance(yielded, s, j + 1);
      yielded := yielded + [y];
      j := j - 1;
    }
    SiftFinish(yielded, a[..]);
  }

  /** The inner loop's account of the iteration after one more comparison. */
  lemma SiftAdvance(yielded: seq<Step>, s: seq<int>, c: nat)
    requires 0 < c < |s|
    ensures yielded + Sift(s, c).steps == (yielded + [Probe(s, c)]) + Sift(Next(s, c - 1), c - 1).steps
    ensures Sift(s, c).final == Sift(Next(s, c - 1), c - 1).final
  {
  }

  lemma SiftFinish(yielded: seq<Step>, s: seq<int>)
    requires 0 < |s|
    ensures yielded + Sift(s, 0).steps == yielded && Sift(s, 0).final == s
  {
  }

  /** `insertSort(initialArray)`: sorts `a` in place and returns the yielded steps, each
      holding the array as it was when the step was yielded. */
  method InsertSort(a: array<int>) returns (trace: seq<Step>)
    modifies a
    ensures a[..] == InsertRun(old(a[..])).final
    ensures trace == InsertRun(old(a[..])).steps
  {
    ghost var run := InsertRun(a[..]);
    var n := a.Length;
    trace := [];
    var i := 1;
    while i < n
      invariant 1 <= i && (i <= n || n == 0) && a.Length == n
      invariant trace + InsertFrom(a[..], i).steps == run.steps
      invariant InsertFrom(a[..], i).final == run.final
    {
      ghost var start := a[..];
      var yielded := SiftDown(a, i);
      InsertAdvance(trace, start, i);
      trace := trace + yielded;
      i := i + 1;
    }
    InsertFinish(trace, a[..], i);
    trace := trace + [Probe(a[..], 0)];
    trace := trace + [Probe(a[..], NoHighlight)];
  }

  /** The outer loop's account of the run after one more iteration. */
  lemma InsertAdvance(trace: seq<Step>, s: seq<int>, i: nat)
    requires i < |s|
    ensures var p := Sift(s, i);
      trace + InsertFrom(s, i).steps == (trace + p.steps) + InsertFrom(p.final, i + 1).steps &&
      InsertFrom(s, i).final == InsertFrom(p.final, i + 1).final
  {
  }

  lemma InsertFinish(trace: seq<Step>, s: seq<int>, i: nat)
    requires i >= |s|
    ensures trace + InsertFrom(s, i).steps == (trace + [Probe(s, 0)]) + [Probe(s, NoHighlight)]
    ensures InsertFrom(s, i).final == s
  {
  }
}
