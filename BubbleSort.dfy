/** The `bubbleSort` generator: passes `i = 0, 1, ..., n - 1` over the array; pass `i`
    compares neighbours `j, j + 1` for `j < n - i - 1`, yielding a paced step before each
    comparison and a skipped step after each swap, and ends with a skipped step that
    highlights -1. */
module BubbleSort {
  import opened Steps

  /** The step yielded before comparing positions `j` and `j + 1`. */
  function Probe(s: seq<int>, j: int): Step {
    Step(s, j, NoRange, NoRange, false)
  }

  /** The step yielded after exchanging positions `j - 1` and `j`. */
  function Swapped(s: seq<int>, j: int): Step {
    Step(s, j, NoRange, NoRange, true)
  }

  /** The last step of every run. */
  function Done(s: seq<int>): Step {
    Step(s, NoHighlight, NoRange, NoRange, true)
  }

  /** Reference definition of the rest of pass `i` from the comparison of `j` and
      `j + 1`: the array the pass leaves and the steps it yields. */
  function Pass(s: seq<int>, i: nat, j: nat): (r: Run)
    ensures |r.final| == |s|
    decreases |s| - j
  {
    if j + i + 1 >= |s| then Run(s, [])
    else
      var rest := Pass(Next(s, j), i, j + 1);
      Run(rest.final, Yielded(s, j) + rest.steps)
  }

  /** The array after comparing positions `j` and `j + 1`: they are exchanged when strictly
      out of order. */
  function Next(s: seq<int>, j: nat): (r: seq<int>)
    requires j + 1 < |s|
    ensures |r| == |s|
  {
    if s[j] > s[j + 1] then SwapAt(s, j, j + 1) else s
  }

  /** Only positions `j` and `j + 1` can change, and they are exchanged exactly when
      `a[j] > a[j + 1]`: equal neighbours stay where they are. */
  lemma NextChanges(s: seq<int>, j: nat)
    requires j + 1 < |s|
    ensures var t := Next(s, j);
      (forall k | 0 <= k < |s| && k != j && k != j + 1 :: t[k] == s[k]) &&
      (s[j] > s[j + 1] <==> t != s) &&
      (s[j] > s[j + 1] ==> t[j] == s[j + 1] && t[j + 1] == s[j])
  {
    if s[j] > s[j + 1] {
      assert Next(s, j)[j] != s[j];
    }
  }

  /** The steps yielded by the comparison of `j` and `j + 1`. */
  function Yielded(s: seq<int>, j: nat): seq<Step>
    requires j + 1 < |s|
  {
    if s[j] > s[j + 1] then [Probe(s, j), Swapped(Next(s, j), j + 1)] else [Probe(s, j)]
  }

  /** Reference definition of the generator from the start of pass `i`: the remaining
      passes, then the last step. */
  function BubbleFrom(s: seq<int>, i: nat): Run
    decreases |s| - i
  {
    if i >= |s| then Run(s, [Done(s)])
    else
      var p := Pass(s, i, 0);
      var rest := BubbleFrom(p.final, i + 1);
      Run(rest.final, p.steps + rest.steps)
  }

  /** The whole run on the array handed to the generator. */
  function BubbleRun(s: seq<int>): Run {
    BubbleFrom(s, 0)
  }

  // ---------------------------------------------------------------------------
  // The array

  /** The last `k` positions hold the `k` largest values in ascending order: every
      value there is at least every value before it. */
  predicate Settled(s: seq<int>, k: nat) {
    forall p, q | 0 <= p < q < |s| && |s| - k <= q :: s[p] <= s[q]
  }

  /** Position `j` holds the largest of the values up to it. */
  predicate MaxAt(s: seq<int>, j: nat) {
    j < |s| && forall p | 0 <= p < j :: s[p] <= s[j]
  }

  /** One comparison of pass `i` keeps the settled suffix and carries the maximum on. */
  lemma CompareStep(s: seq<int>, i: nat, j: nat)
    requires j + i + 1 < |s| && Settled(s, i) && MaxAt(s, j)
    ensures Settled(Next(s, j), i) && MaxAt(Next(s, j), j + 1)
  {
    if s[j] > s[j + 1] {
      var t := SwapAt(s, j, j + 1);
      forall p, q | 0 <= p < q < |t| && |t| - i <= q ensures t[p] <= t[q] {
        assert t[q] == s[q];
        if p == j {
          assert t[p] == s[j + 1];
        } else if p == j + 1 {
          assert t[p] == s[j];
        }
      }
    }
  }

  /** The rest of a pass carries the maximum to position `n - i - 1`, which settles it. */
  lemma {:induction false} PassCarriesMax(s: seq<int>, i: nat, j: nat)
    requires j + i < |s| && Settled(s, i) && MaxAt(s, j)
    ensures Settled(Pass(s, i, j).final, i + 1)
    decreases |s| - j
  {
    if j + i + 1 >= |s| {
    } else {
      CompareStep(s, i, j);
      PassCarriesMax(Next(s, j), i, j + 1);
    }
  }

  /** After pass `i`, the last `i + 1` positions hold the `i + 1` largest values in
      ascending order. */
  lemma PassSettles(s: seq<int>, i: nat)
    requires i < |s| && Settled(s, i)
    ensures Settled(Pass(s, i, 0).final, i + 1)
  {
    PassCarriesMax(s, i, 0);
  }

  /** From the start of pass `i` with the last `i` positions settled, the run ends
      sorted. */
  lemma {:induction false} BubbleFromSorts(s: seq<int>, i: nat)
    requires i <= |s| && Settled(s, i)
    ensures Sorted(BubbleFrom(s, i).final)
    decreases |s| - i
  {
    if i < |s| {
      PassSettles(s, i);
      BubbleFromSorts(Pass(s, i, 0).final, i + 1);
    }
  }

  // ---------------------------------------------------------------------------
  // The steps

  /** How one step leads to the next. After a comparison of `h` and `h + 1`, the next
      step is the swap step of exactly that pair when it is out of order, and otherwise
      shows the same array and is not a swap step; after a swap step, the array stays
      as it is until the next comparison or the end. */
  predicate BubbleFollows(x: Step, y: Step) {
    if !x.skip then
      var v, h := x.values, x.highlighted;
      0 <= h < |v| - 1 &&
      if v[h] > v[h + 1] then y == Swapped(SwapAt(v, h, h + 1), h + 1)
      else y.values == v && !(y.skip && y.highlighted == h + 1)
    else
      y.values == x.values && (y.skip ==> y.highlighted == NoHighlight)
  }

  /** A step that may come next on the array `s`: it shows `s` and, when skipped, is
      the last step. */
  predicate Resumes(y: Step, s: seq<int>) {
    y.values == s && (y.skip ==> y.highlighted == NoHighlight)
  }

  /** The steps of one comparison, followed by a chain that may come next on the array
      they leave, form a chain that starts on the array they were given. */
  lemma YieldedChained(s: seq<int>, j: nat, zs: seq<Step>)
    requires j + 1 < |s| && zs != [] && Chained(zs, BubbleFollows) && Resumes(zs[0], Next(s, j))
    ensures Chained(Yielded(s, j) + zs, BubbleFollows) && Resumes((Yielded(s, j) + zs)[0], s)
  {
    if s[j] > s[j + 1] {
      var y := Swapped(Next(s, j), j + 1);
      ChainedCons(y, zs, BubbleFollows);
      ChainedCons(Probe(s, j), [y] + zs, BubbleFollows);
      assert Yielded(s, j) + zs == [Probe(s, j)] + ([y] + zs);
    } else {
      ChainedCons(Probe(s, j), zs, BubbleFollows);
    }
  }

  /** The steps of a pass, followed by a chain that may come next on the array the pass
      leaves, form a chain. */
  lemma {:induction false} PassChained(s: seq<int>, i: nat, j: nat, zs: seq<Step>)
    requires zs != [] && Chained(zs, BubbleFollows) && Resumes(zs[0], Pass(s, i, j).final)
    ensures Chained(Pass(s, i, j).steps + zs, BubbleFollows)
    decreases |s| - j
  {
    if j + i + 1 >= |s| {
      PassEnded(s, i, j, zs);
      ChainedSame(Pass(s, i, j).steps + zs, zs, BubbleFollows);
    } else {
      PassUnfold(s, i, j);
      PassChained(Next(s, j), i, j + 1, zs);
      PassChainedStep(s, i, j, zs);
    }
  }

  /** A pass with no comparison left yields nothing and leaves the array as it is. */
  lemma PassEnded(s: seq<int>, i: nat, j: nat, zs: seq<Step>)
    requires j + i + 1 >= |s|
    ensures Pass(s, i, j).steps + zs == zs && Pass(s, i, j).final == s
  {
    assert Pass(s, i, j) == Run(s, []);
  }

  /** One comparison more in front of a chained rest of the pass keeps the chain. */
  lemma PassChainedStep(s: seq<int>, i: nat, j: nat, zs: seq<Step>)
    requires j + i + 1 < |s| && zs != []
    requires Chained(Pass(Next(s, j), i, j + 1).steps + zs, BubbleFollows)
    requires Resumes(zs[0], Pass(Next(s, j), i, j + 1).final)
    ensures Chained(Pass(s, i, j).steps + zs, BubbleFollows)
  {
    var rest := Pass(Next(s, j), i, j + 1).steps;
    PassResumes(Next(s, j), i, j + 1, zs);
    PassThen(s, i, j, zs);
    YieldedChained(s, j, rest + zs);
    ChainedSame(Pass(s, i, j).steps + zs, Yielded(s, j) + (rest + zs), BubbleFollows);
  }

  /** A pass with a comparison left, followed by `zs`: the comparison's steps, then the
      rest of the pass and `zs`. */
  lemma PassThen(s: seq<int>, i: nat, j: nat, zs: seq<Step>)
    requires j + i + 1 < |s|
    ensures Pass(s, i, j).steps + zs == Yielded(s, j) + (Pass(Next(s, j), i, j + 1).steps + zs)
    ensures Pass(s, i, j).final == Pass(Next(s, j), i, j + 1).final
  {
    PassUnfold(s, i, j);
    ConcatAssoc(Yielded(s, j), Pass(Next(s, j), i, j + 1).steps, zs);
  }

  /** ... and their first step may come next on the array the pass was given. */
  lemma PassResumes(s: seq<int>, i: nat, j: nat, zs: seq<Step>)
    requires zs != [] && Resumes(zs[0], Pass(s, i, j).final)
    ensures Resumes((Pass(s, i, j).steps + zs)[0], s)
  {
    if j + i + 1 >= |s| {
      assert Pass(s, i, j) == Run(s, []);
    } else {
      PassUnfold(s, i, j);
      assert (Pass(s, i, j).steps + zs)[0] == Probe(s, j);
    }
  }

  /** Every step of a run follows the one before it as `BubbleFollows` says, and the
      first step shows the array the run was given. */
  lemma {:induction false} BubbleFromChained(s: seq<int>, i: nat)
    ensures BubbleFrom(s, i).steps != [] && Chained(BubbleFrom(s, i).steps, BubbleFollows)
    ensures Resumes(BubbleFrom(s, i).steps[0], s)
    decreases |s| - i
  {
    if i < |s| {
      BubbleFromChained(Pass(s, i, 0).final, i + 1);
      BubbleFromChainedStep(s, i);
    } else {
      assert BubbleFrom(s, i).steps == [Done(s)];
    }
  }

  /** One more pass in front of a chained rest of the run keeps the chain. */
  lemma BubbleFromChainedStep(s: seq<int>, i: nat)
    requires i < |s|
    requires BubbleFrom(Pass(s, i, 0).final, i + 1).steps != []
    requires Chained(BubbleFrom(Pass(s, i, 0).final, i + 1).steps, BubbleFollows)
    requires Resumes(BubbleFrom(Pass(s, i, 0).final, i + 1).steps[0], Pass(s, i, 0).final)
    ensures BubbleFrom(s, i).steps != [] && Chained(BubbleFrom(s, i).steps, BubbleFollows)
    ensures Resumes(BubbleFrom(s, i).steps[0], s)
  {
    var p := Pass(s, i, 0);
    var rest := BubbleFrom(p.final, i + 1).steps;
    assert BubbleFrom(s, i).steps == p.steps + rest;
    PassChained(s, i, 0, rest);
    PassResumes(s, i, 0, rest);
    ChainedSame(BubbleFrom(s, i).steps, p.steps + rest, BubbleFollows);
  }

  /** The last step of a run highlights -1 on the final array. */
  lemma {:induction false} BubbleFromLast(s: seq<int>, i: nat)
    ensures var r := BubbleFrom(s, i);
      r.steps != [] && r.steps[|r.steps| - 1] == Done(r.final)
    decreases |s| - i
  {
    if i < |s| {
      var p := Pass(s, i, 0);
      var rest := BubbleFrom(p.final, i + 1).steps;
      BubbleFromLast(p.final, i + 1);
      LastOfConcat(p.steps, rest);
    }
  }

  /** Consecutive steps show arrays with the same values. */
  lemma FollowsPermutes(x: Step, y: Step)
    requires BubbleFollows(x, y)
    ensures |y.values| == |x.values| && multiset(y.values) == multiset(x.values)
  {
    if !x.skip && x.values[x.highlighted] > x.values[x.highlighted + 1] {
      SwapAtPermutes(x.values, x.highlighted, x.highlighted + 1);
    }
  }

  /** Every step of a chain shows a rearrangement of the array of its first step. */
  lemma {:induction false} ChainPermutes(steps: seq<Step>, k: nat)
    requires Chained(steps, BubbleFollows) && k < |steps|
    ensures |steps[k].values| == |steps[0].values| && multiset(steps[k].values) == multiset(steps[0].values)
  {
    if k > 0 {
      ChainPermutes(steps, k - 1);
      FollowsPermutes(steps[k - 1], steps[k]);
    }
  }

  /** On termination the array is sorted ascending and holds the starting values, and
      so does every step the run yields. */
  lemma BubbleSortSorts(s: seq<int>)
    ensures var r := BubbleRun(s);
      Sorted(r.final) && multiset(r.final) == multiset(s) &&
      forall k | 0 <= k < |r.steps| :: |r.steps[k].values| == |s| && multiset(r.steps[k].values) == multiset(s)
  {
    var r := BubbleRun(s);
    BubbleFromSorts(s, 0);
    BubbleFromChained(s, 0);
    BubbleFromLast(s, 0);
    forall k | 0 <= k < |r.steps|
      ensures |r.steps[k].values| == |s| && multiset(r.steps[k].values) == multiset(s)
    {
      ChainPermutes(r.steps, k);
    }
    ChainPermutes(r.steps, |r.steps| - 1);
  }

  /** The comparisons of passes `i, i + 1, ..., n - 1`: pass `i` compares `j` for every
      `j < n - i - 1`. */
  function Passes(n: nat, i: nat): seq<int>
    decreases n - i
  {
    if i >= n then [] else Between(0, n - i - 1) + Passes(n, i + 1)
  }

  /** The paced steps of the rest of a pass are its remaining comparisons, in order
      (`m` is the bound `n - i - 1` of the inner loop). */
  lemma {:induction false} PassPaced(s: seq<int>, i: nat, j: nat, m: int)
    requires j + i < |s| && m == |s| - i - 1
    ensures Paced(Pass(s, i, j).steps) == Between(j, m)
    decreases |s| - j
  {
    if j >= m {
      assert Pass(s, i, j).steps == [];
    } else {
      var t := Next(s, j);
      var rest := Pass(t, i, j + 1).steps;
      calc {
        Paced(Pass(s, i, j).steps);
        == { PassUnfold(s, i, j); }
        Paced(Yielded(s, j) + rest);
        == { PacedConcat(Yielded(s, j), rest); }
        Paced(Yielded(s, j)) + Paced(rest);
        == { YieldedPaced(s, j); PassPaced(t, i, j + 1, m); }
        [j] + Between(j + 1, m);
      }
    }
  }

  /** A pass that has a comparison left makes it and goes on with the array it leaves. */
  lemma PassUnfold(s: seq<int>, i: nat, j: nat)
    requires j + i + 1 < |s|
    ensures Pass(s, i, j).steps == Yielded(s, j) + Pass(Next(s, j), i, j + 1).steps
    ensures Pass(s, i, j).final == Pass(Next(s, j), i, j + 1).final
  {
  }

  /** A comparison yields one paced step, which highlights `j`. */
  lemma YieldedPaced(s: seq<int>, j: nat)
    requires j + 1 < |s|
    ensures Paced(Yielded(s, j)) == [j]
  {
    if s[j] > s[j + 1] {
      var x, y := Probe(s, j), Swapped(Next(s, j), j + 1);
      assert Yielded(s, j) == [x] + [y] && [y] == [y] + [];
      PacedCons(y, []);
      PacedCons(x, [y]);
    } else {
      PacedCons(Probe(s, j), []);
      assert [Probe(s, j)] + [] == Yielded(s, j);
    }
  }

  /** The paced steps of a run are its comparisons, pass by pass, in loop order. */
  lemma {:induction false} BubbleFromPaced(s: seq<int>, i: nat)
    ensures Paced(BubbleFrom(s, i).steps) == Passes(|s|, i)
    decreases |s| - i
  {
    if i >= |s| {
      assert Paced(BubbleFrom(s, i).steps) == [];
    } else {
      var p := Pass(s, i, 0);
      BubbleFromPaced(p.final, i + 1);
      PassPaced(s, i, 0, |s| - i - 1);
      PacedConcat(p.steps, BubbleFrom(p.final, i + 1).steps);
    }
  }

  /** There are `n (n - 1) / 2` comparisons, and pass `i` and the passes after it compare
      only `j < n - i - 1`. */
  lemma {:induction false} PassesCount(n: nat, i: nat)
    requires i <= n
    ensures 2 * |Passes(n, i)| == (n - i) * (n - i - 1)
    ensures forall k | 0 <= k < |Passes(n, i)| :: 0 <= Passes(n, i)[k] < n - i - 1
    decreases n - i
  {
    if i < n {
      PassesCount(n, i + 1);
      var m := n - i;
      assert (m - 1) * (m - 2) + 2 * (m - 1) == m * (m - 1);
      var u, rest := Between(0, m - 1), Passes(n, i + 1);
      forall k | 0 <= k < |u + rest| ensures 0 <= (u + rest)[k] < m - 1 {
        if k >= |u| {
          assert (u + rest)[k] == rest[k - |u|];
        }
      }
    }
  }

  /** The whole run, as the driver sees it: `n (n - 1) / 2` paced comparison steps, each
      highlighting an index below `n - 1`, every step following the one before as
      `BubbleFollows` says, and a last step that highlights -1 on the final array. */
  lemma BubbleRunSteps(s: seq<int>)
    ensures var r := BubbleRun(s);
      r.steps != [] && 2 * |Paced(r.steps)| == |s| * (|s| - 1) &&
      (forall k | 0 <= k < |Paced(r.steps)| :: 0 <= Paced(r.steps)[k] < |s| - 1) &&
      Chained(r.steps, BubbleFollows) && r.steps[|r.steps| - 1] == Done(r.final)
  {
    BubbleFromChained(s, 0);
    BubbleFromLast(s, 0);
    BubbleFromPaced(s, 0);
    PassesCount(|s|, 0);
  }

  // ---------------------------------------------------------------------------
  // The generator

  /** The body of the inner loop: yield, compare `j` with `j + 1`, and exchange them
      (yielding again) when strictly out of order. */
  method CompareAt(a: array<int>, j: nat) returns (yielded: seq<Step>)
    requires j + 1 < a.Length
    modifies a
    ensures a[..] == Next(old(a[..]), j) && yielded == Yielded(old(a[..]), j)
  {
    yielded := [Probe(a[..], j)];
    if a[j] > a[j + 1] {
      Swap(a, j, j + 1);
      yielded := yielded + [Swapped(a[..], j + 1)];
    }
  }

  /** The inner loop: pass `i` over the array, in place. */
  method RunPass(a: array<int>, i: nat) returns (yielded: seq<Step>)
    requires i < a.Length
    modifies a
    ensures a[..] == Pass(old(a[..]), i, 0).final && yielded == Pass(old(a[..]), i, 0).steps
  {
    ghost var pass := Pass(a[..], i, 0);
    var n := a.Length;
    yielded := [];
    var j := 0;
    assert yielded + pass.steps == pass.steps;
    while j < n - i - 1
      invariant 0 <= j <= n - i - 1 && a.Length == n
      invariant PassAccount(yielded, a[..], i, j, pass)
    {
      ghost var s := a[..];
      var ys := CompareAt(a, j);
      PassAdvance(yielded, s, i, j, pass);
      yielded := yielded + ys;
      j := j + 1;
    }
    PassFinish(yielded, a[..], i, j, pass);
  }

  /** What the inner loop has yielded, followed by the rest of the pass from the
      current array, is the whole pass, and the rest leaves the array the whole pass
      leaves. */
  predicate PassAccount(yielded: seq<Step>, s: seq<int>, i: nat, j: nat, pass: Run) {
    yielded + Pass(s, i, j).steps == pass.steps && Pass(s, i, j).final == pass.final
  }

  /** After the last comparison of a pass nothing remains of it. */
  lemma PassFinish(yielded: seq<Step>, s: seq<int>, i: nat, j: nat, pass: Run)
    requires j + i + 1 >= |s| && PassAccount(yielded, s, i, j, pass)
    ensures yielded == pass.steps && s == pass.final
  {
    assert Pass(s, i, j) == Run(s, []);
  }

  /** The inner loop's account of the pass after one more comparison. */
  lemma PassAdvance(yielded: seq<Step>, s: seq<int>, i: nat, j: nat, pass: Run)
    requires j + i + 1 < |s| && PassAccount(yielded, s, i, j, pass)
    ensures PassAccount(yielded + Yielded(s, j), Next(s, j), i, j + 1, pass)
  {
    PassUnfold(s, i, j);
    ConcatAssoc(yielded, Yielded(s, j), Pass(Next(s, j), i, j + 1).steps);
  }

  /** `bubbleSort(initialArray)`: sorts `a` in place and returns the yielded steps,
      each holding the array as it was when the step was yielded. */
  method BubbleSort(a: array<int>) returns (trace: seq<Step>)
    modifies a
    ensures a[..] == BubbleRun(old(a[..])).final
    ensures trace == BubbleRun(old(a[..])).steps
  {
    ghost var run := BubbleRun(a[..]);
    var n := a.Length;
    trace := [];
    var i := 0;
    assert trace + run.steps == run.steps;
    while i < n
      invariant 0 <= i <= n == a.Length
      invariant BubbleAccount(trace, a[..], i, run)
    {
      ghost var start := a[..];
      var yielded := RunPass(a, i);
      BubbleAdvance(trace, start, i, run);
      trace := trace + yielded;
      i := i + 1;
    }
    BubbleFinish(trace, a[..], i, run);
    trace := trace + [Done(a[..])];
  }

  /** The steps yielded so far, followed by the rest of the run from the current array,
      are the whole run, and the rest leaves the array the whole run leaves. */
  predicate BubbleAccount(trace: seq<Step>, s: seq<int>, i: nat, run: Run) {
    trace + BubbleFrom(s, i).steps == run.steps && BubbleFrom(s, i).final == run.final
  }

  /** After the last pass only the last step remains. */
  lemma BubbleFinish(trace: seq<Step>, s: seq<int>, i: nat, run: Run)
    requires i >= |s| && BubbleAccount(trace, s, i, run)
    ensures trace + [Done(s)] == run.steps && s == run.final
  {
    assert BubbleFrom(s, i) == Run(s, [Done(s)]);
  }

  /** The outer loop's account of the run after one more pass. */
  lemma BubbleAdvance(trace: seq<Step>, s: seq<int>, i: nat, run: Run)
    requires i < |s| && BubbleAccount(trace, s, i, run)
    ensures var p := Pass(s, i, 0); BubbleAccount(trace + p.steps, p.final, i + 1, run)
  {
    var p := Pass(s, i, 0);
    assert BubbleFrom(s, i) == Run(BubbleFrom(p.final, i + 1).final, p.steps + BubbleFrom(p.final, i + 1).steps);
    ConcatAssoc(trace, p.steps, BubbleFrom(p.final, i + 1).steps);
  }
}
