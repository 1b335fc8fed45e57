/** The Durstenfeld (Fisher–Yates) shuffle that every algorithm element uses to build
    its starting array. The random draw `Math.floor(Math.random() * (i + 1))` is an
    oracle: `rolls[i]` is the swap partner chosen for index `i`. */
module Shuffle {
  import opened Steps

  /** The draw for index `i` lies in `[0, i]`, as `floor(random * (i + 1))` does. */
  predicate ValidRolls(rolls: seq<nat>) {
    forall i | 0 <= i < |rolls| :: rolls[i] <= i
  }

  /** No value occurs twice (the starting array `1..N` has this property). */
  predicate Distinct(xs: seq<int>) {
    forall p, q | 0 <= p < q < |xs| :: xs[p] != xs[q]
  }

  /** Reference definition: the first iteration (`i = n - 1`) fixes the last position,
      and the remaining iterations shuffle the prefix before it. */
  function Shuffled(xs: seq<int>, rolls: seq<nat>): (r: seq<int>)
    requires |rolls| == |xs| && ValidRolls(rolls)
    ensures |r| == |xs|
    decreases |xs|
  {
    if |xs| <= 1 then xs
    else
      var i := |xs| - 1;
      var ys := SwapAt(xs, i, rolls[i]);
      assert ys == ys[..i] + [ys[i]];
      Shuffled(ys[..i], rolls[..i]) + [ys[i]]
  }

  /** A shuffle only rearranges: it keeps every value with its multiplicity. */
  lemma {:induction false} ShuffledIsPermutation(xs: seq<int>, rolls: seq<nat>)
    requires |rolls| == |xs| && ValidRolls(rolls)
    ensures multiset(Shuffled(xs, rolls)) == multiset(xs)
    decreases |xs|
  {
    if |xs| > 1 {
      var i := |xs| - 1;
      var ys := SwapAt(xs, i, rolls[i]);
      ValidPrefix(rolls, i);
      ShuffledIsPermutation(ys[..i], rolls[..i]);
      ShuffledUnfold(xs, rolls);
      MultisetAppend(Shuffled(ys[..i], rolls[..i]), ys[i]);
      MultisetDropLast(ys);
      SwapAtPermutes(xs, i, rolls[i]);
    }
  }

  /** The draws of the remaining iterations are valid draws. */
  lemma ValidPrefix(rolls: seq<nat>, k: nat)
    requires ValidRolls(rolls) && k <= |rolls|
    ensures ValidRolls(rolls[..k])
  {
  }

  /** One iteration of the countdown, as `Shuffled` takes it. */
  lemma ShuffledUnfold(xs: seq<int>, rolls: seq<nat>)
    requires |rolls| == |xs| && ValidRolls(rolls) && |xs| > 1
    ensures var i := |xs| - 1; var ys := SwapAt(xs, i, rolls[i]);
      Shuffled(xs, rolls) == Shuffled(ys[..i], rolls[..i]) + [ys[i]]
  {
  }

  /** One iteration of the countdown keeps the loop's account of what is left to do. */
  lemma CountdownStep(total: seq<int>, rolls: seq<nat>, s: seq<int>, i: nat)
    requires |rolls| == |s| && ValidRolls(rolls) && 0 < i < |s|
    requires total == Shuffled(s[..i + 1], rolls[..i + 1]) + s[i + 1..]
    ensures var t := SwapAt(s, i, rolls[i]); total == Shuffled(t[..i], rolls[..i]) + t[i..]
  {
    var t := SwapAt(s, i, rolls[i]);
    var pending := s[..i + 1];
    assert rolls[..i + 1][i] == rolls[i] && rolls[..i + 1][..i] == rolls[..i];
    ShuffledUnfold(pending, rolls[..i + 1]);
    assert SwapAt(pending, i, rolls[i]) == t[..i + 1];
    assert t[..i + 1][..i] == t[..i];
    assert [t[i]] + s[i + 1..] == t[i..];
  }

  /** `shuffleArray`: copies the input, then swaps index `i` with `rolls[i]` for `i`
      from the last index down to 1. The input, a value, is left as it was. */
  method ShuffleArray(xs: seq<int>, rolls: seq<nat>) returns (r: seq<int>)
    requires |rolls| == |xs| && ValidRolls(rolls)
    ensures r == Shuffled(xs, rolls)
    ensures |r| == |xs| && multiset(r) == multiset(xs)
  {
    var b := CopyOf(xs);
    var i := |xs| - 1;
    assert b[..i + 1] == xs && rolls[..i + 1] == rolls && b[i + 1..] == [];
    while i > 0
      invariant -1 <= i < |xs| && (|xs| > 0 ==> 0 <= i)
      invariant b.Length == |xs|
      invariant Shuffled(xs, rolls) == Shuffled(b[..i + 1], rolls[..i + 1]) + b[i + 1..]
    {
      ghost var before := b[..];
      var j := rolls[i];
      Swap(b, i, j);
      CountdownStep(Shuffled(xs, rolls), rolls, before, i);
      i := i - 1;
    }
    assert b[..i + 1] + b[i + 1..] == b[..];
    r := b[..];
    ShuffledIsPermutation(xs, rolls);
  }

  /** Every arrangement of the input is produced by some choice of draws. */
  lemma {:induction false} ShuffleReachesEveryPermutation(xs: seq<int>, t: seq<int>)
    requires multiset(t) == multiset(xs)
    ensures exists rolls: seq<nat> :: |rolls| == |xs| && ValidRolls(rolls) && Shuffled(xs, rolls) == t
    decreases |xs|
  {
    if |xs| <= 1 {
      ShortInputReached(xs, t);
    } else {
      var i := |xs| - 1;
      var j := LastDraw(xs, t);
      var ys := SwapAt(xs, i, j);
      ShuffleReachesEveryPermutation(ys[..i], t[..i]);
      var rs: seq<nat> :| |rs| == i && ValidRolls(rs) && Shuffled(ys[..i], rs) == t[..i];
      ExtendDraws(xs, t, rs, j);
    }
  }

  lemma ShortInputReached(xs: seq<int>, t: seq<int>)
    requires multiset(t) == multiset(xs) && |xs| <= 1
    ensures exists rolls: seq<nat> :: |rolls| == |xs| && ValidRolls(rolls) && Shuffled(xs, rolls) == t
  {
    assert |t| == |multiset(t)| == |xs|;
    var rolls: seq<nat> := if xs == [] then [] else [0];
    assert t == xs by {
      if |xs| == 1 {
        assert t[0] in multiset(xs);
      }
    }
    assert |rolls| == |xs| && ValidRolls(rolls) && Shuffled(xs, rolls) == t;
  }

  /** The first iteration can bring the wanted last element into place; what remains is
      an arrangement of the rest. */
  lemma LastDraw(xs: seq<int>, t: seq<int>) returns (j: nat)
    requires multiset(t) == multiset(xs) && |xs| > 1
    ensures |t| == |xs| && j < |xs| && xs[j] == t[|xs| - 1]
    ensures var i := |xs| - 1; multiset(SwapAt(xs, i, j)[..i]) == multiset(t[..i])
  {
    var i := |xs| - 1;
    assert |t| == |multiset(t)| == |xs|;
    assert t[i] in multiset(xs);
    j :| 0 <= j < |xs| && xs[j] == t[i];
    var ys := SwapAt(xs, i, j);
    SwapAtPermutes(xs, i, j);
    MultisetDropLast(ys);
    MultisetDropLast(t);
    MultisetCancel(multiset(ys[..i]), multiset(t[..i]), t[i]);
  }

  lemma ExtendDraws(xs: seq<int>, t: seq<int>, rs: seq<nat>, j: nat)
    requires |xs| > 1 && |t| == |xs| && j < |xs| && xs[j] == t[|xs| - 1]
    requires |rs| == |xs| - 1 && ValidRolls(rs)
    requires Shuffled(SwapAt(xs, |xs| - 1, j)[..|xs| - 1], rs) == t[..|xs| - 1]
    ensures exists rolls: seq<nat> :: |rolls| == |xs| && ValidRolls(rolls) && Shuffled(xs, rolls) == t
  {
    var i := |xs| - 1;
    var rolls := rs + [j];
    assert rolls[..i] == rs && rolls[i] == j;
    assert ValidRolls(rolls);
    ShuffledUnfold(xs, rolls);
    SplitLast(t);
    assert |rolls| == |xs| && ValidRolls(rolls) && Shuffled(xs, rolls) == t;
  }

  lemma SwapKeepsDistinct(xs: seq<int>, i: nat, j: nat)
    requires i < |xs| && j < |xs| && Distinct(xs)
    ensures Distinct(SwapAt(xs, i, j))
  {
    var ys := SwapAt(xs, i, j);
    forall p, q | 0 <= p < q < |ys| ensures ys[p] != ys[q] {
      var p' := if p == i then j else if p == j then i else p;
      var q' := if q == i then j else if q == j then i else q;
      assert ys[p] == xs[p'] && ys[q] == xs[q'] && p' != q';
    }
  }

  /** A sequence with one element appended determines both parts. */
  lemma AppendInjective(s1: seq<int>, x1: int, s2: seq<int>, x2: int)
    requires s1 + [x1] == s2 + [x2]
    ensures s1 == s2 && x1 == x2
  {
    assert |s1| == |s2|;
    assert x1 == (s1 + [x1])[|s1|] && x2 == (s2 + [x2])[|s2|];
    assert s1 == (s1 + [x1])[..|s1|] && s2 == (s2 + [x2])[..|s2|];
  }

  /** Equal shuffles agree on the value the first iteration moved to the end, and on
      what the remaining iterations made of the prefix. */
  lemma PeelLastDraw(xs: seq<int>, r1: seq<nat>, r2: seq<nat>)
    requires |xs| > 1 && |r1| == |xs| && |r2| == |xs| && ValidRolls(r1) && ValidRolls(r2)
    requires Shuffled(xs, r1) == Shuffled(xs, r2)
    ensures var i := |xs| - 1;
      r1[i] < |xs| && r2[i] < |xs| && xs[r1[i]] == xs[r2[i]] &&
      Shuffled(SwapAt(xs, i, r1[i])[..i], r1[..i]) == Shuffled(SwapAt(xs, i, r2[i])[..i], r2[..i])
  {
    var i := |xs| - 1;
    var y1, y2 := SwapAt(xs, i, r1[i]), SwapAt(xs, i, r2[i]);
    ValidPrefix(r1, i);
    ValidPrefix(r2, i);
    var s1, s2 := Shuffled(y1[..i], r1[..i]), Shuffled(y2[..i], r2[..i]);
    ShuffledUnfold(xs, r1);
    ShuffledUnfold(xs, r2);
    assert s1 + [y1[i]] == s2 + [y2[i]];
    AppendInjective(s1, y1[i], s2, y2[i]);
  }

  /** The first iteration of two equal shuffles of distinct values drew the same
      partner, and the remaining iterations shuffled the same prefix to the same result. */
  lemma SameLastDraw(xs: seq<int>, r1: seq<nat>, r2: seq<nat>)
    requires Distinct(xs) && |xs| > 1 && |r1| == |xs| && |r2| == |xs| && ValidRolls(r1) && ValidRolls(r2)
    requires Shuffled(xs, r1) == Shuffled(xs, r2)
    ensures var i := |xs| - 1; var ys := SwapAt(xs, i, r1[i]);
      r1[i] == r2[i] && Distinct(ys[..i]) && Shuffled(ys[..i], r1[..i]) == Shuffled(ys[..i], r2[..i])
  {
    var i := |xs| - 1;
    PeelLastDraw(xs, r1, r2);
    assert r1[i] == r2[i];
    SwapKeepsDistinct(xs, i, r1[i]);
  }

  /** On distinct values, different draws give different arrangements; with
      `ShuffleReachesEveryPermutation` the draws and the arrangements correspond one to one. */
  lemma {:induction false} ShuffleIsInjective(xs: seq<int>, r1: seq<nat>, r2: seq<nat>)
    requires Distinct(xs) && |r1| == |xs| && |r2| == |xs| && ValidRolls(r1) && ValidRolls(r2)
    requires Shuffled(xs, r1) == Shuffled(xs, r2)
    ensures r1 == r2
    decreases |xs|
  {
    if |xs| == 1 {
      assert r1[0] == 0 == r2[0];
      DrawsDetermined(r1, r2);
    } else if |xs| > 1 {
      var i := |xs| - 1;
      SameLastDraw(xs, r1, r2);
      ValidPrefix(r1, i);
      ValidPrefix(r2, i);
      ShuffleIsInjective(SwapAt(xs, i, r1[i])[..i], r1[..i], r2[..i]);
      DrawsDetermined(r1, r2);
    }
  }

  /** Draw sequences that agree on their last draw and on the draws before it are equal. */
  lemma DrawsDetermined(r1: seq<nat>, r2: seq<nat>)
    requires |r1| == |r2| > 0 && r1[|r1| - 1] == r2[|r2| - 1]
    requires r1[..|r1| - 1] == r2[..|r2| - 1]
    ensures r1 == r2
  {
    assert r1 == r1[..|r1| - 1] + [r1[|r1| - 1]];
    assert r2 == r2[..|r2| - 1] + [r2[|r2| - 1]];
  }
}
