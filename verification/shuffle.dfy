/**
  The Fisher–Yates shuffle of the matching game (`shuffle` in
  src/matching/index.tsx).

  The source draws `j = floor(random() * (i + 1))` for every loop counter `i`
  from `length - 1` down to `1` and swaps positions `i` and `j`. The random
  draws are made explicit here: `draws[i]` is the index picked when the
  counter is `i`, and the only thing assumed about it is the range
  `0 <= draws[i] <= i` that the floor expression guarantees.
 */
module Shuffle {

  /** The draws are in range for a shuffle of `n` elements. `draws[0]` is
      never consulted (the loop stops before `i = 0`) and is pinned to 0. */
  predicate ValidDraws(draws: seq<int>, n: int) {
    |draws| == n && forall i :: 0 <= i < |draws| ==> 0 <= draws[i] <= i
  }

  /** The destructuring swap `[arr[i], arr[j]] = [arr[j], arr[i]]`. */
  function Swap<T>(a: seq<T>, i: int, j: int): (r: seq<T>)
    requires 0 <= i < |a| && 0 <= j < |a|
    ensures |r| == |a|
    ensures r[i] == a[j] && r[j] == a[i]
    ensures forall k {:trigger r[k]} :: 0 <= k < |a| && k != i && k != j ==> r[k] == a[k]
  {
    a[i := a[j]][j := a[i]]
  }

  /** A swap only rearranges. */
  lemma SwapPermutes<T>(a: seq<T>, i: int, j: int)
    requires 0 <= i < |a| && 0 <= j < |a|
    ensures multiset(Swap(a, i, j)) == multiset(a)
  {
  }

  /** The loop iterations with counter `i`, `i - 1`, ..., `1`, applied to `a`.
      Positions above `i` have already been passed and are never touched. */
  function Passes<T>(a: seq<T>, draws: seq<int>, i: int): (r: seq<T>)
    requires ValidDraws(draws, |a|)
    requires i < |a|
    ensures |r| == |a|
    ensures forall k {:trigger r[k]} :: i < k < |a| && 0 <= k ==> r[k] == a[k]
    decreases i
  {
    if i <= 0 then a else Passes(Swap(a, i, draws[i]), draws, i - 1)
  }

  /** The whole shuffle: the loop starts at `length - 1` (which is -1 for an
      empty deck, so no iteration runs). */
  function FisherYates<T>(a: seq<T>, draws: seq<int>): (r: seq<T>)
    requires ValidDraws(draws, |a|)
    ensures |r| == |a| && multiset(r) == multiset(a)
  {
    PassesPermute(a, draws, |a| - 1);
    Passes(a, draws, |a| - 1)
  }

  /** Every pass is a swap, so the passes rearrange `a` without adding or
      losing an element. */
  lemma {:induction false} PassesPermute<T>(a: seq<T>, draws: seq<int>, i: int)
    requires ValidDraws(draws, |a|)
    requires i < |a|
    ensures multiset(Passes(a, draws, i)) == multiset(a)
    decreases i
  {
    if i > 0 {
      SwapPermutes(a, i, draws[i]);
      PassesPermute(Swap(a, i, draws[i]), draws, i - 1);
    }
  }

  /** The in-place loop of the source, run on an array initialised from `a`.
      The result is the functional shuffle above, hence a permutation of `a`. */
  method Shuffle<T>(a: seq<T>, draws: seq<int>) returns (r: seq<T>)
    requires ValidDraws(draws, |a|)
    ensures r == FisherYates(a, draws)
    ensures |r| == |a| && multiset(r) == multiset(a)
  {
    var arr := new T[|a|](k requires 0 <= k < |a| => a[k]);
    var i := |a| - 1;
    assert arr[..] == a;
    while i > 0
      invariant -1 <= i < arr.Length == |a|
      invariant Passes(arr[..], draws, i) == FisherYates(a, draws)
    {
      var j := draws[i];
      ghost var before := arr[..];
      arr[i], arr[j] := arr[j], arr[i];
      assert arr[..] == Swap(before, i, j);
      i := i - 1;
    }
    r := arr[..];
  }

  /** The passes at or below `i` read only `draws[..i+1]`. */
  lemma {:induction false} PassesFrame<T>(a: seq<T>, d1: seq<int>, d2: seq<int>, i: int)
    requires ValidDraws(d1, |a|) && ValidDraws(d2, |a|)
    requires i < |a|
    requires forall k :: 0 <= k <= i ==> d1[k] == d2[k]
    ensures Passes(a, d1, i) == Passes(a, d2, i)
    decreases i
  {
    if i > 0 {
      var a' := Swap(a, i, d1[i]);
      PassesFrame(a', d1, d2, i - 1);
    }
  }

  /** With no pass left to run, agreeing multisets on a prefix of length at
      most one and agreeing suffixes make the sequences equal. */
  lemma ReachBase<T>(a: seq<T>, p: seq<T>, i: int)
    requires |p| == |a| && -1 <= i <= 0 && i < |a|
    requires multiset(a[..i + 1]) == multiset(p[..i + 1])
    requires forall k :: i < k < |a| ==> a[k] == p[k]
    ensures a == p
  {
    if i == 0 {
      assert a[..1] == [a[0]] && p[..1] == [p[0]];
      assert a[0] in multiset{p[0]};
    }
  }

  /** The element the target wants at `i` sits somewhere in `a[..i+1]`. */
  lemma SourceOf<T>(a: seq<T>, p: seq<T>, i: int) returns (j: int)
    requires |p| == |a| && 0 <= i < |a|
    requires multiset(a[..i + 1]) == multiset(p[..i + 1])
    ensures 0 <= j <= i && a[j] == p[i]
  {
    assert p[..i + 1][i] == p[i];
    assert p[i] in multiset(a[..i + 1]);
    j :| 0 <= j <= i && a[..i + 1][j] == p[i];
  }

  /** One pass moving the target's element `p[i]` (found at `j`) into place
      leaves a smaller instance of the same problem. */
  lemma ReachStep<T>(a: seq<T>, p: seq<T>, i: int, j: int)
    requires |p| == |a| && 0 <= j <= i < |a|
    requires a[j] == p[i]
    requires multiset(a[..i + 1]) == multiset(p[..i + 1])
    requires forall k :: i < k < |a| ==> a[k] == p[k]
    ensures multiset(Swap(a, i, j)[..i]) == multiset(p[..i])
    ensures forall k :: i - 1 < k < |a| ==> Swap(a, i, j)[k] == p[k]
  {
    var a' := Swap(a, i, j);
    assert a'[..i + 1] == Swap(a[..i + 1], i, j);
    SwapPermutes(a[..i + 1], i, j);
    assert multiset(a'[..i + 1]) == multiset(a[..i + 1]);
    assert a'[..i + 1] == a'[..i] + [p[i]];
    assert p[..i + 1] == p[..i] + [p[i]];
    calc {
      multiset(a'[..i]);
      multiset(a'[..i + 1]) - multiset{p[i]};
      multiset(p[..i + 1]) - multiset{p[i]};
      multiset(p[..i]);
    }
  }

  /** Draws that finish the job after the pass at `i` picked `j` extend to
      draws for all passes from `i` down. */
  lemma PrependDraw<T>(a: seq<T>, d': seq<int>, i: int, j: int) returns (d: seq<int>)
    requires 0 <= j <= i < |a| && ValidDraws(d', |a|)
    ensures ValidDraws(d, |a|)
    ensures Passes(a, d, i) == Passes(Swap(a, i, j), d', i - 1)
  {
    d := d'[i := j];
    PassesFrame(Swap(a, i, j), d', d, i - 1);
  }

  /** Every permutation of the prefix `a[..i+1]` is produced by some in-range
      draws, when the suffix above `i` already agrees with the target. */
  lemma {:induction false} PassesReach<T>(a: seq<T>, p: seq<T>, i: int) returns (d: seq<int>)
    requires |p| == |a| && -1 <= i < |a|
    requires multiset(a[..i + 1]) == multiset(p[..i + 1])
    requires forall k :: i < k < |a| ==> a[k] == p[k]
    ensures ValidDraws(d, |a|)
    ensures Passes(a, d, i) == p
    decreases i
  {
    if i <= 0 {
      ReachBase(a, p, i);
      d := seq(|a|, k => 0);
      assert Passes(a, d, i) == a;
    } else {
      var j := SourceOf(a, p, i);
      ReachStep(a, p, i, j);
      var a' := Swap(a, i, j);
      var d' := PassesReach(a', p, i - 1);
      d := PrependDraw(a, d', i, j);
    }
  }

  /** The draw range `0 <= j <= i` leaves no permutation out: every
      rearrangement of the deck is the outcome of some sequence of draws. */
  lemma EveryPermutationReachable<T>(a: seq<T>, p: seq<T>) returns (d: seq<int>)
    requires multiset(p) == multiset(a)
    ensures ValidDraws(d, |a|)
    ensures FisherYates(a, d) == p
  {
    assert |p| == |multiset(p)| == |multiset(a)| == |a|;
    assert a[..|a|] == a && p[..|p|] == p;
    d := PassesReach(a, p, |a| - 1);
  }
}
