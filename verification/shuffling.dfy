/** numpy's legacy in-place shuffle (Fisher-Yates from the back), which both
    `np.random.choice(..., replace=False)` and `file_utils.shuffle` rest on. */
module Shuffling {
  import opened Results
  import opened Numbers

  ghost predicate Distinct<T>(s: seq<T>) {
    forall a, b :: 0 <= a < b < |s| ==> s[a] != s[b]
  }

  function Swap<T>(s: seq<T>, i: nat, j: nat): (r: seq<T>)
    requires i < |s| && j < |s|
    ensures |r| == |s|
    ensures r[i] == s[j] && r[j] == s[i]
    ensures forall k :: 0 <= k < |s| && k != i && k != j ==> r[k] == s[k]
  {
    s[i := s[j]][j := s[i]]
  }

  lemma SwapPermutes<T>(s: seq<T>, i: nat, j: nat)
    requires i < |s| && j < |s|
    ensures multiset(Swap(s, i, j)) == multiset(s)
    ensures Distinct(s) ==> Distinct(Swap(s, i, j))
  {
    SwapMultiset(s, i, j);
    if Distinct(s) {
      SwapDistinct(s, i, j);
    }
  }

  lemma SwapMultiset<T>(s: seq<T>, i: nat, j: nat)
    requires i < |s| && j < |s|
    ensures multiset(Swap(s, i, j)) == multiset(s)
  {
    var t := s[i := s[j]];
    assert multiset(t) == multiset(s) - multiset{s[i]} + multiset{s[j]};
    assert multiset(t[j := s[i]]) == multiset(t) - multiset{t[j]} + multiset{s[i]};
  }

  /** The position a swap of `i` and `j` reads position `k` from. */
  function Swapped(i: nat, j: nat, k: nat): nat {
    if k == i then j else if k == j then i else k
  }

  lemma SwapDistinct<T>(s: seq<T>, i: nat, j: nat)
    requires i < |s| && j < |s| && Distinct(s)
    ensures Distinct(Swap(s, i, j))
  {
    var r := Swap(s, i, j);
    forall a, b | 0 <= a < b < |r| ensures r[a] != r[b] {
      var a', b' := Swapped(i, j, a), Swapped(i, j, b);
      assert r[a] == s[a'] && r[b] == s[b'] && a' != b';
      if b' < a' {
        assert s[b'] != s[a'];
      }
    }
  }

  /** The shuffle loop from position `i` down to 1: swap position `i` with a
      position drawn from [0, i]. */
  function ShuffleSteps<T>(s: seq<T>, i: nat, draws: seq<Unit>): Result<(seq<T>, seq<Unit>)>
    requires i == 0 || i < |s|
    decreases i
  {
    if i == 0 then Ok((s, draws))
    else if draws == [] then Fail(DrawsExhausted)
    else ShuffleSteps(Swap(s, i, Below(draws[0], i + 1)), i - 1, draws[1..])
  }

  /** The shuffle loop with what it promises: it rearranges its input, one
      draw per step. */
  function ShuffleDown<T>(s: seq<T>, i: nat, draws: seq<Unit>): (r: Result<(seq<T>, seq<Unit>)>)
    requires i == 0 || i < |s|
    ensures r.Ok? <==> i <= |draws|
    ensures r.Ok? ==> |r.value.0| == |s| && multiset(r.value.0) == multiset(s)
    ensures r.Ok? ==> r.value.1 == draws[i..]
    ensures r.Ok? && Distinct(s) ==> Distinct(r.value.0)
  {
    ShuffleStepsPermutes(s, i, draws);
    ShuffleSteps(s, i, draws)
  }

  lemma {:induction false} ShuffleStepsPermutes<T>(s: seq<T>, i: nat, draws: seq<Unit>)
    requires i == 0 || i < |s|
    ensures var r := ShuffleSteps(s, i, draws);
      && (r.Ok? <==> i <= |draws|)
      && (r.Ok? ==> |r.value.0| == |s| && multiset(r.value.0) == multiset(s))
      && (r.Ok? ==> r.value.1 == draws[i..])
      && (r.Ok? && Distinct(s) ==> Distinct(r.value.0))
    decreases i
  {
    if i > 0 && draws != [] {
      var j := Below(draws[0], i + 1);
      SwapPermutes(s, i, j);
      ShuffleStepsPermutes(Swap(s, i, j), i - 1, draws[1..]);
    }
  }

  /** The only way a shuffle fails is by running out of draws. */
  lemma {:induction false} ShuffleDownFailure<T>(s: seq<T>, i: nat, draws: seq<Unit>)
    requires i == 0 || i < |s|
    ensures ShuffleDown(s, i, draws).Fail? ==> ShuffleDown(s, i, draws) == Fail(DrawsExhausted)
    decreases i
  {
    if i > 0 && draws != [] {
      ShuffleDownFailure(Swap(s, i, Below(draws[0], i + 1)), i - 1, draws[1..]);
    }
  }

  function ShuffleDraws(n: nat): nat { if n == 0 then 0 else n - 1 }

  /** `np.random.shuffle` of a whole sequence: one draw per position but the first. */
  function Shuffle<T>(s: seq<T>, draws: seq<Unit>): (r: Result<(seq<T>, seq<Unit>)>)
    ensures r.Ok? <==> ShuffleDraws(|s|) <= |draws|
    ensures r.Ok? ==> |r.value.0| == |s| && multiset(r.value.0) == multiset(s)
    ensures r.Ok? ==> r.value.1 == draws[ShuffleDraws(|s|)..]
    ensures r.Ok? && Distinct(s) ==> Distinct(r.value.0)
  {
    ShuffleDown(s, ShuffleDraws(|s|), draws)
  }

  /** `np.arange(n)`. */
  function Range(n: nat): (r: seq<nat>)
    ensures |r| == n && forall k :: 0 <= k < n ==> r[k] == k
  {
    seq(n, k => k)
  }

  lemma RangeDistinct(n: nat)
    ensures Distinct(Range(n))
  {
  }

  /** A rearrangement of `0..n-1` holds only indices below `n`. */
  lemma PermutedRangeBelow(p: seq<nat>, n: nat)
    requires multiset(p) == multiset(Range(n))
    ensures IndicesBelow(p, n)
  {
    forall k | 0 <= k < |p| ensures p[k] < n {
      assert p[k] in multiset(p);
      assert p[k] in Range(n);
    }
  }

  /** numpy fancy indexing `xs[idx]`. */
  function Gather<T>(xs: seq<T>, idx: seq<nat>): (r: seq<T>)
    requires forall k :: 0 <= k < |idx| ==> idx[k] < |xs|
    ensures |r| == |idx| && forall k :: 0 <= k < |idx| ==> r[k] == xs[idx[k]]
  {
    seq(|idx|, k requires 0 <= k < |idx| => xs[idx[k]])
  }

  predicate IndicesBelow(idx: seq<nat>, n: nat) {
    forall k :: 0 <= k < |idx| ==> idx[k] < n
  }

  lemma GatherSwap<T>(xs: seq<T>, idx: seq<nat>, i: nat, j: nat)
    requires IndicesBelow(idx, |xs|) && i < |idx| && j < |idx|
    ensures IndicesBelow(Swap(idx, i, j), |xs|)
    ensures Gather(xs, Swap(idx, i, j)) == Swap(Gather(xs, idx), i, j)
  {
  }

  /** Shuffling indices and then gathering is shuffling the items with the
      same draws. */
  lemma GatherShuffleDown<T>(xs: seq<T>, idx: seq<nat>, i: nat, draws: seq<Unit>)
    requires IndicesBelow(idx, |xs|)
    requires i == 0 || i < |idx|
    requires i <= |draws|
    ensures ShuffleDown(idx, i, draws).Ok? && ShuffleDown(Gather(xs, idx), i, draws).Ok?
    ensures IndicesBelow(ShuffleDown(idx, i, draws).value.0, |xs|)
    ensures Gather(xs, ShuffleDown(idx, i, draws).value.0) == ShuffleDown(Gather(xs, idx), i, draws).value.0
  {
    GatherShuffleSteps(xs, idx, i, draws);
  }

  lemma {:induction false} GatherShuffleSteps<T>(xs: seq<T>, idx: seq<nat>, i: nat, draws: seq<Unit>)
    requires IndicesBelow(idx, |xs|)
    requires i == 0 || i < |idx|
    requires i <= |draws|
    ensures ShuffleSteps(idx, i, draws).Ok? && ShuffleSteps(Gather(xs, idx), i, draws).Ok?
    ensures IndicesBelow(ShuffleSteps(idx, i, draws).value.0, |xs|)
    ensures Gather(xs, ShuffleSteps(idx, i, draws).value.0) == ShuffleSteps(Gather(xs, idx), i, draws).value.0
    decreases i
  {
    if i > 0 {
      var j := Below(draws[0], i + 1);
      GatherSwap(xs, idx, i, j);
      GatherShuffleSteps(xs, Swap(idx, i, j), i - 1, draws[1..]);
    }
  }
}
