/**
 * The 0/1 subset-sum search with a tolerance window (subset_sum_with_tolerance
 * in app.py). Amounts are signed integers in cents. Every sum is stored
 * shifted by `offset` = -(sum of the negative amounts) in two tables:
 * `dp[i]` is the item that completed the sum `i - offset` (-1: not reached,
 * -2: the empty sum) and `prev[i]` is the cell it was reached from.
 */
module SubsetSum {

  import opened Basics

  function Max(a: int, b: int): int { if a < b then b else a }
  function Min(a: int, b: int): int { if a < b then a else b }

  // ---------------------------------------------------------------------
  // The reference definitions: subsets, their sums and the window
  // ---------------------------------------------------------------------

  /** Sum of the negative amounts: no subset sums to less. */
  function NegSum(values: seq<int>): (r: int)
    ensures r <= 0
  {
    if |values| == 0 then 0
    else NegSum(values[..|values| - 1]) + Min(0, values[|values| - 1])
  }

  /** Sum of the positive amounts: no subset sums to more. */
  function PosSum(values: seq<int>): (r: int)
    ensures r >= 0
  {
    if |values| == 0 then 0
    else PosSum(values[..|values| - 1]) + Max(0, values[|values| - 1])
  }

  /** NegSum is 0 exactly when no amount is negative. */
  lemma {:induction false} NegSumZero(values: seq<int>)
    ensures NegSum(values) == 0 <==> forall i :: 0 <= i < |values| ==> values[i] >= 0
  {
    if |values| > 0 {
      var front := values[..|values| - 1];
      NegSumZero(front);
      assert forall i :: 0 <= i < |front| ==> front[i] == values[i];
    }
  }

  /** PosSum is 0 exactly when no amount is positive. */
  lemma {:induction false} PosSumZero(values: seq<int>)
    ensures PosSum(values) == 0 <==> forall i :: 0 <= i < |values| ==> values[i] <= 0
  {
    if |values| > 0 {
      var front := values[..|values| - 1];
      PosSumZero(front);
      assert forall i :: 0 <= i < |front| ==> front[i] == values[i];
    }
  }

  /** Lowest admissible sum: the tolerance window, a negative tolerance
      counting as 0, cut down to what a subset can reach. */
  function Lower(values: seq<int>, target: int, tolerance: int): (r: int)
    ensures NegSum(values) <= r && target - Max(0, tolerance) <= r
  {
    Max(NegSum(values), target - Max(0, tolerance))
  }

  /** Highest admissible sum. */
  function Upper(values: seq<int>, target: int, tolerance: int): (r: int)
    ensures r <= PosSum(values) && r <= target + Max(0, tolerance)
  {
    Min(PosSum(values), target + Max(0, tolerance))
  }

  /** Each end of the window is one of its two bounds, so it is the tighter
      of them. */
  lemma WindowEnds(values: seq<int>, target: int, tolerance: int)
    ensures Lower(values, target, tolerance) == NegSum(values) ||
            Lower(values, target, tolerance) == target - Max(0, tolerance)
    ensures Upper(values, target, tolerance) == PosSum(values) ||
            Upper(values, target, tolerance) == target + Max(0, tolerance)
  {
  }

  /** `s` is the sum of some subset of `values[..k]`, each position used at
      most once. */
  predicate Reachable(values: seq<int>, k: nat, s: int)
    requires k <= |values|
    decreases k
  {
    if k == 0 then s == 0
    else Reachable(values, k - 1, s) || Reachable(values, k - 1, s - values[k - 1])
  }

  predicate InRange(idx: seq<int>, n: int)
  {
    forall p :: 0 <= p < |idx| ==> 0 <= idx[p] < n
  }

  predicate StrictlyIncreasing(idx: seq<int>)
  {
    forall p, q :: 0 <= p < q < |idx| ==> idx[p] < idx[q]
  }

  /** The sum of the amounts at positions `idx`. */
  function SumAt(values: seq<int>, idx: seq<int>): int
    requires InRange(idx, |values|)
  {
    if |idx| == 0 then 0 else values[idx[0]] + SumAt(values, idx[1..])
  }

  lemma {:induction false} SumAtConcat(values: seq<int>, a: seq<int>, b: seq<int>)
    requires InRange(a, |values|) && InRange(b, |values|)
    ensures InRange(a + b, |values|)
    ensures SumAt(values, a + b) == SumAt(values, a) + SumAt(values, b)
  {
    if |a| > 0 {
      assert (a + b)[1..] == a[1..] + b;
      SumAtConcat(values, a[1..], b);
    } else {
      assert a + b == b;
    }
  }

  /** The positions of `s` in the opposite order. */
  function Reverse(s: seq<int>): (r: seq<int>)
    ensures |r| == |s|
    ensures forall p :: 0 <= p < |s| ==> r[p] == s[|s| - 1 - p]
  {
    if |s| == 0 then [] else Reverse(s[1..]) + [s[0]]
  }

  /** Every ascending choice of positions below `k` gives a reachable sum. */
  lemma {:induction false} SubsetIsReachable(values: seq<int>, k: nat, idx: seq<int>)
    requires k <= |values| && StrictlyIncreasing(idx) && InRange(idx, k)
    ensures InRange(idx, |values|) && Reachable(values, k, SumAt(values, idx))
    decreases k
  {
    if k == 0 {
      assert idx == [];
    } else if |idx| > 0 && idx[|idx| - 1] == k - 1 {
      var rest := idx[..|idx| - 1];
      assert idx == rest + [k - 1];
      SumAtConcat(values, rest, [k - 1]);
      SubsetIsReachable(values, k - 1, rest);
    } else {
      assert InRange(idx, k - 1) by {
        forall p | 0 <= p < |idx| ensures idx[p] < k - 1 {
          assert idx[p] <= idx[|idx| - 1];
        }
      }
      SubsetIsReachable(values, k - 1, idx);
    }
  }

  /** Ascending positions below `k` whose amounts add up to a reachable `s`. */
  function Witness(values: seq<int>, k: nat, s: int): (idx: seq<int>)
    requires k <= |values| && Reachable(values, k, s)
    ensures StrictlyIncreasing(idx) && InRange(idx, k) && InRange(idx, |values|)
    ensures SumAt(values, idx) == s
    decreases k
  {
    if k == 0 then []
    else if Reachable(values, k - 1, s) then Witness(values, k - 1, s)
    else
      var w := Witness(values, k - 1, s - values[k - 1]);
      SumAtConcat(values, w, [k - 1]);
      w + [k - 1]
  }

  /** Reachable is exactly "the sum of some set of positions". */
  lemma ReachableIffSubset(values: seq<int>, s: int)
    ensures Reachable(values, |values|, s) <==>
            exists idx :: StrictlyIncreasing(idx) && InRange(idx, |values|) && SumAt(values, idx) == s
  {
    if Reachable(values, |values|, s) {
      var w := Witness(values, |values|, s);
      assert StrictlyIncreasing(w) && InRange(w, |values|) && SumAt(values, w) == s;
    }
    if exists idx :: StrictlyIncreasing(idx) && InRange(idx, |values|) && SumAt(values, idx) == s {
      var idx :| StrictlyIncreasing(idx) && InRange(idx, |values|) && SumAt(values, idx) == s;
      SubsetIsReachable(values, |values|, idx);
    }
  }

  lemma {:induction false} PrefixReachableBounds(values: seq<int>, k: nat, s: int)
    requires k <= |values|
    ensures Reachable(values, k, s) ==> NegSum(values[..k]) <= s <= PosSum(values[..k])
    decreases k
  {
    if k > 0 {
      PrefixReachableBounds(values, k - 1, s);
      PrefixReachableBounds(values, k - 1, s - values[k - 1]);
      assert values[..k][..k - 1] == values[..k - 1];
    }
  }

  lemma {:induction false} PrefixSumsWithin(values: seq<int>, k: nat)
    requires k <= |values|
    ensures NegSum(values) <= NegSum(values[..k]) && PosSum(values[..k]) <= PosSum(values)
    decreases |values| - k
  {
    if k == |values| {
      assert values[..k] == values;
    } else {
      PrefixSumsWithin(values, k + 1);
      assert values[..k + 1][..k] == values[..k];
    }
  }

  /** Every subset sum lies in [sum of negatives, sum of positives], so the
      shifted table of width PosSum - NegSum holds all of them. */
  lemma ReachableBounds(values: seq<int>, k: nat, s: int)
    requires k <= |values|
    ensures Reachable(values, k, s) ==> NegSum(values) <= s <= PosSum(values)
  {
    PrefixReachableBounds(values, k, s);
    PrefixSumsWithin(values, k);
  }

  /** Cutting the tolerance window down to [NegSum, PosSum] loses no subset
      sum: a reachable sum lies in [Lower, Upper] exactly when it is within
      the (clamped) tolerance of the target. */
  lemma InWindow(values: seq<int>, target: int, tolerance: int, s: int)
    requires Reachable(values, |values|, s)
    ensures Lower(values, target, tolerance) <= s <= Upper(values, target, tolerance)
            <==> Abs(s - target) <= Max(0, tolerance)
  {
    ReachableBounds(values, |values|, s);
  }

  /** A sum reachable with the first `a` items stays reachable with more. */
  lemma {:induction false} ReachableMonotone(values: seq<int>, a: nat, b: nat, s: int)
    requires a <= b <= |values| && Reachable(values, a, s)
    ensures Reachable(values, b, s)
    decreases b - a
  {
    if a < b {
      ReachableMonotone(values, a + 1, b, s);
    }
  }

  // ---------------------------------------------------------------------
  // Which subset the walk back yields
  // ---------------------------------------------------------------------

  /** The item whose pass first reaches the non-zero sum `s`: the `d` with
      `s` reachable from the first `d + 1` items but not from the first `d`. */
  function FirstItem(values: seq<int>, k: nat, s: int): (d: nat)
    requires k <= |values| && Reachable(values, k, s) && s != 0
    ensures d < k && Reachable(values, d + 1, s) && !Reachable(values, d, s)
    decreases k
  {
    if Reachable(values, k - 1, s) then FirstItem(values, k - 1, s) else k - 1
  }

  /** Only one item is the first to reach a sum. */
  lemma FirstItemUnique(values: seq<int>, s: int, d: nat, e: nat)
    requires d < |values| && Reachable(values, d + 1, s) && !Reachable(values, d, s)
    requires e < |values| && Reachable(values, e + 1, s) && !Reachable(values, e, s)
    ensures d == e
  {
    if d < e {
      ReachableMonotone(values, d + 1, e, s);
    } else if e < d {
      ReachableMonotone(values, e + 1, d, s);
    }
  }

  /** How far the walk back from `s` may still go: 0 at the empty sum, one
      past the first item of `s` otherwise. */
  function Rank(values: seq<int>, s: int): nat
    requires Reachable(values, |values|, s)
  {
    if s == 0 then 0 else FirstItem(values, |values|, s) + 1
  }

  /** The sum that the first item of `s` was added to is reachable by
      earlier items only. */
  lemma FirstItemBefore(values: seq<int>, s: int)
    requires Reachable(values, |values|, s) && s != 0
    ensures var d := FirstItem(values, |values|, s);
            Reachable(values, |values|, s - values[d]) && Rank(values, s - values[d]) <= d
  {
    var d := FirstItem(values, |values|, s);
    var t := s - values[d];
    ReachableMonotone(values, d, |values|, t);
    if t != 0 {
      var e := FirstItem(values, |values|, t);
      if d <= e {
        ReachableMonotone(values, d, e, t);
      }
    }
  }

  /** The positions the walk back collects for a reachable `s`, ascending:
      those of the sum the first item of `s` was added to, then that item;
      none for the empty sum. */
  function Picked(values: seq<int>, s: int): (idx: seq<int>)
    requires Reachable(values, |values|, s)
    ensures StrictlyIncreasing(idx) && InRange(idx, Rank(values, s)) && InRange(idx, |values|)
    ensures SumAt(values, idx) == s
    ensures idx == [] <==> s == 0
    decreases Rank(values, s)
  {
    if s == 0 then []
    else
      var d := FirstItem(values, |values|, s);
      FirstItemBefore(values, s);
      var rest := Picked(values, s - values[d]);
      SumAtConcat(values, rest, [d]);
      rest + [d]
  }

  /** `Picked` of a non-zero sum ends with its first item. */
  lemma PickedStep(values: seq<int>, s: int)
    requires Reachable(values, |values|, s) && s != 0
    ensures var d := FirstItem(values, |values|, s);
            Reachable(values, |values|, s - values[d]) &&
            Picked(values, s) == Picked(values, s - values[d]) + [d]
  {
    FirstItemBefore(values, s);
  }

  /** Of all ascending position lists adding up to a non-zero `s`, the one
      the walk back yields ends earliest: first reached wins. */
  lemma PickedEarliest(values: seq<int>, s: int, idx: seq<int>)
    requires StrictlyIncreasing(idx) && InRange(idx, |values|) && SumAt(values, idx) == s && s != 0
    ensures Reachable(values, |values|, s) && |idx| > 0
    ensures var p := Picked(values, s); |p| > 0 && p[|p| - 1] <= idx[|idx| - 1]
  {
    assert |idx| > 0;
    var last := idx[|idx| - 1];
    assert InRange(idx, last + 1) by {
      forall p | 0 <= p < |idx| ensures idx[p] <= last {
        if p < |idx| - 1 {
          assert idx[p] < idx[|idx| - 1];
        }
      }
    }
    SubsetIsReachable(values, last + 1, idx);
    ReachableMonotone(values, last + 1, |values|, s);
    var d := FirstItem(values, |values|, s);
    PickedStep(values, s);
    if last + 1 <= d {
      ReachableMonotone(values, last + 1, d, s);
    }
  }

  // ---------------------------------------------------------------------
  // Selection key
  // ---------------------------------------------------------------------

  /** The key `(|s - target|, 0 if s <= target else 1)`. */
  function Key(s: int, target: int): (k: (int, int))
    ensures k.0 >= 0 && (k.1 == 0 || k.1 == 1)
    ensures k.1 == 0 <==> s <= target
    ensures k == (0, 0) <==> s == target
  {
    (Abs(s - target), if s <= target then 0 else 1)
  }

  /** Lexicographic `<` on keys, as on tuples. */
  predicate KeyLess(a: (int, int), b: (int, int)): (r: bool)
    ensures r ==> a != b && a.0 <= b.0
    ensures !r && a != b ==> b.0 < a.0 || (b.0 == a.0 && b.1 < a.1)
  {
    a.0 < b.0 || (a.0 == b.0 && a.1 < b.1)
  }

  /** `a` is at least as good an answer as `s`: no farther from the target,
      and on equal distance either the same sum or the one not above it. */
  predicate Preferred(a: int, s: int, target: int)
  {
    Abs(a - target) <= Abs(s - target) &&
    (Abs(a - target) == Abs(s - target) && a != s ==> a <= target < s)
  }

  lemma KeyOrder(a: int, s: int, target: int)
    ensures !KeyLess(Key(s, target), Key(a, target)) <==> Preferred(a, s, target)
  {
  }

  /** Two sums each preferred to the other are equal: the best sum in the
      window is unique, so the scan order cannot change the answer. */
  lemma PreferredUnique(a: int, b: int, target: int)
    requires Preferred(a, b, target) && Preferred(b, a, target)
    ensures a == b
  {
  }
  // ---------------------------------------------------------------------
  // The table
  // ---------------------------------------------------------------------

  /** Cells `lo` to `hi - 1` of `dp` are marked exactly when their sum is
      reachable with the first `k` items. */
  ghost predicate MarkedExactly(dp: seq<int>, values: seq<int>, k: nat, offset: int, lo: int, hi: int)
    requires k <= |values|
  {
    0 <= lo <= hi <= |dp| &&
    forall c :: lo <= c < hi ==> (dp[c] != -1 <==> Reachable(values, k, c - offset))
  }

  /** The cells of `dp` marked reached are exactly the subset sums of
      `values[..k]`; the base cell holds -2. */
  ghost predicate Marks(dp: array<int>, values: seq<int>, k: nat, offset: int)
    reads dp
    requires k <= |values|
  {
    offset == -NegSum(values) && dp.Length == PosSum(values) + offset + 1 &&
    dp[offset] == -2 &&
    forall c :: 0 <= c < dp.Length ==> (dp[c] != -1 <==> Reachable(values, k, c - offset))
  }

  /** Every reached cell other than the base records an item below `k`, a
      predecessor cell one amount away, and that predecessor is the base or
      was completed by an earlier item. Stated on the contents of the two
      tables. */
  ghost predicate Chains(dp: seq<int>, prev: seq<int>, values: seq<int>, k: nat, offset: int)
  {
    |dp| == |prev| && 0 <= offset < |dp| && k <= |values| &&
    forall c :: 0 <= c < |dp| && c != offset && dp[c] != -1 ==>
      0 <= dp[c] < k && 0 <= prev[c] < |dp| && c - prev[c] == values[dp[c]] &&
      (dp[prev[c]] == -2 || 0 <= dp[prev[c]] < dp[c])
  }

  /** Every reached cell other than the base records the item whose pass
      reached it first; a cell never written, and the base, keep prev -1. */
  ghost predicate FirstItems(dp: seq<int>, prev: seq<int>, values: seq<int>, offset: int)
  {
    |dp| == |prev| &&
    forall c :: 0 <= c < |dp| ==>
      (c != offset && dp[c] != -1 ==>
         0 <= dp[c] < |values| && Reachable(values, dp[c] + 1, c - offset) && !Reachable(values, dp[c], c - offset)) &&
      (c == offset || dp[c] == -1 ==> prev[c] == -1)
  }

  /** What the pass of item `k` may do to each cell, from the tables
      `dp0`/`prev0` to `dp`/`prev`: a reached cell keeps its item and
      predecessor; an unreached one either stays unreached with its
      predecessor, or records item `k` and the cell one amount below. */
  ghost predicate PassKeeps(dp0: seq<int>, prev0: seq<int>, dp: seq<int>, prev: seq<int>, values: seq<int>, k: nat)
    requires k < |values|
  {
    |dp0| == |prev0| == |dp| == |prev| &&
    forall c :: 0 <= c < |dp| ==>
      if dp0[c] != -1 then dp[c] == dp0[c] && prev[c] == prev0[c]
      else if dp[c] != -1 then dp[c] == k && prev[c] == c - values[k]
      else prev[c] == prev0[c]
  }

  /** Part way through the pass of item `k` that started from `dp0`/`prev0`:
      the cells `lo` to `hi - 1` are done (marked exactly for the first
      `k + 1` items), every other cell is as the pass found it, each cell
      changed only as a pass may change it, and the chains are intact. */
  ghost predicate PassState(dp0: seq<int>, prev0: seq<int>, dp: seq<int>, prev: seq<int>,
                            values: seq<int>, k: nat, offset: int, lo: int, hi: int)
    requires k < |values|
  {
    MarkedExactly(dp, values, k + 1, offset, lo, hi) &&
    PassKeeps(dp0, prev0, dp, prev, values, k) &&
    (forall c :: 0 <= c < lo || hi <= c < |dp| ==> dp[c] == dp0[c]) &&
    Chains(dp, prev, values, k + 1, offset) && dp[offset] == -2
  }

  /** Recording item `k` in an unreached cell `i`, with a predecessor `j`
      that is the base or was completed by an earlier item, keeps the chains. */
  lemma ChainsExtend(dp: seq<int>, prev: seq<int>, values: seq<int>, k: nat, offset: int, i: int, j: int)
    requires Chains(dp, prev, values, k + 1, offset)
    requires 0 <= i < |dp| && i != offset && dp[i] == -1
    requires 0 <= j < |dp| && (dp[j] == -2 || 0 <= dp[j] < k) && i - j == values[k]
    ensures Chains(dp[i := k], prev[i := j], values, k + 1, offset)
  {
    var dp', prev' := dp[i := k], prev[i := j];
    forall c | 0 <= c < |dp'| && c != offset && dp'[c] != -1
      ensures 0 <= dp'[c] < k + 1 && 0 <= prev'[c] < |dp'| && c - prev'[c] == values[dp'[c]]
      ensures dp'[prev'[c]] == -2 || 0 <= dp'[prev'[c]] < dp'[c]
    {
      if c != i {
        assert prev[c] != i;
      }
    }
  }

  /** Recording item `k` and the cell one amount below in an unreached cell
      is a change a pass may make. */
  lemma PassKeepsWrite(dp0: seq<int>, prev0: seq<int>, dp: seq<int>, prev: seq<int>,
                       values: seq<int>, k: nat, i: int, j: int)
    requires k < |values| && PassKeeps(dp0, prev0, dp, prev, values, k)
    requires 0 <= i < |dp| && dp[i] == -1 && i - j == values[k]
    ensures PassKeeps(dp0, prev0, dp[i := k], prev[i := j], values, k)
  {
  }

  /** Settling the cell just below or just above a settled range, and
      changing nothing else, extends the range by that cell. */
  lemma MarkedExtend(dp0: seq<int>, dp: seq<int>, values: seq<int>, k: nat, offset: int, lo: int, hi: int, i: int)
    requires k <= |values| && MarkedExactly(dp0, values, k, offset, lo, hi)
    requires |dp| == |dp0| && 0 <= i < |dp| && (i == lo - 1 || i == hi) && dp == dp0[i := dp[i]]
    requires dp[i] != -1 <==> Reachable(values, k, i - offset)
    ensures MarkedExactly(dp, values, k, offset, if i < lo then i else lo, if i < lo then hi else hi + 1)
  {
    forall c | lo <= c < hi ensures dp[c] == dp0[c] { }
  }

  /** At the start of a pass nothing is done and nothing has changed. */
  lemma PassStart(dp: seq<int>, prev: seq<int>, values: seq<int>, k: nat, offset: int, lo: int)
    requires k < |values| && Chains(dp, prev, values, k, offset) && dp[offset] == -2 && 0 <= lo <= |dp|
    ensures PassState(dp, prev, dp, prev, values, k, offset, lo, lo)
  {
  }

  /** A finished pass takes the first reached items of the first `k` items
      to those of the first `k + 1`: a newly reached cell records `k`. */
  lemma PassFirstItems(dp0: seq<int>, prev0: seq<int>, dp: seq<int>, prev: seq<int>,
                       values: seq<int>, k: nat, offset: int)
    requires k < |values| && 0 <= offset < |dp0| && dp0[offset] == -2
    requires MarkedExactly(dp0, values, k, offset, 0, |dp0|) && FirstItems(dp0, prev0, values, offset)
    requires MarkedExactly(dp, values, k + 1, offset, 0, |dp|) && PassKeeps(dp0, prev0, dp, prev, values, k)
    ensures FirstItems(dp, prev, values, offset)
  {
    forall c | 0 <= c < |dp|
      ensures (c != offset && dp[c] != -1 ==>
                 0 <= dp[c] < |values| && Reachable(values, dp[c] + 1, c - offset) && !Reachable(values, dp[c], c - offset)) &&
              (c == offset || dp[c] == -1 ==> prev[c] == -1)
    {
    }
  }

  /** One pass of item `k` over the table: downward for a non-negative
      amount, upward for a negative one. A cell already reached keeps its
      item and predecessor; a newly reached cell records item `k` and the
      cell one amount below. */
  method Sweep(dp: array<int>, prev: array<int>, values: seq<int>, k: nat, offset: int)
    requires k < |values| && dp != prev
    requires Marks(dp, values, k, offset) && Chains(dp[..], prev[..], values, k, offset)
    requires FirstItems(dp[..], prev[..], values, offset)
    modifies dp, prev
    ensures Marks(dp, values, k + 1, offset) && Chains(dp[..], prev[..], values, k + 1, offset)
    ensures FirstItems(dp[..], prev[..], values, offset)
    ensures PassKeeps(old(dp[..]), old(prev[..]), dp[..], prev[..], values, k)
  {
    if values[k] >= 0 {
      SweepDown(dp, prev, values, k, offset);
    } else {
      SweepUp(dp, prev, values, k, offset);
    }
  }

  /** The step of item `k` at cell `i`, next to the done range `lo..hi-1`
      on the side the pass moves to: an unreached cell whose partner
      `i - v` (outside the done range, so still as the pass found it) is
      reached gets item `k` and that partner as predecessor; nothing else
      changes. */
  method Relax(dp: array<int>, prev: array<int>, values: seq<int>, k: nat, offset: int, i: int,
               ghost dp0: seq<int>, ghost prev0: seq<int>, ghost lo: int, ghost hi: int)
    requires k < |values| && dp != prev
    requires offset == -NegSum(values) && |dp0| == PosSum(values) + offset + 1
    requires MarkedExactly(dp0, values, k, offset, 0, |dp0|) && Chains(dp0, prev0, values, k, offset)
    requires 0 <= i < dp.Length && if values[k] >= 0 then i == lo - 1 else i == hi
    requires PassState(dp0, prev0, dp[..], prev[..], values, k, offset, lo, hi)
    modifies dp, prev
    ensures dp[..] == old(dp[..])[i := dp[i]] && prev[..] == old(prev[..])[i := prev[i]]
    ensures PassState(dp0, prev0, dp[..], prev[..], values, k, offset,
                      if values[k] >= 0 then i else lo, if values[k] >= 0 then hi else hi + 1)
  {
    ghost var dp1, prev1 := dp[..], prev[..];
    var width := dp.Length - 1;
    var v := values[k];
    var j := i - v;
    ReachableBounds(values, k, j - offset);
    assert Reachable(values, k + 1, i - offset) <==>
           Reachable(values, k, i - offset) || Reachable(values, k, j - offset);
    assert dp[i] == dp0[i];
    if dp[i] == -1 && 0 <= j <= width && dp[j] != -1 {
      assert dp[j] == dp0[j];
      ChainsExtend(dp1, prev1, values, k, offset, i, j);
      PassKeepsWrite(dp0, prev0, dp1, prev1, values, k, i, j);
      dp[i] := k;
      prev[i] := j;
      assert dp[..] == dp1[i := k];
      assert prev[..] == prev1[i := j];
    } else {
      assert dp[..] == dp1[i := dp[i]];
    }
    MarkedExtend(dp1, dp[..], values, k + 1, offset, lo, hi, i);
  }

  /** The pass of a non-negative amount `v`: cells from the top down, so the
      cell `i - v <= i` read for cell `i` still holds the earlier items' state. */
  method SweepDown(dp: array<int>, prev: array<int>, values: seq<int>, k: nat, offset: int)
    requires k < |values| && dp != prev && values[k] >= 0
    requires Marks(dp, values, k, offset) && Chains(dp[..], prev[..], values, k, offset)
    requires FirstItems(dp[..], prev[..], values, offset)
    modifies dp, prev
    ensures Marks(dp, values, k + 1, offset) && Chains(dp[..], prev[..], values, k + 1, offset)
    ensures FirstItems(dp[..], prev[..], values, offset)
    ensures PassKeeps(old(dp[..]), old(prev[..]), dp[..], prev[..], values, k)
  {
    var width := dp.Length - 1;
    ghost var dp0, prev0 := dp[..], prev[..];
    assert MarkedExactly(dp0, values, k, offset, 0, |dp0|);
    PassStart(dp0, prev0, values, k, offset, width + 1);
    var i := width;
    while i >= 0
      invariant -1 <= i <= width
      invariant PassState(dp0, prev0, dp[..], prev[..], values, k, offset, i + 1, width + 1)
    {
      Relax(dp, prev, values, k, offset, i, dp0, prev0, i + 1, width + 1);
      i := i - 1;
    }
    PassFirstItems(dp0, prev0, dp[..], prev[..], values, k, offset);
  }

  /** The pass of a negative amount `v`: cells from the bottom up, so the
      cell `i - v > i` read for cell `i` still holds the earlier items' state. */
  method SweepUp(dp: array<int>, prev: array<int>, values: seq<int>, k: nat, offset: int)
    requires k < |values| && dp != prev && values[k] < 0
    requires Marks(dp, values, k, offset) && Chains(dp[..], prev[..], values, k, offset)
    requires FirstItems(dp[..], prev[..], values, offset)
    modifies dp, prev
    ensures Marks(dp, values, k + 1, offset) && Chains(dp[..], prev[..], values, k + 1, offset)
    ensures FirstItems(dp[..], prev[..], values, offset)
    ensures PassKeeps(old(dp[..]), old(prev[..]), dp[..], prev[..], values, k)
  {
    var width := dp.Length - 1;
    ghost var dp0, prev0 := dp[..], prev[..];
    assert MarkedExactly(dp0, values, k, offset, 0, |dp0|);
    PassStart(dp0, prev0, values, k, offset, 0);
    var i := 0;
    while i <= width
      invariant 0 <= i <= width + 1
      invariant PassState(dp0, prev0, dp[..], prev[..], values, k, offset, 0, i)
    {
      Relax(dp, prev, values, k, offset, i, dp0, prev0, 0, i);
      i := i + 1;
    }
    PassFirstItems(dp0, prev0, dp[..], prev[..], values, k, offset);
  }

  /** Allocates the shifted tables and runs every item's pass in input
      order. Afterwards the reached cells are exactly the subset sums, and
      each records the item whose pass reached it first. */
  method BuildTable(values: seq<int>, offset: int, width: int) returns (dp: array<int>, prev: array<int>)
    requires offset == -NegSum(values) && width == PosSum(values) - NegSum(values)
    ensures fresh(dp) && fresh(prev)
    ensures Marks(dp, values, |values|, offset) && Chains(dp[..], prev[..], values, |values|, offset)
    ensures FirstItems(dp[..], prev[..], values, offset)
  {
    dp := new int[width + 1](_ => -1);
    prev := new int[width + 1](_ => -1);
    dp[offset] := -2;
    for k := 0 to |values|
      invariant Marks(dp, values, k, offset) && Chains(dp[..], prev[..], values, k, offset)
      invariant FirstItems(dp[..], prev[..], values, offset)
    {
      Sweep(dp, prev, values, k, offset);
    }
  }

  /** Ascending scan of the window keeping the first sum of smallest key. */
  method SelectBest(dp: array<int>, values: seq<int>, offset: int, lower: int, upper: int, target: int)
    returns (best: Option<int>)
    requires Marks(dp, values, |values|, offset)
    ensures best.Some? ==> lower <= best.value <= upper && Reachable(values, |values|, best.value)
    ensures forall s :: lower <= s <= upper && Reachable(values, |values|, s) ==>
              best.Some? && Preferred(best.value, s, target)
  {
    var width := dp.Length - 1;
    var bestKey := (0, 0);
    best := None;
    var s := lower;
    while s <= upper
      invariant lower <= s && (lower <= upper ==> s <= upper + 1)
      invariant best.Some? ==> lower <= best.value < s && best.value <= upper && Reachable(values, |values|, best.value)
      invariant best.Some? ==> bestKey == Key(best.value, target)
      invariant forall t :: lower <= t < s && Reachable(values, |values|, t) ==>
                  best.Some? && !KeyLess(Key(t, target), bestKey)
    {
      var i := s + offset;
      ReachableBounds(values, |values|, s);
      if 0 <= i <= width && dp[i] != -1 {
        var key := Key(s, target);
        if best.None? || KeyLess(key, bestKey) {
          bestKey := key;
          best := Some(s);
        }
      }
      s := s + 1;
    }
    forall t | lower <= t <= upper && Reachable(values, |values|, t)
      ensures best.Some? && Preferred(best.value, t, target)
    {
      KeyOrder(best.value, t, target);
    }
  }

  /** Reversing a list with one more element at its end puts that element
      in front. */
  lemma {:induction false} ReverseAppend(s: seq<int>, x: int)
    ensures Reverse(s + [x]) == [x] + Reverse(s)
  {
    if |s| > 0 {
      assert (s + [x])[1..] == s[1..] + [x];
      ReverseAppend(s[1..], x);
    } else {
      assert s + [x] == [x];
    }
  }

  /** One step of the walk back from a reached cell `c` other than the base
      follows `Picked`: the cell holds the first item of its sum, and its
      predecessor the sum that item was added to. */
  lemma WalkStep(dp: seq<int>, prev: seq<int>, values: seq<int>, offset: int, c: int)
    requires MarkedExactly(dp, values, |values|, offset, 0, |dp|)
    requires Chains(dp, prev, values, |values|, offset) && FirstItems(dp, prev, values, offset)
    requires 0 <= c < |dp| && c != offset && dp[c] != -1
    ensures Reachable(values, |values|, c - offset) && Reachable(values, |values|, prev[c] - offset)
    ensures Picked(values, c - offset) == Picked(values, prev[c] - offset) + [dp[c]]
  {
    var s, d, p := c - offset, dp[c], prev[c];
    assert 0 <= d < |values| && Reachable(values, d + 1, s) && !Reachable(values, d, s);
    assert Reachable(values, |values|, s);
    FirstItemUnique(values, s, d, FirstItem(values, |values|, s));
    assert 0 <= p < |dp| && p - offset == s - values[d] && dp[p] != -1;
    assert Reachable(values, |values|, p - offset);
    PickedStep(values, s);
  }

  /** One step of the walk back keeps the positions still to collect plus
      those collected (reversed) equal to `Picked(values, best)`, and moves
      to a cell whose item is smaller or the base. */
  lemma WalkOn(table: seq<int>, links: seq<int>, values: seq<int>, offset: int, best: int,
               i: int, collected: seq<int>)
    requires MarkedExactly(table, values, |values|, offset, 0, |table|)
    requires Chains(table, links, values, |values|, offset) && FirstItems(table, links, values, offset)
    requires 0 <= i < |table| && i != offset && table[i] != -1
    requires Reachable(values, |values|, best) && Reachable(values, |values|, i - offset)
    requires Picked(values, best) == Picked(values, i - offset) + Reverse(collected)
    ensures 0 <= links[i] < |table| && (table[links[i]] == -2 || 0 <= table[links[i]] < table[i])
    ensures Reachable(values, |values|, links[i] - offset)
    ensures Picked(values, best) == Picked(values, links[i] - offset) + Reverse(collected + [table[i]])
  {
    WalkStep(table, links, values, offset, i);
    ReverseAppend(collected, table[i]);
    var rest := Picked(values, links[i] - offset);
    assert Picked(values, best) == rest + [table[i]] + Reverse(collected);
    assert rest + [table[i]] + Reverse(collected) == rest + Reverse(collected + [table[i]]);
  }

  /** Follows the predecessor chain from the cell of `best` back to the base
      cell, then reverses the collected items into input order. */
  method Reconstruct(dp: array<int>, prev: array<int>, values: seq<int>, offset: int, best: int)
    returns (indices: seq<int>)
    requires Marks(dp, values, |values|, offset) && Chains(dp[..], prev[..], values, |values|, offset)
    requires FirstItems(dp[..], prev[..], values, offset)
    requires 0 <= best + offset < dp.Length && dp[best + offset] != -1
    ensures StrictlyIncreasing(indices) && InRange(indices, |values|)
    ensures SumAt(values, indices) == best
    ensures indices == [] <==> best == 0
    ensures Reachable(values, |values|, best) && indices == Picked(values, best)
  {
    ghost var table, links := dp[..], prev[..];
    var collected: seq<int> := [];
    var i := best + offset;
    assert table[i] != -1;
    while i != offset
      invariant 0 <= i < |table| && table[i] != -1 && Reachable(values, |values|, i - offset)
      invariant Reachable(values, |values|, best) && Picked(values, best) == Picked(values, i - offset) + Reverse(collected)
      decreases table[i] + 2
    {
      var idx := dp[i];
      assert idx == table[i];
      if idx < 0 {
        assert false;
        break;
      }
      WalkOn(table, links, values, offset, best, i, collected);
      collected := collected + [idx];
      i := prev[i];
    }
    assert Picked(values, 0) == [];
    indices := Reverse(collected);
    assert indices == Picked(values, best);
  }

  /**
   * The whole search: the result is the sum closest to `target` within
   * `[target - tol, target + tol]` (tol = max(0, tolerance)) that some subset
   * of `values` reaches, preferring a sum not above the target on a tie,
   * with the ascending positions of one such subset; `([], 0)` when there is
   * none, when `values` is empty, and also when that best sum is 0.
   */
  method SubsetSumWithTolerance(values: seq<int>, target: int, tolerance: int)
    returns (indices: seq<int>, best: int)
    ensures |values| == 0 ==> indices == [] && best == 0
    ensures Lower(values, target, tolerance) > Upper(values, target, tolerance) ==> indices == [] && best == 0
    ensures StrictlyIncreasing(indices) && InRange(indices, |values|)
    ensures SumAt(values, indices) == best
    ensures indices == [] <==> best == 0
    ensures best != 0 ==> Lower(values, target, tolerance) <= best <= Upper(values, target, tolerance)
    ensures forall s :: Lower(values, target, tolerance) <= s <= Upper(values, target, tolerance) &&
                        Reachable(values, |values|, s) ==>
              Lower(values, target, tolerance) <= best <= Upper(values, target, tolerance) &&
              Reachable(values, |values|, best) && Preferred(best, s, target)
    ensures best != 0 ==> Reachable(values, |values|, best) && indices == Picked(values, best)
  {
    var tol := Max(0, tolerance);
    if |values| == 0 {
      return [], 0;
    }
    var minSum := NegSum(values);
    var maxSum := PosSum(values);
    var lower := Max(minSum, target - tol);
    var upper := Min(maxSum, target + tol);
    if lower > upper {
      return [], 0;
    }
    assert lower == Lower(values, target, tolerance) && upper == Upper(values, target, tolerance);
    var offset := -minSum;
    var width := maxSum - minSum;
    var dp, prev := BuildTable(values, offset, width);
    var found := SelectBest(dp, values, offset, lower, upper, target);
    if found.None? {
      return [], 0;
    }
    best := found.value;
    ReachableBounds(values, |values|, best);
    indices := Reconstruct(dp, prev, values, offset, best);
  }
}
