# Subset-sum reconciliation with a tolerance, in Dafny

This project models the algorithmic core of a small reconciliation web app
(`app.py`). Given a list of line-item amounts in cents, some of them negative
(reversals, credits), a target amount and a tolerance, it looks for a set of
items whose total is as close as possible to the target inside
`[target - tol, target + tol]`. On a tie it prefers a total not above the
target. The answer is that total together with the ascending positions of the
items. The project also models the rendering of cents as Brazilian money text
(`-1.234,56`).

Two modules, one per piece of `app.py`, share a small `Basics` module
(`basics.dfy`) that holds `Option` and `Abs`:

- `SubsetSum` (`subset_sum.dfy`) models `subset_sum_with_tolerance` in the
  imperative form the source has. Two integer arrays `dp` and `prev` hold
  sums shifted by `offset = -(sum of negatives)`. `dp` keeps the source's
  sentinels: -1 for a cell not reached and -2 for the empty sum. The module
  has the per-item sweeps (downward for a non-negative amount, upward for a
  negative one), the ascending scan of the window with the key
  `(|s - target|, 0 if s <= target else 1)`, and the walk back along `prev`
  followed by a reversal. Each phase is a method proved against these
  reference definitions:
  - `Reachable(values, k, s)`: `s` is the sum of a subset of the first `k`
    items, each used at most once. `ReachableIffSubset` shows it means
    "some ascending list of positions sums to `s`".
  - `Preferred(a, s, target)`: `a` is no farther from the target than `s`,
    and on equal distance `a` is `s` or lies at or below the target while
    `s` lies above it.
  - `Lower`/`Upper`: the tolerance window, with a negative tolerance taken
    as 0, cut down to `[sum of negatives, sum of positives]`.
  - `FirstItem(values, k, s)` and `Picked(values, s)`: the item whose pass
    first reaches a sum, and the positions collected by walking back from
    a sum along first items. The table never overwrites a reached cell, so
    each cell records its sum's first item, and the walk returns exactly
    `Picked(values, best)`.
- `MoneyFormat` (`money_format.dfy`) models `format_centavos` as functions.
  Grouping the whole part by threes is a recursive function (`Grouped`).
  `ParseCentavos` reads an optional `-`, a well-grouped whole part with no
  leading zero (just `0` when it is zero), `,` and two digits. It refuses a
  `-` only when the whole amount is zero (`-0,00`); `-0,05` is read as -5
  cents. It exists only to state the round trip: formatting loses
  nothing.

Behaviour kept from the code on purpose:

- The result is `([], 0)` when the input is empty or when the window misses
  `[sum of negatives, sum of positives]`. It is also `([], 0)` when no sum in
  the window is reachable.
- When the best sum in the window is 0, the walk back starts at the base cell
  and collects nothing, so the result is again `([], 0)`. This holds even if a
  non-empty subset also sums to 0, or if another reachable sum lies in the
  window. `SubsetSumWithTolerance` states this as
  `indices == [] <==> best == 0`. The caller (`app.py:200`) reads any empty
  list as "no combination".
- The code imposes no ceiling on the table width or on the running time
  (the tables are sized `width + 1` unconditionally), so the model has none.
- The tolerance is clamped to be non-negative inside the function itself
  (`max(0, int(tolerance))`), not by its caller; the model does the same.

## Model

| member | source | states |
|---|---|---|
| SubsetSum.SubsetSumWithTolerance | app.py:97-166 | For an empty list, or a window that misses [sum of negatives, sum of positives], the result is ([], 0). The positions are strictly ascending and valid, and the amounts at them add up to the returned sum. The list is empty exactly when the sum is 0. A non-zero sum lies in the window. For every reachable sum s in the window, the returned sum is also in the window, is reachable, and is preferred to s: it is no farther from the target, and on a tie it is s or lies at or below the target while s lies above. For a non-zero sum the positions are exactly Picked(values, best), the subset the walk back along first items yields. |
| SubsetSum.BuildTable | app.py:117-140 | Allocates fresh tables of width+1 cells and runs each item's pass in input order. Afterwards a cell is marked exactly when its shifted value is a subset sum of all items, the base cell holds -2, and every reached cell's item/predecessor chain is intact. Every reached cell other than the base records the first item whose pass reached it: its sum is reachable with the items up to and including that one, and not with the earlier ones. A cell never written, and the base, keep prev -1. |
| SubsetSum.Sweep | app.py:124-140 | One item's pass takes the table from "subset sums of the first k items" to "of the first k+1 items" and keeps the chains intact. A cell that was already reached keeps its dp and prev values. A newly reached cell records item k, with the cell one amount below as its predecessor. A cell left unreached keeps its prev. So every reached cell still records its first item. |
| SubsetSum.SweepDown | app.py:125-132 | The pass of a non-negative amount, from the top cell down. It has the same contract as Sweep. |
| SubsetSum.SweepUp | app.py:133-140 | The pass of a negative amount, from the bottom cell up. It has the same contract as Sweep. |
| SubsetSum.Relax | app.py:128-132 | The step at cell i, next to the cells the pass has already done, on the side the pass moves to. Afterwards cell i is done as well: it is marked exactly when its sum is reachable with item k allowed. Only cell i may change, and only as a pass may change it: a reached cell keeps its item and predecessor, and an unreached one either stays as it was or records item k and the cell one amount below. The chains stay intact, and the base cell keeps -2. |
| SubsetSum.ChainsExtend | app.py:130-132 | Writing item k and a predecessor into an unreached cell keeps every chain intact. The predecessor must be the base cell or have been completed by an earlier item. |
| SubsetSum.SelectBest | app.py:143-151 | If the scan keeps a sum, that sum is in [lower, upper] and is reachable. If any reachable sum s lies in [lower, upper], the scan keeps one, and the kept sum is preferred to s. |
| SubsetSum.KeyOrder | app.py:148-149 | The key of s is not smaller than the key of a exactly when a is preferred to s. |
| SubsetSum.PreferredUnique | app.py:102 | Two sums, each preferred to the other, are equal. So the tie-break leaves exactly one best sum. |
| SubsetSum.Reconstruct | app.py:156-165 | Walking back from a reached cell and reversing gives strictly ascending, valid positions whose amounts add up to the chosen sum. The list is empty exactly when that sum is 0. The list is exactly Picked(values, best). |
| SubsetSum.WalkStep | app.py:157-163 | At a reached cell other than the base, one step back follows Picked: the positions for the cell's sum are those for its predecessor's sum, followed by the cell's item. |
| SubsetSum.PassFirstItems | app.py:124-140 | After a full pass, every reached cell still records the first item that reached its sum. |
| SubsetSum.FirstItem | app.py:128-132 | For a non-zero reachable sum, returns the item d such that the sum is reachable from the first d + 1 items but not from the first d. |
| SubsetSum.FirstItemUnique | app.py:128-132 | Only one item satisfies that description, so a cell's record is determined by its sum. |
| SubsetSum.Picked | app.py:156-165 | The positions are strictly ascending and valid, and they add up to s. The list is empty exactly when s is 0. |
| SubsetSum.PickedEarliest | app.py:124-165 | Among all ascending lists of positions adding up to a non-zero s, the one the walk back yields has the earliest possible last position. |
| SubsetSum.Reverse | app.py:165 | The result has the same length, and element p is element len-1-p of the input. |
| SubsetSum.NegSum | app.py:109 | `min_sum`, the sum of the negative amounts. It is at most 0, and by ReachableBounds no subset sum lies below it. |
| SubsetSum.PosSum | app.py:110 | `max_sum`, the sum of the positive amounts. It is at least 0, and by ReachableBounds no subset sum lies above it. |
| SubsetSum.NegSumZero | app.py:109 | `min_sum` is 0 exactly when no amount is negative. |
| SubsetSum.PosSumZero | app.py:110 | `max_sum` is 0 exactly when no amount is positive. |
| SubsetSum.Lower | app.py:112 | `lower`, with the tolerance clamped to be non-negative as at app.py:105. It is at least `min_sum` and at least target minus the tolerance. |
| SubsetSum.Upper | app.py:113 | `upper`, with the clamped tolerance. It is at most `max_sum` and at most target plus the tolerance. |
| SubsetSum.WindowEnds | app.py:112-113 | Each end of the window equals one of its two bounds, so it is the tighter of them. |
| SubsetSum.InWindow | app.py:112-113 | Cutting the window down to [min_sum, max_sum] loses no subset sum: a reachable sum lies in [lower, upper] exactly when it is within the clamped tolerance of the target. |
| SubsetSum.Key | app.py:148 | The source's key tuple. Its first part is non-negative. Its second part is 0 or 1, and 0 exactly when s is at most the target. The key is (0, 0) exactly when s is the target. KeyOrder gives its meaning. |
| SubsetSum.KeyLess | app.py:149 | Python's lexicographic `<` on two-element tuples. It is a strict total order: a smaller key differs and has a first part no larger, and of two different keys that are not smaller, the other one is. |
| SubsetSum.ReachableBounds | app.py:109-121 | Every subset sum lies in [sum of negatives, sum of positives]. So the shifted table of width max_sum - min_sum + 1 holds every sum. |
| SubsetSum.SubsetIsReachable | app.py:124-140 | Every strictly ascending list of positions below k gives a sum reachable with the first k items. |
| SubsetSum.Witness | app.py:124-140 | For every reachable sum, returns a strictly ascending list of valid positions whose amounts add up to it. |
| SubsetSum.ReachableIffSubset | app.py:124-140 | A sum is reachable exactly when some strictly ascending list of valid positions adds up to it. Each item counts at most once. |
| MoneyFormat.FormatCentavos | app.py:83-90 | The text starts with '-' exactly when the amount is negative. It ends with ',' and two digits whose value is abs(c) % 100. The part in between is well grouped, and its digits (dots removed) are the decimal of abs(c) // 100 with no leading zero. When abs(c) // 100 is 0 it is exactly "0". |
| MoneyFormat.Grouped | app.py:89 | The text is well grouped: a '.' at exactly every fourth place from the right, digits elsewhere, never a leading '.'. Its digits (dots removed) denote n, with no leading zero. For n = 0 it is exactly "0". |
| MoneyFormat.Decimal | app.py:89 | At least one digit, only digits, denotes n, and starts with '0' only for n = 0. For n = 0 it is exactly "0". |
| MoneyFormat.Pad2 | app.py:90 | Exactly two digits that denote m (the `02d` format). |
| MoneyFormat.Pad3 | app.py:89 | Exactly three digits that denote m: one group after a separator. |
| MoneyFormat.ParseFormatRoundTrip | app.py:83-90 | Reading back the formatted text gives the original number of cents. |
| MoneyFormat.FormatInjective | app.py:83-90 | Distinct amounts are formatted as distinct texts. |

## Left out

- The Flask route `index` and `app.run` (app.py:173-232) are left out. They handle HTTP form fields, templates and JSON or plain-text responses: I/O around the single call to the solver.
- `parse_number_br_or_en` (app.py:12-53) is left out. It finishes with `float(...)` and `round(valor * 100)`, which is floating-point arithmetic. `ParseCentavos` is not a model of it. It only reads back the exact text `format_centavos` writes.
- `parse_linhas_para_centavos` (app.py:56-80) is left out. It splits lines with regular expressions and feeds them to the float parser above.
- In-place reversal: the Python list `indices` is reversed in place (app.py:165). The model builds the list as a sequence and reverses it with the function `Reverse`. No aliasing of that list is observable.
- The defensive `break`: the source breaks out of the walk when it meets a negative item index (app.py:161-162). The model keeps that branch, but its invariant shows the branch can never be taken.
- Python's `{n:,}` grouping is modelled only for the non-negative values `format_centavos` passes to it.
