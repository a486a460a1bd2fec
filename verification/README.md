# PAYE and UIF net-pay calculator, modelled in Dafny

The repository computes South African take-home pay. It does this twice, in
Python (`Python/paye_calculator.py`) and in C#
(`CSharp/PAYE_Calculator/PAYE_Calculator/PayeCalculator.cs`). Both copies have
the same two operations:

- **Forward calculator (bruto to netto).** It annualises the monthly gross and
  walks a progressive bracket table. Each bracket takes the smaller of its width
  and the income still remaining, at its marginal rate. The walk stops at the
  first bracket that would take nothing. The yearly tax is divided by 12, and
  UIF is subtracted. UIF is one percent of gross, capped.
- **Inverse solver (netto to bruto).** It bisects gross income on
  `[target, 2 * target]` with the forward calculator until the interval is
  narrow enough. It then rounds the last midpoint: to whole rand in Python,
  to three decimals in C#.

Money is modelled as exact `real`. The top bracket's `np.inf` or
`decimal.MaxValue` upper limit becomes `upper == None`. The bracket table and
the UIF cap are parameters, and the shipped table and caps are constants.

Modules:

- `Brackets`: the bracket row, what one bracket takes from the remaining income, and the shipped 2023-2024 table.
- `Paye`: the shared forward calculation.
  - `Tax` is the walk as a recursive function.
  - `Allocate` is the income placed in each bracket.
  - `Uif` and `Netto` complete the calculation.
  - It also proves monotonicity and, for rates in [0, 0.45] and a non-negative cap, the bounds `0.54 * gross <= net <= gross` on non-negative gross.
- `Statutory`: an independent, order-free definition of bracket tax.
  - `Reference` is each bracket's rate applied to the part of the income between its threshold and upper limit.
  - On well-formed tables the walk is proved to equal it.
  - It also holds the closed form per bracket, which uses the C# `baseValue`.
- `Ordering`: the C# `OrderBy(threshold)` as an insertion sort. It is proved sorted and a permutation, and the identity on sorted input.
- `Rounding`: round-half-to-even to an integer and to thousandths, as `np.round` and `Math.Round(decimal, 3)` do.
- `Bisection`: the solver loop over any forward function `net`.
  - `Search` and `Run` define the loop recursively, step by step.
  - `Bisect` is the loop as written, proved to return what `Run` returns.
  - `BisectCorrected` keeps an exact hit.
- `Solver`: it connects `Bisection` to the net-pay calculator.
- `PythonCalculator` and `CSharpCalculator`: the two implementations.
  - They are imperative walks whose loop invariants tie them to `Tax`.
  - Each has the solver with its own tolerance and rounding, plus the class-level entry points with the shipped constants.
- `ExactHits`: concrete targets on which each solver returns 0.

The UIF cap is 177.12 in Python and 117.12 in C#, and each calculator module
binds its own. A yearly income of 360000 lies in the third bracket of the
shipped table (237100 to 370500), which `Statutory.SarsThirtyThousand` states.

## Model

| member | source | states |
|---|---|---|
| Brackets.Inside | Python/paye_calculator.py:35-36 | The income a bracket takes is at most the remaining income and fits the bracket's width. It is either all of the remaining income or exactly the full width. |
| Brackets.InsideMonotone | Python/paye_calculator.py:36 | More remaining income means a bracket takes no less and leaves no less. If the smaller income takes nothing but the larger takes something, the smaller was non-positive. |
| Brackets.SarsTableRates | Python/paye_calculator.py:4-13 | Every rate of the shipped table lies in [0, 0.45]. |
| Brackets.SarsTableShape | CSharp/PAYE_Calculator/PAYE_Calculator/PayeCalculator.cs:5-15 | The shipped table is contiguous and starts at threshold 0, every bounded bracket has positive width, and the rates lie in [0, 0.45]. |
| Paye.Tax | Python/paye_calculator.py:32-42 | The walk itself. Its meaning is given by `Statutory.WalkMatchesReference` (it equals the statutory per-bracket tax), `Paye.TaxIsLevyOfAllocation` (rate times income placed, summed) and `Paye.TaxMonotone`. |
| Paye.Netto | Python/paye_calculator.py:26-48 | Net is gross less a twelfth of the yearly tax less UIF. A non-positive gross pays no tax. `Paye.NettoBounds` and `Paye.NettoMonotone` give its bounds and monotonicity. |
| Paye.Allocate | Python/paye_calculator.py:32-42 | The amounts the walk places are all positive and each fits its bracket. Every bracket before the last one used is full. Their sum lies between 0 and the income. Non-positive income places nothing. The next bracket, if any, would take nothing. When the income is non-negative and some amount is placed, the amounts sum to the whole income unless the last bracket used is full. |
| Paye.TaxIsLevyOfAllocation | Python/paye_calculator.py:41 | The walk's tax equals the sum, over brackets, of the income placed in each times its rate. |
| Paye.SumAppend | Python/paye_calculator.py:42 | Placing one more amount raises the total placed by that amount. |
| Paye.Uif | Python/paye_calculator.py:45 | UIF is at most the cap and at most 1% of gross, and equals one of the two, so it is their minimum. |
| Paye.UifMonotone | CSharp/PAYE_Calculator/PAYE_Calculator/PayeCalculator.cs:52 | UIF never falls as gross rises, and rises by at most 1% of the increase. |
| Paye.NonPositiveIncomeUntaxed | Python/paye_calculator.py:36-39 | Non-positive yearly income breaks out at the first bracket and pays no tax. |
| Paye.ZeroGrossZeroNet | Python/paye_calculator.py:26-48 | With a non-negative cap, a gross of 0 nets 0. |
| Paye.NonPositiveGross | CSharp/PAYE_Calculator/PAYE_Calculator/PayeCalculator.cs:49-57 | A non-positive gross pays no tax, so its net is gross less UIF. With a non-negative cap that is 0.99 of gross. |
| Paye.TaxMonotone | Python/paye_calculator.py:32-44 | With rates in [0, 0.45], yearly tax never falls as income rises, and rises by at most 45% of the increase. |
| Paye.TaxTaken | Python/paye_calculator.py:41-42 | When the first bracket takes a positive amount, the tax is that amount times its rate plus the rest of the table's tax on what remains. |
| Paye.WalkStep | Python/paye_calculator.py:32-42 | The same unfolding at any position of an imperative walk. |
| Paye.WalkDone | Python/paye_calculator.py:38-39 | A walk that ran off the table, or reached a bracket taking nothing, has no tax left to add. |
| Paye.NettoMonotone | Python/paye_calculator.py:44-48 | For rates in [0, 0.45] and any cap, net never falls as gross rises. It keeps at least 54% and at most 100% of every increase. |
| Paye.NettoBounds | Python/paye_calculator.py:45-48 | For rates in [0, 0.45] and a non-negative cap and a non-negative gross, 0.54 * gross <= net <= gross. |
| Paye.SolverBracket | Python/paye_calculator.py:53-54 | For rates in [0, 0.45] and a non-negative cap and a non-negative target, net(target) <= target <= net(2 * target), so the solver's starting interval contains a solution. |
| Paye.FirstBracketOnly | Python/paye_calculator.py:36-41 | Income that fits in the first bracket is taxed at that bracket's rate alone. |
| Paye.TaxFreeBand | Python/paye_calculator.py:5 | If yearly gross fits in a zero-rate first bracket, net is gross less UIF. |
| Statutory.Portion | Python/paye_calculator.py:35-36 | A bracket's statutory portion is non-negative, and positive only above its threshold. |
| Statutory.ReferenceBelowTable | Python/paye_calculator.py:38-39 | Income at or below the first threshold of a well-formed table has no taxable portion. |
| Statutory.WalkMatchesReference | Python/paye_calculator.py:32-42 | On a well-formed table, the walk started from the income above the first threshold charges exactly the statutory tax, which is each rate times the income between the bracket's threshold and its upper limit. |
| Statutory.BaseValueAppend | CSharp/PAYE_Calculator/PAYE_Calculator/PayeCalculator.cs:46 | The full-width tax of a list of brackets grows by the full-width tax of each bracket appended. |
| Statutory.BaseValuePrefix | CSharp/PAYE_Calculator/PAYE_Calculator/PayeCalculator.cs:46 | Passing bracket k adds its full-width tax to the running base value. |
| Statutory.ThresholdsIncrease | CSharp/PAYE_Calculator/PAYE_Calculator/PayeCalculator.cs:36 | In a well-formed table the thresholds strictly increase. |
| Statutory.ReferenceInBracket | CSharp/PAYE_Calculator/PAYE_Calculator/PayeCalculator.cs:34-47 | Income inside bracket k owes the full-width tax of the brackets below it (the C# `baseValue`) plus bracket k's rate on the excess over its threshold. |
| Statutory.TaxInBracket | CSharp/PAYE_Calculator/PAYE_Calculator/PayeCalculator.cs:36-47 | The same closed form for the walk, on a well-formed table starting at 0. |
| Statutory.NettoInBracket | CSharp/PAYE_Calculator/PAYE_Calculator/PayeCalculator.cs:49-57 | When UIF is capped, net is gross less the closed-form yearly tax over 12, less the cap. |
| Statutory.SarsBaseValues | CSharp/PAYE_Calculator/PAYE_Calculator/PayeCalculator.cs:7-13 | On the shipped table the running base value is 0 after one bracket, 25443 after two and 234023 after six. |
| Statutory.SarsTaxFreeBand | Python/paye_calculator.py:5 | The shipped table charges nothing on yearly income up to 95750. |
| Statutory.SarsSecondBracket | Python/paye_calculator.py:6 | Between 95750 and 237100 a year, the shipped table charges 18% of the excess over 95750. |
| Statutory.SarsThirtyThousand | Python/paye_calculator.py:7 | A gross of 30000 a month is 360000 a year, inside the third bracket. The yearly tax is 57397, and with a cap up to 300 the net is 30000 - 57397/12 - cap. |
| Ordering.Insert | CSharp/PAYE_Calculator/PAYE_Calculator/PayeCalculator.cs:36 | Inserting into a sorted table keeps it sorted and adds exactly one row, which is either the new row or the old first row at the front. |
| Ordering.InsertPermutes | CSharp/PAYE_Calculator/PAYE_Calculator/PayeCalculator.cs:36 | Insertion adds the new row to the multiset of rows and changes nothing else. |
| Ordering.SortByThreshold | CSharp/PAYE_Calculator/PAYE_Calculator/PayeCalculator.cs:36 | The ordered table is sorted by threshold and has as many rows as the input. |
| Ordering.SortPermutes | CSharp/PAYE_Calculator/PAYE_Calculator/PayeCalculator.cs:36 | Ordering is a permutation: the multiset of rows is unchanged. |
| Ordering.SortedUnchanged | CSharp/PAYE_Calculator/PAYE_Calculator/PayeCalculator.cs:36 | A table already in threshold order is walked as given. |
| Ordering.SortKeepsRates | CSharp/PAYE_Calculator/PAYE_Calculator/PayeCalculator.cs:36 | Ordering keeps every rate in [0, 0.45]. |
| Ordering.SarsTableInOrder | CSharp/PAYE_Calculator/PAYE_Calculator/PayeCalculator.cs:5-15 | The shipped table is already in threshold order. |
| Ordering.SarsTableSorted | CSharp/PAYE_Calculator/PAYE_Calculator/PayeCalculator.cs:36 | Ordering the shipped table leaves it unchanged, so the C# walk over it is the Python walk. |
| Rounding.RoundHalfEven | Python/paye_calculator.py:70 | The result is within 0.5 of x, and on an exact tie it is even. |
| Rounding.RoundIsNearest | Python/paye_calculator.py:70 | No integer is closer to x than RoundHalfEven(x). |
| Rounding.RoundToThousandths | CSharp/PAYE_Calculator/PAYE_Calculator/PayeCalculator.cs:86 | The result is a multiple of 0.001 within 0.0005 of x. |
| Rounding.ThousandthsIsNearest | CSharp/PAYE_Calculator/PAYE_Calculator/PayeCalculator.cs:86 | No multiple of 0.001 is closer to x than RoundToThousandths(x). |
| RealOps.HalvingShrinks | Python/paye_calculator.py:57-58 | Halving an interval wider than the tolerance strictly lowers the number of tolerance units in it, so the loop terminates. |
| Bisection.TameBrackets | Python/paye_calculator.py:53-54 | For a forward function with the calculator's shape and a non-negative target, [target, 2 * target] brackets the target. |
| Bisection.NarrowIntervalIsClose | Python/paye_calculator.py:57-64 | Both ends of a bracketing interval at most eps wide net within eps of the target. |
| Bisection.ExitIsClose | Python/paye_calculator.py:57-68 | A loop exit without an exact hit leaves a candidate whose net is within eps of a non-negative target. |
| Bisection.FirstMidpoint | Python/paye_calculator.py:58 | The first midpoint lies between target and 2 * target. |
| Bisection.Search | Python/paye_calculator.py:57-68 | The loop from a given interval and candidate, one halving per step, stopping on an exact hit or a narrow interval. The candidate returned is either the one passed in or a point of the interval. |
| Bisection.Run | Python/paye_calculator.py:53-68 | The whole search from [target, 2 * target] with candidate 0 returns 0 or a point of the start interval. |
| Bisection.SearchStep | Python/paye_calculator.py:58-68 | On an interval wider than eps, a midpoint netting below the target continues on the upper half with the midpoint as candidate, one above continues on the lower half, and an exact hit stops with the old candidate. |
| Bisection.SearchDone | Python/paye_calculator.py:57 | On an interval at most eps wide the search stops at once, keeping its candidate, with no hit. |
| Bisection.StepShrinks | Python/paye_calculator.py:57-66 | Each halving lowers the number of eps units in the interval, so the search terminates. |
| Bisection.SearchSettles | Python/paye_calculator.py:53-68 | From any state the loop can reach, the search's outcome has the guarantees `Bisect` states. |
| Bisection.Bisect | Python/paye_calculator.py:51-68 | The loop returns exactly the candidate and hit flag of `Run`. A target within the tolerance of 0 skips the loop, so the candidate is 0 with no hit. Otherwise a candidate without a hit lies in the start interval. A hit on the first midpoint leaves the candidate at 0. With no hit, on a tame function and a non-negative target, the candidate's net is within eps of the target. |
| Bisection.BisectCorrected | Python/paye_calculator.py:57-68 | Beyond the tolerance the candidate lies in the start interval. A hit on the first midpoint returns that midpoint. On a tame function and a non-negative target, the candidate's net is always within eps of the target. |
| Solver.NettoIsTame | Python/paye_calculator.py:59-64 | Every table with rates in [0, 0.45] and a non-negative cap gives a forward function the bisection can invert. |
| Solver.SolverResult | Python/paye_calculator.py:57-68 | The bisection's closeness guarantee, restated for the net-pay calculator on tables with rates in [0, 0.45] and a non-negative cap. |
| Solver.RoundingCost | Python/paye_calculator.py:70 | Rounding the candidate by d moves its net by at most d. |
| PythonCalculator.WidthOrRemaining | Python/paye_calculator.py:35-36 | Python's min(width, remaining) is the income the bracket takes. |
| PythonCalculator.NettoAfterPayeAndUif | Python/paye_calculator.py:26-48 | The walk computes gross less a twelfth of the walk's tax less the capped UIF. The loop keeps the tax so far plus the tax still to come equal to the whole tax. It also keeps the amounts placed plus the income remaining equal to the yearly income, with each amount positive and within its bracket. With rates in [0, 0.45] and a non-negative cap and a non-negative gross, 0.54 * gross <= net <= gross. |
| PythonCalculator.BrutoForTargetNetto | Python/paye_calculator.py:51-70 | The result is the bisection `Run` on the walk, rounded half-to-even to an integer, and the hit flag is `Run`'s. So the result is a whole number. A target within 0.0001 of 0 gives 0. A hit on the first midpoint gives 0. Without a hit, for a non-negative target, rates in [0, 0.45] and a non-negative cap, the result's net is within 0.5001 of the target. |
| PythonCalculator.BrutoForTargetNettoCorrected | Python/paye_calculator.py:57-70 | The same, but for every non-negative target: the result is whole, and for rates in [0, 0.45] and a non-negative cap its net is within 0.5001 of the target. |
| PythonCalculator.GetNettoFromBruto | Python/paye_calculator.py:17-19 | The class-level call uses the shipped table and the 177.12 cap, and meets the 0.54 bounds. |
| PythonCalculator.GetBrutoForTargetNetto | Python/paye_calculator.py:21-23 | The class-level inverse is `Run` on the shipped table with the 177.12 cap, rounded to whole rand. With no exact hit, its net is within 0.5001 of a non-negative target. |
| CSharpCalculator.WidthOrRemaining | CSharp/PAYE_Calculator/PAYE_Calculator/PayeCalculator.cs:38-39 | The C# conditional (width if remaining exceeds it, else remaining) is the income the bracket takes. |
| CSharpCalculator.NettoOfOrdered | CSharp/PAYE_Calculator/PAYE_Calculator/PayeCalculator.cs:29-57 | The walk computes gross less a twelfth of the tax less the capped UIF, with the same tax and allocation invariants as Python. The unused `baseValue` is at every step the full-width tax of the brackets passed. |
| CSharpCalculator.GetNettoFromBruto | CSharp/PAYE_Calculator/PAYE_Calculator/PayeCalculator.cs:25-58 | The net is the walk over the table ordered by threshold. On an already sorted table it equals the walk over the input. With rates in [0, 0.45] and a non-negative cap and a non-negative gross, 0.54 * gross <= net <= gross. |
| CSharpCalculator.BrutoOfOrdered | CSharp/PAYE_Calculator/PAYE_Calculator/PayeCalculator.cs:65-86 | The result is the bisection `Run` on the walk, rounded half-to-even to thousandths, and the hit flag is `Run`'s. So the result is a multiple of 0.001. A target within 0.001 of 0 gives 0. A first-midpoint hit gives 0. Without a hit, for rates in [0, 0.45] and a non-negative cap, the result's net is within 0.0015 of a non-negative target. |
| CSharpCalculator.GetBrutoForTargetNetto | CSharp/PAYE_Calculator/PAYE_Calculator/PayeCalculator.cs:60-87 | The same guarantees, with `Run` over the table ordered by threshold, for any input order, with the closeness holding for rates in [0, 0.45] and a non-negative cap. |
| CSharpCalculator.BrutoOfOrderedCorrected | CSharp/PAYE_Calculator/PAYE_Calculator/PayeCalculator.cs:70-86 | With an exact hit kept, the result is a multiple of 0.001 and, for rates in [0, 0.45] and a non-negative cap, its net is within 0.0015 of every non-negative target. |
| CSharpCalculator.GetBrutoForTargetNettoCorrected | CSharp/PAYE_Calculator/PAYE_Calculator/PayeCalculator.cs:60-87 | The same for any input order, on the table ordered by threshold. |
| CSharpCalculator.GetNettoFromBrutoShipped | CSharp/PAYE_Calculator/PAYE_Calculator/PayeCalculator.cs:19-20 | The class-level call is the walk over the shipped table, as given, with the 117.12 cap. |
| CSharpCalculator.GetBrutoForTargetNettoShipped | CSharp/PAYE_Calculator/PAYE_Calculator/PayeCalculator.cs:22-23 | The class-level inverse is `Run` on the ordered shipped table with the 117.12 cap, rounded to thousandths. With no exact hit, its net is within 0.0015 of a non-negative target. |
| ExactHits.SeventhBracketNetto | Python/paye_calculator.py:11 | For a yearly gross in the seventh bracket with UIF capped, the net is gross - (234023 + 41% of the excess over 857900)/12 - cap. |
| ExactHits.PythonExactHit | Python/paye_calculator.py:61-68 | For target 5779528/69, the Python solver's first midpoint nets the target exactly, while the 0 it returns nets 0. |
| ExactHits.CSharpExactHit | CSharp/PAYE_Calculator/PAYE_Calculator/PayeCalculator.cs:76-83 | For target 5815528/69, the C# solver's first midpoint nets the target exactly, while the 0 it returns nets 0. |

## Left out

- Float and `decimal` arithmetic is modelled as exact reals. This covers the `float()` coercions, binary rounding of the rates and `decimal` rounding of `/ 12`, and overflow of `bruto * 12` near `decimal.MaxValue`.
- In C# the top bracket's width is `decimal.MaxValue - 1817000`. It is modelled as unbounded, so `baseValue` adds nothing for it (FullLevy of an open bracket is 0). `baseValue` is never read.
- The solver calls the forward method by name. Here it receives the forward calculation as a function value (`Solver.NetOf`).
- Negative targets: the code makes no promise for them. For a negative target the closeness ensures are not stated.
- The class and static wrappers are modelled only as binding the shipped constants.
- The commented-out print loop at the end of the Python file is left out, because it is output only.
- Ordering.SortByThreshold: stability of `OrderBy` for equal thresholds is not stated. The sort is stable by construction but this is not proved.
- Bisection.Bisect: termination is proved for exact arithmetic only. In float64 the midpoint of an interval far from 0 (beyond about 2^39 with the 0.0001 tolerance) rounds to one of its ends, so the interval stops shrinking and the Python loop need not end. C# `decimal` behaves the same near 1e26 with its 0.001 tolerance. Neither case is modelled.
- CSharpCalculator.GetNettoFromBrutoShipped: it does not restate the 0.54 bounds, which `CSharpCalculator.GetNettoFromBruto` gives for every table with rates in [0, 0.45] and a non-negative cap, the shipped one included.
- CSharpCalculator.GetBrutoForTargetNettoShipped: the closeness is stated on `SortByThreshold(SarsTable)`, which `Ordering.SarsTableSorted` proves equal to the shipped table.

## Findings

| source | as written | input that shows it | evidently intended | confidence | as-written member | corrected member |
|---|---|---|---|---|---|---|
| Python/paye_calculator.py:61-68 | When a midpoint's net equals the target exactly, the loop breaks before `candidate_target = middle`. It returns the previous candidate, which is 0 if the hit is on the first midpoint. | Target 5779528/69 with the shipped table and cap 177.12. The first midpoint 8669292/69 nets exactly the target, so the result is 0, whose net is 0. | The midpoint whose net equals the target is the answer. | Medium, not executed. In exact arithmetic the hit is proved. Float rounding decides whether a given float input hits exactly. | PythonCalculator.BrutoForTargetNetto, ExactHits.PythonExactHit | PythonCalculator.BrutoForTargetNettoCorrected |
| CSharp/PAYE_Calculator/PAYE_Calculator/PayeCalculator.cs:76-83 | Same break before `candidateTarget = middle`. | Target 5815528/69 with the shipped table and cap 117.12. The first midpoint 8723292/69 nets exactly the target, so the result is 0. | The midpoint whose net equals the target is the answer. | Medium, not executed. In exact arithmetic the hit is proved. `decimal` rounding decides whether a given decimal input hits exactly. | CSharpCalculator.GetBrutoForTargetNetto, ExactHits.CSharpExactHit | CSharpCalculator.GetBrutoForTargetNettoCorrected |
