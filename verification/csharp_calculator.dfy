/** The C# calculator: a decimal bracket walk over the table sorted by
    threshold, and a bisection to 1/1000 rounded to three decimal places.
    Decimals are modelled as exact reals. */
module CSharpCalculator {
  import opened RealOps
  import opened Brackets
  import opened Paye
  import opened Statutory
  import opened Ordering
  import opened Bisection
  import opened Rounding
  import opened Solver

  /** The class's UIF cap (the value written in the C# source). */
  const MaxUif: real := 117.12

  /** The bisection stops once the interval is at most this wide. */
  const Tolerance: real := 0.001

  /** The income a bracket takes from `remaining`, as the C# loop writes
      it: the width when `remaining` exceeds it, else all of `remaining`. */
  function WidthOrRemaining(row: Bracket, remaining: real): (inside: real)
    ensures inside == Inside(row, remaining)
  {
    match row.upper
    case None => remaining
    case Some(u) => if remaining > u - row.threshold then u - row.threshold else remaining
  }

  /** The body of the C# method after ordering: the walk over `ordered`,
      breaking at the first bracket that takes nothing; the yearly tax is
      spread over 12 months and the capped UIF deducted. The running
      `baseValue` (the full-width tax of the brackets passed) is computed
      and never read, as in the source. */
  method NettoOfOrdered(ordered: seq<Bracket>, brutoMonthlyIncome: real, maxUif: real)
    returns (netto: real)
    ensures netto == Netto(ordered, maxUif, brutoMonthlyIncome)
  {
    var monthlyTax := 0.0;
    var yearlyIncome := brutoMonthlyIncome * 12.0;
    var remainingIncome := yearlyIncome;
    var baseValue := 0.0;
    var k := 0;
    ghost var placed: seq<real> := [];
    while k < |ordered|
      invariant 0 <= k <= |ordered| && |placed| == k
      invariant monthlyTax + Tax(ordered[k..], remainingIncome) == Tax(ordered, yearlyIncome)
      invariant Sum(placed) + remainingIncome == yearlyIncome
      invariant forall i :: 0 <= i < k ==> 0.0 < placed[i] && Fits(ordered[i], placed[i])
      invariant baseValue == BaseValue(ordered[..k])
    {
      var row := ordered[k];
      var incomeInsideBracket := WidthOrRemaining(row, remainingIncome);
      if incomeInsideBracket <= 0.0 {
        break;
      }
      var levied := incomeInsideBracket * row.rate;
      WalkStep(ordered, k, remainingIncome, incomeInsideBracket, levied);
      monthlyTax := monthlyTax + levied;
      remainingIncome := remainingIncome - incomeInsideBracket;
      SumAppend(placed, incomeInsideBracket);
      placed := placed + [incomeInsideBracket];
      BaseValuePrefix(ordered, k);
      baseValue := baseValue + FullLevy(row);
      k := k + 1;
    }
    WalkDone(ordered, k, remainingIncome);
    monthlyTax := monthlyTax / 12.0;
    var uif := if maxUif < brutoMonthlyIncome * 0.01 then maxUif else brutoMonthlyIncome * 0.01;
    var monthlyIncomeAfterTax := brutoMonthlyIncome - monthlyTax;
    netto := monthlyIncomeAfterTax - uif;
  }

  /** Net monthly income: the walk over the table ordered by threshold. On
      an already sorted table this is the Python calculation. */
  method GetNettoFromBruto(bracketsInfo: seq<Bracket>, brutoMonthlyIncome: real, maxUif: real)
    returns (netto: real)
    ensures netto == Netto(SortByThreshold(bracketsInfo), maxUif, brutoMonthlyIncome)
    ensures SortedByThreshold(bracketsInfo) ==>
      netto == Netto(bracketsInfo, maxUif, brutoMonthlyIncome)
    ensures Solvable(bracketsInfo, maxUif) && 0.0 <= brutoMonthlyIncome ==>
      0.54 * brutoMonthlyIncome <= netto <= brutoMonthlyIncome
  {
    var ordered := SortByThreshold(bracketsInfo);
    netto := NettoOfOrdered(ordered, brutoMonthlyIncome, maxUif);
    if SortedByThreshold(bracketsInfo) {
      SortedUnchanged(bracketsInfo);
    }
    if Solvable(bracketsInfo, maxUif) && 0.0 <= brutoMonthlyIncome {
      SortKeepsRates(bracketsInfo);
      NettoBounds(ordered, maxUif, brutoMonthlyIncome);
    }
  }

  /** The target is wider than the tolerance and the very first midpoint,
      3/2 of the target, nets it exactly on the ordered table. */
  predicate FirstMidpointHits(ordered: seq<Bracket>, targetNetto: real, maxUif: real)
  {
    Tolerance < Abs(targetNetto) && Netto(ordered, maxUif, FirstMidpoint(targetNetto)) == targetNetto
  }

  /** The bisection over the walk of an ordered table, rounded half-to-even
      to three decimals. `hit` reports that some midpoint's net equalled
      the target exactly, in which case the loop broke without keeping it. */
  method BrutoOfOrdered(ordered: seq<Bracket>, targetNetto: real, maxUif: real)
    returns (bruto: real, ghost hit: bool)
    ensures (bruto * 1000.0).Floor as real == bruto * 1000.0
    ensures Abs(targetNetto) <= Tolerance ==> bruto == 0.0 && !hit
    ensures FirstMidpointHits(ordered, targetNetto, maxUif) ==> hit && bruto == 0.0
    ensures Solvable(ordered, maxUif) && 0.0 <= targetNetto && !hit ==>
      Abs(Netto(ordered, maxUif, bruto) - targetNetto) <= 0.0005 + Tolerance
    ensures hit == Run(NetOf(ordered, maxUif), targetNetto, Tolerance).hit
    ensures bruto == RoundToThousandths(Run(NetOf(ordered, maxUif), targetNetto, Tolerance).candidate)
  {
    var net := NetOf(ordered, maxUif);
    var candidateTarget: real;
    candidateTarget, hit := Bisect(net, targetNetto, Tolerance);
    SolverResult(ordered, maxUif, targetNetto, Tolerance, candidateTarget, hit);
    bruto := RoundToThousandths(candidateTarget);
    if Solvable(ordered, maxUif) {
      RoundingCost(ordered, maxUif, targetNetto, candidateTarget, bruto);
    }
  }

  /** Bisection for a gross whose net is `targetNetto` on the table ordered
      by threshold, rounded to three decimals. */
  method GetBrutoForTargetNetto(bracketsInfo: seq<Bracket>, targetNetto: real, maxUif: real)
    returns (bruto: real, ghost hit: bool)
    ensures (bruto * 1000.0).Floor as real == bruto * 1000.0
    ensures Abs(targetNetto) <= Tolerance ==> bruto == 0.0 && !hit
    ensures FirstMidpointHits(SortByThreshold(bracketsInfo), targetNetto, maxUif) ==> hit && bruto == 0.0
    ensures Solvable(bracketsInfo, maxUif) && 0.0 <= targetNetto && !hit ==>
      Abs(Netto(SortByThreshold(bracketsInfo), maxUif, bruto) - targetNetto) <= 0.0005 + Tolerance
    ensures hit == Run(NetOf(SortByThreshold(bracketsInfo), maxUif), targetNetto, Tolerance).hit
    ensures bruto == RoundToThousandths(Run(NetOf(SortByThreshold(bracketsInfo), maxUif), targetNetto, Tolerance).candidate)
  {
    var ordered := SortByThreshold(bracketsInfo);
    bruto, hit := BrutoOfOrdered(ordered, targetNetto, maxUif);
    if Solvable(bracketsInfo, maxUif) {
      SortKeepsRates(bracketsInfo);
    }
  }

  /** The corrected bisection over the walk of an ordered table. */
  method BrutoOfOrderedCorrected(ordered: seq<Bracket>, targetNetto: real, maxUif: real)
    returns (bruto: real)
    ensures (bruto * 1000.0).Floor as real == bruto * 1000.0
    ensures Abs(targetNetto) <= Tolerance ==> bruto == 0.0
    ensures Solvable(ordered, maxUif) && 0.0 <= targetNetto ==>
      Abs(Netto(ordered, maxUif, bruto) - targetNetto) <= 0.0005 + Tolerance
  {
    var net := NetOf(ordered, maxUif);
    var candidateTarget := BisectCorrected(net, targetNetto, Tolerance);
    SolverResult(ordered, maxUif, targetNetto, Tolerance, candidateTarget, false);
    bruto := RoundToThousandths(candidateTarget);
    if Solvable(ordered, maxUif) {
      RoundingCost(ordered, maxUif, targetNetto, candidateTarget, bruto);
    }
  }

  /** The same search keeping an exact hit as the answer. */
  method GetBrutoForTargetNettoCorrected(bracketsInfo: seq<Bracket>, targetNetto: real, maxUif: real)
    returns (bruto: real)
    ensures (bruto * 1000.0).Floor as real == bruto * 1000.0
    ensures Abs(targetNetto) <= Tolerance ==> bruto == 0.0
    ensures Solvable(bracketsInfo, maxUif) && 0.0 <= targetNetto ==>
      Abs(Netto(SortByThreshold(bracketsInfo), maxUif, bruto) - targetNetto) <= 0.0005 + Tolerance
  {
    var ordered := SortByThreshold(bracketsInfo);
    bruto := BrutoOfOrderedCorrected(ordered, targetNetto, maxUif);
    if Solvable(bracketsInfo, maxUif) {
      SortKeepsRates(bracketsInfo);
    }
  }

  /** The class-level entry point: the shipped table and cap. */
  method GetNettoFromBrutoShipped(brutoMonthlyIncome: real) returns (netto: real)
    ensures netto == Netto(SarsTable, MaxUif, brutoMonthlyIncome)
  {
    SarsTableInOrder();
    netto := GetNettoFromBruto(SarsTable, brutoMonthlyIncome, MaxUif);
  }

  /** The class-level inverse: the shipped table and cap. */
  method GetBrutoForTargetNettoShipped(targetNetto: real) returns (bruto: real, ghost hit: bool)
    ensures (bruto * 1000.0).Floor as real == bruto * 1000.0
    ensures 0.0 <= targetNetto && !hit ==>
      Abs(Netto(SortByThreshold(SarsTable), MaxUif, bruto) - targetNetto) <= 0.0005 + Tolerance
    ensures hit == Run(NetOf(SortByThreshold(SarsTable), MaxUif), targetNetto, Tolerance).hit
    ensures bruto == RoundToThousandths(Run(NetOf(SortByThreshold(SarsTable), MaxUif), targetNetto, Tolerance).candidate)
  {
    SarsTableRates();
    bruto, hit := GetBrutoForTargetNetto(SarsTable, targetNetto, MaxUif);
  }
}
