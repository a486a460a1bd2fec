/** The Python calculator: a float bracket walk and a bisection to
    1/10000, rounded to whole rand. Floats are modelled as exact reals. */
module PythonCalculator {
  import opened RealOps
  import opened Brackets
  import opened Paye
  import opened Bisection
  import opened Rounding
  import opened Solver

  /** The class's UIF cap (the value written in the Python source). */
  const MaxUif: real := 177.12

  /** The bisection stops once the interval is at most this wide. */
  const Tolerance: real := 0.0001

  /** The income a bracket takes from `remaining`, as the Python loop
      writes it: min(upper - threshold, remaining), with an infinite upper
      limit leaving all of `remaining`. */
  function WidthOrRemaining(row: Bracket, remaining: real): (inside: real)
    ensures inside == Inside(row, remaining)
  {
    match row.upper
    case None => remaining
    case Some(u) => if remaining < u - row.threshold then remaining else u - row.threshold
  }

  /** The walk over the table in the order given, breaking at the first
      bracket that takes nothing; the yearly tax is then spread over 12
      months and the capped UIF deducted. */
  method NettoAfterPayeAndUif(bracketInfo: seq<Bracket>, maxUif: real, bruto: real)
    returns (netto: real)
    ensures netto == Netto(bracketInfo, maxUif, bruto)
    ensures Solvable(bracketInfo, maxUif) && 0.0 <= bruto ==> 0.54 * bruto <= netto <= bruto
  {
    var yearlyIncome := bruto * 12.0;
    var monthlyTax := 0.0;
    var remainingIncome := yearlyIncome;
    var k := 0;
    ghost var placed: seq<real> := [];
    while k < |bracketInfo|
      invariant 0 <= k <= |bracketInfo| && |placed| == k
      invariant monthlyTax + Tax(bracketInfo[k..], remainingIncome) == Tax(bracketInfo, yearlyIncome)
      invariant Sum(placed) + remainingIncome == yearlyIncome
      invariant forall i :: 0 <= i < k ==> 0.0 < placed[i] && Fits(bracketInfo[i], placed[i])
    {
      var row := bracketInfo[k];
      var incomeInsideBracket := WidthOrRemaining(row, remainingIncome);
      if incomeInsideBracket <= 0.0 {
        break;
      }
      var levied := incomeInsideBracket * row.rate;
      WalkStep(bracketInfo, k, remainingIncome, incomeInsideBracket, levied);
      monthlyTax := monthlyTax + levied;
      remainingIncome := remainingIncome - incomeInsideBracket;
      SumAppend(placed, incomeInsideBracket);
      placed := placed + [incomeInsideBracket];
      k := k + 1;
    }
    WalkDone(bracketInfo, k, remainingIncome);
    monthlyTax := monthlyTax / 12.0;
    var uif := if maxUif < bruto * 0.01 then maxUif else bruto * 0.01;
    var monthlyIncomeAfterTax := bruto - monthlyTax;
    netto := monthlyIncomeAfterTax - uif;
    if Solvable(bracketInfo, maxUif) && 0.0 <= bruto {
      NettoBounds(bracketInfo, maxUif, bruto);
    }
  }

  /** The target is wider than the tolerance and the very first midpoint,
      3/2 of the target, nets it exactly. */
  predicate FirstMidpointHits(bracketInfo: seq<Bracket>, maxUif: real, targetNetto: real)
  {
    Tolerance < Abs(targetNetto) && Netto(bracketInfo, maxUif, FirstMidpoint(targetNetto)) == targetNetto
  }

  /** Bisection for a gross whose net is `targetNetto`, rounded half-to-even
      to whole rand. `hit` reports that some midpoint's net equalled the
      target exactly, in which case the loop broke without keeping it. */
  method BrutoForTargetNetto(bracketInfo: seq<Bracket>, maxUif: real, targetNetto: real)
    returns (bruto: real, ghost hit: bool)
    ensures bruto == bruto.Floor as real
    ensures Abs(targetNetto) <= Tolerance ==> bruto == 0.0 && !hit
    ensures FirstMidpointHits(bracketInfo, maxUif, targetNetto) ==> hit && bruto == 0.0
    ensures Solvable(bracketInfo, maxUif) && 0.0 <= targetNetto && !hit ==>
      Abs(Netto(bracketInfo, maxUif, bruto) - targetNetto) <= 0.5 + Tolerance
    ensures hit == Run(NetOf(bracketInfo, maxUif), targetNetto, Tolerance).hit
    ensures bruto == RoundHalfEven(Run(NetOf(bracketInfo, maxUif), targetNetto, Tolerance).candidate) as real
  {
    var net := NetOf(bracketInfo, maxUif);
    var candidateTarget: real;
    candidateTarget, hit := Bisect(net, targetNetto, Tolerance);
    SolverResult(bracketInfo, maxUif, targetNetto, Tolerance, candidateTarget, hit);
    bruto := RoundHalfEven(candidateTarget) as real;
    if Solvable(bracketInfo, maxUif) {
      RoundingCost(bracketInfo, maxUif, targetNetto, candidateTarget, bruto);
    }
  }

  /** The same search keeping an exact hit as the answer. */
  method BrutoForTargetNettoCorrected(bracketInfo: seq<Bracket>, maxUif: real, targetNetto: real)
    returns (bruto: real)
    ensures bruto == bruto.Floor as real
    ensures Abs(targetNetto) <= Tolerance ==> bruto == 0.0
    ensures Solvable(bracketInfo, maxUif) && 0.0 <= targetNetto ==>
      Abs(Netto(bracketInfo, maxUif, bruto) - targetNetto) <= 0.5 + Tolerance
  {
    var net := NetOf(bracketInfo, maxUif);
    var candidateTarget := BisectCorrected(net, targetNetto, Tolerance);
    SolverResult(bracketInfo, maxUif, targetNetto, Tolerance, candidateTarget, false);
    bruto := RoundHalfEven(candidateTarget) as real;
    if Solvable(bracketInfo, maxUif) {
      RoundingCost(bracketInfo, maxUif, targetNetto, candidateTarget, bruto);
    }
  }

  /** The class-level entry point: the shipped table and cap. */
  method GetNettoFromBruto(brutoMonthlyIncome: real) returns (netto: real)
    ensures netto == Netto(SarsTable, MaxUif, brutoMonthlyIncome)
    ensures 0.0 <= brutoMonthlyIncome ==> 0.54 * brutoMonthlyIncome <= netto <= brutoMonthlyIncome
  {
    SarsTableRates();
    netto := NettoAfterPayeAndUif(SarsTable, MaxUif, brutoMonthlyIncome);
  }

  /** The class-level inverse: the shipped table and cap. */
  method GetBrutoForTargetNetto(targetNetto: real) returns (bruto: real, ghost hit: bool)
    ensures bruto == bruto.Floor as real
    ensures 0.0 <= targetNetto && !hit ==>
      Abs(Netto(SarsTable, MaxUif, bruto) - targetNetto) <= 0.5 + Tolerance
    ensures hit == Run(NetOf(SarsTable, MaxUif), targetNetto, Tolerance).hit
    ensures bruto == RoundHalfEven(Run(NetOf(SarsTable, MaxUif), targetNetto, Tolerance).candidate) as real
  {
    SarsTableRates();
    bruto, hit := BrutoForTargetNetto(SarsTable, MaxUif, targetNetto);
  }
}
