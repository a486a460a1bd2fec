/** Targets on which both solvers hit the target exactly at their first
    midpoint, break before keeping that midpoint, and return 0. */
module ExactHits {
  import opened Brackets
  import opened Paye
  import opened Statutory
  import opened Bisection
  import PythonCalculator
  import CSharpCalculator

  /** A net target whose first midpoint, 3/2 of it, nets exactly the target
      under the shipped table and the Python cap of 177.12. */
  const PythonHitTarget: real := 5779528.0 / 69.0

  /** The same for the C# cap of 117.12. */
  const CSharpHitTarget: real := 5815528.0 / 69.0

  /** For a gross whose yearly equivalent lies in the seventh bracket
      (857900 to 1817000, 41%) and whose 1% exceeds the cap, net income is
      gross less 234023 plus 41% of the excess yearly income spread over 12
      months, less the cap. */
  lemma SeventhBracketNetto(maxUif: real, bruto: real)
    requires 857900.0 <= bruto * 12.0 <= 1817000.0
    requires maxUif <= bruto * 0.01
    ensures Netto(SarsTable, maxUif, bruto)
         == bruto - (234023.0 + (bruto * 12.0 - 857900.0) * 0.41) / 12.0 - maxUif
  {
    SarsTableShape();
    SarsBaseValues();
    NettoInBracket(SarsTable, 6, maxUif, bruto, 234023.0, 857900.0, 0.41);
  }

  /** The Python solver's first midpoint on PythonHitTarget is an exact hit,
      while the 0 it then returns nets 0. */
  lemma PythonExactHit()
    ensures PythonCalculator.FirstMidpointHits(SarsTable, PythonCalculator.MaxUif, PythonHitTarget)
    ensures Netto(SarsTable, PythonCalculator.MaxUif, 0.0) == 0.0 != PythonHitTarget
  {
    var g := FirstMidpoint(PythonHitTarget);
    assert g == 8669292.0 / 69.0;
    SeventhBracketNetto(PythonCalculator.MaxUif, g);
    ZeroGrossZeroNet(SarsTable, PythonCalculator.MaxUif);
  }

  /** The C# solver's first midpoint on CSharpHitTarget is an exact hit on
      the shipped table, which ordering leaves as it is (SarsTableSorted),
      while the 0 it then returns nets 0. */
  lemma CSharpExactHit()
    ensures CSharpCalculator.FirstMidpointHits(SarsTable, CSharpHitTarget, CSharpCalculator.MaxUif)
    ensures Netto(SarsTable, CSharpCalculator.MaxUif, 0.0) == 0.0 != CSharpHitTarget
  {
    var g := FirstMidpoint(CSharpHitTarget);
    assert g == 8723292.0 / 69.0;
    SeventhBracketNetto(CSharpCalculator.MaxUif, g);
    ZeroGrossZeroNet(SarsTable, CSharpCalculator.MaxUif);
  }
}
