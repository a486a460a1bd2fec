/** The forward calculator seen as the function the bisection inverts. */
module Solver {
  import opened RealOps
  import opened Brackets
  import opened Paye
  import opened Bisection

  /** Net monthly income as a function of gross, for a fixed table and cap. */
  function NetOf(bs: seq<Bracket>, maxUif: real): (net: real -> real)
    ensures forall g :: net(g) == Netto(bs, maxUif, g)
  {
    g => Netto(bs, maxUif, g)
  }

  /** Every table with rates in [0, TopRate] and a non-negative cap gives a
      forward calculator the bisection can invert. */
  lemma NettoIsTame(bs: seq<Bracket>, maxUif: real)
    requires Solvable(bs, maxUif)
    ensures Tame(NetOf(bs, maxUif))
  {
    var net := NetOf(bs, maxUif);
    ZeroGrossZeroNet(bs, maxUif);
    forall a, b
      ensures Steady(net, a, b)
    {
      if a <= b {
        NettoMonotone(bs, maxUif, a, b);
      }
    }
    forall g
      ensures KeepsHalf(net, g)
    {
      if 0.0 <= g {
        NettoBounds(bs, maxUif, g);
      }
    }
  }

  /** What the bisection promises for a tame forward calculator, restated
      for the net-pay calculator of a table with rates in [0, TopRate] and
      a non-negative cap. */
  lemma SolverResult(bs: seq<Bracket>, maxUif: real, target: real, eps: real, candidate: real, hit: bool)
    requires Tame(NetOf(bs, maxUif)) && 0.0 <= target && !hit ==>
      Abs(NetOf(bs, maxUif)(candidate) - target) <= eps
    ensures Solvable(bs, maxUif) && 0.0 <= target && !hit ==>
      Abs(Netto(bs, maxUif, candidate) - target) <= eps
  {
    if Solvable(bs, maxUif) {
      NettoIsTame(bs, maxUif);
    }
  }

  /** Moving the gross by `d` moves the net by at most `d`, so rounding the
      solver's candidate adds at most the rounding distance to the error. */
  lemma RoundingCost(bs: seq<Bracket>, maxUif: real, target: real, candidate: real, rounded: real)
    requires ValidRates(bs)
    ensures Abs(Netto(bs, maxUif, rounded) - target)
         <= Abs(Netto(bs, maxUif, candidate) - target) + Abs(rounded - candidate)
  {
    if candidate <= rounded {
      NettoMonotone(bs, maxUif, candidate, rounded);
    } else {
      NettoMonotone(bs, maxUif, rounded, candidate);
    }
  }
}
