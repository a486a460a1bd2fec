/** The forward calculator shared by both implementations: gross monthly
    income (bruto) to net monthly income (netto) after PAYE and UIF. */
module Paye {
  import opened RealOps
  import opened Brackets

  function Sum(a: seq<real>): real
  {
    if |a| == 0 then 0.0 else a[0] + Sum(a[1..])
  }

  /** Tax on the amounts `a` placed in the leading brackets of `bs`. */
  function Levy(a: seq<real>, bs: seq<Bracket>): real
    requires |a| <= |bs|
  {
    if |a| == 0 then 0.0 else a[0] * bs[0].rate + Levy(a[1..], bs[1..])
  }

  /** The bracket walk: the income placed in each bracket, in table order,
      stopping at the first bracket that would receive nothing. */
  function Allocate(bs: seq<Bracket>, remaining: real): (a: seq<real>)
    ensures |a| <= |bs|
    ensures forall i :: 0 <= i < |a| ==> 0.0 < a[i] && Fits(bs[i], a[i])
    ensures forall i :: 0 <= i < |a| - 1 ==> Full(bs[i], a[i])
    ensures remaining <= 0.0 ==> a == []
    ensures 0.0 <= remaining ==> 0.0 <= Sum(a) <= remaining
    ensures |a| < |bs| ==> Inside(bs[|a|], remaining - Sum(a)) <= 0.0
    ensures 0.0 <= remaining && |a| > 0 ==> Sum(a) == remaining || Full(bs[|a| - 1], a[|a| - 1])
    decreases |bs|
  {
    if |bs| == 0 then []
    else
      var amount := Inside(bs[0], remaining);
      if amount <= 0.0 then []
      else [amount] + Allocate(bs[1..], remaining - amount)
  }

  /** Yearly tax on `remaining` yearly income: the bracket walk, charging
      each bracket's rate on the income it takes. */
  function Tax(bs: seq<Bracket>, remaining: real): (t: real)
    decreases |bs|
  {
    if |bs| == 0 then 0.0
    else
      var amount := Inside(bs[0], remaining);
      if amount <= 0.0 then 0.0
      else amount * bs[0].rate + Tax(bs[1..], remaining - amount)
  }

  /** The tax is the sum over brackets of the income allocated to the
      bracket times its rate. */
  lemma {:induction false} TaxIsLevyOfAllocation(bs: seq<Bracket>, remaining: real)
    ensures Tax(bs, remaining) == Levy(Allocate(bs, remaining), bs)
    decreases |bs|
  {
    if |bs| > 0 {
      var amount := Inside(bs[0], remaining);
      if amount > 0.0 {
        var rest := Allocate(bs[1..], remaining - amount);
        assert Allocate(bs, remaining) == [amount] + rest;
        LevyCons(amount, rest, bs);
        TaxIsLevyOfAllocation(bs[1..], remaining - amount);
        TaxTaken(bs, remaining, amount);
      }
    }
  }

  /** Levying an amount placed ahead of the rest charges it at the first rate. */
  lemma LevyCons(x: real, s: seq<real>, bs: seq<Bracket>)
    requires |s| < |bs|
    ensures Levy([x] + s, bs) == x * bs[0].rate + Levy(s, bs[1..])
  {
    var a := [x] + s;
    assert a[0] == x && a[1..] == s;
  }

  /** Monthly UIF: one percent of the gross, capped at `maxUif`. */
  function Uif(bruto: real, maxUif: real): (u: real)
    ensures u <= maxUif && u <= bruto * 0.01
    ensures u == maxUif || u == bruto * 0.01
  {
    if maxUif < bruto * 0.01 then maxUif else bruto * 0.01
  }

  /** Net monthly income: gross less a twelfth of the yearly tax, less
      UIF. Non-positive gross pays no tax. */
  function Netto(bs: seq<Bracket>, maxUif: real, bruto: real): (n: real)
    ensures bruto <= 0.0 ==> n == bruto - Uif(bruto, maxUif)
  {
    bruto - Tax(bs, bruto * 12.0) / 12.0 - Uif(bruto, maxUif)
  }

  /** Net from a known yearly tax `t` and UIF `u`. */
  lemma NettoOfParts(bs: seq<Bracket>, maxUif: real, bruto: real, t: real, u: real)
    requires Tax(bs, bruto * 12.0) == t && Uif(bruto, maxUif) == u
    ensures Netto(bs, maxUif, bruto) == bruto - t / 12.0 - u
  {
  }

  /** Rates in [0, TopRate] and a non-negative UIF cap: the tables the
      inverse solver is meant for. */
  predicate Solvable(bs: seq<Bracket>, maxUif: real)
  {
    ValidRates(bs) && 0.0 <= maxUif
  }

  /** Placing one more amount adds it to the total placed. */
  lemma {:induction false} SumAppend(a: seq<real>, x: real)
    ensures Sum(a + [x]) == Sum(a) + x
  {
    if |a| > 0 {
      assert (a + [x])[1..] == a[1..] + [x];
      SumAppend(a[1..], x);
    }
  }

  /** Non-positive income falls through on the first bracket: no tax. */
  lemma NonPositiveIncomeUntaxed(bs: seq<Bracket>, yearly: real)
    requires yearly <= 0.0
    ensures Tax(bs, yearly) == 0.0
  {
  }

  /** Gross 0 gives net 0: nothing is taxed and the UIF is 0. */
  lemma ZeroGrossZeroNet(bs: seq<Bracket>, maxUif: real)
    requires 0.0 <= maxUif
    ensures Netto(bs, maxUif, 0.0) == 0.0
  {
    NonPositiveIncomeUntaxed(bs, 0.0);
  }

  /** Non-positive gross pays no tax, so net is gross less UIF. */
  lemma NonPositiveGross(bs: seq<Bracket>, maxUif: real, bruto: real)
    requires bruto <= 0.0
    ensures Netto(bs, maxUif, bruto) == bruto - Uif(bruto, maxUif)
    ensures 0.0 <= maxUif ==> Netto(bs, maxUif, bruto) == bruto * 0.99
  {
    NonPositiveIncomeUntaxed(bs, bruto * 12.0);
  }

  /** Tax is non-decreasing in income and grows no faster than the top rate. */
  lemma {:induction false} TaxMonotone(bs: seq<Bracket>, r1: real, r2: real)
    requires ValidRates(bs)
    requires r1 <= r2
    ensures 0.0 <= Tax(bs, r2) - Tax(bs, r1) <= TopRate * (r2 - r1)
    decreases |bs|
  {
    if |bs| == 0 || Inside(bs[0], r2) <= 0.0 {
      NothingTaken(bs, r1, r2);
    } else {
      var a1, a2 := Inside(bs[0], r1), Inside(bs[0], r2);
      assert ValidRates(bs[1..]);
      InsideMonotone(bs[0], r1, r2);
      if a1 <= 0.0 {
        TaxMonotone(bs[1..], 0.0, r2 - a2);
        MonotoneFirstTaken(bs, r1, r2, a2);
      } else {
        TaxMonotone(bs[1..], r1 - a1, r2 - a2);
        MonotoneBothTaken(bs, r1, r2, a1, a2);
      }
    }
  }

  /** TaxMonotone when the larger income already takes nothing from the first bracket. */
  lemma NothingTaken(bs: seq<Bracket>, r1: real, r2: real)
    requires r1 <= r2
    requires |bs| == 0 || Inside(bs[0], r2) <= 0.0
    ensures 0.0 <= Tax(bs, r2) - Tax(bs, r1) <= TopRate * (r2 - r1)
  {
    if |bs| > 0 {
      InsideMonotone(bs[0], r1, r2);
    }
    ScaleBound(r2 - r1, 0.0, TopRate);
  }

  /** TaxMonotone's step when only the larger income reaches the first bracket. */
  lemma MonotoneFirstTaken(bs: seq<Bracket>, r1: real, r2: real, a2: real)
    requires |bs| > 0 && ValidRates(bs) && r1 <= r2
    requires Inside(bs[0], r1) <= 0.0 && a2 == Inside(bs[0], r2) && 0.0 < a2
    requires 0.0 <= Tax(bs[1..], r2 - a2) - Tax(bs[1..], 0.0) <= TopRate * (r2 - a2 - 0.0)
    ensures 0.0 <= Tax(bs, r2) - Tax(bs, r1) <= TopRate * (r2 - r1)
  {
    InsideMonotone(bs[0], r1, r2);
    NonPositiveIncomeUntaxed(bs[1..], 0.0);
    TaxTaken(bs, r2, a2);
    FirstTakenStep(bs[0].rate, r1, r2, a2, Tax(bs[1..], r2 - a2), Tax(bs, r1), Tax(bs, r2));
  }

  /** TaxMonotone's step when both incomes reach the first bracket. */
  lemma MonotoneBothTaken(bs: seq<Bracket>, r1: real, r2: real, a1: real, a2: real)
    requires |bs| > 0 && ValidRates(bs) && r1 <= r2
    requires a1 == Inside(bs[0], r1) && a2 == Inside(bs[0], r2) && 0.0 < a1
    requires 0.0 <= Tax(bs[1..], r2 - a2) - Tax(bs[1..], r1 - a1) <= TopRate * ((r2 - a2) - (r1 - a1))
    ensures 0.0 <= Tax(bs, r2) - Tax(bs, r1) <= TopRate * (r2 - r1)
  {
    InsideMonotone(bs[0], r1, r2);
    TaxTaken(bs, r1, a1);
    TaxTaken(bs, r2, a2);
    var rate := bs[0].rate;
    assert 0.0 <= rate <= TopRate;
    var t1, t2 := Tax(bs[1..], r1 - a1), Tax(bs[1..], r2 - a2);
    var x1, x2 := Tax(bs, r1), Tax(bs, r2);
    assert x1 == a1 * rate + t1;
    assert x2 == a2 * rate + t2;
    BothTakenStep(rate, r1, r2, a1, a2, t1, t2, x1, x2);
  }

  /** One taken step of the walk: the first bracket takes `amount` > 0. */
  lemma TaxTaken(bs: seq<Bracket>, r: real, amount: real)
    requires |bs| > 0 && amount == Inside(bs[0], r) && 0.0 < amount
    ensures Tax(bs, r) == amount * bs[0].rate + Tax(bs[1..], r - amount)
  {
  }

  /** One step of an imperative walk at position `k`: the bracket takes
      `amount` > 0 and the walk continues on the rest of the table. */
  lemma WalkStep(bs: seq<Bracket>, k: nat, r: real, amount: real, levied: real)
    requires k < |bs| && amount == Inside(bs[k], r) && 0.0 < amount
    requires levied == amount * bs[k].rate
    ensures Tax(bs[k..], r) == levied + Tax(bs[k + 1..], r - amount)
  {
    TaxTaken(bs[k..], r, amount);
    assert bs[k..][1..] == bs[k + 1..];
  }

  /** An imperative walk that ran off the table or reached a bracket that
      takes nothing has no tax left to add. */
  lemma WalkDone(bs: seq<Bracket>, k: nat, r: real)
    requires k <= |bs|
    requires k < |bs| ==> Inside(bs[k], r) <= 0.0
    ensures Tax(bs[k..], r) == 0.0
  {
  }

  /** Arithmetic of TaxMonotone's step when only the larger income `r2`
      reaches the first bracket, which takes `a2` of it at `rate`; the rest
      of the table taxes the remainder `t2`; `x1`, `x2` are the two taxes. */
  lemma FirstTakenStep(rate: real, r1: real, r2: real, a2: real, t2: real, x1: real, x2: real)
    requires 0.0 <= rate <= TopRate
    requires r1 <= 0.0 < a2 <= r2
    requires 0.0 <= t2 <= TopRate * (r2 - a2)
    requires x1 == 0.0 && x2 == a2 * rate + t2
    ensures 0.0 <= x2 - x1 <= TopRate * (r2 - r1)
  {
    var p := a2 * rate;
    ScaleBound(a2, rate, TopRate);
    assert 0.0 <= p <= 0.45 * a2;
    assert t2 <= 0.45 * (r2 - a2);
    assert x2 - x1 == p + t2;
    assert p + t2 <= 0.45 * r2 <= 0.45 * (r2 - r1);
  }

  /** Arithmetic of TaxMonotone's step when both incomes reach the first
      bracket, which takes `a1 <= a2` at `rate`; the rest of the table taxes
      the remainders `t1`, `t2`; `x1`, `x2` are the two taxes. */
  lemma BothTakenStep(rate: real, r1: real, r2: real, a1: real, a2: real, t1: real, t2: real, x1: real, x2: real)
    requires 0.0 <= rate <= TopRate
    requires a1 <= a2 && r1 - a1 <= r2 - a2
    requires 0.0 <= t2 - t1 <= TopRate * ((r2 - a2) - (r1 - a1))
    requires x1 == a1 * rate + t1 && x2 == a2 * rate + t2
    ensures 0.0 <= x2 - x1 <= TopRate * (r2 - r1)
  {
    var d, e := a2 - a1, (r2 - a2) - (r1 - a1);
    ScaleBound(d, rate, TopRate);
    assert x2 - x1 == d * rate + (t2 - t1) by {
      assert d * rate == a2 * rate - a1 * rate;
    }
    assert TopRate * d + TopRate * e == TopRate * (r2 - r1) by {
      assert d + e == r2 - r1;
    }
  }

  lemma UifMonotone(b1: real, b2: real, maxUif: real)
    requires b1 <= b2
    ensures 0.0 <= Uif(b2, maxUif) - Uif(b1, maxUif) <= (b2 - b1) * 0.01
  {
  }

  /** Net is non-decreasing in gross: each extra unit of gross keeps at
      least 54% (after at most 45% tax and 1% UIF) and at most all of it. */
  lemma NettoMonotone(bs: seq<Bracket>, maxUif: real, b1: real, b2: real)
    requires ValidRates(bs)
    requires b1 <= b2
    ensures 0.54 * (b2 - b1) <= Netto(bs, maxUif, b2) - Netto(bs, maxUif, b1) <= b2 - b1
  {
    TaxMonotone(bs, b1 * 12.0, b2 * 12.0);
    UifMonotone(b1, b2, maxUif);
  }

  /** For non-negative gross, 0.54 * gross <= net <= gross. */
  lemma NettoBounds(bs: seq<Bracket>, maxUif: real, bruto: real)
    requires Solvable(bs, maxUif)
    requires 0.0 <= bruto
    ensures 0.54 * bruto <= Netto(bs, maxUif, bruto) <= bruto
  {
    ZeroGrossZeroNet(bs, maxUif);
    NettoMonotone(bs, maxUif, 0.0, bruto);
  }

  /** The solver's starting interval [target, 2 * target] brackets the answer. */
  lemma SolverBracket(bs: seq<Bracket>, maxUif: real, target: real)
    requires Solvable(bs, maxUif)
    requires 0.0 <= target
    ensures Netto(bs, maxUif, target) <= target <= Netto(bs, maxUif, 2.0 * target)
  {
    NettoBounds(bs, maxUif, target);
    NettoBounds(bs, maxUif, 2.0 * target);
  }

  /** Income that fits in the first bracket is taxed at its rate alone. */
  lemma FirstBracketOnly(bs: seq<Bracket>, yearly: real)
    requires |bs| > 0 && 0.0 <= yearly && Fits(bs[0], yearly)
    ensures Tax(bs, yearly) == yearly * bs[0].rate
  {
    if yearly > 0.0 {
      NonPositiveIncomeUntaxed(bs[1..], 0.0);
    }
  }

  /** Gross whose yearly equivalent fits in a zero-rate first bracket pays no
      tax, so net is gross less UIF. */
  lemma TaxFreeBand(bs: seq<Bracket>, maxUif: real, bruto: real)
    requires |bs| > 0 && bs[0].rate == 0.0
    requires 0.0 <= bruto && Fits(bs[0], bruto * 12.0)
    ensures Netto(bs, maxUif, bruto) == bruto - Uif(bruto, maxUif)
  {
    FirstBracketOnly(bs, bruto * 12.0);
  }
}
