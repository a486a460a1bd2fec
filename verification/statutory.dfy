/** The statutory reading of a bracket table: each bracket taxes the part of
    the yearly income lying between its threshold and its upper limit. This
    is an independent definition that the bracket walk is proved to meet. */
module Statutory {
  import opened Options
  import opened Brackets
  import opened Paye

  /** The part of `yearly` above the bracket's threshold and below its upper limit. */
  function Portion(b: Bracket, yearly: real): (p: real)
    ensures 0.0 <= p
    ensures 0.0 < p ==> b.threshold < yearly
  {
    var top := if b.upper.Some? && b.upper.value < yearly then b.upper.value else yearly;
    if b.threshold < top then top - b.threshold else 0.0
  }

  /** Statutory yearly tax: every bracket's rate applied to its portion. */
  function Reference(bs: seq<Bracket>, yearly: real): real
  {
    if |bs| == 0 then 0.0 else Portion(bs[0], yearly) * bs[0].rate + Reference(bs[1..], yearly)
  }

  /** Income at or below the first threshold of a well-formed table has no
      portion in any bracket. */
  lemma {:induction false} ReferenceBelowTable(bs: seq<Bracket>, yearly: real)
    requires WellFormed(bs) && |bs| > 0
    requires yearly <= bs[0].threshold
    ensures Reference(bs, yearly) == 0.0
    decreases |bs|
  {
    assert Portion(bs[0], yearly) == 0.0;
    if |bs| > 1 {
      assert bs[0].upper == Some(bs[1].threshold);
      assert WellFormed(bs[1..]);
      ReferenceBelowTable(bs[1..], yearly);
    }
  }

  /** On a well-formed table the bracket walk, started with the income above
      the first threshold, charges exactly the statutory tax. */
  lemma {:induction false} WalkMatchesReference(bs: seq<Bracket>, yearly: real)
    requires WellFormed(bs) && |bs| > 0
    ensures Tax(bs, yearly - bs[0].threshold) == Reference(bs, yearly)
    decreases |bs|
  {
    var b := bs[0];
    var r := yearly - b.threshold;
    var a := Inside(b, r);
    if a <= 0.0 {
      ReferenceBelowTable(bs, yearly);
    } else if a == r {
      WalkEndsInFirst(bs, yearly, a);
    } else {
      if |bs| > 1 {
        assert WellFormed(bs[1..]);
        WalkMatchesReference(bs[1..], yearly);
      }
      WalkPassesFirst(bs, yearly, a);
    }
  }

  /** The walk's step when the first bracket takes all the remaining income. */
  lemma WalkEndsInFirst(bs: seq<Bracket>, yearly: real, a: real)
    requires WellFormed(bs) && |bs| > 0
    requires a == Inside(bs[0], yearly - bs[0].threshold) == yearly - bs[0].threshold && 0.0 < a
    ensures Tax(bs, yearly - bs[0].threshold) == Reference(bs, yearly)
  {
    var b, rest := bs[0], bs[1..];
    assert Portion(b, yearly) == a;
    NonPositiveIncomeUntaxed(rest, 0.0);
    TaxTaken(bs, a, a);
    ReferenceStep(bs, yearly, a);
    if |rest| > 0 {
      assert WellFormed(rest);
      assert b.upper == Some(rest[0].threshold);
      ReferenceBelowTable(rest, yearly);
    }
  }

  /** The walk's step when the first bracket fills up and the rest of the
      table carries on from its upper limit. */
  lemma WalkPassesFirst(bs: seq<Bracket>, yearly: real, a: real)
    requires WellFormed(bs) && |bs| > 0
    requires a == Inside(bs[0], yearly - bs[0].threshold) != yearly - bs[0].threshold && 0.0 < a
    requires |bs| > 1 ==> Tax(bs[1..], yearly - bs[1].threshold) == Reference(bs[1..], yearly)
    ensures Tax(bs, yearly - bs[0].threshold) == Reference(bs, yearly)
  {
    var b, rest := bs[0], bs[1..];
    var r := yearly - b.threshold;
    assert Full(b, a);
    assert Portion(b, yearly) == a;
    TaxTaken(bs, r, a);
    ReferenceStep(bs, yearly, a);
    if |rest| > 0 {
      assert b.upper == Some(rest[0].threshold);
      assert r - a == yearly - rest[0].threshold;
    }
  }

  /** Tax on the full widths of the (bounded) brackets `bs`: the running
      `baseValue` of the C# walk. */
  function BaseValue(bs: seq<Bracket>): real
  {
    if |bs| == 0 then 0.0
    else
      FullLevy(bs[0]) + BaseValue(bs[1..])
  }

  /** The full-width tax of one bracket; nothing for the open-ended one. */
  function FullLevy(b: Bracket): real
  {
    if b.upper.Some? then (b.upper.value - b.threshold) * b.rate else 0.0
  }

  /** BaseValue accumulates one bracket at a time, front to back. */
  lemma {:induction false} BaseValueAppend(bs: seq<Bracket>, b: Bracket)
    ensures BaseValue(bs + [b]) == BaseValue(bs) + FullLevy(b)
  {
    if |bs| > 0 {
      assert (bs + [b])[1..] == bs[1..] + [b];
      BaseValueAppend(bs[1..], b);
    }
  }

  /** BaseValue of one more leading bracket. */
  lemma BaseValuePrefix(bs: seq<Bracket>, k: nat)
    requires k < |bs|
    ensures BaseValue(bs[..k + 1]) == BaseValue(bs[..k]) + FullLevy(bs[k])
  {
    BaseValueAppend(bs[..k], bs[k]);
    assert bs[..k + 1] == bs[..k] + [bs[k]];
  }

  /** In a well-formed table the thresholds strictly increase. */
  lemma {:induction false} ThresholdsIncrease(bs: seq<Bracket>, i: nat, j: nat)
    requires WellFormed(bs) && i < j < |bs|
    ensures bs[i].threshold < bs[j].threshold
    decreases j - i
  {
    assert bs[i].upper == Some(bs[i + 1].threshold);
    if i + 1 < j {
      ThresholdsIncrease(bs, i + 1, j);
    }
  }

  /** Yearly income inside bracket `k` pays the full tax of every bracket
      below it plus bracket `k`'s rate on the excess over its threshold. */
  lemma ReferenceInBracket(bs: seq<Bracket>, k: nat, yearly: real)
    requires WellFormed(bs) && k < |bs|
    requires bs[k].threshold <= yearly && Fits(bs[k], yearly - bs[k].threshold)
    ensures Reference(bs, yearly) == BaseValue(bs[..k]) + (yearly - bs[k].threshold) * bs[k].rate
  {
    ReferenceAt(bs, k, yearly, bs[k].threshold, bs[k].rate);
  }

  /** ReferenceInBracket with bracket `k`'s `threshold` and `rate` passed
      by value, so that every step speaks of the same excess. */
  lemma {:induction false} ReferenceAt(bs: seq<Bracket>, k: nat, yearly: real, threshold: real, rate: real)
    requires WellFormed(bs) && k < |bs|
    requires bs[k].threshold == threshold && bs[k].rate == rate
    requires threshold <= yearly && Fits(bs[k], yearly - threshold)
    ensures Reference(bs, yearly) == BaseValue(bs[..k]) + (yearly - threshold) * rate
    decreases k
  {
    if k == 0 {
      ReferenceInFirstBracket(bs, yearly);
    } else {
      var rest := bs[1..];
      assert WellFormed(rest);
      assert rest[k - 1] == bs[k];
      ReferenceAt(rest, k - 1, yearly, threshold, rate);
      ReferenceBeyondFirstBracket(bs, k, yearly, (yearly - threshold) * rate);
    }
  }

  /** ReferenceInBracket for the first bracket. */
  lemma ReferenceInFirstBracket(bs: seq<Bracket>, yearly: real)
    requires WellFormed(bs) && |bs| > 0
    requires bs[0].threshold <= yearly && Fits(bs[0], yearly - bs[0].threshold)
    ensures Reference(bs, yearly) == BaseValue(bs[..0]) + (yearly - bs[0].threshold) * bs[0].rate
  {
    ReferenceStep(bs, yearly, yearly - bs[0].threshold);
    if |bs| > 1 {
      assert WellFormed(bs[1..]);
      assert bs[0].upper == Some(bs[1].threshold);
      ReferenceBelowTable(bs[1..], yearly);
    }
    assert BaseValue(bs[..0]) == 0.0;
  }

  /** ReferenceInBracket's step for a later bracket `k`, given it for the
      rest of the table; `excess` is bracket `k`'s tax on the income above
      its threshold. */
  lemma ReferenceBeyondFirstBracket(bs: seq<Bracket>, k: nat, yearly: real, excess: real)
    requires WellFormed(bs) && 0 < k < |bs|
    requires bs[k].threshold <= yearly
    requires Reference(bs[1..], yearly) == BaseValue(bs[1..][..k - 1]) + excess
    ensures Reference(bs, yearly) == BaseValue(bs[..k]) + excess
  {
    assert bs[0].upper == Some(bs[1].threshold);
    if 1 < k {
      ThresholdsIncrease(bs, 1, k);
    }
    var w := bs[0].upper.value - bs[0].threshold;
    ReferenceStep(bs, yearly, w);
    var prefix := bs[..k];
    assert prefix[0] == bs[0] && prefix[1..] == bs[1..][..k - 1];
    assert BaseValue(prefix) == w * bs[0].rate + BaseValue(bs[1..][..k - 1]);
  }

  /** Reference charges the first bracket's `portion` and recurses. */
  lemma ReferenceStep(bs: seq<Bracket>, yearly: real, portion: real)
    requires |bs| > 0 && portion == Portion(bs[0], yearly)
    ensures Reference(bs, yearly) == portion * bs[0].rate + Reference(bs[1..], yearly)
  {
  }

  /** Yearly income in bracket `k` of a well-formed table starting at 0
      pays the full tax of the brackets below plus bracket `k`'s rate on
      the excess over its threshold. */
  lemma TaxInBracket(bs: seq<Bracket>, k: nat, yearly: real)
    requires WellFormed(bs) && k < |bs| && bs[0].threshold == 0.0
    requires bs[k].threshold <= yearly && Fits(bs[k], yearly - bs[k].threshold)
    ensures Tax(bs, yearly) == BaseValue(bs[..k]) + (yearly - bs[k].threshold) * bs[k].rate
  {
    WalkMatchesReference(bs, yearly);
    assert yearly - bs[0].threshold == yearly;
    ReferenceInBracket(bs, k, yearly);
  }

  /** Gross whose yearly equivalent lies in bracket `k` of a well-formed
      table starting at 0, and whose 1% reaches the cap, nets gross less
      the bracket formula's yearly tax over 12 months, less the cap. The
      bracket's threshold, rate and the full tax `base` of the brackets
      below it are passed in by value. */
  lemma NettoInBracket(bs: seq<Bracket>, k: nat, maxUif: real, bruto: real,
                       base: real, threshold: real, rate: real)
    requires WellFormed(bs) && k < |bs| && bs[0].threshold == 0.0
    requires BaseValue(bs[..k]) == base && bs[k].threshold == threshold && bs[k].rate == rate
    requires threshold <= bruto * 12.0 && Fits(bs[k], bruto * 12.0 - threshold)
    requires maxUif <= bruto * 0.01
    ensures Netto(bs, maxUif, bruto) == bruto - (base + (bruto * 12.0 - threshold) * rate) / 12.0 - maxUif
  {
    TaxInBracket(bs, k, bruto * 12.0);
    NettoOfParts(bs, maxUif, bruto, base + (bruto * 12.0 - threshold) * rate, maxUif);
  }

  /** The full-width tax of the shipped table's leading brackets, the
      `baseValue` the C# walk has accumulated on leaving each of them. */
  lemma SarsBaseValues()
    ensures BaseValue(SarsTable[..1]) == 0.0
    ensures BaseValue(SarsTable[..2]) == 25443.0
    ensures BaseValue(SarsTable[..6]) == 234023.0
  {
    var levies := [0.0, 25443.0, 34684.0, 44113.0, 57672.0, 72111.0];
    forall k | 0 <= k < 6
      ensures FullLevy(SarsTable[k]) == levies[k]
    {
    }
    BaseValuePrefix(SarsTable, 0);
    BaseValuePrefix(SarsTable, 1);
    BaseValuePrefix(SarsTable, 2);
    BaseValuePrefix(SarsTable, 3);
    BaseValuePrefix(SarsTable, 4);
    BaseValuePrefix(SarsTable, 5);
  }

  /** The SARS table charges nothing on yearly income up to 95750. */
  lemma SarsTaxFreeBand(yearly: real)
    requires 0.0 <= yearly <= 95750.0
    ensures Tax(SarsTable, yearly) == 0.0
  {
    FirstBracketOnly(SarsTable, yearly);
  }

  /** Above 95750 the second bracket starts charging 18% of the excess. */
  lemma SarsSecondBracket(yearly: real)
    requires 95750.0 <= yearly <= 237100.0
    ensures Tax(SarsTable, yearly) == 0.18 * (yearly - 95750.0)
  {
    SarsTableShape();
    SarsBaseValues();
    TaxInBracket(SarsTable, 1, yearly);
  }

  /** Gross 30000 a month: yearly 360000 lies in the third bracket, so the
      yearly tax is 25443 + 26% of 122900 = 57397, and UIF is capped. */
  lemma SarsThirtyThousand(maxUif: real)
    requires maxUif <= 300.0
    ensures Netto(SarsTable, maxUif, 30000.0) == 30000.0 - 57397.0 / 12.0 - maxUif
  {
    SarsTableShape();
    SarsBaseValues();
    NettoInBracket(SarsTable, 2, maxUif, 30000.0, 25443.0, 237100.0, 0.26);
  }
}
