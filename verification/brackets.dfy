/** Progressive tax bracket tables over yearly income. */
module Brackets {
  import opened Options

  /** One row of a table: yearly income from `threshold` up to `upper` is taxed
      at the marginal `rate`; `upper` is None for the open-ended top bracket. */
  datatype Bracket = Bracket(threshold: real, upper: Option<real>, rate: real)

  /** The highest marginal rate the calculators are meant for (the table's top rate). */
  const TopRate: real := 0.45

  /** The 2023-2024 South African table both calculators ship with. */
  const SarsTable: seq<Bracket> := [
    Bracket(0.0, Some(95750.0), 0.0),
    Bracket(95750.0, Some(237100.0), 0.18),
    Bracket(237100.0, Some(370500.0), 0.26),
    Bracket(370500.0, Some(512800.0), 0.31),
    Bracket(512800.0, Some(673000.0), 0.36),
    Bracket(673000.0, Some(857900.0), 0.39),
    Bracket(857900.0, Some(1817000.0), 0.41),
    Bracket(1817000.0, None, 0.45)
  ]

  /** The income `b` takes from `remaining`: the smaller of its width and
      `remaining`, or all of `remaining` when the bracket is open-ended. */
  function Inside(b: Bracket, remaining: real): (amount: real)
    ensures amount <= remaining
    ensures Fits(b, amount)
    ensures amount == remaining || Full(b, amount)
  {
    match b.upper
    case None => remaining
    case Some(u) => if u - b.threshold < remaining then u - b.threshold else remaining
  }

  /** `amount` does not exceed the width of `b`. */
  predicate Fits(b: Bracket, amount: real)
  {
    b.upper.None? || amount <= b.upper.value - b.threshold
  }

  /** `amount` is exactly the (finite) width of `b`. */
  predicate Full(b: Bracket, amount: real)
  {
    b.upper.Some? && amount == b.upper.value - b.threshold
  }

  /** Every marginal rate lies in [0, TopRate]. */
  predicate ValidRates(bs: seq<Bracket>)
  {
    forall i :: 0 <= i < |bs| ==> 0.0 <= bs[i].rate <= TopRate
  }

  /** Brackets are contiguous (each upper limit is the next threshold) and
      every bounded bracket has positive width; only the last may be open. */
  ghost predicate WellFormed(bs: seq<Bracket>)
  {
    && (forall i, j :: 0 <= i < j < |bs| && j == i + 1 ==> bs[i].upper == Some(bs[j].threshold))
    && (forall i :: 0 <= i < |bs| && bs[i].upper.Some? ==> bs[i].threshold < bs[i].upper.value)
  }

  /** Taking more income out of `remaining` never leaves less behind. */
  lemma InsideMonotone(b: Bracket, r1: real, r2: real)
    requires r1 <= r2
    ensures Inside(b, r1) <= Inside(b, r2)
    ensures r1 - Inside(b, r1) <= r2 - Inside(b, r2)
    ensures Inside(b, r1) <= 0.0 < Inside(b, r2) ==> Inside(b, r1) == r1
  {
  }

  /** The shipped table's rates all lie in [0, TopRate]. */
  lemma SarsTableRates()
    ensures ValidRates(SarsTable)
  {
  }

  /** The shipped table is contiguous, starts at 0 and has valid rates. */
  lemma SarsTableShape()
    ensures WellFormed(SarsTable) && ValidRates(SarsTable)
    ensures SarsTable[0].threshold == 0.0
  {
  }
}
