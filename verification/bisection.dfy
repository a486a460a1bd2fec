/** The inverse solver shared by both implementations: bisection of gross
    income over a forward calculator `net`, starting from [target, 2 * target]. */
module Bisection {
  import opened RealOps

  /** What the solver relies on in the forward calculator: gross 0 nets 0,
      net is non-decreasing and grows no faster than gross, and a
      non-negative gross keeps at least half of itself. Together these make
      [target, 2 * target] bracket every non-negative target. */
  ghost predicate Tame(net: real -> real)
  {
    && net(0.0) == 0.0
    && (forall a, b :: Steady(net, a, b))
    && (forall g :: KeepsHalf(net, g))
  }

  /** From `a` to a larger `b`, net does not fall and rises by at most `b - a`. */
  ghost predicate Steady(net: real -> real, a: real, b: real)
  {
    a <= b ==> net(a) <= net(b) <= net(a) + (b - a)
  }

  /** A non-negative gross `g` nets at least half of itself. */
  ghost predicate KeepsHalf(net: real -> real, g: real)
  {
    0.0 <= g ==> g / 2.0 <= net(g)
  }

  lemma TameBrackets(net: real -> real, target: real)
    requires Tame(net) && 0.0 <= target
    ensures net(target) <= target <= net(2.0 * target)
  {
    assert Steady(net, 0.0, target);
    assert KeepsHalf(net, 2.0 * target);
  }

  /** A bracketing interval at most `eps` wide puts both ends within `eps`
      of the target in net terms. */
  lemma NarrowIntervalIsClose(net: real -> real, target: real, lower: real, upper: real, eps: real)
    requires Tame(net)
    requires lower <= upper <= lower + eps
    requires net(lower) <= target <= net(upper)
    ensures Abs(net(lower) - target) <= eps && Abs(net(upper) - target) <= eps
  {
    assert Steady(net, lower, upper);
  }

  /** When the loop ends without an exact hit, the candidate is within `eps`
      of the target in net terms: either no step was taken (the target is
      at most `eps`, and 0 nets 0) or the candidate is one end of a
      bracketing interval at most `eps` wide. */
  lemma ExitIsClose(net: real -> real, target: real, eps: real,
                    lower: real, upper: real, candidate: real, started: bool)
    requires !started ==> candidate == 0.0 && Abs(target) <= eps
    requires started ==> (candidate == lower || candidate == upper) && Abs(upper - lower) <= eps
    requires 0.0 <= target ==> lower <= upper
    requires net(target) <= target <= net(2.0 * target) ==> net(lower) <= target <= net(upper)
    ensures Tame(net) && 0.0 <= target ==> Abs(net(candidate) - target) <= eps
  {
    if Tame(net) && 0.0 <= target {
      if !started {
        assert net(0.0) == 0.0;
      } else {
        TameBrackets(net, target);
        NarrowIntervalIsClose(net, target, lower, upper, eps);
      }
    }
  }

  /** The first midpoint either implementation evaluates. */
  function FirstMidpoint(target: real): (m: real)
    ensures Between(target, 2.0 * target, m)
  {
    (target * 2.0 + target) / 2.0
  }

  /** What the bisection returns: the candidate kept, and whether the loop
      ended on a midpoint whose net equals the target exactly. */
  datatype Outcome = Outcome(candidate: real, hit: bool)

  /** The bisection as a recursive definition, from the interval between
      `lower` and `upper` with `candidate` the last midpoint kept. Each step
      evaluates the midpoint and keeps it as the new candidate unless its
      net is exactly the target, in which case the search stops with the
      candidate it had. The candidate returned is the one passed in or a
      point between `lower` and `upper`. */
  function Search(net: real -> real, target: real, eps: real,
                  lower: real, upper: real, candidate: real): (o: Outcome)
    requires 0.0 < eps
    ensures o.candidate == candidate || Between(lower, upper, o.candidate)
    decreases Units(Abs(upper - lower), eps)
  {
    if Abs(upper - lower) <= eps then Outcome(candidate, false)
    else
      var middle := (upper + lower) / 2.0;
      HalvingShrinks(Abs(upper - lower), eps);
      if net(middle) < target then Search(net, target, eps, middle, upper, middle)
      else if net(middle) > target then Search(net, target, eps, lower, middle, middle)
      else Outcome(candidate, true)
  }

  /** The whole search: from [target, 2 * target] with candidate 0. */
  function Run(net: real -> real, target: real, eps: real): (o: Outcome)
    requires 0.0 < eps
    ensures o.candidate == 0.0 || Between(target, 2.0 * target, o.candidate)
  {
    Search(net, target, eps, target, target * 2.0, 0.0)
  }

  /** One step of Search: evaluate the midpoint and narrow, or stop on an exact hit. */
  lemma SearchStep(net: real -> real, target: real, eps: real,
                   lower: real, upper: real, candidate: real, middle: real)
    requires 0.0 < eps < Abs(upper - lower) && middle == (upper + lower) / 2.0
    ensures net(middle) < target ==>
      Search(net, target, eps, lower, upper, candidate) == Search(net, target, eps, middle, upper, middle)
    ensures net(middle) > target ==>
      Search(net, target, eps, lower, upper, candidate) == Search(net, target, eps, lower, middle, middle)
    ensures net(middle) == target ==>
      Search(net, target, eps, lower, upper, candidate) == Outcome(candidate, true)
  {
  }

  /** Search on an interval at most `eps` wide keeps its candidate, with no hit. */
  lemma SearchDone(net: real -> real, target: real, eps: real,
                   lower: real, upper: real, candidate: real)
    requires 0.0 < eps && Abs(upper - lower) <= eps
    ensures Search(net, target, eps, lower, upper, candidate) == Outcome(candidate, false)
  {
  }

  /** `x` lies in the start interval between `target` and `2 * target`. */
  ghost predicate Between2(target: real, x: real)
  {
    Between(target, 2.0 * target, x)
  }

  /** The state the loop keeps between steps. Both ends stay in the start
      interval, ordered when the target is non-negative, and bracket the
      target whenever the start interval does. Before the first step the
      candidate is 0 and the interval is the start one; afterwards the
      target exceeds `eps`, the candidate is one end of the interval, and
      the first midpoint was not an exact hit. */
  ghost predicate Ready(net: real -> real, target: real, eps: real,
                        lower: real, upper: real, candidate: real, started: bool)
  {
    && Between2(target, lower) && Between2(target, upper)
    && (0.0 <= target ==> lower <= upper)
    && (net(target) <= target <= net(2.0 * target) ==> net(lower) <= target <= net(upper))
    && (!started ==> candidate == 0.0 && lower == target && upper == target * 2.0)
    && (started ==> eps < Abs(target) && (candidate == lower || candidate == upper))
    && (started ==> net(FirstMidpoint(target)) != target)
  }

  /** What Search promises from a loop state: without a hit the candidate
      lies in the start interval once the target exceeds `eps` and is
      within `eps` of a non-negative target in net terms on a tame `net`;
      a hit happens only beyond `eps`. From the start state, a target
      within `eps` gives 0 with no hit, and a first midpoint that nets the
      target exactly gives a hit with candidate 0. */
  ghost predicate Settled(net: real -> real, target: real, eps: real, o: Outcome, started: bool)
  {
    && (!o.hit && eps < Abs(target) ==> Between2(target, o.candidate))
    && (Tame(net) && 0.0 <= target && !o.hit ==> Abs(net(o.candidate) - target) <= eps)
    && (o.hit ==> eps < Abs(target))
    && (!started && Abs(target) <= eps ==> o == Outcome(0.0, false))
    && (!started && eps < Abs(target) && net(FirstMidpoint(target)) == target ==> o == Outcome(0.0, true))
  }

  /** A step that does not hit keeps the loop state. */
  lemma ReadyAfterStep(net: real -> real, target: real, eps: real,
                       lower: real, upper: real, candidate: real, started: bool,
                       middle: real, lower': real, upper': real)
    requires 0.0 < eps < Abs(upper - lower)
    requires Ready(net, target, eps, lower, upper, candidate, started)
    requires middle == (upper + lower) / 2.0 && net(middle) != target
    requires net(middle) < target ==> lower' == middle && upper' == upper
    requires net(middle) > target ==> lower' == lower && upper' == middle
    ensures Ready(net, target, eps, lower', upper', middle, true)
  {
    assert Between2(target, middle);
    if !started {
      assert middle == FirstMidpoint(target);
    }
  }

  /** Search ending on a narrow interval settles. */
  lemma SettledWhenNarrow(net: real -> real, target: real, eps: real,
                          lower: real, upper: real, candidate: real, started: bool)
    requires 0.0 < eps && Abs(upper - lower) <= eps
    requires Ready(net, target, eps, lower, upper, candidate, started)
    ensures Settled(net, target, eps, Search(net, target, eps, lower, upper, candidate), started)
  {
    SearchDone(net, target, eps, lower, upper, candidate);
    ExitIsClose(net, target, eps, lower, upper, candidate, started);
  }

  /** Search stopping on an exact hit settles. */
  lemma SettledOnHit(net: real -> real, target: real, eps: real,
                     lower: real, upper: real, candidate: real, started: bool, middle: real)
    requires 0.0 < eps < Abs(upper - lower)
    requires Ready(net, target, eps, lower, upper, candidate, started)
    requires middle == (upper + lower) / 2.0 && net(middle) == target
    ensures Settled(net, target, eps, Search(net, target, eps, lower, upper, candidate), started)
  {
    SearchStep(net, target, eps, lower, upper, candidate, middle);
    if !started {
      assert middle == FirstMidpoint(target);
    }
  }

  /** A step whose continuation settles from the new state settles from the old one. */
  lemma SettledAfterStep(net: real -> real, target: real, eps: real,
                         lower: real, upper: real, candidate: real, started: bool,
                         middle: real, lower': real, upper': real)
    requires 0.0 < eps < Abs(upper - lower)
    requires middle == (upper + lower) / 2.0 && net(middle) != target
    requires net(middle) < target ==> lower' == middle && upper' == upper
    requires net(middle) > target ==> lower' == lower && upper' == middle
    requires !started ==> lower == target && upper == target * 2.0
    requires Settled(net, target, eps, Search(net, target, eps, lower', upper', middle), true)
    ensures Settled(net, target, eps, Search(net, target, eps, lower, upper, candidate), started)
  {
    SearchStep(net, target, eps, lower, upper, candidate, middle);
    if !started {
      assert middle == FirstMidpoint(target);
    }
  }

  /** Each step halves the interval, lowering the number of `eps` units in it. */
  lemma StepShrinks(eps: real, lower: real, upper: real, middle: real, lower': real, upper': real)
    requires 0.0 < eps < Abs(upper - lower) && middle == (upper + lower) / 2.0
    requires (lower' == middle && upper' == upper) || (lower' == lower && upper' == middle)
    ensures Units(Abs(upper' - lower'), eps) < Units(Abs(upper - lower), eps)
  {
    assert Abs(upper' - lower') == Abs(upper - lower) / 2.0;
    HalvingShrinks(Abs(upper - lower), eps);
  }

  /** Search from any loop state settles. */
  lemma {:induction false} SearchSettles(net: real -> real, target: real, eps: real,
                                         lower: real, upper: real, candidate: real, started: bool)
    requires 0.0 < eps
    requires Ready(net, target, eps, lower, upper, candidate, started)
    ensures Settled(net, target, eps, Search(net, target, eps, lower, upper, candidate), started)
    decreases Units(Abs(upper - lower), eps)
  {
    if Abs(upper - lower) <= eps {
      SettledWhenNarrow(net, target, eps, lower, upper, candidate, started);
    } else {
      var middle := (upper + lower) / 2.0;
      if net(middle) == target {
        SettledOnHit(net, target, eps, lower, upper, candidate, started, middle);
      } else {
        var lower' := if net(middle) < target then middle else lower;
        var upper' := if net(middle) < target then upper else middle;
        ReadyAfterStep(net, target, eps, lower, upper, candidate, started, middle, lower', upper');
        StepShrinks(eps, lower, upper, middle, lower', upper');
        SearchSettles(net, target, eps, lower', upper', middle, true);
        SettledAfterStep(net, target, eps, lower, upper, candidate, started, middle, lower', upper');
      }
    }
  }

  /** The bisection as both implementations write it. The interval starts
      as [target, 2 * target] and is halved towards the target until it is
      at most `eps` wide; the candidate is the last midpoint evaluated, or 0
      if none was. When a midpoint nets exactly the target the loop breaks
      BEFORE that midpoint becomes the candidate, and `hit` reports it.
      The loop computes Run, and the rest of the contract is what Run
      promises. */
  method Bisect(net: real -> real, target: real, eps: real)
    returns (candidate: real, ghost hit: bool)
    requires 0.0 < eps
    ensures Outcome(candidate, hit) == Run(net, target, eps)
    ensures candidate == Run(net, target, eps).candidate
    ensures Abs(target) <= eps ==> candidate == 0.0 && !hit
    ensures !hit && eps < Abs(target) ==> Between(target, 2.0 * target, candidate)
    ensures hit ==> eps < Abs(target)
    ensures eps < Abs(target) && net(FirstMidpoint(target)) == target ==> hit && candidate == 0.0
    ensures Tame(net) && 0.0 <= target && !hit ==> Abs(net(candidate) - target) <= eps
  {
    var lower := target;
    var upper := target * 2.0;
    candidate := 0.0;
    hit := false;
    ghost var outcome := Run(net, target, eps);
    while Abs(upper - lower) > eps
      invariant !hit && Search(net, target, eps, lower, upper, candidate) == outcome
      decreases Units(Abs(upper - lower), eps)
    {
      var middle := (upper + lower) / 2.0;
      var candidateNetto := net(middle);
      SearchStep(net, target, eps, lower, upper, candidate, middle);
      if candidateNetto < target {
        StepShrinks(eps, lower, upper, middle, middle, upper);
        lower := middle;
      } else if candidateNetto > target {
        StepShrinks(eps, lower, upper, middle, lower, middle);
        upper := middle;
      } else {
        hit := true;
        break;
      }
      candidate := middle;
    }
    if !hit {
      SearchDone(net, target, eps, lower, upper, candidate);
    }
    SearchSettles(net, target, eps, target, target * 2.0, 0.0, false);
    assert Settled(net, target, eps, Outcome(candidate, hit), false);
  }

  /** The bisection with the exact hit kept: the midpoint whose net equals
      the target is the candidate returned. */
  method BisectCorrected(net: real -> real, target: real, eps: real)
    returns (candidate: real)
    requires 0.0 < eps
    ensures Abs(target) <= eps ==> candidate == 0.0
    ensures eps < Abs(target) ==> Between(target, 2.0 * target, candidate)
    ensures eps < Abs(target) && net(FirstMidpoint(target)) == target ==>
      candidate == FirstMidpoint(target)
    ensures Tame(net) && 0.0 <= target ==> Abs(net(candidate) - target) <= eps
  {
    ghost var lo := if 0.0 <= target then target else 2.0 * target;
    ghost var hi := if 0.0 <= target then 2.0 * target else target;
    ghost var bracketed := net(target) <= target <= net(2.0 * target);
    ghost var steps := 0;
    var lower := target;
    var upper := target * 2.0;
    candidate := 0.0;
    while Abs(upper - lower) > eps
      invariant lo <= lower <= hi && lo <= upper <= hi
      invariant steps == 0 ==> candidate == 0.0 && lower == target && upper == 2.0 * target
      invariant steps > 0 ==> eps < Abs(target) && (candidate == lower || candidate == upper)
      invariant steps > 0 ==> net(FirstMidpoint(target)) != target
      invariant 0.0 <= target ==> lower <= upper
      invariant bracketed ==> net(lower) <= target <= net(upper)
      decreases Units(Abs(upper - lower), eps)
    {
      var middle := (upper + lower) / 2.0;
      var candidateNetto := net(middle);
      HalvingShrinks(Abs(upper - lower), eps);
      candidate := middle;
      if candidateNetto < target {
        lower := middle;
      } else if candidateNetto > target {
        upper := middle;
      } else {
        break;
      }
      steps := steps + 1;
    }
    if net(candidate) != target {
      ExitIsClose(net, target, eps, lower, upper, candidate, steps > 0);
    }
  }
}
