/** Planner-wide limits and helpers (src/planner/mod.rs). */
module Planner {
  import opened Numeric
  import opened Gases

  /** The acceptable oxygen partial pressures, in bar. */
  const PPO2_MINIMUM: real := 0.18
  const PPO2_MAXIMUM_DIVE: real := 1.4
  const PPO2_MAXIMUM_DECO: real := 1.6

  /** The three limits are ordered: breathable, then dive, then deco maximum. */
  lemma Ppo2LimitsOrdered()
    ensures 0.0 < PPO2_MINIMUM < PPO2_MAXIMUM_DIVE < PPO2_MAXIMUM_DECO
  {
  }

  /** `equivalent_narcotic_depth(depth, gas)`: the same formula as the gas's
      own method, so a helium-free gas has END equal to the depth and END
      never exceeds the depth. */
  function EquivalentNarcoticDepth(depth: nat, gas: Gas): (r: nat)
    ensures r <= depth
    ensures gas.he == 0 && depth <= USIZE_MAX ==> r == depth
  {
    EndAtMostDepth(gas, depth);
    gas.EquivalentNarcoticDepth(depth)
  }

  /** END does not increase as the helium share grows. */
  lemma EndNonIncreasingInHelium(depth: nat, g1: Gas, g2: Gas)
    requires g1.he <= g2.he
    ensures EquivalentNarcoticDepth(depth, g2) <= EquivalentNarcoticDepth(depth, g1)
  {
    Gases.EndNonIncreasingInHelium(g1, g2, depth);
  }

  /** `gas_in_ppo2_range(depth, min, max, gas)`: the oxygen partial pressure
      at the depth lies in [min, max]. The two-argument `partial_pressure`
      this file calls is a parameter. */
  predicate GasInPpo2Range(depth: nat, min: real, max: real, gas: Gas, partialPressure: (nat, real) -> real)
  {
    var ppO2 := partialPressure(depth, gas.FrO2());
    ppO2 >= min && ppO2 <= max
  }

  /** A wider range accepts every gas a narrower one does. */
  lemma Ppo2RangeWidens(depth: nat, min: real, max: real, min': real, max': real, gas: Gas,
                        partialPressure: (nat, real) -> real)
    requires min' <= min && max <= max'
    ensures GasInPpo2Range(depth, min, max, gas, partialPressure)
            ==> GasInPpo2Range(depth, min', max', gas, partialPressure)
  {
  }

  /** When the partial pressure is the ambient pressure `p > 0` times the
      fraction, as Dalton's law has it, a gas is in range exactly when its
      oxygen fraction lies in [min / p, max / p]: the check selects a band of
      oxygen fractions, which narrows as the depth grows. */
  lemma Ppo2RangeAsFraction(depth: nat, min: real, max: real, gas: Gas, p: real,
                            partialPressure: (nat, real) -> real)
    requires 0.0 < p
    requires partialPressure(depth, gas.FrO2()) == p * gas.FrO2()
    ensures GasInPpo2Range(depth, min, max, gas, partialPressure)
            <==> (min / p <= gas.FrO2() <= max / p)
  {
    var f := gas.FrO2();
    assert min <= p * f <==> min / p <= f by {
      assert (p * f) / p == f;
      if min <= p * f { assert min / p <= (p * f) / p; }
      if min / p <= f { assert p * (min / p) <= p * f; }
    }
    assert p * f <= max <==> f <= max / p by {
      assert (p * f) / p == f;
      if p * f <= max { assert (p * f) / p <= max / p; }
      if f <= max / p { assert p * f <= p * (max / p); }
    }
  }

  /** A gas fit for the dive phase is fit for the deco phase. */
  lemma DiveRangeWithinDecoRange(depth: nat, gas: Gas, partialPressure: (nat, real) -> real)
    ensures GasInPpo2Range(depth, PPO2_MINIMUM, PPO2_MAXIMUM_DIVE, gas, partialPressure)
            ==> GasInPpo2Range(depth, PPO2_MINIMUM, PPO2_MAXIMUM_DECO, gas, partialPressure)
  {
    Ppo2RangeWidens(depth, PPO2_MINIMUM, PPO2_MAXIMUM_DIVE, PPO2_MINIMUM, PPO2_MAXIMUM_DECO, gas, partialPressure);
  }
}
