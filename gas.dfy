/** The breathing-gas value type (src/common/gas.rs): a validated triple of
    whole percentages of oxygen, helium and nitrogen. */
module Gases {
  import opened Numeric

  datatype GasError = FractionError

  datatype Result<T> = Ok(value: T) | Err(error: GasError)

  /** A gas mixture. Equality is structural on the three percentages, which is
      what lets a gas serve as a key of the planner's consumption map. */
  datatype Gas = Gas(o2: nat, he: nat, n2: nat)
  {
    /** What `Gas::new` checks: the percentages add up to exactly 100. */
    predicate Valid()
    {
      o2 + he + n2 == 100
    }

    function FrO2(): real { o2 as real / 100.0 }

    function FrHe(): real { he as real / 100.0 }

    function FrN2(): real { n2 as real / 100.0 }

    /** Equivalent narcotic depth: `((depth + 10) * (1 - fr_he) - 10) as usize`;
        a negative intermediate value saturates to 0 in the cast. */
    function EquivalentNarcoticDepth(depth: nat): nat
    {
      ToUsize(EndFormula(depth, FrHe()))
    }
  }

  /** Helium is the only non-narcotic part, so END never exceeds the depth,
      and without helium it is the depth itself. */
  lemma EndAtMostDepth(g: Gas, depth: nat)
    ensures g.EquivalentNarcoticDepth(depth) <= depth
    ensures g.he == 0 && depth <= USIZE_MAX ==> g.EquivalentNarcoticDepth(depth) == depth
  {
    EndFormulaBound(depth, g.FrHe());
    ToUsizeMonotonic(EndFormula(depth, g.FrHe()), depth as real);
    if depth <= USIZE_MAX {
      ToUsizeOfWhole(depth);
    }
  }

  /** The END formula before the cast: `(depth + 10) * (1 - fr_he) - 10`. */
  function EndFormula(depth: nat, frHe: real): real
  {
    (depth + 10) as real * (1.0 - frHe) - 10.0
  }

  /** The END formula is at most the depth when the helium fraction is
      non-negative, and is the depth itself without helium. */
  lemma EndFormulaBound(depth: nat, frHe: real)
    requires 0.0 <= frHe
    ensures EndFormula(depth, frHe) <= depth as real
    ensures frHe == 0.0 ==> EndFormula(depth, frHe) == depth as real
  {
    ProductNonNegative((depth + 10) as real, frHe);
  }

  /** `Gas::new`: fails with `FractionError` unless the percentages add up to 100. */
  function New(o2: nat, he: nat, n2: nat): (r: Result<Gas>)
    ensures r.Ok? <==> o2 + he + n2 == 100
    ensures r.Ok? ==> r.value.Valid() && r.value.o2 == o2 && r.value.he == he && r.value.n2 == n2
    ensures r.Err? ==> r.error == FractionError
  {
    if o2 + he + n2 != 100 then Err(FractionError) else Ok(Gas(o2, he, n2))
  }

  /** The `gas!(o2, he)` macro: `Gas::new(o2, he, 100 - o2 - he).unwrap()`.
      `None` stands for the panic of the underflowing `usize` subtraction. */
  function FromO2He(o2: nat, he: nat): (r: Option<Gas>)
    ensures r.Some? <==> o2 + he <= 100
    ensures r.Some? ==> r.value.Valid() && r.value == Gas(o2, he, 100 - o2 - he)
  {
    if o2 > 100 || o2 + he > 100 then None
    else
      match New(o2, he, 100 - o2 - he)
      case Ok(g) => Some(g)
      case Err(_) => None
  }

  /** Every valid gas is rebuilt by `Gas::new` from its own accessors. */
  lemma NewRoundTrip(g: Gas)
    requires g.Valid()
    ensures New(g.o2, g.he, g.n2) == Ok(g)
  {
  }

  /** The fractions of a valid gas lie in [0, 1] and add up to 1. */
  lemma FractionsOfValidGas(g: Gas)
    requires g.Valid()
    ensures 0.0 <= g.FrO2() <= 1.0 && 0.0 <= g.FrHe() <= 1.0 && 0.0 <= g.FrN2() <= 1.0
    ensures g.FrO2() + g.FrHe() + g.FrN2() == 1.0
    ensures ValidPp(g.FrO2()) && ValidPp(g.FrHe()) && ValidPp(g.FrN2())
  {
  }

  /** END does not grow as the helium share grows. */
  lemma EndNonIncreasingInHelium(g1: Gas, g2: Gas, depth: nat)
    requires g1.he <= g2.he
    ensures g2.EquivalentNarcoticDepth(depth) <= g1.EquivalentNarcoticDepth(depth)
  {
    var d := (depth + 10) as real;
    assert EndFormula(depth, g2.FrHe()) <= EndFormula(depth, g1.FrHe()) by {
      assert EndFormula(depth, g1.FrHe()) - EndFormula(depth, g2.FrHe()) == d * (g2.FrHe() - g1.FrHe());
      ProductNonNegative(d, g2.FrHe() - g1.FrHe());
    }
    ToUsizeMonotonic(EndFormula(depth, g2.FrHe()), EndFormula(depth, g1.FrHe()));
  }

  /** `Gas::partial_pressure`: ambient pressure at the depth times the fraction.
      The depth-to-bar conversion `mtr_bar` is a parameter. */
  function PartialPressure(depth: nat, fr: real, metresPerBar: real, mtrBar: (real, real) -> real): real
  {
    mtrBar(depth as real, metresPerBar) * fr
  }

  /** Dalton's law for a valid gas: its three partial pressures make up the
      ambient pressure. */
  lemma PartialPressuresAddUp(g: Gas, depth: nat, metresPerBar: real, mtrBar: (real, real) -> real)
    requires g.Valid()
    ensures PartialPressure(depth, g.FrO2(), metresPerBar, mtrBar)
          + PartialPressure(depth, g.FrHe(), metresPerBar, mtrBar)
          + PartialPressure(depth, g.FrN2(), metresPerBar, mtrBar)
         == mtrBar(depth as real, metresPerBar)
  {
    var p := mtrBar(depth as real, metresPerBar);
    assert p * g.FrO2() + p * g.FrHe() + p * g.FrN2() == p * (g.FrO2() + g.FrHe() + g.FrN2());
    FractionsOfValidGas(g);
  }

  /** `valid_pp`: a partial pressure (as a fraction of one bar) is in [0, 1]. */
  predicate ValidPp(pp: real)
  {
    0.0 <= pp && pp <= 1.0
  }
}
