/** The expression-level part of the Bühlmann ZHL-16 engine
    (src/deco/zhl16/mod.rs): the value of an engine, gradient-factor
    selection, blended A/B values, compartment ceilings and their maximum,
    and the tissue-loading updates as functions of that value. The class that
    updates the tissue arrays in place is in module Zhl16Engine. */
module Zhl16 {
  import opened Numeric
  import opened Gases
  import opened Segments

  const TISSUE_COUNT: nat := 16

  /** `first_deco_depth` before any decompression stop: `usize::MAX`. */
  const UNSET: nat := USIZE_MAX

  /** The f64 values of `core::f64::consts::LN_2` and `E`. */
  const LN_2: real := 0.6931471805599453
  const E: real := 2.718281828459045

  /** Routines the engine calls that are not part of this model: the f64 power
      function, the depth/pressure conversions of `common`, the water-vapour
      constant of `deco`, and `common::time_taken` (in seconds). */
  datatype Platform = Platform(
    pow: (real, real) -> real,
    mtrBar: (real, real) -> real,
    barMtr: (real, real) -> real,
    waterVapourPressure: real,
    timeTaken: (int, nat, nat) -> nat)

  /** The tissue model: per-compartment nitrogen, helium and combined pressure. */
  datatype Tissue = Tissue(pN2: seq<real>, pHe: seq<real>, pT: seq<real>)
  {
    predicate WellFormed()
    {
      |pN2| == TISSUE_COUNT && |pHe| == TISSUE_COUNT && |pT| == TISSUE_COUNT
    }

    /** The combined pressure of every compartment is its nitrogen plus its helium. */
    predicate Consistent()
      requires WellFormed()
    {
      forall i :: 0 <= i < TISSUE_COUNT ==> pT[i] == pN2[i] + pHe[i]
    }
  }

  /** The value of a `ZHL16` (the struct is `Copy`; every look-ahead works on a copy). */
  datatype Snapshot = Snapshot(
    tissue: Tissue,
    diverDepth: nat,
    n2A: seq<real>,
    n2B: seq<real>,
    n2Hl: seq<real>,
    heA: seq<real>,
    heB: seq<real>,
    heHl: seq<real>,
    firstDecoDepth: nat,
    gfLow: real,
    gfHigh: real)
  {
    /** The fixed-size arrays of the struct all have sixteen entries. */
    predicate WellFormed()
    {
      && tissue.WellFormed()
      && |n2A| == TISSUE_COUNT && |n2B| == TISSUE_COUNT && |n2Hl| == TISSUE_COUNT
      && |heA| == TISSUE_COUNT && |heB| == TISSUE_COUNT && |heHl| == TISSUE_COUNT
    }

    /** Everything but the tissue, the diver's depth and the latch is as in `s`. */
    predicate SameSettings(s: Snapshot)
    {
      this == s.(tissue := tissue, diverDepth := diverDepth, firstDecoDepth := firstDecoDepth)
    }
  }

  // ---------------------------------------------------------------------------
  // Gradient factors

  /** `gf_at_depth`: gf_high before decompression has started and at the
      surface; otherwise the straight line from gf_high at the surface to
      gf_low at the first stop, which it meets exactly there. */
  function GfAtDepth(s: Snapshot, depth: nat): (gf: real)
    ensures s.firstDecoDepth == UNSET || depth == 0 ==> gf == s.gfHigh
    ensures s.firstDecoDepth != UNSET && 0 < depth == s.firstDecoDepth ==> gf == s.gfLow
  {
    if s.firstDecoDepth != UNSET then
      if depth > 0 then
        var f := s.firstDecoDepth as real;
        var slope := Div(s.gfHigh - s.gfLow, 0.0 - f);
        assert depth == s.firstDecoDepth ==> slope * depth as real == s.gfLow - s.gfHigh by {
          if depth == s.firstDecoDepth {
            assert f != 0.0;
            assert slope == (s.gfHigh - s.gfLow) / (0.0 - f);
          }
        }
        s.gfHigh + slope * depth as real
      else
        s.gfHigh
    else
      s.gfHigh
  }

  /** Between the surface and the first stop the interpolated factor lies
      between gf_low and gf_high. */
  lemma GfAtDepthBetween(s: Snapshot, depth: nat)
    requires s.firstDecoDepth != UNSET && 0 < s.firstDecoDepth
    requires depth <= s.firstDecoDepth
    requires s.gfLow <= s.gfHigh
    ensures s.gfLow <= GfAtDepth(s, depth) <= s.gfHigh
  {
    if depth > 0 {
      var f := s.firstDecoDepth as real;
      var d := depth as real;
      var delta := s.gfHigh - s.gfLow;
      assert Div(delta, 0.0 - f) == -(delta / f);
      assert GfAtDepth(s, depth) == s.gfHigh - (delta / f) * d;
      assert 0.0 <= delta / f;
      assert (delta / f) * d <= (delta / f) * f by {
        assert (delta / f) * f - (delta / f) * d == (delta / f) * (f - d);
      }
      assert (delta / f) * f == delta;
    }
  }

  /** The factor `find_ascent_ceiling` uses: the override when there is one,
      else `gf_at_depth(first_deco_depth)` once a stop is latched and gf_low
      before that. Without an override this is always gf_low, except when the
      latch holds depth 0, where it is gf_high. */
  function CeilingGf(s: Snapshot, gfOverride: Option<real>): (gf: real)
    ensures gfOverride.Some? ==> gf == gfOverride.value
    ensures gfOverride.None? ==> gf == if s.firstDecoDepth == 0 then s.gfHigh else s.gfLow
  {
    match gfOverride
    case Some(t) => t
    case None =>
      if s.firstDecoDepth != UNSET then GfAtDepth(s, s.firstDecoDepth) else s.gfLow
  }

  // ---------------------------------------------------------------------------
  // Compartment ceilings

  /** A pressure-weighted mix of a nitrogen and a helium coefficient. */
  function Blend(vN2: real, wN2: real, vHe: real, wHe: real): real
  {
    Div(vN2 * wN2 + vHe * wHe, wN2 + wHe)
  }

  /** A blend with non-negative weights stays within any bounds both
      coefficients respect, and a helium-free compartment takes the nitrogen
      coefficient. */
  lemma BlendWithin(lo: real, hi: real, vN2: real, wN2: real, vHe: real, wHe: real)
    requires 0.0 <= wN2 && 0.0 <= wHe && 0.0 < wN2 + wHe
    requires lo <= vN2 <= hi && lo <= vHe <= hi
    ensures lo <= Blend(vN2, wN2, vHe, wHe) <= hi
    ensures wHe == 0.0 ==> Blend(vN2, wN2, vHe, wHe) == vN2
  {
    var w := wN2 + wHe;
    var n := vN2 * wN2 + vHe * wHe;
    assert Blend(vN2, wN2, vHe, wHe) == n / w;
    assert n - lo * w == (vN2 - lo) * wN2 + (vHe - lo) * wHe;
    assert hi * w - n == (hi - vN2) * wN2 + (hi - vHe) * wHe;
    ProductNonNegative(vN2 - lo, wN2);
    ProductNonNegative(vHe - lo, wHe);
    ProductNonNegative(hi - vN2, wN2);
    ProductNonNegative(hi - vHe, wHe);
    assert lo * w <= n <= hi * w;
    assert n / w * w == n;
  }

  /** `tissue_a_value`: the compartment's A-value weighted by its gas shares. */
  function TissueAValue(s: Snapshot, x: nat): real
    requires s.WellFormed() && x < TISSUE_COUNT
  {
    Blend(s.n2A[x], s.tissue.pN2[x], s.heA[x], s.tissue.pHe[x])
  }

  /** `tissue_b_value`: the compartment's B-value weighted by its gas shares. */
  function TissueBValue(s: Snapshot, x: nat): real
    requires s.WellFormed() && x < TISSUE_COUNT
  {
    Blend(s.n2B[x], s.tissue.pN2[x], s.heB[x], s.tissue.pHe[x])
  }

  /** `tissue_ceiling`: the tolerated ambient pressure of one compartment,
      `((pN2 + pHe) - a * gf) / (gf / b + 1 - gf)`. */
  function TissueCeiling(s: Snapshot, gf: real, x: nat, a: real, b: real): real
    requires s.WellFormed() && x < TISSUE_COUNT
  {
    CeilingFormula(s.tissue.pN2[x] + s.tissue.pHe[x], a, b, gf)
  }

  /** The Bühlmann tolerated-pressure formula with gradient factor `gf` for an
      inert-gas pressure `p`. */
  function CeilingFormula(p: real, a: real, b: real, gf: real): real
  {
    Div(p - a * gf, Div(gf, b) + 1.0 - gf)
  }

  /** The ceiling of compartment `x`, with its own blended A and B. */
  function CompartmentCeiling(s: Snapshot, gf: real, x: nat): real
    requires s.WellFormed() && x < TISSUE_COUNT
  {
    TissueCeiling(s, gf, x, TissueAValue(s, x), TissueBValue(s, x))
  }

  /** The left fold of `f64::max` over the ceilings of compartments
      `0 .. n - 1`. Starting from NaN, the first compartment wins the first
      step; afterwards a strictly larger ceiling replaces the running maximum. */
  function MaxCeiling(s: Snapshot, gf: real, n: nat): real
    requires s.WellFormed() && 1 <= n <= TISSUE_COUNT
  {
    if n == 1 then CompartmentCeiling(s, gf, 0)
    else
      var m := MaxCeiling(s, gf, n - 1);
      var c := CompartmentCeiling(s, gf, n - 1);
      if c > m then c else m
  }

  /** The fold is at least every ceiling it has seen and equals one of them. */
  lemma {:induction false} MaxCeilingIsMaximum(s: Snapshot, gf: real, n: nat)
    requires s.WellFormed() && 1 <= n <= TISSUE_COUNT
    ensures forall x :: 0 <= x < n ==> CompartmentCeiling(s, gf, x) <= MaxCeiling(s, gf, n)
    ensures exists x :: 0 <= x < n && MaxCeiling(s, gf, n) == CompartmentCeiling(s, gf, x)
  {
    if n == 1 {
      assert MaxCeiling(s, gf, 1) == CompartmentCeiling(s, gf, 0);
    } else {
      MaxCeilingIsMaximum(s, gf, n - 1);
      assert MaxCeiling(s, gf, n - 1) <= MaxCeiling(s, gf, n);
      assert CompartmentCeiling(s, gf, n - 1) <= MaxCeiling(s, gf, n);
      var x :| 0 <= x < n - 1 && MaxCeiling(s, gf, n - 1) == CompartmentCeiling(s, gf, x);
      if CompartmentCeiling(s, gf, n - 1) > MaxCeiling(s, gf, n - 1) {
        assert MaxCeiling(s, gf, n) == CompartmentCeiling(s, gf, n - 1);
      } else {
        assert MaxCeiling(s, gf, n) == CompartmentCeiling(s, gf, x);
      }
    }
  }

  /** Two engines whose compartment ceilings agree have the same fold. */
  lemma {:induction false} MaxCeilingAgrees(s: Snapshot, t: Snapshot, gf: real, n: nat)
    requires s.WellFormed() && t.WellFormed() && 1 <= n <= TISSUE_COUNT
    requires forall x :: 0 <= x < n ==> CompartmentCeiling(s, gf, x) == CompartmentCeiling(t, gf, x)
    ensures MaxCeiling(s, gf, n) == MaxCeiling(t, gf, n)
  {
    if n > 1 {
      MaxCeilingAgrees(s, t, gf, n - 1);
    }
  }

  /** `find_ascent_ceiling`: the fold over all sixteen compartment ceilings at
      the selected gradient factor. */
  function FindAscentCeiling(s: Snapshot, gfOverride: Option<real>): real
    requires s.WellFormed()
  {
    MaxCeiling(s, CeilingGf(s, gfOverride), TISSUE_COUNT)
  }

  /** The ascent ceiling is at least every compartment's ceiling and is
      reached by one of them. It is a function of the state alone, so asking
      twice gives the same answer. */
  lemma AscentCeilingIsMaximum(s: Snapshot, gfOverride: Option<real>)
    requires s.WellFormed()
    ensures forall x :: 0 <= x < TISSUE_COUNT ==>
      CompartmentCeiling(s, CeilingGf(s, gfOverride), x) <= FindAscentCeiling(s, gfOverride)
    ensures exists x ::
      && 0 <= x < TISSUE_COUNT
      && FindAscentCeiling(s, gfOverride) == CompartmentCeiling(s, CeilingGf(s, gfOverride), x)
  {
    MaxCeilingIsMaximum(s, CeilingGf(s, gfOverride), TISSUE_COUNT);
  }

  /** The model constants and tissue of compartment `x` are physically
      meaningful: non-negative A-values, B-values in (0, 1], non-negative
      inert-gas pressures, not both zero. */
  predicate PlausibleAt(s: Snapshot, x: nat)
    requires s.WellFormed() && x < TISSUE_COUNT
  {
    && 0.0 <= s.n2A[x] && 0.0 <= s.heA[x]
    && 0.0 < s.n2B[x] <= 1.0 && 0.0 < s.heB[x] <= 1.0
    && 0.0 <= s.tissue.pN2[x] && 0.0 <= s.tissue.pHe[x]
    && 0.0 < s.tissue.pN2[x] + s.tissue.pHe[x]
  }

  predicate Plausible(s: Snapshot)
    requires s.WellFormed()
  {
    forall x :: 0 <= x < TISSUE_COUNT ==> PlausibleAt(s, x)
  }

  /** The denominator of the ceiling formula is `1 + gf * (1/b - 1)`, at least 1. */
  lemma CeilingDenominator(b: real, gf: real)
    requires 0.0 < b <= 1.0 && 0.0 <= gf
    ensures Div(gf, b) + 1.0 - gf == 1.0 + gf * (1.0 / b - 1.0) >= 1.0
  {
    assert 1.0 / b >= 1.0 by {
      assert b * (1.0 / b) == 1.0;
    }
    assert gf / b == gf * (1.0 / b);
    ProductNonNegative(gf, 1.0 / b - 1.0);
  }

  /** A larger gradient factor never gives a compartment a deeper ceiling. */
  lemma TissueCeilingNonIncreasingInGf(p: real, a: real, b: real, g1: real, g2: real)
    requires 0.0 <= p && 0.0 <= a && 0.0 < b <= 1.0
    requires 0.0 <= g1 <= g2 <= 1.0
    ensures CeilingFormula(p, a, b, g2) <= CeilingFormula(p, a, b, g1)
  {
    var k := 1.0 / b - 1.0;
    CeilingDenominator(b, g1);
    CeilingDenominator(b, g2);
    var d1 := 1.0 + g1 * k;
    var d2 := 1.0 + g2 * k;
    assert 0.0 <= k;
    ProductNonNegative(p, k);
    ProductNonNegative(g2 - g1, p * k + a);
    CrossProductIdentity(p, a, k, g1, g2);
    CrossDivide(p - a * g2, d2, p - a * g1, d1);
    assert Div(g1, b) + 1.0 - g1 == d1;
    assert Div(g2, b) + 1.0 - g2 == d2;
    assert CeilingFormula(p, a, b, g1) == Div(p - a * g1, Div(g1, b) + 1.0 - g1);
    assert CeilingFormula(p, a, b, g2) == Div(p - a * g2, Div(g2, b) + 1.0 - g2);
  }

  lemma CrossProductIdentity(p: real, a: real, k: real, g1: real, g2: real)
    ensures (p - a * g1) * (1.0 + g2 * k) - (p - a * g2) * (1.0 + g1 * k) == (g2 - g1) * (p * k + a)
  {
  }

  /** `n2 / d2 <= n1 / d1` from `n2 * d1 <= n1 * d2` for positive divisors. */
  lemma CrossDivide(n2: real, d2: real, n1: real, d1: real)
    requires 0.0 < d1 && 0.0 < d2
    requires n2 * d1 <= n1 * d2
    ensures Div(n2, d2) <= Div(n1, d1)
  {
    var q1 := n1 / d1;
    var q2 := n2 / d2;
    assert n1 == q1 * d1 && n2 == q2 * d2;
    assert q2 * d2 * d1 <= q1 * d1 * d2;
    assert (q1 - q2) * (d1 * d2) >= 0.0;
    assert d1 * d2 > 0.0;
  }

  /** For a plausible compartment, a larger gradient factor never gives a
      deeper ceiling. */
  lemma CompartmentCeilingNonIncreasingInGf(s: Snapshot, x: nat, g1: real, g2: real)
    requires s.WellFormed() && x < TISSUE_COUNT && PlausibleAt(s, x)
    requires 0.0 <= g1 <= g2 <= 1.0
    ensures CompartmentCeiling(s, g2, x) <= CompartmentCeiling(s, g1, x)
  {
    var a := TissueAValue(s, x);
    var b := TissueBValue(s, x);
    var p := s.tissue.pN2[x] + s.tissue.pHe[x];
    assert CompartmentCeiling(s, g1, x) == CeilingFormula(p, a, b, g1);
    assert CompartmentCeiling(s, g2, x) == CeilingFormula(p, a, b, g2);
    assert 0.0 <= a && 0.0 < b <= 1.0 by {
      BlendWithin(0.0, if s.n2A[x] <= s.heA[x] then s.heA[x] else s.n2A[x],
        s.n2A[x], s.tissue.pN2[x], s.heA[x], s.tissue.pHe[x]);
      BlendWithin(if s.n2B[x] <= s.heB[x] then s.n2B[x] else s.heB[x], 1.0,
        s.n2B[x], s.tissue.pN2[x], s.heB[x], s.tissue.pHe[x]);
    }
    TissueCeilingNonIncreasingInGf(p, a, b, g1, g2);
  }

  /** For a plausible engine the ascent ceiling does not grow when the
      overriding gradient factor grows. */
  lemma AscentCeilingNonIncreasingInGf(s: Snapshot, g1: real, g2: real)
    requires s.WellFormed() && Plausible(s)
    requires 0.0 <= g1 <= g2 <= 1.0
    ensures FindAscentCeiling(s, Some(g2)) <= FindAscentCeiling(s, Some(g1))
  {
    AscentCeilingIsMaximum(s, Some(g1));
    AscentCeilingIsMaximum(s, Some(g2));
    var x :| 0 <= x < TISSUE_COUNT && FindAscentCeiling(s, Some(g2)) == CompartmentCeiling(s, g2, x);
    CompartmentCeilingNonIncreasingInGf(s, x, g1, g2);
  }

  /** Raising gf_low never deepens the ascent ceiling the stop search uses
      (that ceiling is taken at gf_low, or at gf_high, unchanged, when the
      latch holds depth 0). */
  lemma AscentCeilingNonIncreasingInGfLow(s: Snapshot, gfLow': real)
    requires s.WellFormed() && Plausible(s)
    requires 0.0 <= s.gfLow <= gfLow' <= 1.0
    ensures FindAscentCeiling(s.(gfLow := gfLow'), None) <= FindAscentCeiling(s, None)
  {
    var s' := s.(gfLow := gfLow');
    if s.firstDecoDepth == 0 {
      assert CeilingGf(s', None) == CeilingGf(s, None) == s.gfHigh;
      assert s'.tissue == s.tissue && s'.n2A == s.n2A && s'.n2B == s.n2B && s'.heA == s.heA && s'.heB == s.heB;
      assert forall x :: 0 <= x < TISSUE_COUNT ==> CompartmentCeiling(s', s.gfHigh, x) == CompartmentCeiling(s, s.gfHigh, x);
      MaxCeilingAgrees(s', s, s.gfHigh, TISSUE_COUNT);
      return;
    }
    AscentCeilingIsMaximum(s, None);
    AscentCeilingIsMaximum(s', None);
    var x :| 0 <= x < TISSUE_COUNT && FindAscentCeiling(s', None) == CompartmentCeiling(s', gfLow', x);
    assert s'.tissue == s.tissue && s'.n2A == s.n2A && s'.n2B == s.n2B && s'.heA == s.heA && s'.heB == s.heB;
    assert TissueAValue(s', x) == TissueAValue(s, x) && TissueBValue(s', x) == TissueBValue(s, x);
    assert CompartmentCeiling(s', gfLow', x) == CompartmentCeiling(s, gfLow', x);
    CompartmentCeilingNonIncreasingInGf(s, x, s.gfLow, gfLow');
  }

  // ---------------------------------------------------------------------------
  // Tissue loading

  /** `compensated_pressure`: ambient pressure at the depth less the
      water-vapour pressure in the lungs. */
  function CompensatedPressure(depth: nat, metresPerBar: real, env: Platform): real
  {
    env.mtrBar(depth as real, metresPerBar) - env.waterVapourPressure
  }

  /** `depth_change_loading`, the Schreiner equation, with `powf64(E, x)` as the
      platform's power function. */
  function DepthChangeLoading(env: Platform, time: real, initialPressure: real,
                              initialAmbientPressure: real, r: real, k: real): real
  {
    initialAmbientPressure + r * (time - Div(1.0, k))
      - (initialAmbientPressure - initialPressure - Div(r, k)) * env.pow(E, -1.0 * k * time)
  }

  /** The Haldane update of `add_bottom_segment` for one compartment:
      `po + (pi - po) * (1 - 2^(-minutes / half_life))`. */
  function HaldaneLoading(env: Platform, po: real, pi: real, minutes: nat, halfLife: real): real
  {
    po + (pi - po) * (1.0 - env.pow(2.0, Div(-1.0 * minutes as real, halfLife)))
  }

  /** The rate `add_depth_change` uses: descent rate when going deeper, ascent
      rate otherwise. */
  function SegmentRate(seg: DiveSegment): int
  {
    if seg.endDepth as int - seg.startDepth as int > 0 then seg.descentRate else seg.ascentRate
  }

  /** A segment's duration in (fractional) minutes, as the depth-change update takes it. */
  function SegmentMinutes(seg: DiveSegment): real
  {
    seg.time as real / 60.0
  }

  /** The inspired partial pressure of a gas component at a depth. */
  function InspiredPressure(depth: nat, fr: real, metresPerBar: real, env: Platform): real
  {
    CompensatedPressure(depth, metresPerBar, env) * fr
  }

  /** The rate of change of a component's inspired pressure over a depth change. */
  function ComponentRate(seg: DiveSegment, fr: real): real
  {
    (SegmentRate(seg) as real / 10.0) * fr
  }

  /** Nitrogen of compartment `i` after a depth change. */
  function DepthChangeN2(s: Snapshot, seg: DiveSegment, gas: Gas, metresPerBar: real, env: Platform, i: nat): real
    requires s.WellFormed() && i < TISSUE_COUNT
  {
    DepthChangeLoading(env, SegmentMinutes(seg), s.tissue.pN2[i],
      InspiredPressure(seg.startDepth, gas.FrN2(), metresPerBar, env),
      ComponentRate(seg, gas.FrN2()), Div(LN_2, s.n2Hl[i]))
  }

  /** Helium of compartment `i` after a depth change. */
  function DepthChangeHe(s: Snapshot, seg: DiveSegment, gas: Gas, metresPerBar: real, env: Platform, i: nat): real
    requires s.WellFormed() && i < TISSUE_COUNT
  {
    DepthChangeLoading(env, SegmentMinutes(seg), s.tissue.pHe[i],
      InspiredPressure(seg.startDepth, gas.FrHe(), metresPerBar, env),
      ComponentRate(seg, gas.FrHe()), Div(LN_2, s.heHl[i]))
  }

  /** Nitrogen of compartment `i` after a constant-depth segment; the duration
      is cut to whole minutes. */
  function BottomN2(s: Snapshot, seg: DiveSegment, gas: Gas, metresPerBar: real, env: Platform, i: nat): real
    requires s.WellFormed() && i < TISSUE_COUNT
  {
    HaldaneLoading(env, s.tissue.pN2[i], InspiredPressure(seg.endDepth, gas.FrN2(), metresPerBar, env),
      seg.time / 60, s.n2Hl[i])
  }

  /** Helium of compartment `i` after a constant-depth segment. */
  function BottomHe(s: Snapshot, seg: DiveSegment, gas: Gas, metresPerBar: real, env: Platform, i: nat): real
    requires s.WellFormed() && i < TISSUE_COUNT
  {
    HaldaneLoading(env, s.tissue.pHe[i], InspiredPressure(seg.endDepth, gas.FrHe(), metresPerBar, env),
      seg.time / 60, s.heHl[i])
  }

  /** A tissue whose combined pressures are the sums of the given ones. */
  function Combine(n2: seq<real>, he: seq<real>): (t: Tissue)
    requires |n2| == TISSUE_COUNT && |he| == TISSUE_COUNT
    ensures t.WellFormed() && t.Consistent() && t.pN2 == n2 && t.pHe == he
  {
    Tissue(n2, he, seq(TISSUE_COUNT, i requires 0 <= i < TISSUE_COUNT => n2[i] + he[i]))
  }

  /** `add_depth_change`: Schreiner update of every compartment, combined
      pressures recomputed, diver moved to the segment's end depth. */
  function AddDepthChange(s: Snapshot, seg: DiveSegment, gas: Gas, metresPerBar: real, env: Platform): (r: Snapshot)
    requires s.WellFormed()
    ensures r.WellFormed() && r.tissue.Consistent()
    ensures r.diverDepth == seg.endDepth && r.firstDecoDepth == s.firstDecoDepth && r.SameSettings(s)
  {
    var n2 := seq(TISSUE_COUNT, i requires 0 <= i < TISSUE_COUNT => DepthChangeN2(s, seg, gas, metresPerBar, env, i));
    var he := seq(TISSUE_COUNT, i requires 0 <= i < TISSUE_COUNT => DepthChangeHe(s, seg, gas, metresPerBar, env, i));
    s.(tissue := Combine(n2, he), diverDepth := seg.endDepth)
  }

  /** Compartment by compartment, the loadings `AddDepthChange` computes. */
  lemma AddDepthChangeLoads(s: Snapshot, seg: DiveSegment, gas: Gas, metresPerBar: real, env: Platform)
    requires s.WellFormed()
    ensures forall i :: 0 <= i < TISSUE_COUNT ==>
      AddDepthChange(s, seg, gas, metresPerBar, env).tissue.pN2[i] == DepthChangeN2(s, seg, gas, metresPerBar, env, i)
      && AddDepthChange(s, seg, gas, metresPerBar, env).tissue.pHe[i] == DepthChangeHe(s, seg, gas, metresPerBar, env, i)
  {
  }

  /** `add_bottom_segment`: Haldane update of every compartment at the
      segment's end depth, combined pressures recomputed, diver moved there. */
  function AddBottomSegment(s: Snapshot, seg: DiveSegment, gas: Gas, metresPerBar: real, env: Platform): (r: Snapshot)
    requires s.WellFormed()
    ensures r.WellFormed() && r.tissue.Consistent()
    ensures r.diverDepth == seg.endDepth && r.firstDecoDepth == s.firstDecoDepth && r.SameSettings(s)
  {
    var n2 := seq(TISSUE_COUNT, i requires 0 <= i < TISSUE_COUNT => BottomN2(s, seg, gas, metresPerBar, env, i));
    var he := seq(TISSUE_COUNT, i requires 0 <= i < TISSUE_COUNT => BottomHe(s, seg, gas, metresPerBar, env, i));
    s.(tissue := Combine(n2, he), diverDepth := seg.endDepth)
  }

  /** Compartment by compartment, the loadings `AddBottomSegment` computes. */
  lemma AddBottomSegmentLoads(s: Snapshot, seg: DiveSegment, gas: Gas, metresPerBar: real, env: Platform)
    requires s.WellFormed()
    ensures forall i :: 0 <= i < TISSUE_COUNT ==>
      AddBottomSegment(s, seg, gas, metresPerBar, env).tissue.pN2[i] == BottomN2(s, seg, gas, metresPerBar, env, i)
      && AddBottomSegment(s, seg, gas, metresPerBar, env).tissue.pHe[i] == BottomHe(s, seg, gas, metresPerBar, env, i)
  {
  }

  /** `x` lies between `a` and `b`, whichever is the larger. */
  predicate Between(a: real, x: real, b: real)
  {
    (a <= b ==> a <= x <= b) && (b <= a ==> b <= x <= a)
  }

  /** With a decay factor in [0, 1], the Haldane update moves a compartment
      towards the inspired pressure and never past it. */
  lemma HaldaneLoadingBetween(env: Platform, po: real, pi: real, minutes: nat, halfLife: real)
    requires 0.0 <= env.pow(2.0, Div(-1.0 * minutes as real, halfLife)) <= 1.0
    ensures Between(po, HaldaneLoading(env, po, pi, minutes, halfLife), pi)
  {
    var f := 1.0 - env.pow(2.0, Div(-1.0 * minutes as real, halfLife));
    assert HaldaneLoading(env, po, pi, minutes, halfLife) == po + (pi - po) * f;
    if po <= pi {
      ProductNonNegative(pi - po, f);
      ProductNonNegative(pi - po, 1.0 - f);
      assert (pi - po) * f == (pi - po) - (pi - po) * (1.0 - f);
    } else {
      ProductNonNegative(po - pi, f);
      ProductNonNegative(po - pi, 1.0 - f);
      assert (pi - po) * f == -((po - pi) * f);
      assert (po - pi) * f == (po - pi) - (po - pi) * (1.0 - f);
    }
  }

  /** For positive half-lives and a power function with `2^x` in [0, 1] for
      x <= 0, a constant-depth segment leaves every compartment's nitrogen
      and helium between its old value and the inspired pressure at the
      segment's depth: the tissue approaches the breathed gas and does not
      overshoot it. */
  lemma BottomSegmentApproachesInspired(s: Snapshot, seg: DiveSegment, gas: Gas, metresPerBar: real, env: Platform)
    requires s.WellFormed()
    requires forall x: real :: x <= 0.0 ==> 0.0 <= env.pow(2.0, x) <= 1.0
    requires forall i :: 0 <= i < TISSUE_COUNT ==> 0.0 < s.n2Hl[i] && 0.0 < s.heHl[i]
    ensures var r := AddBottomSegment(s, seg, gas, metresPerBar, env);
      forall i :: 0 <= i < TISSUE_COUNT ==>
        && Between(s.tissue.pN2[i], r.tissue.pN2[i], InspiredPressure(seg.endDepth, gas.FrN2(), metresPerBar, env))
        && Between(s.tissue.pHe[i], r.tissue.pHe[i], InspiredPressure(seg.endDepth, gas.FrHe(), metresPerBar, env))
  {
    var r := AddBottomSegment(s, seg, gas, metresPerBar, env);
    AddBottomSegmentLoads(s, seg, gas, metresPerBar, env);
    var m := seg.time / 60;
    forall i | 0 <= i < TISSUE_COUNT
      ensures Between(s.tissue.pN2[i], r.tissue.pN2[i], InspiredPressure(seg.endDepth, gas.FrN2(), metresPerBar, env))
      ensures Between(s.tissue.pHe[i], r.tissue.pHe[i], InspiredPressure(seg.endDepth, gas.FrHe(), metresPerBar, env))
    {
      assert Div(-1.0 * m as real, s.n2Hl[i]) <= 0.0;
      assert Div(-1.0 * m as real, s.heHl[i]) <= 0.0;
      HaldaneLoadingBetween(env, s.tissue.pN2[i], InspiredPressure(seg.endDepth, gas.FrN2(), metresPerBar, env), m, s.n2Hl[i]);
      HaldaneLoadingBetween(env, s.tissue.pHe[i], InspiredPressure(seg.endDepth, gas.FrHe(), metresPerBar, env), m, s.heHl[i]);
    }
  }

  /** `update_first_deco_depth`: sets the latch only while it is unset. */
  function UpdateFirstDecoDepth(s: Snapshot, decoDepth: nat): Snapshot
  {
    if s.firstDecoDepth == UNSET then s.(firstDecoDepth := decoDepth) else s
  }

  /** `add_segment`: a depth change for `AscDesc`; otherwise a constant-depth
      update, after which a `DecoStop` latches its start depth if no stop was
      latched before. Combined pressures stay the sums, the diver ends at the
      segment's end depth, and constants and gradient factors are untouched. */
  function AddSegment(s: Snapshot, seg: DiveSegment, gas: Gas, metresPerBar: real, env: Platform): (r: Snapshot)
    requires s.WellFormed()
    ensures r.WellFormed() && r.tissue.Consistent() && r.SameSettings(s)
    ensures r.diverDepth == seg.endDepth
    ensures r.firstDecoDepth
      == if seg.kind == DecoStop && s.firstDecoDepth == UNSET then seg.startDepth else s.firstDecoDepth
  {
    match seg.kind
    case AscDesc => AddDepthChange(s, seg, gas, metresPerBar, env)
    case DecoStop => UpdateFirstDecoDepth(AddBottomSegment(s, seg, gas, metresPerBar, env), seg.startDepth)
    case _ => AddBottomSegment(s, seg, gas, metresPerBar, env)
  }

  /** A segment that is not a depth change and lasts under a minute leaves
      nitrogen and helium as they were, given only that `2^0 == 1`. */
  lemma ShortSegmentKeepsTissue(s: Snapshot, seg: DiveSegment, gas: Gas, metresPerBar: real, env: Platform)
    requires s.WellFormed()
    requires env.pow(2.0, 0.0) == 1.0
    requires seg.kind != AscDesc && seg.time < 60
    ensures AddSegment(s, seg, gas, metresPerBar, env).tissue.pN2 == s.tissue.pN2
    ensures AddSegment(s, seg, gas, metresPerBar, env).tissue.pHe == s.tissue.pHe
  {
    var r := AddSegment(s, seg, gas, metresPerBar, env);
    assert seg.time / 60 == 0;
    forall i | 0 <= i < TISSUE_COUNT
      ensures r.tissue.pN2[i] == s.tissue.pN2[i] && r.tissue.pHe[i] == s.tissue.pHe[i]
    {
      assert Div(-1.0 * 0 as real, s.n2Hl[i]) == 0.0;
      assert Div(-1.0 * 0 as real, s.heHl[i]) == 0.0;
      assert BottomN2(s, seg, gas, metresPerBar, env, i) == s.tissue.pN2[i];
      assert BottomHe(s, seg, gas, metresPerBar, env, i) == s.tissue.pHe[i];
    }
  }

  /** The engine state after a sequence of segments, each on its own gas. */
  function ApplySegments(s: Snapshot, steps: seq<(DiveSegment, Gas)>, metresPerBar: real, env: Platform): (r: Snapshot)
    requires s.WellFormed()
    ensures r.WellFormed()
    decreases |steps|
  {
    if steps == [] then s
    else ApplySegments(AddSegment(s, steps[0].0, steps[0].1, metresPerBar, env), steps[1..], metresPerBar, env)
  }

  /** The ascent ceiling a look-ahead reads once the steps have been added in
      order. */
  function CeilingAfter(s: Snapshot, steps: seq<(DiveSegment, Gas)>, gfOverride: Option<real>,
                        metresPerBar: real, env: Platform): real
    requires s.WellFormed()
    decreases |steps|
  {
    if steps == [] then FindAscentCeiling(s, gfOverride)
    else CeilingAfter(AddSegment(s, steps[0].0, steps[0].1, metresPerBar, env), steps[1..], gfOverride, metresPerBar, env)
  }

  /** That ceiling is the ascent ceiling of the state the steps lead to. */
  lemma {:induction false} CeilingAfterApplies(s: Snapshot, steps: seq<(DiveSegment, Gas)>, gfOverride: Option<real>,
                                               metresPerBar: real, env: Platform)
    requires s.WellFormed()
    ensures CeilingAfter(s, steps, gfOverride, metresPerBar, env)
         == FindAscentCeiling(ApplySegments(s, steps, metresPerBar, env), gfOverride)
    decreases |steps|
  {
    if steps != [] {
      CeilingAfterApplies(AddSegment(s, steps[0].0, steps[0].1, metresPerBar, env), steps[1..], gfOverride, metresPerBar, env);
    }
  }

  /** Once a first deco depth is latched, no sequence of segments changes it. */
  lemma {:induction false} LatchIsSticky(s: Snapshot, steps: seq<(DiveSegment, Gas)>, metresPerBar: real, env: Platform)
    requires s.WellFormed() && s.firstDecoDepth != UNSET
    ensures ApplySegments(s, steps, metresPerBar, env).firstDecoDepth == s.firstDecoDepth
    decreases |steps|
  {
    if steps != [] {
      LatchIsSticky(AddSegment(s, steps[0].0, steps[0].1, metresPerBar, env), steps[1..], metresPerBar, env);
    }
  }

  /** The start depth of the first `DecoStop` among the steps, `UNSET` if none. */
  function FirstStopDepth(steps: seq<(DiveSegment, Gas)>): nat
  {
    if steps == [] then UNSET
    else if steps[0].0.kind == DecoStop then steps[0].0.startDepth
    else FirstStopDepth(steps[1..])
  }

  /** From an unlatched engine, the latch ends up holding the start depth of the
      first deco stop and nothing later, or stays unset without one (no stop
      lies at the sentinel depth itself). */
  lemma {:induction false} LatchHoldsFirstStop(s: Snapshot, steps: seq<(DiveSegment, Gas)>, metresPerBar: real, env: Platform)
    requires s.WellFormed() && s.firstDecoDepth == UNSET
    requires forall i :: 0 <= i < |steps| ==> steps[i].0.startDepth < UNSET
    ensures ApplySegments(s, steps, metresPerBar, env).firstDecoDepth == FirstStopDepth(steps)
    decreases |steps|
  {
    if steps != [] {
      var s' := AddSegment(s, steps[0].0, steps[0].1, metresPerBar, env);
      if steps[0].0.kind == DecoStop {
        LatchIsSticky(s', steps[1..], metresPerBar, env);
      } else {
        LatchHoldsFirstStop(s', steps[1..], metresPerBar, env);
      }
    }
  }

  // ---------------------------------------------------------------------------
  // Stop and no-decompression-limit searches

  /** `(3.0 * ceilf64(c / 3.0)) as usize`: a depth rounded up to a multiple
      of 3, so within range it is at least `c` and less than one 3-unit step
      deeper. */
  function RoundUpToStop(c: real): (d: nat)
    ensures d % 3 == 0
    ensures 0.0 <= c && c + 3.0 <= USIZE_MAX as real ==> c <= d as real < c + 3.0
  {
    var k := Ceil(c / 3.0);
    var x := 3.0 * k as real;
    assert x == (3 * k) as real;
    assert 0.0 < x ==> x.Floor == 3 * k;
    assert 0.0 <= c && c + 3.0 <= USIZE_MAX as real ==> ToUsize(x) == 3 * k by {
      if 0.0 <= c && c + 3.0 <= USIZE_MAX as real {
        assert c <= x < c + 3.0;
        ToUsizeOfWhole(3 * k);
      }
    }
    ToUsize(x)
  }

  /** The stop depth of `next_stop`: the ascent ceiling (at the default
      gradient factor) as a depth, rounded up to a multiple of 3. */
  function StopDepth(s: Snapshot, metresPerBar: real, env: Platform): (d: nat)
    requires s.WellFormed()
    ensures d % 3 == 0
    ensures var c := env.barMtr(FindAscentCeiling(s, None), metresPerBar);
      0.0 <= c && c + 3.0 <= USIZE_MAX as real ==> c <= d as real < c + 3.0
  {
    RoundUpToStop(env.barMtr(FindAscentCeiling(s, None), metresPerBar))
  }

  /** The transit `next_stop` simulates from the diver's depth to the stop. */
  function TransitTo(s: Snapshot, stopDepth: nat, ascentRate: int, descentRate: int, env: Platform): DiveSegment
  {
    DiveSegment(AscDesc, s.diverDepth, stopDepth, env.timeTaken(ascentRate, s.diverDepth, stopDepth), ascentRate, descentRate)
  }

  /** The stop of `minutes` whole minutes at `stopDepth`. */
  function StopOf(stopDepth: nat, minutes: nat, ascentRate: int, descentRate: int): DiveSegment
  {
    DiveSegment(DecoStop, stopDepth, stopDepth, minutes * 60, ascentRate, descentRate)
  }

  /** The segments one trial of `next_stop` adds: the transit, when the diver
      is not already at the stop depth, then the stop itself. */
  function TrialSegments(s: Snapshot, stopDepth: nat, minutes: nat, ascentRate: int, descentRate: int,
                         gas: Gas, env: Platform): seq<(DiveSegment, Gas)>
  {
    (if s.diverDepth != stopDepth then [(TransitTo(s, stopDepth, ascentRate, descentRate, env), gas)] else [])
      + [(StopOf(stopDepth, minutes, ascentRate, descentRate), gas)]
  }

  /** A trial passes when, after its segments, the ceiling is shallower than
      the stop by one 3-unit step less one pressure unit. (The trial also
      latches the stop depth; after a deco stop at that depth the latch is
      already set, so the ceiling is the same.) */
  predicate StopClears(s: Snapshot, stopDepth: nat, minutes: nat, ascentRate: int, descentRate: int,
                       gas: Gas, metresPerBar: real, env: Platform)
    requires s.WellFormed()
  {
    CeilingAfter(s, TrialSegments(s, stopDepth, minutes, ascentRate, descentRate, gas, env), None, metresPerBar, env)
      < env.mtrBar(stopDepth as real, metresPerBar) - (env.mtrBar(3.0, metresPerBar) - 1.0)
  }

  /** The constant-depth segment of `minutes` minutes `ndl` tries. */
  function NdlSegment(s: Snapshot, minutes: nat): DiveSegment
  {
    DiveSegment(NoDeco, s.diverDepth, s.diverDepth, minutes * 60, 0, 0)
  }

  /** A trial of `ndl` passes when, after staying `minutes` more minutes, the
      ceiling at gf_high is below one bar, i.e. there is no obligation. */
  predicate WithinNdl(s: Snapshot, minutes: nat, gas: Gas, metresPerBar: real, env: Platform)
    requires s.WellFormed()
  {
    CeilingAfter(s, [(NdlSegment(s, minutes), gas)], Some(s.gfHigh), metresPerBar, env) < 1.0
  }
}
