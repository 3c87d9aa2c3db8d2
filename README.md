# capra-core ZHL-16 decompression core, modelled in Dafny

This project models the discrete logic of the Bühlmann ZHL-16 decompression
library `capra-core`:

- **Gas value type** (`Gases`, gas.dfy). A breathing gas is a triple of whole
  percentages of oxygen, helium and nitrogen.
  - `Gas::new` accepts it only when the percentages add up to 100.
  - The `gas!` macro derives the nitrogen share.
  - It has fraction accessors, the equivalent narcotic depth (END) with the
    saturating float-to-`usize` cast, and `valid_pp`.
- **Planner helpers** (`Planner`, planner.dfy): the three ppO2 limits, END
  and `gas_in_ppo2_range`.
- **ZHL-16 engine**, in two modules:
  - The value of an engine (`Zhl16.Snapshot`, zhl16.dfy) and every expression
    the engine evaluates: gradient-factor interpolation, blended A/B values,
    compartment ceilings, and the max-fold that gives the ascent ceiling. The
    module also holds the Schreiner and Haldane tissue updates, the
    `first_deco_depth` latch, segment-kind dispatch, and the trial conditions
    of the two searches.
  - The engine as an object (`Zhl16Engine.ZHL16`, zhl16_engine.dfy). The
    sixteen-entry tissue arrays are updated in place, one compartment at a
    time. The latch and the gradient factors are fields. `next_stop` and
    `ndl` are `while` loops over copies of the engine. Each method is proved
    to produce the value its `Zhl16` counterpart describes.
- **Open-circuit planner** (`OpenCircuitPlanner`, open_circuit.dfy):
  - `filter_gases` and `find_gas_switch_point`;
  - `level_to_level`, with its three-way depth comparison, its rewind and
    replay of the deeper stops, the switch stop on the new gas, and the
    recursion;
  - `plan`, which lays out the descent, every bottom segment with the link
    to the next one, and the final ascent, then sums consumption per gas
    into a map.

  The decompression algorithm is any state `S` with the three `DecoAlgorithm`
  operations the planner calls (`add_dive_segment`, `surface`, `get_stops`).

`f64` is modelled as Dafny's exact `real`. Routines outside the core are
parameters, held in `Zhl16.Platform` and `OpenCircuitPlanner.Collaborators`:

- the f64 power function;
- `mtr_bar` and `bar_mtr`;
- the water-vapour pressure;
- `time_taken`;
- `pp_o2` and `in_ppo2_range`;
- `gas_consumed`.

Properties of the power function appear only as lemma preconditions:
`2^0 == 1` in `Zhl16.ShortSegmentKeepsTissue`, and `0 <= 2^x <= 1` for
`x <= 0` in `Zhl16.BottomSegmentApproachesInspired`.

### Behaviour of the code that the model reproduces

- **Gradient factor of `find_ascent_ceiling(None)`.** Without an override it
  uses `gf_at_depth(first_deco_depth)` once the latch is set, which is exactly
  gf_low at a positive depth, and gf_low before that. The one exception is a
  latch set at depth 0, where the factor is gf_high (`Zhl16.CeilingGf`).
- **The END filter of `filter_gases` removes nothing.** END never exceeds the
  depth (`OpenCircuitPlanner.EndFilterKeepsAll`).
- **`filter_gases` sorts by ascending ppO2, not descending as its comment
  says.** So "the last candidate" is the richest gas, which is what
  `find_gas_switch_point` relies on (`OpenCircuitPlanner.LastIsRichest`).
- **The `ndl` cap is 999 seconds.** Once a thousand trials have passed, `ndl`
  returns a segment of 999 *seconds*, not minutes.
- **`next_stop` returns one minute more than the trial that cleared.** The
  counter is incremented after the passing trial, so the stop it returns is
  one minute longer than that trial.
- **The latch update after the stop inside the `next_stop` trial changes
  nothing.** `add_segment` of a deco stop has already latched the depth.
- **src/planner/mod.rs calls a two-argument `partial_pressure`.** That
  function is not part of this model, so `gas_in_ppo2_range` takes it as a
  parameter. The three-argument `Gas::partial_pressure` of gas.rs is modelled
  as written.

## Model

| member | source | states |
|---|---|---|
| Numeric.Ceil | src/deco/zhl16/mod.rs:293-296 | `ceilf64` of x is the integer c with x <= c < x + 1 |
| Numeric.ToUsize | src/common/gas.rs:62-64 | the f64-to-usize cast: never above usize::MAX; 0 for a non-positive value; otherwise the whole part below x, within one of x when x is in range |
| Numeric.ToUsizeMonotonic | src/common/gas.rs:62-64 | the cast preserves order |
| Numeric.ToUsizeOfWhole | src/common/gas.rs:62-64 | a whole number within usize range survives the cast unchanged |
| Gases.New | src/common/gas.rs:26-36 | Ok exactly when o2 + he + n2 == 100; on Ok the gas is valid and holds the three arguments unchanged; otherwise the error is FractionError |
| Gases.FromO2He | src/common/gas.rs:17-23 | the `gas!` macro succeeds exactly when o2 + he <= 100, and then builds Gas(o2, he, 100 - o2 - he) |
| Gases.NewRoundTrip | src/common/gas.rs:26-60 | every valid gas is rebuilt by `new` from its own accessors `o2()`, `he()`, `n2()` |
| Gases.FractionsOfValidGas | src/common/gas.rs:38-48 | for a valid gas each fraction lies in [0, 1] (is a valid_pp), and the three fractions add up to 1 |
| Gases.EndFormulaBound | src/common/gas.rs:62-64 | the END formula before the cast is at most the depth, and equals it without helium |
| Gases.EndAtMostDepth | src/common/gas.rs:62-64 | END never exceeds the depth, and equals the depth for a helium-free gas (for depths within usize range) |
| Gases.EndNonIncreasingInHelium | src/common/gas.rs:62-64 | of two gases, the one with more helium has an END no greater |
| Gases.PartialPressuresAddUp | src/common/gas.rs:66-68 | the three partial pressures of a valid gas add up to the ambient pressure |
| Planner.EquivalentNarcoticDepth | src/planner/mod.rs:10-12 | END never exceeds the depth, and equals it for a helium-free gas |
| Planner.EndNonIncreasingInHelium | src/planner/mod.rs:10-12 | END does not increase as the helium share grows |
| Planner.Ppo2RangeWidens | src/planner/mod.rs:14-17 | a gas in range stays in range within wider bounds (so a gas fit for the dive limits is fit for the deco limits) |
| Planner.Ppo2RangeAsFraction | src/planner/mod.rs:14-17 | when ppO2 is the ambient pressure p > 0 times the oxygen fraction, a gas is in range exactly when its fraction lies in [min/p, max/p] |
| Zhl16.GfAtDepth | src/deco/zhl16/mod.rs:138-150 | gf_high when no stop is latched or at the surface; exactly gf_low at the latched first stop depth |
| Zhl16.GfAtDepthBetween | src/deco/zhl16/mod.rs:138-150 | between the surface and the first stop the interpolated factor lies in [gf_low, gf_high] |
| Zhl16.CeilingGf | src/deco/zhl16/mod.rs:247-257 | the factor `find_ascent_ceiling` uses is the override if given; otherwise gf_high when the latch holds 0, gf_low in every other case |
| Zhl16.BlendWithin | src/deco/zhl16/mod.rs:274-283 | a pressure-weighted A- or B-value lies between its nitrogen and helium coefficients, and is the nitrogen one without helium |
| Zhl16.MaxCeilingIsMaximum | src/deco/zhl16/mod.rs:259-265 | the fold with max is at least every ceiling folded and equals one of them |
| Zhl16.AscentCeilingIsMaximum | src/deco/zhl16/mod.rs:245-266 | the ascent ceiling is at least each of the 16 compartment ceilings and is attained by one |
| Zhl16.CeilingDenominator | src/deco/zhl16/mod.rs:269-271 | for b in (0, 1] and gf >= 0 the ceiling denominator is 1 + gf * (1/b - 1), at least 1 |
| Zhl16.TissueCeilingNonIncreasingInGf | src/deco/zhl16/mod.rs:269-271 | a greater gradient factor never gives a deeper tolerated pressure |
| Zhl16.CompartmentCeilingNonIncreasingInGf | src/deco/zhl16/mod.rs:269-283 | the same for a compartment with its own blended A and B values |
| Zhl16.AscentCeilingNonIncreasingInGf | src/deco/zhl16/mod.rs:245-266 | with an override, the ascent ceiling does not grow as the override grows |
| Zhl16.AscentCeilingNonIncreasingInGfLow | src/deco/zhl16/mod.rs:245-266 | for every plausible engine, raising gf_low never deepens the ascent ceiling without an override |
| Zhl16.Combine | src/deco/zhl16/mod.rs:165-186 | the rebuilt tissue keeps the given nitrogen and helium, and every combined pressure is their sum |
| Zhl16.AddDepthChange | src/deco/zhl16/mod.rs:153-188 | after a depth change every p_t is p_n2 + p_he, the diver is at the segment's end depth, and the constants, gradient factors and latch are unchanged |
| Zhl16.AddBottomSegment | src/deco/zhl16/mod.rs:211-242 | after a constant-depth segment every p_t is p_n2 + p_he, the diver is at the end depth, and the constants, gradient factors and latch are unchanged |
| Zhl16.HaldaneLoadingBetween | src/deco/zhl16/mod.rs:215-221 | with a decay factor 2^(-t/hl) in [0, 1], the Haldane update lies between the old pressure and the inspired pressure |
| Zhl16.BottomSegmentApproachesInspired | src/deco/zhl16/mod.rs:211-242 | for positive half-lives, a constant-depth segment leaves every compartment's nitrogen and helium between its old value and the inspired pressure at the end depth: the tissue approaches the gas breathed and does not overshoot |
| Zhl16.AddSegment | src/deco/zhl16/mod.rs:396-407 | p_t stays n2 + he; the diver ends at the end depth; settings are untouched; the latch takes the start depth only for a DecoStop when unset, and is otherwise unchanged |
| Zhl16.ShortSegmentKeepsTissue | src/deco/zhl16/mod.rs:215-236 | given `2^0 == 1`, a non-depth-change segment shorter than 60 s leaves nitrogen and helium unchanged |
| Zhl16.CeilingAfterApplies | src/deco/zhl16/mod.rs:301-330 | the ceiling a look-ahead reads equals the ascent ceiling of the state its segments lead to |
| Zhl16.LatchIsSticky | src/deco/zhl16/mod.rs:131-135 | once set, no sequence of segments changes first_deco_depth |
| Zhl16.LatchHoldsFirstStop | src/deco/zhl16/mod.rs:131-135 | from an unset latch, a sequence of segments leaves it at the start depth of the first DecoStop, or unset without one |
| Zhl16.StopDepth | src/deco/zhl16/mod.rs:293-296 | the stop depth of `next_stop` is a multiple of 3, at or below the ceiling depth c and less than 3 below it (for 0 <= c within usize range) |
| Zhl16.RoundUpToStop | src/deco/zhl16/mod.rs:293-296 | `(3 * ceil(c / 3)) as usize` is a multiple of 3 with c <= d < c + 3 for 0 <= c within usize range |
| Zhl16Engine.ZHL16.New | src/deco/zhl16/mod.rs:69-94 | the diver is at 0, the latch is usize::MAX, gf_low = gfl/100 and gf_high = gfh/100, and the tissue and constants are stored verbatim |
| Zhl16Engine.ZHL16.Copy | src/deco/zhl16/mod.rs:301 | the copy `*self` has the same value in arrays of its own |
| Zhl16Engine.ZHL16.UpdateFirstDecoDepth | src/deco/zhl16/mod.rs:131-135 | the latch changes only while it is unset |
| Zhl16Engine.ZHL16.AddDepthChange | src/deco/zhl16/mod.rs:153-188 | the in-place update yields exactly `Zhl16.AddDepthChange` of the old value |
| Zhl16Engine.ZHL16.DepthChangeNitrogen | src/deco/zhl16/mod.rs:164-174 | after the nitrogen pass every compartment holds its Schreiner nitrogen, and p_t equals it |
| Zhl16Engine.ZHL16.DepthChangeHelium | src/deco/zhl16/mod.rs:176-186 | after the helium pass every compartment holds its Schreiner helium, and it has been added to p_t |
| Zhl16Engine.ZHL16.AddBottomSegment | src/deco/zhl16/mod.rs:211-242 | the in-place update yields exactly `Zhl16.AddBottomSegment` of the old value |
| Zhl16Engine.ZHL16.BottomNitrogen | src/deco/zhl16/mod.rs:212-225 | after the nitrogen pass every compartment holds its Haldane nitrogen, and p_t equals it |
| Zhl16Engine.ZHL16.BottomHelium | src/deco/zhl16/mod.rs:227-240 | after the helium pass every compartment holds its Haldane helium, and it has been added to p_t |
| Zhl16Engine.ZHL16.AddSegment | src/deco/zhl16/mod.rs:396-407 | the dispatch yields exactly `Zhl16.AddSegment` of the old value |
| Zhl16Engine.ZHL16.ChangeGfl | src/deco/zhl16/mod.rs:410-412 | only gf_low changes, to the percentage / 100 |
| Zhl16Engine.ZHL16.ChangeGfh | src/deco/zhl16/mod.rs:414-416 | only gf_high changes, to the percentage / 100 |
| Zhl16Engine.ZHL16.StopTrialClears | src/deco/zhl16/mod.rs:301-330 | one pass of the `next_stop` loop on a copy answers exactly `StopClears` for that stop time, and leaves the engine unchanged |
| Zhl16Engine.ZHL16.NextStop | src/deco/zhl16/mod.rs:286-342 | returns a DecoStop with start == end == the rounded ceiling depth, a multiple of 3, and the given rates; its time is whole minutes, at least 60 s; one minute less clears, and every shorter trial fails |
| Zhl16Engine.ZHL16.NdlTrialWithin | src/deco/zhl16/mod.rs:349-360 | one pass of the `ndl` loop on a copy answers exactly `WithinNdl` for that time |
| Zhl16Engine.ZHL16.NdlSearch | src/deco/zhl16/mod.rs:346-377 | either all trials of 0..999 minutes pass (capped), or the count is the first failing trial below 1000 and every shorter trial passes |
| Zhl16Engine.ZHL16.Ndl | src/deco/zhl16/mod.rs:345-389 | always Some NoDeco at the diver's depth with rates 0; the time is 999 s exactly when a thousand trials pass, and otherwise whole minutes below 1000 at the first failing trial, with every shorter trial passing |
| OpenCircuitPlanner.New | src/planning/modes/open_circuit.rs:29-42 | for a non-zero water density, metres_per_bar * water_density == 10000; the gas list and profile are stored as given |
| OpenCircuitPlanner.InsertByPpo2Sorted | src/planning/modes/open_circuit.rs:63-66 | inserting into a ppO2-sorted list keeps it sorted and adds exactly one copy of the gas |
| OpenCircuitPlanner.SortByPpo2Sorts | src/planning/modes/open_circuit.rs:63-66 | the sort returns an ascending-ppO2 permutation of its input |
| OpenCircuitPlanner.InPpo2RangeKeeps | src/planning/modes/open_circuit.rs:52-56 | the ppO2 filter keeps exactly the input gases within [PPO2_MINIMUM, PPO2_MAXIMUM_DECO] |
| OpenCircuitPlanner.EndFilterKeepsAll | src/planning/modes/open_circuit.rs:58-61 | the END filter returns its input unchanged |
| OpenCircuitPlanner.AllowedGasesKeeps | src/planning/modes/open_circuit.rs:45-50 | the depth filter keeps exactly the listed gases whose limit is absent or at least the start depth |
| OpenCircuitPlanner.FilterGasesSelects | src/planning/modes/open_circuit.rs:44-69 | a gas is returned exactly when it is listed with an admitting depth limit, is in the deco ppO2 range and has END at most the start depth; the result is sorted by ascending ppO2 and no longer than the input |
| OpenCircuitPlanner.LastIsRichest | src/planning/modes/open_circuit.rs:63-66 | the last candidate has the highest ppO2 of all candidates |
| OpenCircuitPlanner.SwitchPointNone | src/planning/modes/open_circuit.rs:71-83 | None exactly when no non-AscDesc stop has a richest candidate other than the current gas |
| OpenCircuitPlanner.SwitchPointIsFirst | src/planning/modes/open_circuit.rs:71-83 | a switch point is the first stop that qualifies, paired with that stop's last (richest) candidate |
| OpenCircuitPlanner.SwitchPointIsCandidate | src/planning/modes/open_circuit.rs:73-80 | the switch stop is in the list and not AscDesc, and its gas is a candidate there other than the current gas |
| OpenCircuitPlanner.TakeWhileDeeper | src/planning/modes/open_circuit.rs:120-124 | the result is the longest prefix whose start depths exceed the depth |
| OpenCircuitPlanner.FindStopAt | src/planning/modes/open_circuit.rs:150-155 | the first DecoStop of the list at the depth (every earlier entry does not match), or None when no entry matches |
| OpenCircuitPlanner.SwitchStop | src/planning/modes/open_circuit.rs:150-166 | a DecoStop at the switch depth: the first planned DecoStop at that depth when there is one, and only otherwise the one-minute fallback spanning the switch segment's depths |
| OpenCircuitPlanner.ReplayStops | src/planning/modes/open_circuit.rs:143-147 | the loop adds each replayed stop on the start gas to the algorithm and pushes it, in order |
| OpenCircuitPlanner.LevelToLevel | src/planning/modes/open_circuit.rs:85-182 | returns the state and appends the steps that `Link` describes |
| OpenCircuitPlanner.AscendTo | src/planning/modes/open_circuit.rs:114-181 | the ascending branch returns and appends what `Ascend` describes |
| OpenCircuitPlanner.SwitchThenContinue | src/planning/modes/open_circuit.rs:138-173 | the switching branch returns and appends what `SwitchLeg` describes |
| OpenCircuitPlanner.SwitchAndContinue | src/planning/modes/open_circuit.rs:149-173 | after the replay, the switch stop on the new gas is pushed and the link continues from it |
| OpenCircuitPlanner.LinkDescends | src/planning/modes/open_circuit.rs:92-105 | when the next segment starts deeper, exactly one AscDesc step from one depth to the other is pushed, on the start gas |
| OpenCircuitPlanner.LinkLevel | src/planning/modes/open_circuit.rs:106-109 | at equal depths nothing is pushed and the state is unchanged |
| OpenCircuitPlanner.LinkWithoutSwitch | src/planning/modes/open_circuit.rs:114-124 | without a switch, the pushed steps are the simulated ascent's segments, in order, on the start gas, exactly those starting deeper than the target (0 without a next segment) |
| OpenCircuitPlanner.LinkWithSwitch | src/planning/modes/open_circuit.rs:138-173 | with a switch, the link first pushes, in order, the replayed stops (those deeper than the switch depth) on the start gas; then the switch stop `NewStop` (a DecoStop at the switch depth) on the new, different gas; then the link from that stop |
| OpenCircuitPlanner.LinkTakesSwitch | src/planning/modes/open_circuit.rs:138 | a link with a deco stop and a switch point takes the switch |
| OpenCircuitPlanner.SwitchChangesGas | src/planning/modes/open_circuit.rs:73-80 | the gas switched to differs from the start gas, at a stop that is not a depth change |
| OpenCircuitPlanner.SwitchGasIsKnown | src/planning/modes/open_circuit.rs:126-135 | the gas switched to is the next segment's gas, the start gas, or (on the final ascent) a deco gas |
| OpenCircuitPlanner.LinkUsesKnownGases | src/planning/modes/open_circuit.rs:85-182 | every step a link pushes is on the start gas, the next segment's gas, or a deco gas |
| OpenCircuitPlanner.SwitchLegUsesKnownGases | src/planning/modes/open_circuit.rs:138-173 | the same for the switching branch |
| OpenCircuitPlanner.Plan | src/planning/modes/open_circuit.rs:186-239 | the result is the laid-out dive with its gas plan |
| OpenCircuitPlanner.LayOut | src/planning/modes/open_circuit.rs:187-224 | the loops build the descent, each window's start segment and link, then the last segment and the final ascent |
| OpenCircuitPlanner.GasPlan | src/planning/modes/open_circuit.rs:227-236 | the loop builds the per-gas map of consumption |
| OpenCircuitPlanner.PlanStartsWithDescent | src/planning/modes/open_circuit.rs:191-203 | the plan begins with AscDesc from 0 to the first bottom segment's start depth, on its gas |
| OpenCircuitPlanner.WindowsStartWithDescent | src/planning/modes/open_circuit.rs:191-215 | already after any number of windows the segments begin with that descent |
| OpenCircuitPlanner.WindowsGrow | src/planning/modes/open_circuit.rs:205-215 | the segments after k windows are a prefix of those after any later window |
| OpenCircuitPlanner.PlanKeepsProfile | src/planning/modes/open_circuit.rs:205-224 | every bottom segment appears in the plan with its gas, in profile order |
| OpenCircuitPlanner.GasPlanIsPerGasTotal | src/planning/modes/open_circuit.rs:227-236 | the map's keys are exactly the gases used, and each value is the sum of its segments' consumption: 0 for NoDeco, sac_deco for a DecoStop, sac_bottom otherwise |
| OpenCircuitPlanner.TotalForUnused | src/planning/modes/open_circuit.rs:227-236 | a gas no segment breathes has total 0 |
| OpenCircuitPlanner.WindowsUsePlannedGases | src/planning/modes/open_circuit.rs:205-215 | every segment up to any window breathes a profile gas or a deco gas |
| OpenCircuitPlanner.PlanUsesPlannedGases | src/planning/modes/open_circuit.rs:186-239 | every planned segment, and so every key of the gas map, is a profile gas or a deco gas |

## Left out

- Numeric.Div: an f64 division by zero, which would give an infinity or NaN, is given the value 0. The model has no non-finite numbers, so a NaN ceiling or `partial_cmp(..).unwrap()` panicking on NaN in `filter_gases` is not modelled.
- IEEE 754 rounding of every f64 operation: values are exact reals. `powf64`, `mtr_bar`, `bar_mtr`, the water-vapour constant and `time_taken` are parameters in `Zhl16.Platform`. The power function's only properties used (`2^0 == 1`, and `2^x` in [0, 1] for x <= 0) are lemma preconditions.
- `usize` overflow of `depth + 10`, of `o2 + he + n2` and of `stop_time * 60` is not modelled: integers are unbounded. `gas!` with `o2 + he > 100` panics on the subtraction; `Gases.FromO2He` returns `None` for it.
- Zhl16Engine.ZHL16.NextStop: requires that some trial duration clears. Without one the source loops forever, which a terminating Dafny method cannot model.
- OpenCircuitPlanner.LevelToLevel: carries a `fuel` parameter, the number of gas switches still allowed, because the source's recursion has no decreasing measure. With no fuel left a pending switch is not taken, so the model agrees with the source whenever the fuel is at least the number of switches made.
- OpenCircuitPlanner.SortByPpo2Sorts: proves a sorted permutation, not the stability of `sort_by` among gases of equal ppO2 (the model sorts stably, but no lemma states it).
- `ZHL16::new_by_variant` and the ZHL-16B/C constant tables: the constants are arbitrary constructor arguments.
- `DiveSegment::new` validation and its `unwrap`: segments are plain values (src/common/dive_segment.rs is not part of this model). The sub-second part of `Duration` is dropped: a segment's time is whole seconds.
- The getters `tissue()`, `gfl()` and `gfh()`: they are covered by the engine's `View()`.
- `plan_backwards`: its body is `unimplemented!()`.
- The `DecoAlgorithm` implementation behind `surface`, `get_stops` and `add_dive_segment`, and `DiveSegment::gas_consumed`, `Gas::pp_o2` and `Gas::in_ppo2_range`: these lie outside the core and are parameters.
- The two-argument `partial_pressure` that src/planner/mod.rs calls: not part of this model, so it is a parameter of `Planner.GasInPpo2Range`.
- The limits `PPO2_MINIMUM` and `PPO2_MAXIMUM_DECO` that open_circuit.rs imports from `crate::planning` are taken to be the constants of src/planner/mod.rs (0.18 and 1.6); the `planning` module that defines them is not part of this model. No proof depends on their values, since `in_ppo2_range` is a parameter.
- `HashMap` hashing: the gas plan is a Dafny `map<Gas, nat>`.
- src/common/otu.rs and src/lib.rs: closed-form floating-point oxygen-toxicity formulas, the panic handler and FFI plumbing.
- serde derives and the `#[repr(C)]` layout.
