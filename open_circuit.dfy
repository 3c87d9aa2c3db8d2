/** The open-circuit dive planner (src/planning/modes/open_circuit.rs): gas
    selection for a stop, the search for the next gas switch, the
    level-to-level ascent with its rewind and replay, and `plan`, which lays
    out the whole dive and sums the gas it needs. The decompression algorithm
    is any state with the three operations of `DecoAlgorithm`. */
module OpenCircuitPlanner {
  import opened Numeric
  import opened Gases
  import opened Segments
  import opened Planner

  /** A segment breathed on a gas. */
  type Step = (DiveSegment, Gas)

  /** A deco gas with its optional maximum depth. */
  type DecoGas = (Gas, Option<nat>)

  /** The operations of the `DecoAlgorithm` trait the planner calls, over the
      algorithm's state `S`. `surface` and `get_stops` may change the state
      they simulate on, so both return it. */
  datatype DecoAlgorithm<!S> = DecoAlgorithm(
    addDiveSegment: (S, DiveSegment, Gas, real) -> S,
    surface: (S, int, int, Gas, real) -> (S, seq<DiveSegment>),
    getStops: (S, int, int, Gas, real) -> (S, seq<DiveSegment>))

  /** Routines of other files the planner calls: `time_taken` (seconds),
      `Gas::pp_o2`, `Gas::in_ppo2_range` and `DiveSegment::gas_consumed`. */
  datatype Collaborators = Collaborators(
    timeTaken: (int, nat, nat) -> nat,
    ppO2: (Gas, nat, real) -> real,
    inPpo2Range: (Gas, nat, real, real) -> bool,
    gasConsumed: (DiveSegment, nat, real) -> nat)

  /** The `OpenCircuit` planner: the algorithm's initial state and its
      operations, the deco gases, the bottom profile, rates, depth scale and
      surface air consumption rates. */
  datatype OpenCircuit<!S> = OpenCircuit(
    decoAlgorithm: S,
    algo: DecoAlgorithm<S>,
    decoGases: seq<DecoGas>,
    bottomSegments: seq<Step>,
    ascentRate: int,
    descentRate: int,
    metresPerBar: real,
    sacBottom: nat,
    sacDeco: nat,
    env: Collaborators)

  /** `OpenCircuit::new`: the depth scale is derived from the water density. */
  function New<S>(decoAlgorithm: S, algo: DecoAlgorithm<S>, decoGases: seq<DecoGas>, bottomSegments: seq<Step>,
                  ascentRate: int, descentRate: int, waterDensity: real, sacBottom: nat, sacDeco: nat,
                  env: Collaborators): (oc: OpenCircuit<S>)
    ensures waterDensity != 0.0 ==> oc.metresPerBar * waterDensity == 10000.0
    ensures oc.decoGases == decoGases && oc.bottomSegments == bottomSegments
  {
    OpenCircuit(decoAlgorithm, algo, decoGases, bottomSegments, ascentRate, descentRate,
      Div(10000.0, waterDensity), sacBottom, sacDeco, env)
  }

  // ---------------------------------------------------------------------------
  // Gas selection

  /** `xs` is in ascending order of ppO2 at `depth`. */
  predicate SortedByPpo2(xs: seq<Gas>, depth: nat, metresPerBar: real, env: Collaborators)
  {
    forall i, j :: 0 <= i < j < |xs| ==> env.ppO2(xs[i], depth, metresPerBar) <= env.ppO2(xs[j], depth, metresPerBar)
  }

  /** A sorted list stays sorted with a leaner gas in front. */
  lemma SortedCons(a: Gas, rest: seq<Gas>, depth: nat, metresPerBar: real, env: Collaborators)
    requires SortedByPpo2(rest, depth, metresPerBar, env)
    requires rest != [] ==> env.ppO2(a, depth, metresPerBar) <= env.ppO2(rest[0], depth, metresPerBar)
    ensures SortedByPpo2([a] + rest, depth, metresPerBar, env)
  {
    var r := [a] + rest;
    forall i, j | 0 <= i < j < |r|
      ensures env.ppO2(r[i], depth, metresPerBar) <= env.ppO2(r[j], depth, metresPerBar)
    {
      if i == 0 && j > 1 {
        assert env.ppO2(rest[0], depth, metresPerBar) <= env.ppO2(rest[j - 1], depth, metresPerBar);
      }
    }
  }

  /** Insert `x` after every gas whose ppO2 does not exceed its own. */
  function InsertByPpo2(x: Gas, xs: seq<Gas>, depth: nat, metresPerBar: real, env: Collaborators): seq<Gas>
    decreases |xs|
  {
    if xs == [] then [x]
    else if env.ppO2(x, depth, metresPerBar) < env.ppO2(xs[0], depth, metresPerBar) then [x] + xs
    else [xs[0]] + InsertByPpo2(x, xs[1..], depth, metresPerBar, env)
  }

  /** Inserting into a sorted list keeps it sorted and adds exactly `x`. */
  lemma {:induction false} InsertByPpo2Sorted(x: Gas, xs: seq<Gas>, depth: nat, metresPerBar: real, env: Collaborators)
    requires SortedByPpo2(xs, depth, metresPerBar, env)
    ensures SortedByPpo2(InsertByPpo2(x, xs, depth, metresPerBar, env), depth, metresPerBar, env)
    ensures multiset(InsertByPpo2(x, xs, depth, metresPerBar, env)) == multiset(xs) + multiset{x}
    ensures InsertByPpo2(x, xs, depth, metresPerBar, env)[0] == x
         || (xs != [] && InsertByPpo2(x, xs, depth, metresPerBar, env)[0] == xs[0])
    decreases |xs|
  {
    if xs == [] {
    } else if env.ppO2(x, depth, metresPerBar) < env.ppO2(xs[0], depth, metresPerBar) {
      SortedCons(x, xs, depth, metresPerBar, env);
    } else {
      var rest := InsertByPpo2(x, xs[1..], depth, metresPerBar, env);
      InsertByPpo2Sorted(x, xs[1..], depth, metresPerBar, env);
      assert xs == [xs[0]] + xs[1..];
      assert rest[0] == x || rest[0] == xs[1];
      SortedCons(xs[0], rest, depth, metresPerBar, env);
    }
  }

  /** The stable insertion sort that `sort_by` on ppO2 performs, ascending. */
  function SortByPpo2(xs: seq<Gas>, depth: nat, metresPerBar: real, env: Collaborators): seq<Gas>
    decreases |xs|
  {
    if xs == [] then []
    else InsertByPpo2(xs[|xs| - 1], SortByPpo2(xs[..|xs| - 1], depth, metresPerBar, env), depth, metresPerBar, env)
  }

  /** The sort returns a sorted permutation of its input. */
  lemma {:induction false} SortByPpo2Sorts(xs: seq<Gas>, depth: nat, metresPerBar: real, env: Collaborators)
    ensures SortedByPpo2(SortByPpo2(xs, depth, metresPerBar, env), depth, metresPerBar, env)
    ensures multiset(SortByPpo2(xs, depth, metresPerBar, env)) == multiset(xs)
    decreases |xs|
  {
    if xs != [] {
      var init := xs[..|xs| - 1];
      SortByPpo2Sorts(init, depth, metresPerBar, env);
      InsertByPpo2Sorted(xs[|xs| - 1], SortByPpo2(init, depth, metresPerBar, env), depth, metresPerBar, env);
      assert xs == init + [xs[|xs| - 1]];
    }
  }

  /** The gases whose ppO2 at the depth is within the deco range, in order. */
  function InPpo2Range(gs: seq<Gas>, depth: nat, env: Collaborators): seq<Gas>
    decreases |gs|
  {
    if gs == [] then []
    else if env.inPpo2Range(gs[0], depth, PPO2_MINIMUM, PPO2_MAXIMUM_DECO) then [gs[0]] + InPpo2Range(gs[1..], depth, env)
    else InPpo2Range(gs[1..], depth, env)
  }

  /** The ppO2 filter keeps exactly the gases in range. */
  lemma {:induction false} InPpo2RangeKeeps(gs: seq<Gas>, depth: nat, env: Collaborators)
    ensures |InPpo2Range(gs, depth, env)| <= |gs|
    ensures forall g :: g in InPpo2Range(gs, depth, env) <==>
      g in gs && env.inPpo2Range(g, depth, PPO2_MINIMUM, PPO2_MAXIMUM_DECO)
    decreases |gs|
  {
    if gs != [] {
      InPpo2RangeKeeps(gs[1..], depth, env);
      assert gs == [gs[0]] + gs[1..];
    }
  }

  /** The gases whose END at the depth does not exceed the depth, in order. */
  function EndWithin(gs: seq<Gas>, depth: nat): seq<Gas>
    decreases |gs|
  {
    if gs == [] then []
    else (if gs[0].EquivalentNarcoticDepth(depth) <= depth then [gs[0]] else []) + EndWithin(gs[1..], depth)
  }

  /** The END filter removes nothing: END never exceeds the depth. */
  lemma {:induction false} EndFilterKeepsAll(gs: seq<Gas>, depth: nat)
    ensures EndWithin(gs, depth) == gs
    decreases |gs|
  {
    if gs != [] {
      EndAtMostDepth(gs[0], depth);
      EndFilterKeepsAll(gs[1..], depth);
      assert gs == [gs[0]] + gs[1..];
    }
  }

  /** A deco gas's maximum depth admits the segment's start depth. */
  predicate DepthAllowed(seg: DiveSegment, limit: Option<nat>)
  {
    limit.None? || limit.value >= seg.startDepth
  }

  /** The gases whose depth limit admits the segment, in input order. */
  function AllowedGases(seg: DiveSegment, gases: seq<DecoGas>): seq<Gas>
    decreases |gases|
  {
    if gases == [] then []
    else (if DepthAllowed(seg, gases[0].1) then [gases[0].0] else []) + AllowedGases(seg, gases[1..])
  }

  /** `AllowedGases` keeps exactly the gases listed with an admitting limit. */
  lemma {:induction false} AllowedGasesKeeps(seg: DiveSegment, gases: seq<DecoGas>)
    ensures |AllowedGases(seg, gases)| <= |gases|
    ensures forall g :: g in AllowedGases(seg, gases) <==>
      exists i :: 0 <= i < |gases| && gases[i].0 == g && DepthAllowed(seg, gases[i].1)
    decreases |gases|
  {
    if gases != [] {
      AllowedGasesKeeps(seg, gases[1..]);
      forall g ensures g in AllowedGases(seg, gases) <==>
        exists i :: 0 <= i < |gases| && gases[i].0 == g && DepthAllowed(seg, gases[i].1)
      {
        if exists i :: 0 <= i < |gases| && gases[i].0 == g && DepthAllowed(seg, gases[i].1) {
          var i :| 0 <= i < |gases| && gases[i].0 == g && DepthAllowed(seg, gases[i].1);
          if i > 0 {
            assert gases[1..][i - 1] == gases[i];
          }
        }
        if g in AllowedGases(seg, gases[1..]) {
          var i :| 0 <= i < |gases[1..]| && gases[1..][i].0 == g && DepthAllowed(seg, gases[1..][i].1);
          assert gases[i + 1] == gases[1..][i];
        }
      }
    }
  }

  /** What `filter_gases` keeps: a listed gas whose depth limit admits the
      segment, whose ppO2 at the start depth is in the deco range, and whose
      END does not exceed the start depth. */
  predicate Suitable(seg: DiveSegment, gases: seq<DecoGas>, g: Gas, env: Collaborators)
  {
    && (exists i :: 0 <= i < |gases| && gases[i].0 == g && DepthAllowed(seg, gases[i].1))
    && env.inPpo2Range(g, seg.startDepth, PPO2_MINIMUM, PPO2_MAXIMUM_DECO)
    && g.EquivalentNarcoticDepth(seg.startDepth) <= seg.startDepth
  }

  /** `filter_gases`: the depth-limit, ppO2-range and END filters in turn,
      then a stable sort by ppO2 at the start depth. */
  function FilterGases(seg: DiveSegment, gases: seq<DecoGas>, metresPerBar: real, env: Collaborators): seq<Gas>
  {
    var d := seg.startDepth;
    SortByPpo2(EndWithin(InPpo2Range(AllowedGases(seg, gases), d, env), d), d, metresPerBar, env)
  }

  /** `filter_gases` returns exactly the suitable gases, in ascending order of
      ppO2 at the start depth (the code sorts ascending, so the last candidate
      is the richest), and no more entries than it was given. */
  lemma FilterGasesSelects(seg: DiveSegment, gases: seq<DecoGas>, metresPerBar: real, env: Collaborators)
    ensures forall g :: g in FilterGases(seg, gases, metresPerBar, env) <==> Suitable(seg, gases, g, env)
    ensures SortedByPpo2(FilterGases(seg, gases, metresPerBar, env), seg.startDepth, metresPerBar, env)
    ensures |FilterGases(seg, gases, metresPerBar, env)| <= |gases|
  {
    var d := seg.startDepth;
    var byDepth := AllowedGases(seg, gases);
    var byPpo2 := InPpo2Range(byDepth, d, env);
    var byEnd := EndWithin(byPpo2, d);
    var r := SortByPpo2(byEnd, d, metresPerBar, env);
    assert r == FilterGases(seg, gases, metresPerBar, env);
    AllowedGasesKeeps(seg, gases);
    InPpo2RangeKeeps(byDepth, d, env);
    EndFilterKeepsAll(byPpo2, d);
    SortByPpo2Sorts(byEnd, d, metresPerBar, env);
    assert |r| == |multiset(r)| == |multiset(byEnd)| == |byEnd|;
    forall g ensures g in r <==> Suitable(seg, gases, g, env) {
      assert g in r <==> g in multiset(r);
      assert g in byEnd <==> g in multiset(byEnd);
      EndAtMostDepth(g, d);
    }
  }

  /** The last of a sorted candidate list has the highest ppO2. */
  lemma LastIsRichest(seg: DiveSegment, gases: seq<DecoGas>, metresPerBar: real, env: Collaborators)
    requires FilterGases(seg, gases, metresPerBar, env) != []
    ensures var c := FilterGases(seg, gases, metresPerBar, env);
      forall g :: g in c ==> env.ppO2(g, seg.startDepth, metresPerBar) <= env.ppO2(c[|c| - 1], seg.startDepth, metresPerBar)
  {
    var c := FilterGases(seg, gases, metresPerBar, env);
    FilterGasesSelects(seg, gases, metresPerBar, env);
    forall g | g in c
      ensures env.ppO2(g, seg.startDepth, metresPerBar) <= env.ppO2(c[|c| - 1], seg.startDepth, metresPerBar)
    {
      var i :| 0 <= i < |c| && c[i] == g;
      if i < |c| - 1 {
        assert env.ppO2(c[i], seg.startDepth, metresPerBar) <= env.ppO2(c[|c| - 1], seg.startDepth, metresPerBar);
      }
    }
  }

  // ---------------------------------------------------------------------------
  // Gas switch point

  /** A stop where `find_gas_switch_point` stops: not a depth change, some gas
      is suitable, and the richest suitable gas is not the current one. */
  predicate SwitchesAt(stop: DiveSegment, currentGas: Gas, gases: seq<DecoGas>, metresPerBar: real, env: Collaborators)
  {
    && stop.kind != AscDesc
    && var c := FilterGases(stop, gases, metresPerBar, env);
    && c != []
    && c[|c| - 1] != currentGas
  }

  /** `find_gas_switch_point`: the first stop, skipping depth changes, whose
      richest suitable gas differs from the current gas, paired with that gas;
      `None` when there is no such stop. */
  function FindGasSwitchPoint(segments: seq<DiveSegment>, currentGas: Gas, gases: seq<DecoGas>,
                              metresPerBar: real, env: Collaborators): Option<(DiveSegment, Gas)>
    decreases |segments|
  {
    if segments == [] then None
    else if SwitchesAt(segments[0], currentGas, gases, metresPerBar, env) then
      var c := FilterGases(segments[0], gases, metresPerBar, env);
      Some((segments[0], c[|c| - 1]))
    else
      FindGasSwitchPoint(segments[1..], currentGas, gases, metresPerBar, env)
  }

  /** There is no switch point exactly when no stop qualifies. */
  lemma {:induction false} SwitchPointNone(segments: seq<DiveSegment>, currentGas: Gas, gases: seq<DecoGas>,
                                           metresPerBar: real, env: Collaborators)
    ensures FindGasSwitchPoint(segments, currentGas, gases, metresPerBar, env).None?
        <==> forall j :: 0 <= j < |segments| ==> !SwitchesAt(segments[j], currentGas, gases, metresPerBar, env)
    decreases |segments|
  {
    if segments != [] && !SwitchesAt(segments[0], currentGas, gases, metresPerBar, env) {
      var tail := segments[1..];
      SwitchPointNone(tail, currentGas, gases, metresPerBar, env);
      if FindGasSwitchPoint(tail, currentGas, gases, metresPerBar, env).None? {
        forall j | 0 <= j < |segments|
          ensures !SwitchesAt(segments[j], currentGas, gases, metresPerBar, env)
        {
          if j > 0 {
            assert segments[j] == tail[j - 1];
          }
        }
      } else {
        var j :| 0 <= j < |tail| && SwitchesAt(tail[j], currentGas, gases, metresPerBar, env);
        assert segments[j + 1] == tail[j];
      }
    }
  }

  /** A switch point is at the first stop at which a switch happens, with
      the richest suitable gas there. */
  lemma {:induction false} SwitchPointIsFirst(segments: seq<DiveSegment>, currentGas: Gas, gases: seq<DecoGas>,
                                              metresPerBar: real, env: Collaborators)
    ensures var r := FindGasSwitchPoint(segments, currentGas, gases, metresPerBar, env);
      r.Some? ==>
        exists i :: 0 <= i < |segments| && r.value.0 == segments[i]
          && SwitchesAt(segments[i], currentGas, gases, metresPerBar, env)
          && (forall j :: 0 <= j < i ==> !SwitchesAt(segments[j], currentGas, gases, metresPerBar, env))
          && var c := FilterGases(segments[i], gases, metresPerBar, env);
             r.value.1 == c[|c| - 1]
    decreases |segments|
  {
    if segments != [] && !SwitchesAt(segments[0], currentGas, gases, metresPerBar, env) {
      var tail := segments[1..];
      SwitchPointIsFirst(tail, currentGas, gases, metresPerBar, env);
      var r := FindGasSwitchPoint(segments, currentGas, gases, metresPerBar, env);
      if r.Some? {
        var i :| 0 <= i < |tail| && r.value.0 == tail[i]
          && SwitchesAt(tail[i], currentGas, gases, metresPerBar, env)
          && (forall j :: 0 <= j < i ==> !SwitchesAt(tail[j], currentGas, gases, metresPerBar, env))
          && var c := FilterGases(tail[i], gases, metresPerBar, env);
             r.value.1 == c[|c| - 1];
        assert segments[i + 1] == tail[i];
        forall j | 0 <= j < i + 1
          ensures !SwitchesAt(segments[j], currentGas, gases, metresPerBar, env)
        {
          if j > 0 {
            assert segments[j] == tail[j - 1];
          }
        }
      }
    }
  }

  /** A switch point is a stop of the list that is not a depth change, and
      its gas is a candidate there other than the current gas. */
  lemma {:induction false} SwitchPointIsCandidate(segments: seq<DiveSegment>, currentGas: Gas, gases: seq<DecoGas>,
                                                  metresPerBar: real, env: Collaborators)
    ensures var r := FindGasSwitchPoint(segments, currentGas, gases, metresPerBar, env);
      r.Some? ==>
        && r.value.0 in segments && r.value.0.kind != AscDesc
        && r.value.1 != currentGas
        && r.value.1 in FilterGases(r.value.0, gases, metresPerBar, env)
    decreases |segments|
  {
    if segments != [] && !SwitchesAt(segments[0], currentGas, gases, metresPerBar, env) {
      SwitchPointIsCandidate(segments[1..], currentGas, gases, metresPerBar, env);
    }
  }

  // ---------------------------------------------------------------------------
  // Level to level

  /** The longest prefix of `segs` whose start depths are deeper than `depth`
      (`take_while(|x| x.start_depth() > depth)`). */
  function TakeWhileDeeper(segs: seq<DiveSegment>, depth: nat): (r: seq<DiveSegment>)
    ensures |r| <= |segs| && r == segs[..|r|]
    ensures forall i :: 0 <= i < |r| ==> r[i].startDepth > depth
    ensures |r| < |segs| ==> segs[|r|].startDepth <= depth
    decreases |segs|
  {
    if segs == [] || segs[0].startDepth <= depth then []
    else [segs[0]] + TakeWhileDeeper(segs[1..], depth)
  }

  /** `stops.iter().any(|x| x.segment_type() == DecoStop)`. */
  predicate AnyDecoStop(segs: seq<DiveSegment>)
  {
    exists i :: 0 <= i < |segs| && segs[i].kind == DecoStop
  }

  /** Every segment paired with the same gas (`zip(.., repeat(gas))`). */
  function Pair(segs: seq<DiveSegment>, gas: Gas): (r: seq<Step>)
    ensures |r| == |segs| && forall i :: 0 <= i < |r| ==> r[i] == (segs[i], gas)
  {
    seq(|segs|, i requires 0 <= i < |segs| => (segs[i], gas))
  }

  /** The algorithm state after adding the segments in order on one gas. */
  function Replay<S>(oc: OpenCircuit<S>, deco: S, segs: seq<DiveSegment>, gas: Gas): S
    decreases |segs|
  {
    if segs == [] then deco
    else oc.algo.addDiveSegment(Replay(oc, deco, segs[..|segs| - 1], gas), segs[|segs| - 1], gas, oc.metresPerBar)
  }

  /** The candidates for a switch: the two gases of the link, or every deco
      gas on the final ascent. */
  function SwitchGases(start: Step, end: Option<Step>, decoGases: seq<DecoGas>): seq<DecoGas>
  {
    match end
    case Some(t) => [(start.1, None), (t.1, None)]
    case None => decoGases
  }

  /** The depth the link ascends to: the next segment's start, or the surface. */
  function TargetDepth(end: Option<Step>): nat
  {
    match end
    case Some(t) => t.0.startDepth
    case None => 0
  }

  /** The first deco stop at the given depth. */
  function FindStopAt(segs: seq<DiveSegment>, depth: nat): (r: Option<DiveSegment>)
    ensures r.Some? ==> r.value.kind == DecoStop && r.value.startDepth == depth
    ensures r.Some? ==> exists i :: (0 <= i < |segs| && segs[i] == r.value
      && forall j :: 0 <= j < i ==> !(segs[j].kind == DecoStop && segs[j].startDepth == depth))
    ensures r.None? ==> forall i :: 0 <= i < |segs| ==> !(segs[i].kind == DecoStop && segs[i].startDepth == depth)
    decreases |segs|
  {
    if segs == [] then None
    else if segs[0].kind == DecoStop && segs[0].startDepth == depth then Some(segs[0])
    else
      var r := FindStopAt(segs[1..], depth);
      assert r.Some? ==> exists i :: (0 <= i < |segs| && segs[i] == r.value
        && forall j :: 0 <= j < i ==> !(segs[j].kind == DecoStop && segs[j].startDepth == depth)) by {
        if r.Some? {
          var i :| 0 <= i < |segs[1..]| && segs[1..][i] == r.value
            && forall j :: 0 <= j < i ==> !(segs[1..][j].kind == DecoStop && segs[1..][j].startDepth == depth);
          assert segs[i + 1] == r.value;
          forall j | 0 <= j < i + 1
            ensures !(segs[j].kind == DecoStop && segs[j].startDepth == depth)
          {
            if j > 0 {
              assert segs[j] == segs[1..][j - 1];
            }
          }
        }
      }
      assert r.None? ==> forall i :: 0 <= i < |segs| ==> !(segs[i].kind == DecoStop && segs[i].startDepth == depth) by {
        if r.None? {
          forall i | 1 <= i < |segs|
            ensures !(segs[i].kind == DecoStop && segs[i].startDepth == depth)
          {
            assert segs[i] == segs[1..][i - 1];
          }
        }
      }
      r
  }

  /** The stop taken on the new gas: the planned deco stop at the switch
      depth, or else a one-minute deco stop spanning the switch segment's depths. */
  function SwitchStop(planned: seq<DiveSegment>, at: DiveSegment, ascentRate: int, descentRate: int): (r: DiveSegment)
    ensures r.kind == DecoStop && r.startDepth == at.startDepth
    ensures (exists i :: 0 <= i < |planned| && planned[i].kind == DecoStop && planned[i].startDepth == at.startDepth)
      ==> exists i :: (0 <= i < |planned| && planned[i] == r
        && forall j :: 0 <= j < i ==> !(planned[j].kind == DecoStop && planned[j].startDepth == at.startDepth))
    ensures (forall i :: 0 <= i < |planned| ==> !(planned[i].kind == DecoStop && planned[i].startDepth == at.startDepth))
      ==> r == DiveSegment(DecoStop, at.startDepth, at.endDepth, 60, ascentRate, descentRate)
  {
    match FindStopAt(planned, at.startDepth)
    case Some(t) => t
    case None => DiveSegment(DecoStop, at.startDepth, at.endDepth, 60, ascentRate, descentRate)
  }

  /** The depth change the link makes when the next segment starts deeper. */
  function DescentTo<S>(oc: OpenCircuit<S>, start: Step, t: Step): DiveSegment
  {
    DiveSegment(AscDesc, start.0.endDepth, t.0.startDepth,
      oc.env.timeTaken(oc.descentRate, start.0.endDepth, t.0.startDepth), oc.ascentRate, oc.descentRate)
  }

  /** A switch is pending when the ascent holds a deco stop and a switch point exists. */
  predicate SwitchPending<S>(oc: OpenCircuit<S>, start: Step, end: Option<Step>, stops: seq<DiveSegment>)
  {
    AnyDecoStop(stops)
      && FindGasSwitchPoint(stops, start.1, SwitchGases(start, end, oc.decoGases), oc.metresPerBar, oc.env).Some?
  }

  /** The stops of the ascent from `start` towards the link's target depth. */
  function AscentStops<S>(oc: OpenCircuit<S>, deco: S, start: Step, end: Option<Step>): seq<DiveSegment>
  {
    TakeWhileDeeper(oc.algo.surface(deco, oc.ascentRate, oc.descentRate, start.1, oc.metresPerBar).1, TargetDepth(end))
  }

  /** What `level_to_level` computes: the final algorithm state and the steps
      it pushes. `fuel` is the number of gas switches still allowed; with none
      left, a pending switch is not taken. */
  function Link<S>(oc: OpenCircuit<S>, deco: S, start: Step, end: Option<Step>, fuel: nat): (S, seq<Step>)
    decreases fuel, 2
  {
    if end.Some? && start.0.endDepth < end.value.0.startDepth then
      var descent := DescentTo(oc, start, end.value);
      (oc.algo.addDiveSegment(deco, descent, start.1, oc.metresPerBar), [(descent, start.1)])
    else if end.Some? && start.0.endDepth == end.value.0.startDepth then
      (deco, [])
    else
      Ascend(oc, deco, start, end, fuel)
  }

  /** The ascending part of a link: simulate the ascent on the start gas and
      either keep it or switch gas at the first switch point. */
  function Ascend<S>(oc: OpenCircuit<S>, deco: S, start: Step, end: Option<Step>, fuel: nat): (S, seq<Step>)
    decreases fuel, 1
  {
    var stops := AscentStops(oc, deco, start, end);
    if SwitchPending(oc, start, end, stops) && fuel > 0 then
      SwitchLeg(oc, deco, start, end, fuel)
    else
      (oc.algo.surface(deco, oc.ascentRate, oc.descentRate, start.1, oc.metresPerBar).0, Pair(stops, start.1))
  }

  /** The switch point of a link whose ascent has one pending. */
  function SwitchPoint<S>(oc: OpenCircuit<S>, deco: S, start: Step, end: Option<Step>): (DiveSegment, Gas)
    requires SwitchPending(oc, start, end, AscentStops(oc, deco, start, end))
  {
    FindGasSwitchPoint(AscentStops(oc, deco, start, end), start.1, SwitchGases(start, end, oc.decoGases),
      oc.metresPerBar, oc.env).value
  }

  /** The stops replayed on the start gas before a switch: those deeper than
      the switch depth. */
  function Replayed<S>(oc: OpenCircuit<S>, deco: S, start: Step, end: Option<Step>): seq<DiveSegment>
    requires SwitchPending(oc, start, end, AscentStops(oc, deco, start, end))
  {
    TakeWhileDeeper(AscentStops(oc, deco, start, end), SwitchPoint(oc, deco, start, end).0.startDepth)
  }

  /** The stop taken on the new gas after replaying. */
  function NewStop<S>(oc: OpenCircuit<S>, deco: S, start: Step, end: Option<Step>): DiveSegment
    requires SwitchPending(oc, start, end, AscentStops(oc, deco, start, end))
  {
    var sw := SwitchPoint(oc, deco, start, end);
    var planned := oc.algo.getStops(Replay(oc, deco, Replayed(oc, deco, start, end), start.1),
      oc.ascentRate, oc.descentRate, sw.1, oc.metresPerBar);
    SwitchStop(planned.1, sw.0, oc.ascentRate, oc.descentRate)
  }

  /** The algorithm state after replaying and taking the switch stop. */
  function Switched<S>(oc: OpenCircuit<S>, deco: S, start: Step, end: Option<Step>): S
    requires SwitchPending(oc, start, end, AscentStops(oc, deco, start, end))
  {
    var sw := SwitchPoint(oc, deco, start, end);
    var planned := oc.algo.getStops(Replay(oc, deco, Replayed(oc, deco, start, end), start.1),
      oc.ascentRate, oc.descentRate, sw.1, oc.metresPerBar);
    oc.algo.addDiveSegment(planned.0, NewStop(oc, deco, start, end), sw.1, oc.metresPerBar)
  }

  /** A link that switches gas: the replayed stops on the start gas, the
      switch stop on the new gas, then the link from that stop onwards. */
  function SwitchLeg<S>(oc: OpenCircuit<S>, deco: S, start: Step, end: Option<Step>, fuel: nat): (S, seq<Step>)
    requires SwitchPending(oc, start, end, AscentStops(oc, deco, start, end)) && fuel > 0
    decreases fuel, 0
  {
    var sw := SwitchPoint(oc, deco, start, end);
    var newStop := NewStop(oc, deco, start, end);
    var rest := Link(oc, Switched(oc, deco, start, end), (newStop, sw.1), end, fuel - 1);
    (rest.0, Pair(Replayed(oc, deco, start, end), start.1) + [(newStop, sw.1)] + rest.1)
  }

  /** The replay loop of `level_to_level`: add each stop on the start gas to
      the rewound algorithm and push it. */
  method ReplayStops<S>(oc: OpenCircuit<S>, deco: S, replayed: seq<DiveSegment>, gas: Gas, stopsPerformed: seq<Step>)
    returns (decoOut: S, stopsOut: seq<Step>)
    ensures decoOut == Replay(oc, deco, replayed, gas)
    ensures stopsOut == stopsPerformed + Pair(replayed, gas)
  {
    decoOut, stopsOut := deco, stopsPerformed;
    var i := 0;
    while i < |replayed|
      invariant 0 <= i <= |replayed|
      invariant decoOut == Replay(oc, deco, replayed[..i], gas)
      invariant stopsOut == stopsPerformed + Pair(replayed[..i], gas)
    {
      assert replayed[..i + 1][..i] == replayed[..i];
      assert Pair(replayed[..i + 1], gas) == Pair(replayed[..i], gas) + [(replayed[i], gas)];
      decoOut := oc.algo.addDiveSegment(decoOut, replayed[i], gas, oc.metresPerBar);
      stopsOut := stopsOut + [(replayed[i], gas)];
      i := i + 1;
    }
    assert replayed[..i] == replayed;
  }

  /** `level_to_level`: pushes onto `stopsPerformed` and returns the new
      algorithm state, as `Link` describes. */
  method LevelToLevel<S>(oc: OpenCircuit<S>, deco: S, start: Step, end: Option<Step>,
                         stopsPerformed: seq<Step>, fuel: nat)
    returns (decoOut: S, stopsOut: seq<Step>)
    ensures decoOut == Link(oc, deco, start, end, fuel).0
    ensures stopsOut == stopsPerformed + Link(oc, deco, start, end, fuel).1
    decreases fuel, 3
  {
    if end.Some? {
      var t := end.value;
      if start.0.endDepth < t.0.startDepth {
        var descent := DiveSegment(AscDesc, start.0.endDepth, t.0.startDepth,
          oc.env.timeTaken(oc.descentRate, start.0.endDepth, t.0.startDepth), oc.ascentRate, oc.descentRate);
        assert descent == DescentTo(oc, start, t);
        decoOut := oc.algo.addDiveSegment(deco, descent, start.1, oc.metresPerBar);
        stopsOut := stopsPerformed + [(descent, start.1)];
        return;
      } else if start.0.endDepth == t.0.startDepth {
        decoOut, stopsOut := deco, stopsPerformed;
        return;
      }
    }
    assert Link(oc, deco, start, end, fuel) == Ascend(oc, deco, start, end, fuel);
    decoOut, stopsOut := AscendTo(oc, deco, start, end, stopsPerformed, fuel);
  }

  /** The ascending part of `level_to_level`: simulate the ascent to the
      target depth and either push it or switch gas, as `Ascend` describes. */
  method AscendTo<S>(oc: OpenCircuit<S>, deco: S, start: Step, end: Option<Step>,
                     stopsPerformed: seq<Step>, fuel: nat)
    returns (decoOut: S, stopsOut: seq<Step>)
    ensures decoOut == Ascend(oc, deco, start, end, fuel).0
    ensures stopsOut == stopsPerformed + Ascend(oc, deco, start, end, fuel).1
    decreases fuel, 2
  {
    var virtualDeco := deco;
    var endDepth := TargetDepth(end);
    var surfaced := oc.algo.surface(virtualDeco, oc.ascentRate, oc.descentRate, start.1, oc.metresPerBar);
    virtualDeco := surfaced.0;
    var stops := TakeWhileDeeper(surfaced.1, endDepth);
    assert stops == AscentStops(oc, deco, start, end);
    var switchGases := SwitchGases(start, end, oc.decoGases);
    var switchPoint := FindGasSwitchPoint(stops, start.1, switchGases, oc.metresPerBar, oc.env);
    if AnyDecoStop(stops) && switchPoint.Some? && fuel > 0 {
      decoOut, stopsOut := SwitchThenContinue(oc, deco, start, end, stopsPerformed, fuel);
    } else {
      stopsOut := stopsPerformed + Pair(stops, start.1);
      decoOut := virtualDeco;
    }
  }

  /** The switching part of `level_to_level`: rewind, replay the stops deeper
      than the switch depth, take the switch stop on the new gas and carry on
      from it, as `SwitchLeg` describes. */
  method SwitchThenContinue<S>(oc: OpenCircuit<S>, deco: S, start: Step, end: Option<Step>,
                               stopsPerformed: seq<Step>, fuel: nat)
    returns (decoOut: S, stopsOut: seq<Step>)
    requires SwitchPending(oc, start, end, AscentStops(oc, deco, start, end)) && fuel > 0
    ensures decoOut == SwitchLeg(oc, deco, start, end, fuel).0
    ensures stopsOut == stopsPerformed + SwitchLeg(oc, deco, start, end, fuel).1
    decreases fuel, 1
  {
    var stops := AscentStops(oc, deco, start, end);
    var sw := FindGasSwitchPoint(stops, start.1, SwitchGases(start, end, oc.decoGases), oc.metresPerBar, oc.env).value;
    assert sw == SwitchPoint(oc, deco, start, end);
    var replayed := TakeWhileDeeper(stops, sw.0.startDepth);
    assert replayed == Replayed(oc, deco, start, end);
    var virtualDeco, performed := ReplayStops(oc, deco, replayed, start.1, stopsPerformed);
    decoOut, stopsOut := SwitchAndContinue(oc, deco, start, end, virtualDeco, performed, fuel);
    SwitchLegParts(oc, deco, start, end, fuel);
    ghost var taken := (NewStop(oc, deco, start, end), sw.1);
    ConcatAssociates(stopsPerformed, Pair(replayed, start.1), [taken],
      Link(oc, Switched(oc, deco, start, end), taken, end, fuel - 1).1);
  }

  /** After the replay: plan on the new gas, take the switch stop on it, and
      continue the link from that stop. */
  method SwitchAndContinue<S>(oc: OpenCircuit<S>, deco: S, start: Step, end: Option<Step>,
                              replayedDeco: S, performed: seq<Step>, fuel: nat)
    returns (decoOut: S, stopsOut: seq<Step>)
    requires SwitchPending(oc, start, end, AscentStops(oc, deco, start, end)) && fuel > 0
    requires replayedDeco == Replay(oc, deco, Replayed(oc, deco, start, end), start.1)
    ensures var taken := (NewStop(oc, deco, start, end), SwitchPoint(oc, deco, start, end).1);
      && decoOut == Link(oc, Switched(oc, deco, start, end), taken, end, fuel - 1).0
      && stopsOut == performed + [taken] + Link(oc, Switched(oc, deco, start, end), taken, end, fuel - 1).1
    decreases fuel, 0
  {
    var sw := SwitchPoint(oc, deco, start, end);
    var planned := oc.algo.getStops(replayedDeco, oc.ascentRate, oc.descentRate, sw.1, oc.metresPerBar);
    var newStop := SwitchStop(planned.1, sw.0, oc.ascentRate, oc.descentRate);
    assert newStop == NewStop(oc, deco, start, end);
    var virtualDeco := oc.algo.addDiveSegment(planned.0, newStop, sw.1, oc.metresPerBar);
    assert virtualDeco == Switched(oc, deco, start, end);
    decoOut, stopsOut := LevelToLevel(oc, virtualDeco, (newStop, sw.1), end, performed + [(newStop, sw.1)], fuel - 1);
  }

  /** Concatenation regroups. */
  lemma ConcatAssociates(a: seq<Step>, b: seq<Step>, c: seq<Step>, d: seq<Step>)
    ensures a + b + c + d == a + (b + c + d)
  {
  }

  /** A switching link in its three parts. */
  lemma SwitchLegParts<S>(oc: OpenCircuit<S>, deco: S, start: Step, end: Option<Step>, fuel: nat)
    requires SwitchPending(oc, start, end, AscentStops(oc, deco, start, end)) && fuel > 0
    ensures var taken := (NewStop(oc, deco, start, end), SwitchPoint(oc, deco, start, end).1);
      var rest := Link(oc, Switched(oc, deco, start, end), taken, end, fuel - 1);
      SwitchLeg(oc, deco, start, end, fuel) == (rest.0, Pair(Replayed(oc, deco, start, end), start.1) + [taken] + rest.1)
  {
  }

  /** When the next segment starts deeper, the link is exactly one depth
      change between the two on the start gas. */
  lemma LinkDescends<S>(oc: OpenCircuit<S>, deco: S, start: Step, t: Step, fuel: nat)
    requires start.0.endDepth < t.0.startDepth
    ensures var steps := Link(oc, deco, start, Some(t), fuel).1;
      && |steps| == 1 && steps[0].1 == start.1
      && steps[0].0.kind == AscDesc
      && steps[0].0.startDepth == start.0.endDepth && steps[0].0.endDepth == t.0.startDepth
  {
  }

  /** When the next segment starts at the same depth, the link pushes nothing
      and leaves the algorithm as it was. */
  lemma LinkLevel<S>(oc: OpenCircuit<S>, deco: S, start: Step, t: Step, fuel: nat)
    requires start.0.endDepth == t.0.startDepth
    ensures Link(oc, deco, start, Some(t), fuel) == (deco, [])
  {
  }

  /** Without a switch, the link pushes the simulated ascent up to (not
      including) the target depth, in order, all on the start gas, every one
      starting deeper than the target. */
  lemma LinkWithoutSwitch<S>(oc: OpenCircuit<S>, deco: S, start: Step, end: Option<Step>, fuel: nat)
    requires end.None? || start.0.endDepth > end.value.0.startDepth
    requires !SwitchPending(oc, start, end, AscentStops(oc, deco, start, end)) || fuel == 0
    ensures var steps := Link(oc, deco, start, end, fuel).1;
      var ascent := oc.algo.surface(deco, oc.ascentRate, oc.descentRate, start.1, oc.metresPerBar).1;
      && |steps| <= |ascent|
      && (forall i :: 0 <= i < |steps| ==> steps[i] == (ascent[i], start.1))
      && (forall i :: 0 <= i < |steps| ==> steps[i].0.startDepth > TargetDepth(end))
      && (|steps| < |ascent| ==> ascent[|steps|].startDepth <= TargetDepth(end))
  {
  }

  /** With a switch, the link first pushes, on the start gas, the stops deeper
      than the switch depth, then one deco stop at the switch depth on the new
      gas, and then continues from that stop. */
  lemma LinkWithSwitch<S>(oc: OpenCircuit<S>, deco: S, start: Step, end: Option<Step>, fuel: nat)
    requires end.None? || start.0.endDepth > end.value.0.startDepth
    requires SwitchPending(oc, start, end, AscentStops(oc, deco, start, end)) && fuel > 0
    ensures var steps := Link(oc, deco, start, end, fuel).1;
      var sw := SwitchPoint(oc, deco, start, end);
      var k := |Replayed(oc, deco, start, end)|;
      && k < |steps|
      && (forall i :: 0 <= i < k ==> steps[i] == (Replayed(oc, deco, start, end)[i], start.1))
      && (forall i :: 0 <= i < k ==> steps[i].0.startDepth > sw.0.startDepth)
      && steps[k] == (NewStop(oc, deco, start, end), sw.1) && sw.1 != start.1
      && steps[k].0.kind == DecoStop && steps[k].0.startDepth == sw.0.startDepth
      && steps[k + 1..] == Link(oc, Switched(oc, deco, start, end), steps[k], end, fuel - 1).1
  {
    LinkTakesSwitch(oc, deco, start, end, fuel);
    SwitchChangesGas(oc, deco, start, end);
    var sw := SwitchPoint(oc, deco, start, end);
    var replayed := Replayed(oc, deco, start, end);
    var newStop := NewStop(oc, deco, start, end);
    var rest := Link(oc, Switched(oc, deco, start, end), (newStop, sw.1), end, fuel - 1);
    var steps := Link(oc, deco, start, end, fuel).1;
    assert steps == Pair(replayed, start.1) + [(newStop, sw.1)] + rest.1;
    assert steps[|replayed|] == (newStop, sw.1);
    assert steps[|replayed| + 1..] == rest.1;
  }

  /** A link whose ascent has a pending switch, with fuel left, takes it. */
  lemma LinkTakesSwitch<S>(oc: OpenCircuit<S>, deco: S, start: Step, end: Option<Step>, fuel: nat)
    requires end.None? || start.0.endDepth > end.value.0.startDepth
    requires SwitchPending(oc, start, end, AscentStops(oc, deco, start, end)) && fuel > 0
    ensures Link(oc, deco, start, end, fuel) == SwitchLeg(oc, deco, start, end, fuel)
  {
    assert Link(oc, deco, start, end, fuel) == Ascend(oc, deco, start, end, fuel);
  }

  /** The gas switched to differs from the start gas, at a stop that is not a
      depth change. */
  lemma SwitchChangesGas<S>(oc: OpenCircuit<S>, deco: S, start: Step, end: Option<Step>)
    requires SwitchPending(oc, start, end, AscentStops(oc, deco, start, end))
    ensures SwitchPoint(oc, deco, start, end).1 != start.1
    ensures SwitchPoint(oc, deco, start, end).0.kind != AscDesc
  {
    SwitchPointIsCandidate(AscentStops(oc, deco, start, end), start.1, SwitchGases(start, end, oc.decoGases),
      oc.metresPerBar, oc.env);
  }

  /** The gases a link can breathe: the start gas, the next segment's gas, or
      on the final ascent a deco gas. */
  predicate KnownGases<S>(oc: OpenCircuit<S>, start: Step, end: Option<Step>, known: set<Gas>)
  {
    && start.1 in known
    && (end.Some? ==> end.value.1 in known)
    && (end.None? ==> forall j :: 0 <= j < |oc.decoGases| ==> oc.decoGases[j].0 in known)
  }

  /** Every step a link pushes is on a gas of the link or a deco gas. */
  lemma {:induction false} LinkUsesKnownGases<S>(oc: OpenCircuit<S>, deco: S, start: Step, end: Option<Step>,
                                                 fuel: nat, known: set<Gas>)
    requires KnownGases(oc, start, end, known)
    ensures forall i :: 0 <= i < |Link(oc, deco, start, end, fuel).1| ==> Link(oc, deco, start, end, fuel).1[i].1 in known
    decreases fuel, 1
  {
    if end.None? || start.0.endDepth > end.value.0.startDepth {
      assert Link(oc, deco, start, end, fuel) == Ascend(oc, deco, start, end, fuel);
      if SwitchPending(oc, start, end, AscentStops(oc, deco, start, end)) && fuel > 0 {
        assert Ascend(oc, deco, start, end, fuel) == SwitchLeg(oc, deco, start, end, fuel);
        SwitchLegUsesKnownGases(oc, deco, start, end, fuel, known);
      }
    }
  }

  /** The same for the switching part of a link. */
  lemma {:induction false} SwitchLegUsesKnownGases<S>(oc: OpenCircuit<S>, deco: S, start: Step, end: Option<Step>,
                                                      fuel: nat, known: set<Gas>)
    requires KnownGases(oc, start, end, known)
    requires SwitchPending(oc, start, end, AscentStops(oc, deco, start, end)) && fuel > 0
    ensures forall i :: 0 <= i < |SwitchLeg(oc, deco, start, end, fuel).1| ==> SwitchLeg(oc, deco, start, end, fuel).1[i].1 in known
    decreases fuel, 0
  {
    var sw := SwitchPoint(oc, deco, start, end);
    SwitchGasIsKnown(oc, deco, start, end, known);
    var newStop := NewStop(oc, deco, start, end);
    var rest := Link(oc, Switched(oc, deco, start, end), (newStop, sw.1), end, fuel - 1);
    LinkUsesKnownGases(oc, Switched(oc, deco, start, end), (newStop, sw.1), end, fuel - 1, known);
    var replayed := Pair(Replayed(oc, deco, start, end), start.1);
    assert SwitchLeg(oc, deco, start, end, fuel).1 == replayed + [(newStop, sw.1)] + rest.1;
    ConcatKeepsGases(replayed, (newStop, sw.1), rest.1, known);
  }

  /** The gas a link switches to is one of the link's known gases. */
  lemma SwitchGasIsKnown<S>(oc: OpenCircuit<S>, deco: S, start: Step, end: Option<Step>, known: set<Gas>)
    requires KnownGases(oc, start, end, known)
    requires SwitchPending(oc, start, end, AscentStops(oc, deco, start, end))
    ensures SwitchPoint(oc, deco, start, end).1 in known
  {
    var stops := AscentStops(oc, deco, start, end);
    var gases := SwitchGases(start, end, oc.decoGases);
    SwitchPointIsCandidate(stops, start.1, gases, oc.metresPerBar, oc.env);
    var sw := SwitchPoint(oc, deco, start, end);
    FilterGasesSelects(sw.0, gases, oc.metresPerBar, oc.env);
    assert Suitable(sw.0, gases, sw.1, oc.env);
    var j :| 0 <= j < |gases| && gases[j].0 == sw.1 && DepthAllowed(sw.0, gases[j].1);
  }

  /** Steps on known gases stay on known gases when concatenated. */
  lemma ConcatKeepsGases(a: seq<Step>, b: Step, c: seq<Step>, known: set<Gas>)
    requires forall i :: 0 <= i < |a| ==> a[i].1 in known
    requires b.1 in known
    requires forall i :: 0 <= i < |c| ==> c[i].1 in known
    ensures forall i :: 0 <= i < |a + [b] + c| ==> (a + [b] + c)[i].1 in known
  {
    forall i | 0 <= i < |a + [b] + c| ensures (a + [b] + c)[i].1 in known {
      if i > |a| {
        assert (a + [b] + c)[i] == c[i - |a| - 1];
      }
    }
  }

  // ---------------------------------------------------------------------------
  // The plan

  /** The result of `plan`: the final algorithm state, every segment with its
      gas, and the gas needed per mixture. */
  datatype DiveResult<S> = DiveResult(finalAlgorithm: S, totalSegments: seq<Step>, gasPlan: map<Gas, nat>)

  /** The descent from the surface to the first bottom segment. */
  function Descent<S>(oc: OpenCircuit<S>): DiveSegment
    requires |oc.bottomSegments| > 0
  {
    var first := oc.bottomSegments[0].0.startDepth;
    DiveSegment(AscDesc, 0, first, oc.env.timeTaken(oc.descentRate, 0, first), oc.ascentRate, oc.descentRate)
  }

  /** The algorithm state and the segments after the descent and the first `w`
      windows `(bottom[k], bottom[k + 1])`. */
  function Windows<S>(oc: OpenCircuit<S>, w: nat, fuel: nat): (S, seq<Step>)
    requires w < |oc.bottomSegments|
    decreases w
  {
    if w == 0 then
      (oc.algo.addDiveSegment(oc.decoAlgorithm, Descent(oc), oc.bottomSegments[0].1, oc.metresPerBar),
       [(Descent(oc), oc.bottomSegments[0].1)])
    else
      var before := Windows(oc, w - 1, fuel);
      var start := oc.bottomSegments[w - 1];
      var link := Link(oc, oc.algo.addDiveSegment(before.0, start.0, start.1, oc.metresPerBar), start,
                       Some(oc.bottomSegments[w]), fuel);
      (link.0, before.1 + [start] + link.1)
  }

  /** The algorithm state and the segments of the whole dive: the windows,
      then the last bottom segment and the final ascent to the surface. */
  function Dive<S>(oc: OpenCircuit<S>, fuel: nat): (S, seq<Step>)
    requires |oc.bottomSegments| > 0
  {
    var n := |oc.bottomSegments|;
    var before := Windows(oc, n - 1, fuel);
    var last := oc.bottomSegments[n - 1];
    var link := Link(oc, oc.algo.addDiveSegment(before.0, last.0, last.1, oc.metresPerBar), last, None, fuel);
    (link.0, before.1 + [last] + link.1)
  }

  /** The gas one segment consumes: nothing for a no-deco marker, the deco
      consumption rate at a stop, the bottom rate otherwise. */
  function Consumption<S>(oc: OpenCircuit<S>, seg: DiveSegment): nat
  {
    match seg.kind
    case DecoStop => oc.env.gasConsumed(seg, oc.sacDeco, oc.metresPerBar)
    case NoDeco => 0
    case _ => oc.env.gasConsumed(seg, oc.sacBottom, oc.metresPerBar)
  }

  /** The gas map built by `plan`'s last loop over a prefix of the segments. */
  function GasPlanOf<S>(oc: OpenCircuit<S>, steps: seq<Step>): map<Gas, nat>
    decreases |steps|
  {
    if steps == [] then map[]
    else
      var m := GasPlanOf(oc, steps[..|steps| - 1]);
      var step := steps[|steps| - 1];
      m[step.1 := (if step.1 in m then m[step.1] else 0) + Consumption(oc, step.0)]
  }

  /** The total consumption of the steps breathed on `g`. */
  function TotalFor<S>(oc: OpenCircuit<S>, steps: seq<Step>, g: Gas): nat
    decreases |steps|
  {
    if steps == [] then 0
    else
      var last := steps[|steps| - 1];
      TotalFor(oc, steps[..|steps| - 1], g) + (if last.1 == g then Consumption(oc, last.0) else 0)
  }

  /** The gases the steps are breathed on. */
  function GasesOf(steps: seq<Step>): set<Gas>
  {
    set i | 0 <= i < |steps| :: steps[i].1
  }

  /** `plan`'s result. */
  function PlanOf<S>(oc: OpenCircuit<S>, fuel: nat): DiveResult<S>
    requires |oc.bottomSegments| > 0
  {
    var dive := Dive(oc, fuel);
    DiveResult(dive.0, dive.1, GasPlanOf(oc, dive.1))
  }

  /** `plan`: descend, then for each window add the start segment and the
      link to the next, then the last segment and the ascent to the surface;
      finally sum the consumption per gas. The source indexes the first bottom
      segment unchecked, so the profile must not be empty. */
  method Plan<S>(oc: OpenCircuit<S>, fuel: nat) returns (result: DiveResult<S>)
    requires |oc.bottomSegments| > 0
    ensures result == PlanOf(oc, fuel)
  {
    var deco, totalSegments := LayOut(oc, fuel);
    var gasPlan := GasPlan(oc, totalSegments);
    result := DiveResult(deco, totalSegments, gasPlan);
  }

  /** The segment-building part of `plan`. */
  method LayOut<S>(oc: OpenCircuit<S>, fuel: nat) returns (deco: S, totalSegments: seq<Step>)
    requires |oc.bottomSegments| > 0
    ensures (deco, totalSegments) == Dive(oc, fuel)
  {
    totalSegments := [];
    deco := oc.decoAlgorithm;
    var first := oc.bottomSegments[0];
    var descentToBeginning := DiveSegment(AscDesc, 0, first.0.startDepth,
      oc.env.timeTaken(oc.descentRate, 0, first.0.startDepth), oc.ascentRate, oc.descentRate);
    deco := oc.algo.addDiveSegment(deco, descentToBeginning, first.1, oc.metresPerBar);
    totalSegments := totalSegments + [(descentToBeginning, first.1)];
    assert descentToBeginning == Descent(oc);
    assert totalSegments == [(Descent(oc), first.1)];
    var w := 0;
    while w + 1 < |oc.bottomSegments|
      invariant 0 <= w < |oc.bottomSegments|
      invariant (deco, totalSegments) == Windows(oc, w, fuel)
    {
      var start := oc.bottomSegments[w];
      var end := oc.bottomSegments[w + 1];
      deco := oc.algo.addDiveSegment(deco, start.0, start.1, oc.metresPerBar);
      totalSegments := totalSegments + [start];
      var stopsPerformed;
      deco, stopsPerformed := LevelToLevel(oc, deco, start, Some(end), [], fuel);
      assert stopsPerformed == Link(oc, oc.algo.addDiveSegment(Windows(oc, w, fuel).0, start.0, start.1, oc.metresPerBar),
                                    start, Some(end), fuel).1;
      totalSegments := totalSegments + stopsPerformed;
      w := w + 1;
    }
    var finalStop := oc.bottomSegments[|oc.bottomSegments| - 1];
    deco := oc.algo.addDiveSegment(deco, finalStop.0, finalStop.1, oc.metresPerBar);
    totalSegments := totalSegments + [finalStop];
    var stopsPerformed;
    deco, stopsPerformed := LevelToLevel(oc, deco, finalStop, None, [], fuel);
    assert stopsPerformed == Link(oc, oc.algo.addDiveSegment(Windows(oc, w, fuel).0, finalStop.0, finalStop.1, oc.metresPerBar),
                                  finalStop, None, fuel).1;
    totalSegments := totalSegments + stopsPerformed;
  }

  /** The gas-summing loop of `plan`. */
  method GasPlan<S>(oc: OpenCircuit<S>, totalSegments: seq<Step>) returns (gasPlan: map<Gas, nat>)
    ensures gasPlan == GasPlanOf(oc, totalSegments)
  {
    gasPlan := map[];
    var i := 0;
    while i < |totalSegments|
      invariant 0 <= i <= |totalSegments|
      invariant gasPlan == GasPlanOf(oc, totalSegments[..i])
    {
      var step := totalSegments[i];
      var gasConsumed := Consumption(oc, step.0);
      var gasNeeded := (if step.1 in gasPlan then gasPlan[step.1] else 0) + gasConsumed;
      gasPlan := gasPlan[step.1 := gasNeeded];
      assert totalSegments[..i + 1][..i] == totalSegments[..i];
      i := i + 1;
    }
    assert totalSegments[..i] == totalSegments;
  }

  /** The plan starts with the descent from the surface to the first bottom
      segment, on the first segment's gas. */
  lemma PlanStartsWithDescent<S>(oc: OpenCircuit<S>, fuel: nat)
    requires |oc.bottomSegments| > 0
    ensures |PlanOf(oc, fuel).totalSegments| > 0
    ensures var step := PlanOf(oc, fuel).totalSegments[0];
      && step.1 == oc.bottomSegments[0].1
      && step.0.kind == AscDesc && step.0.startDepth == 0
      && step.0.endDepth == oc.bottomSegments[0].0.startDepth
  {
    WindowsStartWithDescent(oc, |oc.bottomSegments| - 1, fuel);
  }

  lemma {:induction false} WindowsStartWithDescent<S>(oc: OpenCircuit<S>, w: nat, fuel: nat)
    requires w < |oc.bottomSegments|
    ensures |Windows(oc, w, fuel).1| > 0 && Windows(oc, w, fuel).1[0] == (Descent(oc), oc.bottomSegments[0].1)
    decreases w
  {
    if w > 0 {
      WindowsStartWithDescent(oc, w - 1, fuel);
    }
  }

  /** The segments up to window `k` are a prefix of those up to window `w`. */
  lemma {:induction false} WindowsGrow<S>(oc: OpenCircuit<S>, k: nat, w: nat, fuel: nat)
    requires k <= w < |oc.bottomSegments|
    ensures Windows(oc, k, fuel).1 <= Windows(oc, w, fuel).1
    decreases w - k
  {
    if k < w {
      WindowsGrow(oc, k, w - 1, fuel);
    }
  }

  /** Where bottom segment `k` sits in the plan: right after the first `k` windows. */
  function ProfilePosition<S>(oc: OpenCircuit<S>, k: nat, fuel: nat): nat
    requires k < |oc.bottomSegments|
  {
    |Windows(oc, k, fuel).1|
  }

  /** Every bottom segment appears in the plan, in profile order. */
  lemma PlanKeepsProfile<S>(oc: OpenCircuit<S>, fuel: nat, k: nat)
    requires k < |oc.bottomSegments|
    ensures ProfilePosition(oc, k, fuel) < |PlanOf(oc, fuel).totalSegments|
    ensures PlanOf(oc, fuel).totalSegments[ProfilePosition(oc, k, fuel)] == oc.bottomSegments[k]
    ensures k + 1 < |oc.bottomSegments| ==> ProfilePosition(oc, k, fuel) < ProfilePosition(oc, k + 1, fuel)
  {
    var n := |oc.bottomSegments|;
    var total := PlanOf(oc, fuel).totalSegments;
    var p := ProfilePosition(oc, k, fuel);
    if k + 1 < n {
      var next := Windows(oc, k + 1, fuel).1;
      assert next[p] == oc.bottomSegments[k];
      WindowsGrow(oc, k + 1, n - 1, fuel);
      assert Windows(oc, n - 1, fuel).1 <= total;
      assert total[p] == next[p];
    } else {
      assert total[p] == oc.bottomSegments[k];
    }
  }

  /** The gas plan has exactly the gases used as keys, and each maps to the
      total consumption of its segments. */
  lemma {:induction false} GasPlanIsPerGasTotal<S>(oc: OpenCircuit<S>, steps: seq<Step>)
    ensures GasPlanOf(oc, steps).Keys == GasesOf(steps)
    ensures forall g :: g in GasPlanOf(oc, steps) ==> GasPlanOf(oc, steps)[g] == TotalFor(oc, steps, g)
    decreases |steps|
  {
    if steps != [] {
      var prefix := steps[..|steps| - 1];
      GasPlanIsPerGasTotal(oc, prefix);
      assert GasesOf(steps) == GasesOf(prefix) + {steps[|steps| - 1].1} by {
        forall g | g in GasesOf(steps) ensures g in GasesOf(prefix) + {steps[|steps| - 1].1} {
          var i :| 0 <= i < |steps| && steps[i].1 == g;
          if i < |steps| - 1 {
            assert prefix[i] == steps[i];
          }
        }
        forall g | g in GasesOf(prefix) ensures g in GasesOf(steps) {
          var i :| 0 <= i < |prefix| && prefix[i].1 == g;
          assert steps[i] == prefix[i];
        }
      }
      forall g | g !in GasesOf(prefix)
        ensures TotalFor(oc, prefix, g) == 0
      {
        TotalForUnused(oc, prefix, g);
      }
    }
  }

  /** A gas no step breathes has zero total. */
  lemma {:induction false} TotalForUnused<S>(oc: OpenCircuit<S>, steps: seq<Step>, g: Gas)
    requires g !in GasesOf(steps)
    ensures TotalFor(oc, steps, g) == 0
    decreases |steps|
  {
    if steps != [] {
      var prefix := steps[..|steps| - 1];
      forall i | 0 <= i < |prefix| ensures prefix[i].1 != g {
        assert prefix[i] == steps[i];
      }
      assert steps[|steps| - 1].1 in GasesOf(steps);
      TotalForUnused(oc, prefix, g);
    }
  }

  /** The mixtures of the profile and the deco gases. */
  function PlannedGases<S>(oc: OpenCircuit<S>): set<Gas>
  {
    (set i | 0 <= i < |oc.bottomSegments| :: oc.bottomSegments[i].1)
      + (set j | 0 <= j < |oc.decoGases| :: oc.decoGases[j].0)
  }

  lemma {:induction false} WindowsUsePlannedGases<S>(oc: OpenCircuit<S>, w: nat, fuel: nat)
    requires w < |oc.bottomSegments|
    ensures GasesOf(Windows(oc, w, fuel).1) <= PlannedGases(oc)
    decreases w
  {
    var known := PlannedGases(oc);
    assert oc.bottomSegments[0].1 in known;
    if w > 0 {
      WindowsUsePlannedGases(oc, w - 1, fuel);
      var before := Windows(oc, w - 1, fuel);
      var start := oc.bottomSegments[w - 1];
      assert start.1 in known && oc.bottomSegments[w].1 in known;
      var deco := oc.algo.addDiveSegment(before.0, start.0, start.1, oc.metresPerBar);
      LinkUsesKnownGases(oc, deco, start, Some(oc.bottomSegments[w]), fuel, known);
      var link := Link(oc, deco, start, Some(oc.bottomSegments[w]), fuel).1;
      var all := before.1 + [start] + link;
      forall i | 0 <= i < |all| ensures all[i].1 in known {
        if i < |before.1| {
          assert all[i] == before.1[i];
          assert before.1[i].1 in GasesOf(before.1);
        } else if i > |before.1| {
          assert all[i] == link[i - |before.1| - 1];
        }
      }
    }
  }

  /** Every segment of the plan is breathed on a profile gas or a deco gas, so
      the gas plan has no other keys. */
  lemma PlanUsesPlannedGases<S>(oc: OpenCircuit<S>, fuel: nat)
    requires |oc.bottomSegments| > 0
    ensures GasesOf(PlanOf(oc, fuel).totalSegments) <= PlannedGases(oc)
    ensures PlanOf(oc, fuel).gasPlan.Keys <= PlannedGases(oc)
  {
    var n := |oc.bottomSegments|;
    var known := PlannedGases(oc);
    WindowsUsePlannedGases(oc, n - 1, fuel);
    var before := Windows(oc, n - 1, fuel);
    var last := oc.bottomSegments[n - 1];
    assert last.1 in known;
    var deco := oc.algo.addDiveSegment(before.0, last.0, last.1, oc.metresPerBar);
    LinkUsesKnownGases(oc, deco, last, None, fuel, known);
    var link := Link(oc, deco, last, None, fuel).1;
    var all := before.1 + [last] + link;
    forall i | 0 <= i < |all| ensures all[i].1 in known {
      if i < |before.1| {
        assert all[i] == before.1[i];
        assert before.1[i].1 in GasesOf(before.1);
      } else if i > |before.1| {
        assert all[i] == link[i - |before.1| - 1];
      }
    }
    GasPlanIsPerGasTotal(oc, all);
  }
}
