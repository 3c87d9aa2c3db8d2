/** The ZHL-16 engine as the object the planner drives
    (src/deco/zhl16/mod.rs): the tissue arrays are updated in place
    compartment by compartment, the latch and the gradient factors are
    fields, and the stop and no-decompression searches loop over copies. Each
    operation is tied to its counterpart on the value `Zhl16.Snapshot`. */
module Zhl16Engine {
  import opened Numeric
  import opened Gases
  import opened Segments
  import opened Zhl16

  /** A fresh array holding the given values. */
  method ArrayOf(s: seq<real>) returns (a: array<real>)
    ensures fresh(a) && a[..] == s
  {
    a := new real[|s|](i requires 0 <= i < |s| => s[i]);
  }

  class ZHL16 {
    /** The tissue model, one array per component. */
    const pN2: array<real>
    const pHe: array<real>
    const pT: array<real>
    var diverDepth: nat
    const n2A: seq<real>
    const n2B: seq<real>
    const n2Hl: seq<real>
    const heA: seq<real>
    const heB: seq<real>
    const heHl: seq<real>
    var firstDecoDepth: nat
    var gfLow: real
    var gfHigh: real

    /** Sixteen entries everywhere, and three distinct tissue arrays. */
    predicate Valid()
      reads this
    {
      && pN2.Length == TISSUE_COUNT && pHe.Length == TISSUE_COUNT && pT.Length == TISSUE_COUNT
      && pN2 != pHe && pN2 != pT && pHe != pT
      && |n2A| == TISSUE_COUNT && |n2B| == TISSUE_COUNT && |n2Hl| == TISSUE_COUNT
      && |heA| == TISSUE_COUNT && |heB| == TISSUE_COUNT && |heHl| == TISSUE_COUNT
    }

    /** The engine as a value. */
    function View(): (s: Snapshot)
      reads this, pN2, pHe, pT
      requires Valid()
      ensures s.WellFormed()
    {
      Snapshot(Tissue(pN2[..], pHe[..], pT[..]), diverDepth, n2A, n2B, n2Hl, heA, heB, heHl,
        firstDecoDepth, gfLow, gfHigh)
    }

    /** `ZHL16::new`: the diver at the surface, no stop latched, gradient
        factors given in percent, constants stored as given. */
    constructor New(tissue: Tissue, n2A: seq<real>, n2B: seq<real>, n2Hl: seq<real>,
                    heA: seq<real>, heB: seq<real>, heHl: seq<real>, gfLow: nat, gfHigh: nat)
      requires tissue.WellFormed()
      requires |n2A| == TISSUE_COUNT && |n2B| == TISSUE_COUNT && |n2Hl| == TISSUE_COUNT
      requires |heA| == TISSUE_COUNT && |heB| == TISSUE_COUNT && |heHl| == TISSUE_COUNT
      ensures Valid() && fresh(pN2) && fresh(pHe) && fresh(pT)
      ensures View() == Snapshot(tissue, 0, n2A, n2B, n2Hl, heA, heB, heHl, UNSET,
                                 gfLow as real / 100.0, gfHigh as real / 100.0)
    {
      var n2 := ArrayOf(tissue.pN2);
      var he := ArrayOf(tissue.pHe);
      var total := ArrayOf(tissue.pT);
      pN2, pHe, pT := n2, he, total;
      diverDepth := 0;
      this.n2A := n2A;
      this.n2B := n2B;
      this.n2Hl := n2Hl;
      this.heA := heA;
      this.heB := heB;
      this.heHl := heHl;
      firstDecoDepth := UNSET;
      this.gfLow := gfLow as real / 100.0;
      this.gfHigh := gfHigh as real / 100.0;
    }

    /** The bitwise copy `*self` the searches work on: same value, own arrays. */
    constructor Copy(other: ZHL16)
      requires other.Valid()
      ensures Valid() && fresh(pN2) && fresh(pHe) && fresh(pT)
      ensures View() == other.View()
    {
      var n2 := ArrayOf(other.pN2[..]);
      var he := ArrayOf(other.pHe[..]);
      var total := ArrayOf(other.pT[..]);
      pN2, pHe, pT := n2, he, total;
      diverDepth := other.diverDepth;
      n2A := other.n2A;
      n2B := other.n2B;
      n2Hl := other.n2Hl;
      heA := other.heA;
      heB := other.heB;
      heHl := other.heHl;
      firstDecoDepth := other.firstDecoDepth;
      gfLow := other.gfLow;
      gfHigh := other.gfHigh;
    }

    /** `update_first_deco_depth`: set the latch while it is unset. */
    method UpdateFirstDecoDepth(decoDepth: nat)
      requires Valid()
      modifies this
      ensures Valid()
      ensures View() == Zhl16.UpdateFirstDecoDepth(old(View()), decoDepth)
    {
      if firstDecoDepth == UNSET {
        firstDecoDepth := decoDepth;
      }
    }

    /** `add_depth_change`: a nitrogen pass, then a helium pass, over the
        compartments; the first pass sets the combined pressure to the new
        nitrogen, the second adds the new helium. */
    method AddDepthChange(seg: DiveSegment, gas: Gas, metresPerBar: real, env: Platform)
      requires Valid()
      modifies this, pN2, pHe, pT
      ensures Valid()
      ensures View() == Zhl16.AddDepthChange(old(View()), seg, gas, metresPerBar, env)
    {
      ghost var s := View();
      DepthChangeNitrogen(seg, gas, metresPerBar, env);
      ghost var n2 := pN2[..];
      DepthChangeHelium(seg, gas, metresPerBar, env);
      diverDepth := seg.endDepth;
      ghost var expected := Zhl16.AddDepthChange(s, seg, gas, metresPerBar, env);
      AddDepthChangeLoads(s, seg, gas, metresPerBar, env);
      assert pN2[..] == expected.tissue.pN2;
      assert pHe[..] == expected.tissue.pHe;
      assert pT[..] == expected.tissue.pT;
    }

    /** The nitrogen pass of `add_depth_change`: each compartment's nitrogen
        by the Schreiner equation, and the combined pressure set to it. */
    method DepthChangeNitrogen(seg: DiveSegment, gas: Gas, metresPerBar: real, env: Platform)
      requires Valid()
      modifies pN2, pT
      ensures forall j :: 0 <= j < TISSUE_COUNT ==>
        pN2[j] == DepthChangeN2(old(View()), seg, gas, metresPerBar, env, j) && pT[j] == pN2[j]
    {
      ghost var s := View();
      var t := SegmentMinutes(seg);
      var i := 0;
      while i < TISSUE_COUNT
        invariant 0 <= i <= TISSUE_COUNT
        invariant forall j :: 0 <= j < i ==> pN2[j] == DepthChangeN2(s, seg, gas, metresPerBar, env, j) && pT[j] == pN2[j]
        invariant forall j :: i <= j < TISSUE_COUNT ==> pN2[j] == s.tissue.pN2[j]
      {
        var po := pN2[i];
        var pio := InspiredPressure(seg.startDepth, gas.FrN2(), metresPerBar, env);
        var r := ComponentRate(seg, gas.FrN2());
        var k := Div(LN_2, n2Hl[i]);
        var pn := DepthChangeLoading(env, t, po, pio, r, k);
        pN2[i] := pn;
        pT[i] := pn;
        i := i + 1;
      }
    }

    /** The helium pass of `add_depth_change`: each compartment's helium by
        the Schreiner equation, added to the combined pressure. */
    method DepthChangeHelium(seg: DiveSegment, gas: Gas, metresPerBar: real, env: Platform)
      requires Valid()
      modifies pHe, pT
      ensures forall j :: 0 <= j < TISSUE_COUNT ==>
        pHe[j] == DepthChangeHe(old(View()), seg, gas, metresPerBar, env, j) && pT[j] == old(pT[j]) + pHe[j]
    {
      ghost var s := View();
      var t := SegmentMinutes(seg);
      var i := 0;
      while i < TISSUE_COUNT
        invariant 0 <= i <= TISSUE_COUNT
        invariant forall j :: 0 <= j < i ==> pHe[j] == DepthChangeHe(s, seg, gas, metresPerBar, env, j) && pT[j] == s.tissue.pT[j] + pHe[j]
        invariant forall j :: i <= j < TISSUE_COUNT ==> pHe[j] == s.tissue.pHe[j] && pT[j] == s.tissue.pT[j]
      {
        var po := pHe[i];
        var pio := InspiredPressure(seg.startDepth, gas.FrHe(), metresPerBar, env);
        var r := ComponentRate(seg, gas.FrHe());
        var k := Div(LN_2, heHl[i]);
        var ph := DepthChangeLoading(env, t, po, pio, r, k);
        pHe[i] := ph;
        pT[i] := pT[i] + ph;
        i := i + 1;
      }
    }

    /** `add_bottom_segment`: the same two passes with the Haldane update at
        the segment's end depth over its whole minutes. */
    method AddBottomSegment(seg: DiveSegment, gas: Gas, metresPerBar: real, env: Platform)
      requires Valid()
      modifies this, pN2, pHe, pT
      ensures Valid()
      ensures View() == Zhl16.AddBottomSegment(old(View()), seg, gas, metresPerBar, env)
    {
      ghost var s := View();
      BottomNitrogen(seg, gas, metresPerBar, env);
      BottomHelium(seg, gas, metresPerBar, env);
      diverDepth := seg.endDepth;
      ghost var expected := Zhl16.AddBottomSegment(s, seg, gas, metresPerBar, env);
      AddBottomSegmentLoads(s, seg, gas, metresPerBar, env);
      assert pN2[..] == expected.tissue.pN2;
      assert pHe[..] == expected.tissue.pHe;
      assert pT[..] == expected.tissue.pT;
    }

    /** The nitrogen pass of `add_bottom_segment`: each compartment's nitrogen
        by the Haldane equation, and the combined pressure set to it. */
    method BottomNitrogen(seg: DiveSegment, gas: Gas, metresPerBar: real, env: Platform)
      requires Valid()
      modifies pN2, pT
      ensures forall j :: 0 <= j < TISSUE_COUNT ==>
        pN2[j] == BottomN2(old(View()), seg, gas, metresPerBar, env, j) && pT[j] == pN2[j]
    {
      ghost var s := View();
      var minutes := seg.time / 60;
      var i := 0;
      while i < TISSUE_COUNT
        invariant 0 <= i <= TISSUE_COUNT
        invariant forall j :: 0 <= j < i ==> pN2[j] == BottomN2(s, seg, gas, metresPerBar, env, j) && pT[j] == pN2[j]
        invariant forall j :: i <= j < TISSUE_COUNT ==> pN2[j] == s.tissue.pN2[j]
      {
        var po := pN2[i];
        var pi := InspiredPressure(seg.endDepth, gas.FrN2(), metresPerBar, env);
        var p := HaldaneLoading(env, po, pi, minutes, n2Hl[i]);
        pN2[i] := p;
        pT[i] := p;
        i := i + 1;
      }
    }

    /** The helium pass of `add_bottom_segment`: each compartment's helium by
        the Haldane equation, added to the combined pressure. */
    method BottomHelium(seg: DiveSegment, gas: Gas, metresPerBar: real, env: Platform)
      requires Valid()
      modifies pHe, pT
      ensures forall j :: 0 <= j < TISSUE_COUNT ==>
        pHe[j] == BottomHe(old(View()), seg, gas, metresPerBar, env, j) && pT[j] == old(pT[j]) + pHe[j]
    {
      ghost var s := View();
      var minutes := seg.time / 60;
      var i := 0;
      while i < TISSUE_COUNT
        invariant 0 <= i <= TISSUE_COUNT
        invariant forall j :: 0 <= j < i ==> pHe[j] == BottomHe(s, seg, gas, metresPerBar, env, j) && pT[j] == s.tissue.pT[j] + pHe[j]
        invariant forall j :: i <= j < TISSUE_COUNT ==> pHe[j] == s.tissue.pHe[j] && pT[j] == s.tissue.pT[j]
      {
        var po := pHe[i];
        var pi := InspiredPressure(seg.endDepth, gas.FrHe(), metresPerBar, env);
        var p := HaldaneLoading(env, po, pi, minutes, heHl[i]);
        pHe[i] := p;
        pT[i] := pT[i] + p;
        i := i + 1;
      }
    }

    /** `add_segment`: dispatch on the segment kind; a deco stop also latches
        its start depth. */
    method AddSegment(seg: DiveSegment, gas: Gas, metresPerBar: real, env: Platform)
      requires Valid()
      modifies this, pN2, pHe, pT
      ensures Valid()
      ensures View() == Zhl16.AddSegment(old(View()), seg, gas, metresPerBar, env)
    {
      match seg.kind {
        case AscDesc =>
          AddDepthChange(seg, gas, metresPerBar, env);
        case DecoStop =>
          AddBottomSegment(seg, gas, metresPerBar, env);
          UpdateFirstDecoDepth(seg.startDepth);
        case _ =>
          AddBottomSegment(seg, gas, metresPerBar, env);
      }
    }

    /** `change_gfl`: set gf_low from a percentage. */
    method ChangeGfl(percent: nat)
      requires Valid()
      modifies this
      ensures Valid()
      ensures View() == old(View()).(gfLow := percent as real / 100.0)
    {
      gfLow := percent as real / 100.0;
    }

    /** `change_gfh`: set gf_high from a percentage. */
    method ChangeGfh(percent: nat)
      requires Valid()
      modifies this
      ensures Valid()
      ensures View() == old(View()).(gfHigh := percent as real / 100.0)
    {
      gfHigh := percent as real / 100.0;
    }

    /** One pass of the `next_stop` loop body: on a fresh copy, move to the
        stop depth if not there, stay `minutes` minutes, latch the stop, and
        compare the ceiling with the stop one step up. */
    method StopTrialClears(stopDepth: nat, minutes: nat, ascentRate: int, descentRate: int,
                           gas: Gas, metresPerBar: real, env: Platform) returns (clears: bool)
      requires Valid()
      ensures clears == StopClears(View(), stopDepth, minutes, ascentRate, descentRate, gas, metresPerBar, env)
    {
      ghost var s := View();
      ghost var segments := TrialSegments(s, stopDepth, minutes, ascentRate, descentRate, gas, env);
      var v := new ZHL16.Copy(this);
      assert View() == s;
      if v.diverDepth != stopDepth {
        var transit := DiveSegment(AscDesc, v.diverDepth, stopDepth,
          env.timeTaken(ascentRate, v.diverDepth, stopDepth), ascentRate, descentRate);
        v.AddSegment(transit, gas, metresPerBar, env);
        assert View() == s;
        assert CeilingAfter(s, segments, None, metresPerBar, env) == CeilingAfter(v.View(), segments[1..], None, metresPerBar, env);
      }
      ghost var moved := v.View();
      var seg := DiveSegment(DecoStop, stopDepth, stopDepth, minutes * 60, ascentRate, descentRate);
      assert CeilingAfter(s, segments, None, metresPerBar, env) == CeilingAfter(moved, [(seg, gas)], None, metresPerBar, env);
      v.AddSegment(seg, gas, metresPerBar, env);
      assert View() == s;
      assert CeilingAfter(moved, [(seg, gas)], None, metresPerBar, env) == CeilingAfter(v.View(), [], None, metresPerBar, env);
      ghost var stayed := v.View();
      v.UpdateFirstDecoDepth(seg.endDepth);
      assert v.View() == stayed;
      clears := FindAscentCeiling(v.View(), None)
        < env.mtrBar(stopDepth as real, metresPerBar) - (env.mtrBar(3.0, metresPerBar) - 1.0);
      assert View() == s;
    }

    /** `next_stop`: stay 0, 1, 2, … minutes at the stop depth until a trial
        clears, and return a stop one minute longer than that trial. The
        engine itself does not change. The source loops until a trial clears;
        the caller guarantees that one does. */
    method NextStop(ascentRate: int, descentRate: int, gas: Gas, metresPerBar: real, env: Platform)
      returns (stop: DiveSegment)
      requires Valid()
      requires exists k: nat :: StopClears(View(), StopDepth(View(), metresPerBar, env), k,
                                           ascentRate, descentRate, gas, metresPerBar, env)
      ensures stop.kind == DecoStop && stop.ascentRate == ascentRate && stop.descentRate == descentRate
      ensures stop.startDepth == stop.endDepth == StopDepth(View(), metresPerBar, env)
      ensures stop.startDepth % 3 == 0
      ensures stop.time % 60 == 0 && 60 <= stop.time
      ensures StopClears(View(), stop.startDepth, stop.time / 60 - 1, ascentRate, descentRate, gas, metresPerBar, env)
      ensures forall k: nat :: k < stop.time / 60 - 1 ==>
        !StopClears(View(), stop.startDepth, k, ascentRate, descentRate, gas, metresPerBar, env)
    {
      ghost var s := View();
      var stopDepth := StopDepth(View(), metresPerBar, env);
      ghost var bound: nat :| StopClears(s, stopDepth, bound, ascentRate, descentRate, gas, metresPerBar, env);
      var stopTime: nat := 0;
      var inLimit := false;
      while !inLimit
        invariant stopTime <= bound + 1
        invariant !inLimit ==> stopTime <= bound
        invariant !inLimit ==> forall k: nat :: k < stopTime ==>
          !StopClears(s, stopDepth, k, ascentRate, descentRate, gas, metresPerBar, env)
        invariant inLimit ==> 1 <= stopTime
        invariant inLimit ==> StopClears(s, stopDepth, stopTime - 1, ascentRate, descentRate, gas, metresPerBar, env)
        invariant inLimit ==> forall k: nat :: k < stopTime - 1 ==>
          !StopClears(s, stopDepth, k, ascentRate, descentRate, gas, metresPerBar, env)
        decreases bound + 1 - stopTime
      {
        inLimit := StopTrialClears(stopDepth, stopTime, ascentRate, descentRate, gas, metresPerBar, env);
        stopTime := stopTime + 1;
      }
      stop := DiveSegment(DecoStop, stopDepth, stopDepth, stopTime * 60, ascentRate, descentRate);
      WholeMinutes(stopTime);
      assert View() == s;
    }

    /** One pass of the `ndl` loop body: on a fresh copy, stay `minutes` more
        minutes and test for an obligation at gf_high. */
    method NdlTrialWithin(minutes: nat, gas: Gas, metresPerBar: real, env: Platform) returns (within: bool)
      requires Valid()
      ensures within == WithinNdl(View(), minutes, gas, metresPerBar, env)
    {
      var v := new ZHL16.Copy(this);
      var trial := DiveSegment(NoDeco, v.diverDepth, v.diverDepth, minutes * 60, 0, 0);
      v.AddBottomSegment(trial, gas, metresPerBar, env);
      within := FindAscentCeiling(v.View(), Some(gfHigh)) < 1.0;
      assert CeilingAfter(View(), [(trial, gas)], Some(gfHigh), metresPerBar, env)
        == CeilingAfter(v.View(), [], Some(gfHigh), metresPerBar, env);
    }

    /** The loop of `ndl`: try 0, 1, 2, … more minutes at the current depth
        until a trial shows an obligation, giving up after a thousand passing
        trials. */
    method NdlSearch(gas: Gas, metresPerBar: real, env: Platform) returns (ndl: nat, capped: bool)
      requires Valid()
      ensures capped ==> forall k: nat :: k < 1000 ==> WithinNdl(View(), k, gas, metresPerBar, env)
      ensures !capped ==> ndl < 1000 && !WithinNdl(View(), ndl, gas, metresPerBar, env)
      ensures !capped ==> forall k: nat :: k < ndl ==> WithinNdl(View(), k, gas, metresPerBar, env)
    {
      ghost var s := View();
      ndl := 0;
      var inNdl := true;
      while inNdl
        invariant ndl <= 999
        invariant forall k: nat :: k < ndl ==> WithinNdl(s, k, gas, metresPerBar, env)
        invariant !inNdl ==> !WithinNdl(s, ndl, gas, metresPerBar, env)
        decreases 1000 - ndl, inNdl
      {
        inNdl := NdlTrialWithin(ndl, gas, metresPerBar, env);
        if inNdl {
          ndl := ndl + 1;
        }
        if ndl > 999 {
          assert View() == s;
          return ndl, true;
        }
      }
      capped := false;
      assert View() == s;
    }

    /** `ndl`: the result is always a `NoDeco` segment at the diver's depth:
        the first failing trial's minutes, or 999 seconds once a thousand
        trials have passed. */
    method Ndl(gas: Gas, metresPerBar: real, env: Platform) returns (limit: Option<DiveSegment>)
      requires Valid()
      ensures limit.Some?
      ensures limit.value.kind == NoDeco
      ensures limit.value.startDepth == limit.value.endDepth == diverDepth
      ensures limit.value.ascentRate == 0 && limit.value.descentRate == 0
      ensures limit.value.time == 999 <==> forall k: nat :: k < 1000 ==> WithinNdl(View(), k, gas, metresPerBar, env)
      ensures limit.value.time != 999 ==>
        && limit.value.time % 60 == 0 && limit.value.time / 60 < 1000
        && !WithinNdl(View(), limit.value.time / 60, gas, metresPerBar, env)
        && forall k: nat :: k < limit.value.time / 60 ==> WithinNdl(View(), k, gas, metresPerBar, env)
    {
      var ndl, capped := NdlSearch(gas, metresPerBar, env);
      if capped {
        return Some(DiveSegment(NoDeco, diverDepth, diverDepth, 999, 0, 0));
      }
      limit := Some(DiveSegment(NoDeco, diverDepth, diverDepth, ndl * 60, 0, 0));
      WholeMinutes(ndl);
      assert ndl * 60 != 999;
    }
  }

  /** A whole number of minutes in seconds converts back exactly. */
  lemma WholeMinutes(m: nat)
    ensures (m * 60) % 60 == 0 && (m * 60) / 60 == m
  {
  }
}
