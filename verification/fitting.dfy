/**
 * The stages of `Spectra.analyse` and `Spectra.optimise` that are not numerical fitting
 * (scripts/kat/spectra.py): the per-peak local fit loop (the fit itself is a parameter), the
 * pruning of empty peaks, the guard and the bounds of the global height fit, the write-back of
 * solved heights, and the post-processing of the fit's residuals.
 */
module Fitting {
  import opened Outcomes
  import opened Peaks

  // ---------------------------------------------------------------------------------------
  // analyse: local fit and pruning

  /**
   * `p.optimise(histogram)` for every peak, in place; the local fit is the Peak model's own
   * optimiser, passed in as `refine`.
   */
  method LocalFit(ps: seq<Peak>, histogram: seq<nat>, refine: (seq<nat>, Peak) -> Peak)
    returns (fitted: seq<Peak>)
    ensures |fitted| == |ps|
    ensures forall i :: 0 <= i < |ps| ==> fitted[i] == refine(histogram, ps[i])
  {
    fitted := ps;
    var i := 0;
    while i < |fitted|
      invariant 0 <= i <= |fitted| == |ps|
      invariant forall j :: 0 <= j < i ==> fitted[j] == refine(histogram, ps[j])
      invariant forall j :: i <= j < |ps| ==> fitted[j] == ps[j]
    {
      fitted := fitted[i := refine(histogram, fitted[i])];
      i := i + 1;
    }
  }

  /** The peaks whose volume reaches `minElements`, in their original order. */
  function Prune(ps: seq<Peak>, minElements: real): (r: seq<Peak>)
    ensures |r| <= |ps|
    ensures forall p :: p in r <==> p in ps && p.elements >= minElements
  {
    if ps == [] then []
    else
      var p := ps[|ps| - 1];
      Prune(ps[..|ps| - 1], minElements) + (if p.elements >= minElements then [p] else [])
  }

  /** Pruning works piecewise: what survives from a front part comes before what survives from the rest. */
  lemma {:induction false} PruneAppend(a: seq<Peak>, b: seq<Peak>, minElements: real)
    ensures Prune(a + b, minElements) == Prune(a, minElements) + Prune(b, minElements)
  {
    if b == [] {
      assert a + b == a;
    } else {
      var init, last := b[..|b| - 1], b[|b| - 1];
      var tail := if last.elements >= minElements then [last] else [];
      PruneAppend(a, init, minElements);
      assert (a + b)[..|a + b| - 1] == a + init;
      assert (a + b)[|a + b| - 1] == last;
      calc {
        Prune(a + b, minElements);
        Prune(a + init, minElements) + tail;
        (Prune(a, minElements) + Prune(init, minElements)) + tail;
        Prune(a, minElements) + (Prune(init, minElements) + tail);
        Prune(a, minElements) + Prune(b, minElements);
      }
    }
  }

  /** Pruning keeps peaks ordered by position. */
  lemma {:induction false} PruneKeepsOrder(ps: seq<Peak>, minElements: real)
    requires StrictlyAscending(ps)
    ensures StrictlyAscending(Prune(ps, minElements))
  {
    if ps != [] {
      var init := ps[..|ps| - 1];
      PruneKeepsOrder(init, minElements);
      var kept := Prune(init, minElements);
      forall a | 0 <= a < |kept| ensures kept[a].mean < ps[|ps| - 1].mean {
        assert kept[a] in init;
        var i :| 0 <= i < |init| && init[i] == kept[a];
        assert ps[i] == init[i];
      }
    }
  }

  /** Pruning twice with the same threshold removes nothing more. */
  lemma {:induction false} PruneIdempotent(ps: seq<Peak>, minElements: real)
    ensures Prune(Prune(ps, minElements), minElements) == Prune(ps, minElements)
  {
    if ps != [] {
      var init := ps[..|ps| - 1];
      var p := ps[|ps| - 1];
      PruneIdempotent(init, minElements);
      var tail := if p.elements >= minElements then [p] else [];
      PruneAppend(Prune(init, minElements), tail, minElements);
      assert Prune(tail, minElements) == tail by {
        if tail != [] { assert tail[..0] == []; }
      }
    }
  }

  // ---------------------------------------------------------------------------------------
  // optimise: guard, bounds and write-back

  /** The start point and the box of the bounded least-squares problem over peak heights. */
  datatype Bounds = Bounds(initial: seq<real>, lower: seq<real>, upper: seq<real>)

  /**
   * `optimise` up to the solver call: no peak list, or an empty one, raises; otherwise one
   * parameter per peak, its height, which the solver may lower to 0 but never raise.
   */
  method OptimiseSetup(peaks: Option<seq<Peak>>) returns (r: Result<Bounds>)
    ensures r.Failure? <==> peaks.None? || peaks.value == []
    ensures r.Failure? ==> r.error == NoPeaksDefined
    ensures r.Success? ==>
      var ps := peaks.value;
      && |r.value.initial| == |ps| && |r.value.lower| == |ps| && |r.value.upper| == |ps|
      && forall i :: 0 <= i < |ps| ==>
           r.value.initial[i] == ps[i].peak && r.value.lower[i] == 0.0 && r.value.upper[i] == ps[i].peak
  {
    if peaks.None? || peaks.value == [] {
      return Failure(NoPeaksDefined);
    }
    var ps := peaks.value;
    var params, lowerBounds, upperBounds := [], [], [];
    var i := 0;
    while i < |ps|
      invariant 0 <= i <= |ps|
      invariant |params| == |lowerBounds| == |upperBounds| == i
      invariant forall j :: 0 <= j < i ==>
        params[j] == ps[j].peak && lowerBounds[j] == 0.0 && upperBounds[j] == ps[j].peak
    {
      params := params + [ps[i].peak];
      lowerBounds := lowerBounds + [0.0];
      upperBounds := upperBounds + [ps[i].peak];
      i := i + 1;
    }
    return Success(Bounds(params, lowerBounds, upperBounds));
  }

  predicate WithinBounds(x: seq<real>, b: Bounds)
  {
    |x| == |b.lower| == |b.upper| && forall i :: 0 <= i < |x| ==> b.lower[i] <= x[i] <= b.upper[i]
  }

  /**
   * What the Peak model's `updateModel(mean, peak, stddev)` is relied on to do when called with
   * a peak's own mean: keep the position and take the new height. The volume is the integral
   * of the rebuilt curve, which the Peak model computes and nothing here constrains.
   */
  ghost predicate SetsHeight(update: (Peak, real) -> Peak)
  {
    forall p: Peak, x: real :: update(p, x).mean == p.mean && update(p, x).peak == x
  }

  /**
   * `_updateModel`: a parameter vector of the wrong length raises; otherwise each peak is
   * rebuilt by the Peak model (`update`) around its own mean with the solved height. A Peak
   * model that keeps the mean and takes the height leaves positions in place and heights equal
   * to the parameters.
   */
  function UpdateHeights(ps: seq<Peak>, x: seq<real>, update: (Peak, real) -> Peak): (r: Result<seq<Peak>>)
    ensures r.Failure? <==> |x| != |ps|
    ensures r.Failure? ==> r.error == ParameterMismatch
    ensures r.Success? ==> |r.value| == |ps| && forall i :: 0 <= i < |ps| ==> r.value[i] == update(ps[i], x[i])
    ensures r.Success? && SetsHeight(update) ==> Means(r.value) == Means(ps) && Heights(r.value) == x
  {
    if |x| != |ps| then Failure(ParameterMismatch)
    else
      var q := seq(|ps|, i requires 0 <= i < |ps| => update(ps[i], x[i]));
      assert SetsHeight(update) ==> Means(q) == Means(ps) && Heights(q) == x by {
        if SetsHeight(update) {
          forall i | 0 <= i < |ps| ensures q[i].mean == ps[i].mean && q[i].peak == x[i] {
            var p, h := ps[i], x[i];
            assert q[i] == update(p, h);
            assert update(p, h).mean == p.mean && update(p, h).peak == h;
          }
        }
      }
      Success(q)
  }

  /**
   * A solution inside the box set up by `optimise` can only lower peak heights, never below 0,
   * and moves no peak.
   */
  lemma GlobalFitLowersHeights(ps: seq<Peak>, b: Bounds, x: seq<real>, update: (Peak, real) -> Peak)
    requires |b.lower| == |b.upper| == |ps|
    requires forall i :: 0 <= i < |ps| ==> b.lower[i] == 0.0 && b.upper[i] == ps[i].peak
    requires WithinBounds(x, b) && SetsHeight(update)
    ensures UpdateHeights(ps, x, update).Success?
    ensures Means(UpdateHeights(ps, x, update).value) == Means(ps)
    ensures forall i :: 0 <= i < |ps| ==> 0.0 <= UpdateHeights(ps, x, update).value[i].peak <= ps[i].peak
  {
    var r := UpdateHeights(ps, x, update).value;
    forall i | 0 <= i < |ps| ensures 0.0 <= r[i].peak <= ps[i].peak {
      assert r[i].peak == Heights(r)[i];
    }
  }

  // ---------------------------------------------------------------------------------------
  // _residuals: post-processing of (histogram - model)

  /** Residuals in the first five bins are dropped. */
  const NoiseBins: nat := 5

  /** One bin after post-processing: dropped near the origin, an overshoot multiplied by the peak count. */
  function Penalised(i: nat, d: real, peakCount: nat): (r: real)
    ensures i < NoiseBins ==> r == 0.0
    ensures NoiseBins <= i && 0.0 <= d ==> r == d
    ensures NoiseBins <= i && d < 0.0 ==> r <= 0.0
    ensures NoiseBins <= i && d < 0.0 && 1 <= peakCount ==> r <= d
  {
    if i < NoiseBins then 0.0 else if d < 0.0 then d * peakCount as real else d
  }

  /**
   * `_residuals` given the summed model curve: a parameter vector whose length is not the
   * peak count raises; otherwise the differences `observed - model`, rewritten bin by bin.
   */
  method Residuals(observed: seq<real>, model: seq<real>, params: seq<real>, ps: seq<Peak>)
    returns (r: Result<seq<real>>)
    requires |model| == |observed|
    ensures r.Failure? <==> |params| != |ps|
    ensures r.Failure? ==> r.error == ParameterMismatch
    ensures r.Success? ==> |r.value| == |observed|
    ensures r.Success? ==>
      forall i :: 0 <= i < |observed| ==> r.value[i] == Penalised(i, observed[i] - model[i], |ps|)
  {
    if |params| != |ps| {
      return Failure(ParameterMismatch);
    }
    var residuals := new real[|observed|](i requires 0 <= i < |observed| => observed[i] - model[i]);
    var i := 0;
    while i < residuals.Length
      invariant 0 <= i <= residuals.Length
      invariant forall j :: 0 <= j < i ==> residuals[j] == Penalised(j, observed[j] - model[j], |ps|)
      invariant forall j :: i <= j < residuals.Length ==> residuals[j] == observed[j] - model[j]
    {
      var d := residuals[i];
      if d < 0.0 {
        residuals[i] := d * |ps| as real;
      }
      if i < NoiseBins {
        residuals[i] := 0.0;
      }
      i := i + 1;
    }
    return Success(residuals[..]);
  }

  /**
   * Past the noise bins, post-processing keeps the sign of every difference, leaves an
   * undershoot as it is, and makes an overshoot at least as large, more so with more peaks.
   */
  lemma PenaltyShape(i: nat, d: real, m: nat, n: nat)
    requires NoiseBins <= i && 1 <= m <= n
    ensures 0.0 <= d ==> Penalised(i, d, n) == d
    ensures d < 0.0 ==> Penalised(i, d, n) <= Penalised(i, d, m) <= d < 0.0
  {
    if d < 0.0 {
      assert d * n as real <= d * m as real by {
        assert (n - m) as real * d <= 0.0;
      }
    }
  }

  // ---------------------------------------------------------------------------------------
  // analyse: the stages after seeding, as one specification

  /** Every peak after its local fit. */
  function Refined(ps: seq<Peak>, histogram: seq<nat>, refine: (seq<nat>, Peak) -> Peak): (r: seq<Peak>)
    ensures |r| == |ps|
  {
    seq(|ps|, i requires 0 <= i < |ps| => refine(histogram, ps[i]))
  }

  /** The box `optimise` hands to the solver for a non-empty peak list. */
  function BoundsFor(ps: seq<Peak>): Bounds
  {
    Bounds(Heights(ps), seq(|ps|, i => 0.0), Heights(ps))
  }

  /**
   * The guarded global fit: with no peaks `optimise` raises; a failed solve, or heights that do
   * not match the peaks, leave the peaks as they were (analyse swallows the exception).
   * Otherwise every peak is rebuilt with its solved height.
   */
  function GlobalFit(ps: seq<Peak>, histogram: seq<nat>,
                     solve: (seq<nat>, seq<Peak>, Bounds) -> Option<seq<real>>,
                     update: (Peak, real) -> Peak): (r: seq<Peak>)
    ensures |r| == |ps|
    ensures r == ps ||
      (ps != [] && solve(histogram, ps, BoundsFor(ps)).Some?
       && |solve(histogram, ps, BoundsFor(ps)).value| == |ps|
       && forall i :: 0 <= i < |ps| ==> r[i] == update(ps[i], solve(histogram, ps, BoundsFor(ps)).value[i]))
  {
    if ps == [] then ps
    else match solve(histogram, ps, BoundsFor(ps))
      case None => ps
      case Some(x) => match UpdateHeights(ps, x, update)
        case Failure(_) => ps
        case Success(q) => q
  }

  /** `analyse` after a non-empty seeding: local fit, pruning, then the guarded global fit. */
  function Analysed(seeded: seq<Peak>, histogram: seq<nat>, minElements: real,
                    refine: (seq<nat>, Peak) -> Peak,
                    solve: (seq<nat>, seq<Peak>, Bounds) -> Option<seq<real>>,
                    update: (Peak, real) -> Peak): (r: seq<Peak>)
    ensures |r| <= |seeded|
  {
    GlobalFit(Prune(Refined(seeded, histogram, refine), minElements), histogram, solve, update)
  }

  /**
   * The part of `analyse` that runs once the seeding produced peaks. The bounded least-squares
   * solver is `solve`, None standing for an unsuccessful or raising solve; the Peak model's
   * `updateModel` is `update`.
   */
  method FitPeaks(seeded: seq<Peak>, histogram: seq<nat>, minElements: real,
                  refine: (seq<nat>, Peak) -> Peak,
                  solve: (seq<nat>, seq<Peak>, Bounds) -> Option<seq<real>>,
                  update: (Peak, real) -> Peak)
    returns (ps: seq<Peak>)
    ensures ps == Analysed(seeded, histogram, minElements, refine, solve, update)
  {
    var fitted := LocalFit(seeded, histogram, refine);
    assert fitted == Refined(seeded, histogram, refine);
    ps := Prune(fitted, minElements);
    var setup := OptimiseSetup(Some(ps));
    if setup.Success? {
      assert setup.value == BoundsFor(ps);
      var x := solve(histogram, ps, setup.value);
      if x.Some? {
        var updated := UpdateHeights(ps, x.value, update);
        if updated.Success? {
          ps := updated.value;
        }
      }
    }
  }

  /**
   * With a Peak model that keeps positions, the global fit moves no peak; each height either
   * stays as it was or, when the solver keeps to its box, drops to somewhere between 0 and
   * where it was.
   */
  lemma GlobalFitKeepsShape(ps: seq<Peak>, histogram: seq<nat>,
                            solve: (seq<nat>, seq<Peak>, Bounds) -> Option<seq<real>>,
                            update: (Peak, real) -> Peak)
    requires SetsHeight(update)
    requires ps != [] && solve(histogram, ps, BoundsFor(ps)).Some? ==>
      WithinBounds(solve(histogram, ps, BoundsFor(ps)).value, BoundsFor(ps))
    ensures var r := GlobalFit(ps, histogram, solve, update);
      && Means(r) == Means(ps)
      && forall i :: 0 <= i < |ps| ==> r[i].peak == ps[i].peak || 0.0 <= r[i].peak <= ps[i].peak
  {
    var r := GlobalFit(ps, histogram, solve, update);
    if ps != [] && solve(histogram, ps, BoundsFor(ps)).Some? {
      var b := BoundsFor(ps);
      var x := solve(histogram, ps, b).value;
      assert |b.lower| == |b.upper| == |ps|;
      forall i | 0 <= i < |ps| ensures b.lower[i] == 0.0 && b.upper[i] == ps[i].peak {
        assert b.upper[i] == Heights(ps)[i];
      }
      GlobalFitLowersHeights(ps, b, x, update);
    }
  }

  /** The local fit leaves every seed where it was. */
  predicate KeepsPositions(ps: seq<Peak>, histogram: seq<nat>, refine: (seq<nat>, Peak) -> Peak)
  {
    forall j :: 0 <= j < |ps| ==> refine(histogram, ps[j]).mean == ps[j].mean
  }

  /**
   * What `analyse` leaves: one peak per locally fitted seed that held at least `minElements`
   * before the global fit, none added; each is that peak, or that peak rebuilt around its own
   * position with a new height. Positions stay strictly increasing when the seeds were, the
   * local fit keeps each peak's position and the Peak model keeps it too.
   */
  lemma AnalysedPeaks(seeded: seq<Peak>, histogram: seq<nat>, minElements: real,
                      refine: (seq<nat>, Peak) -> Peak,
                      solve: (seq<nat>, seq<Peak>, Bounds) -> Option<seq<real>>,
                      update: (Peak, real) -> Peak)
    ensures var r := Analysed(seeded, histogram, minElements, refine, solve, update);
      var kept := Prune(Refined(seeded, histogram, refine), minElements);
      && |r| == |kept| <= |seeded|
      && (forall i :: 0 <= i < |kept| ==> minElements <= kept[i].elements)
      && (forall i :: 0 <= i < |kept| ==>
            exists j :: 0 <= j < |seeded| && kept[i] == refine(histogram, seeded[j]))
      && (SetsHeight(update) ==> Means(r) == Means(kept))
      && (SetsHeight(update) ==> forall i :: 0 <= i < |r| ==> r[i] == kept[i] || r[i] == update(kept[i], r[i].peak))
      && (SetsHeight(update) && StrictlyAscending(seeded) && KeepsPositions(seeded, histogram, refine) ==>
            StrictlyAscending(r))
  {
    var fitted := Refined(seeded, histogram, refine);
    var kept := Prune(fitted, minElements);
    var r := Analysed(seeded, histogram, minElements, refine, solve, update);
    forall i | 0 <= i < |kept|
      ensures minElements <= kept[i].elements
      ensures exists j :: 0 <= j < |seeded| && kept[i] == refine(histogram, seeded[j])
    {
      assert kept[i] in kept;
      var j :| 0 <= j < |fitted| && fitted[j] == kept[i];
    }
    if SetsHeight(update) {
      GlobalFitSameShape(kept, histogram, solve, update);
      if StrictlyAscending(seeded) && KeepsPositions(seeded, histogram, refine) {
        assert StrictlyAscending(fitted);
        PruneKeepsOrder(fitted, minElements);
        forall a, b | 0 <= a < b < |r| ensures r[a].mean < r[b].mean {
          assert r[a].mean == Means(r)[a] == Means(kept)[a];
          assert r[b].mean == Means(r)[b] == Means(kept)[b];
        }
      }
    }
  }

  /**
   * With a Peak model that keeps positions, the global fit moves no peak whatever the solver
   * returns, and each peak either stays or is rebuilt at its new height.
   */
  lemma GlobalFitSameShape(ps: seq<Peak>, histogram: seq<nat>,
                           solve: (seq<nat>, seq<Peak>, Bounds) -> Option<seq<real>>,
                           update: (Peak, real) -> Peak)
    requires SetsHeight(update)
    ensures var r := GlobalFit(ps, histogram, solve, update);
      && Means(r) == Means(ps)
      && forall i :: 0 <= i < |r| ==> r[i] == ps[i] || r[i] == update(ps[i], r[i].peak)
  {
    var r := GlobalFit(ps, histogram, solve, update);
    if r != ps {
      var x := solve(histogram, ps, BoundsFor(ps)).value;
      forall i | 0 <= i < |r| ensures r[i] == update(ps[i], r[i].peak) {
        assert r[i] == update(ps[i], x[i]);
      }
      assert Means(r) == Means(ps);
    }
  }
}
