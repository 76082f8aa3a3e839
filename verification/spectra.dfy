/**
 * The two spectrum kinds of scripts/kat/spectra.py as classes: a k-mer spectrum (histogram of
 * k-mer multiplicities) and a GC spectrum. Each method runs the source's loops and is proved to
 * leave exactly the state the functions of modules Seeding, Fitting and GenomeMetrics describe.
 */
module Spectra {
  import opened Outcomes
  import opened Peaks
  import Seeding
  import Fitting
  import GenomeMetrics
  import Sums

  /** Every peak described by its position relative to the homozygous peak `h` (1-based). */
  function Relabelled(ps: seq<Peak>, h: int): (r: seq<Peak>)
    ensures |r| == |ps| && Means(r) == Means(ps) && Elements(r) == Elements(ps)
    ensures forall i :: 0 <= i < |ps| ==> r[i] == ps[i].(description := GenomeMetrics.Label(i + 1, h))
  {
    var r := seq(|ps|, i requires 0 <= i < |ps| => ps[i].(description := GenomeMetrics.Label(i + 1, h)));
    assert Means(r) == Means(ps);
    assert Elements(r) == Elements(ps);
    r
  }

  /** After relabelling no two peaks share a description. */
  lemma RelabelledDistinct(ps: seq<Peak>, h: int)
    ensures var r := Relabelled(ps, h);
      forall i, j :: 0 <= i < j < |r| ==> r[i].description != r[j].description
  {
    var r := Relabelled(ps, h);
    forall i, j | 0 <= i < j < |r| ensures r[i].description != r[j].description {
      RelabelledPair(ps, h, i, j);
    }
  }

  lemma RelabelledPair(ps: seq<Peak>, h: int, i: nat, j: nat)
    requires i < j < |ps|
    ensures Relabelled(ps, h)[i].description != Relabelled(ps, h)[j].description
  {
    GenomeMetrics.LabelsDistinct(i + 1, j + 1, h);
    var r := Relabelled(ps, h);
    assert r[i] == ps[i].(description := GenomeMetrics.Label(i + 1, h));
    assert r[j] == ps[j].(description := GenomeMetrics.Label(j + 1, h));
  }

  /**
   * After relabelling, the homozygous peak `h` and the heterozygous one before it are the
   * only peaks carrying their labels.
   */
  lemma RelabelledMarks(ps: seq<Peak>, h: int)
    ensures var r := Relabelled(ps, h);
      && (forall i :: 0 <= i < |r| ==> (r[i].description == GenomeMetrics.Homozygous <==> i + 1 == h))
      && (forall i :: 0 <= i < |r| ==> (r[i].description == GenomeMetrics.Heterozygous <==> i + 2 == h))
  {
    var r := Relabelled(ps, h);
    forall i | 0 <= i < |r|
      ensures r[i].description == GenomeMetrics.Homozygous <==> i + 1 == h
      ensures r[i].description == GenomeMetrics.Heterozygous <==> i + 2 == h
    {
      GenomeMetrics.HomozygousLabel(i + 1, h);
      GenomeMetrics.HeterozygousLabel(i + 1, h);
    }
  }

  /** A k-mer spectrum: the histogram, its troughs and maxima, and the peaks fitted to it. */
  class KmerSpectra {
    const histogram: seq<nat>
    const k: nat
    /** When set, no heterozygous (half-frequency) peak is looked for. */
    const haploid: bool
    var fmin: nat
    var fmax: nat
    var peaks: Option<seq<Peak>>

    constructor (histogram: seq<nat>, haploid: bool, k: nat)
      ensures this.histogram == histogram && this.haploid == haploid && this.k == k
      ensures fmin == 0 && fmax == 0 && peaks == None
    {
      this.histogram := histogram;
      this.k := k;
      this.haploid := haploid;
      fmin := 0;
      fmax := 0;
      peaks := None;
    }

    /**
     * `_createInitialPeaks`: the first trough, the first maximum after it, and the peaks seeded
     * at the candidate multiples of that maximum which fit inside the histogram.
     */
    method CreateInitialPeaks()
      modifies this
      ensures fmin == Seeding.FirstTrough(histogram)
      ensures fmax == Seeding.Fmax(histogram, fmin)
      ensures peaks == Seeding.KmerPeaks(histogram, haploid, fmin, fmax)
    {
      var lo := FirstTrough(histogram);
      var hi := if lo == 0 then 0 else Seeding.ArgMaxFrom(histogram, lo);
      fmin, fmax := lo, hi;
      if hi < 10 {
        peaks := None;
        return;
      }
      var frequencies := Frequencies(hi, haploid);
      var seeded := SeedAtFrequencies(histogram, lo, hi, frequencies);
      peaks := Some(seeded);
    }

    /** The trough scan of `_createInitialPeaks`: bins `1 .. |h|-3`, stopping at the first trough. */
    static method FirstTrough(h: seq<nat>) returns (fmin: nat)
      ensures fmin == Seeding.FirstTrough(h)
    {
      fmin := 0;
      var i := 1;
      while i < |h| - 2
        invariant 1 <= i
        invariant Seeding.TroughFrom(h, i) == Seeding.FirstTrough(h)
      {
        if h[i] < h[i + 1] && h[i] < h[i + 2] {
          fmin := i;
          break;
        }
        i := i + 1;
      }
    }

    /** The candidate list of `_createInitialPeaks`: `fmax/2` unless haploid, then `fmax*1..4`. */
    static method Frequencies(fmax: nat, haploid: bool) returns (frequencies: seq<real>)
      ensures frequencies == Seeding.Candidates(fmax, haploid)
    {
      frequencies := [];
      if !haploid {
        frequencies := frequencies + [fmax as real / 2.0];
      }
      var m := 1;
      while m < 5
        invariant 1 <= m <= 5
        invariant frequencies ==
          (if haploid then [] else [fmax as real / 2.0]) + seq(m - 1, t => ((t + 1) * fmax) as real)
      {
        frequencies := frequencies + [(fmax * m) as real];
        m := m + 1;
      }
    }

    /** The acceptance loop of `_createInitialPeaks`: one seed per candidate that fits. */
    static method SeedAtFrequencies(h: seq<nat>, fmin: nat, fmax: nat, frequencies: seq<real>)
      returns (seeded: seq<Peak>)
      requires forall i :: 0 <= i < |frequencies| ==> 0.0 <= frequencies[i]
      ensures seeded == Seeding.KmerSeeds(h, fmin, fmax, frequencies)
    {
      seeded := [];
      var c := 0;
      while c < |frequencies|
        invariant 0 <= c <= |frequencies|
        invariant seeded == Seeding.KmerSeeds(h, fmin, fmax, frequencies[..c])
      {
        var mu := frequencies[c];
        var radius := Seeding.Radius(mu);
        var mean := mu.Floor;
        if radius >= 2 && mean > fmin && mu - radius as real > 0.0 && mu + radius as real < |h| as real {
          seeded := seeded + [Seed(mean, h[mean], mean == fmax)];
        }
        assert frequencies[..c + 1][..c] == frequencies[..c];
        c := c + 1;
      }
      assert frequencies[..c] == frequencies;
    }

    /**
     * `analyse`: seed the peaks, then, if there are any, fit each locally (`refine`), drop those
     * holding fewer than `minElements` k-mers and fit their heights together (`solve`).
     */
    method Analyse(minElements: real, refine: (seq<nat>, Peak) -> Peak,
                   solve: (seq<nat>, seq<Peak>, Fitting.Bounds) -> Option<seq<real>>,
                   update: (Peak, real) -> Peak)
      modifies this
      ensures fmin == Seeding.FirstTrough(histogram)
      ensures fmax == Seeding.Fmax(histogram, fmin)
      ensures var seeded := Seeding.KmerPeaks(histogram, haploid, fmin, fmax);
        peaks == if seeded.None? || seeded.value == [] then seeded
                 else Some(Fitting.Analysed(seeded.value, histogram, minElements, refine, solve, update))
    {
      CreateInitialPeaks();
      if peaks.Some? && peaks.value != [] {
        var fitted := Fitting.FitPeaks(peaks.value, histogram, minElements, refine, solve, update);
        peaks := Some(fitted);
      }
    }

    /**
     * `getHomozygousPeakIndex`: the 1-based index of the peak nearest to `approxFreq` when that
     * is positive, else of the first peak within 1.0 of `fmax`; 0 when there is none.
     */
    method GetHomozygousPeakIndex(approxFreq: real) returns (idx: nat)
      requires peaks.Some?
      ensures idx == GenomeMetrics.HomozygousIndex(Means(peaks.value), fmax, approxFreq)
    {
      var ps := peaks.value;
      ghost var ms := Means(ps);
      if approxFreq > 0.0 {
        var minPeakIndex: nat := 0;
        var deltaPeakFreq := GenomeMetrics.StartDelta;
        var i := 0;
        while i < |ps|
          invariant 0 <= i <= |ps|
          invariant (minPeakIndex, deltaPeakFreq) == GenomeMetrics.Nearest(ms[..i], approxFreq)
        {
          var delta := GenomeMetrics.Abs(ps[i].mean - approxFreq);
          if deltaPeakFreq > delta {
            deltaPeakFreq := delta;
            minPeakIndex := i + 1;
          }
          assert ms[..i + 1][..i] == ms[..i];
          i := i + 1;
        }
        assert ms[..i] == ms;
        return minPeakIndex;
      }
      var i := 0;
      while i < |ps|
        invariant 0 <= i <= |ps|
        invariant GenomeMetrics.WithinFrom(ms, fmax as real, i) == GenomeMetrics.WithinFrom(ms, fmax as real, 0)
      {
        if GenomeMetrics.Abs(ps[i].mean - fmax as real) < 1.0 {
          return i + 1;
        }
        i := i + 1;
      }
      return 0;
    }

    /**
     * `calcGenomeSize`: with `homPeak` 0 the homozygous peak is looked up from `fmax`, otherwise
     * `homPeak` is its index. Without one the size is 0 and nothing changes; with one, every
     * peak is relabelled by its position relative to it and the size is the weighted volume sum.
     */
    method CalcGenomeSize(homPeak: int) returns (size: real)
      requires peaks.Some?
      modifies this`peaks
      ensures var ps := old(peaks.value);
        var h := if homPeak == 0 then GenomeMetrics.HomozygousIndex(Means(ps), fmax, 0.0) else homPeak;
        && size == GenomeMetrics.GenomeSize(Elements(ps), h)
        && peaks == if h == 0 then old(peaks) else Some(Relabelled(ps, h))
    {
      var homPeakIndex: int := homPeak;
      if homPeak == 0 {
        homPeakIndex := GetHomozygousPeakIndex(0.0);
      }
      if homPeakIndex == 0 {
        return 0.0;
      }
      var sum, labelled := WeighAndLabel(peaks.value, homPeakIndex);
      peaks := Some(labelled);
      return sum;
    }

    /** The `calcGenomeSize` loop: weighted volumes summed, every peak relabelled. */
    static method WeighAndLabel(ps: seq<Peak>, homPeakIndex: int) returns (sum: real, labelled: seq<Peak>)
      ensures sum == GenomeMetrics.WeightedSum(Elements(ps), homPeakIndex)
      ensures labelled == Relabelled(ps, homPeakIndex)
    {
      ghost var es := Elements(ps);
      sum := 0.0;
      labelled := ps;
      var i := 0;
      while i < |ps|
        invariant 0 <= i <= |ps| && |labelled| == |ps|
        invariant sum == GenomeMetrics.WeightedSum(es[..i], homPeakIndex)
        invariant forall j :: 0 <= j < i ==> labelled[j] == Relabelled(ps, homPeakIndex)[j]
        invariant forall j :: i <= j < |ps| ==> labelled[j] == ps[j]
      {
        var p := ps[i];
        var add, description := Visit(i + 1, homPeakIndex, p.elements);
        GenomeMetrics.WeightedSumStep(es, i, homPeakIndex);
        sum := sum + add;
        labelled := labelled[i := p.(description := description)];
        i := i + 1;
      }
      assert es[..i] == es;
    }

    /**
     * One step of the `calcGenomeSize` loop for the peak at 1-based index `pi`: its share of
     * the genome size and its new description.
     */
    static method Visit(pi: int, homPeakIndex: int, elements: real) returns (add: real, description: string)
      ensures add == GenomeMetrics.Contribution(pi, homPeakIndex, elements)
      ensures description == GenomeMetrics.Label(pi, homPeakIndex)
    {
      if pi > homPeakIndex {
        var delta := pi - homPeakIndex + 1;
        add := delta as real * elements;
        description := GenomeMetrics.NatToString(delta) + "X";
        assert description == GenomeMetrics.Label(pi, homPeakIndex);
      } else if pi < homPeakIndex {
        var delta := homPeakIndex - pi + 1;
        add := elements / delta as real;
        description := "1/" + GenomeMetrics.NatToString(delta) + "X";
        assert GenomeMetrics.Label(pi, homPeakIndex) ==
          if description == "1/2X" then GenomeMetrics.Heterozygous else description;
        if description == "1/2X" {
          description := GenomeMetrics.Heterozygous;
        }
      } else {
        add := elements;
        description := GenomeMetrics.Homozygous;
      }
    }

    /**
     * `calcHetRate`: the genome size is `genomeSize` when positive, else computed (relabelling
     * the peaks); the homozygous peak is looked up from `homPeak` as an approximate frequency.
     * The rate sums `elements / k` over the peaks before the homozygous one, in percent of the
     * genome size; 0 when fewer than one peak precedes it.
     */
    method CalcHetRate(genomeSize: real, homPeak: real) returns (r: Result<real>)
      requires peaks.Some? && 1 <= k
      modifies this`peaks
      ensures var ps := old(peaks.value);
        var size := if genomeSize > 0.0 then genomeSize
                    else GenomeMetrics.GenomeSize(Elements(ps), GenomeMetrics.HomozygousIndex(Means(ps), fmax, 0.0));
        var h := GenomeMetrics.HomozygousIndex(Means(ps), fmax, homPeak);
        r == GenomeMetrics.HetRate(Elements(ps), h, k, size)
      ensures genomeSize > 0.0 ==> peaks == old(peaks)
      ensures genomeSize <= 0.0 ==> peaks.Some? && Means(peaks.value) == Means(old(peaks.value))
                                     && Elements(peaks.value) == Elements(old(peaks.value))
      ensures genomeSize <= 0.0 ==>
        var h0 := GenomeMetrics.HomozygousIndex(Means(old(peaks.value)), fmax, 0.0);
        peaks == if h0 == 0 then old(peaks) else Some(Relabelled(old(peaks.value), h0))
    {
      ghost var ms, es := Means(peaks.value), Elements(peaks.value);
      var size := genomeSize;
      if genomeSize <= 0.0 {
        size := CalcGenomeSize(0);
      }
      assert Means(peaks.value) == ms && Elements(peaks.value) == es;
      var homPeakIndex := GetHomozygousPeakIndex(homPeak);
      assert homPeakIndex == GenomeMetrics.HomozygousIndex(ms, fmax, homPeak);
      if homPeakIndex < 2 {
        return Success(0.0);
      }
      var sum := HetSum(peaks.value, homPeakIndex, k);
      assert sum == GenomeMetrics.HetSum(es, homPeakIndex, k);
      if size == 0.0 {
        return Failure(DivisionByZero);
      }
      return Success(GenomeMetrics.Percent(sum, size));
    }

    /** The `calcHetRate` loop: `elements / k` summed over the peaks before the homozygous one. */
    static method HetSum(ps: seq<Peak>, homPeakIndex: int, k: nat) returns (sum: real)
      requires 1 <= k
      ensures sum == GenomeMetrics.HetSum(Elements(ps), homPeakIndex, k)
    {
      ghost var es := Elements(ps);
      sum := 0.0;
      var i := 0;
      while i < |ps|
        invariant 0 <= i <= |ps|
        invariant sum == GenomeMetrics.HetSum(es[..i], homPeakIndex, k)
      {
        if i + 1 >= homPeakIndex {
          break;
        }
        sum := sum + ps[i].elements / k as real;
        assert es[..i + 1][..i] == es[..i];
        i := i + 1;
      }
      HetSumStops(es, i, homPeakIndex, k);
    }

    /**
     * `calcKmerCoverage`: the volume-weighted mean position of the peaks, truncated; 0 when the
     * peaks hold no volume. It never exceeds the furthest peak's position.
     */
    function CalcKmerCoverage(): (c: int)
      reads this
      requires peaks.Some?
      ensures Sums.Sum(Elements(peaks.value)) <= 0.0 ==> c == 0
      ensures GenomeMetrics.NonNegative(Elements(peaks.value)) && GenomeMetrics.NonNegative(Means(peaks.value)) ==>
        0 <= c <= GenomeMetrics.MaxOf(Means(peaks.value)).Floor
    {
      GenomeMetrics.KmerCoverage(Means(peaks.value), Elements(peaks.value))
    }
  }

  /** Peaks from the homozygous one on add nothing to the heterozygous sum. */
  lemma {:induction false} HetSumStops(es: seq<real>, i: nat, h: int, k: nat)
    requires 1 <= k && i <= |es| && (i == |es| || h <= i + 1)
    ensures GenomeMetrics.HetSum(es[..i], h, k) == GenomeMetrics.HetSum(es, h, k)
  {
    if i < |es| {
      var init := es[..|es| - 1];
      assert init[..i] == es[..i];
      HetSumStops(init, i, h, k);
    } else {
      assert es[..i] == es;
    }
  }

  /** A GC spectrum: the histogram and the peaks fitted to it. */
  class GCSpectra {
    const histogram: seq<nat>
    const k: nat
    var peaks: Option<seq<Peak>>

    constructor (histogram: seq<nat>, k: nat)
      ensures this.histogram == histogram && this.k == k && peaks == None
    {
      this.histogram := histogram;
      this.k := k;
      peaks := None;
    }

    /**
     * `_createInitialPeaks`: a peak at every strict local maximum of the smoothed histogram
     * (moved back one bin) lying more than 4 bins from 0 and from `k`. The maxima come back as
     * a one-element tuple, which is never empty, so the list is never None.
     */
    method CreateInitialPeaks()
      modifies this`peaks
      ensures peaks == Some(Seeding.GCSeeds(histogram, k, Seeding.GCMaxima(histogram)))
    {
      var peakMeans := Seeding.GCMaxima(histogram);
      var seeded := SeedAtMaxima(histogram, k, peakMeans);
      peaks := Some(seeded);
    }

    /** The seeding loop of `_createInitialPeaks` over the maxima of the smoothed histogram. */
    static method SeedAtMaxima(h: seq<nat>, k: nat, peakMeans: seq<nat>) returns (seeded: seq<Peak>)
      requires forall a :: 0 <= a < |peakMeans| ==> 1 <= peakMeans[a] <= |h|
      ensures seeded == Seeding.GCSeeds(h, k, peakMeans)
    {
      seeded := [];
      var a := 0;
      while a < |peakMeans|
        invariant 0 <= a <= |peakMeans|
        invariant seeded == Seeding.GCSeeds(h, k, peakMeans[..a])
      {
        var mu := peakMeans[a];
        var mean := mu - Seeding.GCWindow + 2;
        var radius := Seeding.GCRadius;
        if mean - radius > 0 && mean + radius < k {
          seeded := seeded + [Seed(mean, h[mean], mean == Seeding.ArgMaxFrom(h, 0))];
        }
        assert peakMeans[..a + 1][..a] == peakMeans[..a];
        a := a + 1;
      }
      assert peakMeans[..a] == peakMeans;
    }

    /** `analyse` for a GC spectrum: seeding, then the same fitting stages as a k-mer spectrum. */
    method Analyse(minElements: real, refine: (seq<nat>, Peak) -> Peak,
                   solve: (seq<nat>, seq<Peak>, Fitting.Bounds) -> Option<seq<real>>,
                   update: (Peak, real) -> Peak)
      modifies this`peaks
      ensures var seeded := Seeding.GCSeeds(histogram, k, Seeding.GCMaxima(histogram));
        peaks == if seeded == [] then Some(seeded)
                 else Some(Fitting.Analysed(seeded, histogram, minElements, refine, solve, update))
    {
      CreateInitialPeaks();
      if peaks.Some? && peaks.value != [] {
        var fitted := Fitting.FitPeaks(peaks.value, histogram, minElements, refine, solve, update);
        peaks := Some(fitted);
      }
    }
  }
}
