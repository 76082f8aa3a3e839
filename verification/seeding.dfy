/**
 * How the two spectrum kinds seed their initial peaks (scripts/kat/spectra.py,
 * `KmerSpectra._createInitialPeaks` and `GCSpectra._createInitialPeaks`), as functions of the
 * histogram. The classes in module Spectra run the same scans as loops and are proved to
 * produce exactly these values.
 */
module Seeding {
  import opened Outcomes
  import opened Peaks
  import Smoothing

  // ---------------------------------------------------------------------------------------
  // K-mer spectra: first trough, then the maximum after it

  /** Bin `i` is lower than both of the next two bins (the two-step check against laddering). */
  predicate IsTrough(h: seq<nat>, i: int)
  {
    1 <= i && i + 2 < |h| && h[i] < h[i + 1] && h[i] < h[i + 2]
  }

  /** The first trough at or after `i`, or 0 when there is none. */
  function TroughFrom(h: seq<nat>, i: nat): (fmin: nat)
    requires 1 <= i
    ensures fmin == 0 <==> forall j :: i <= j ==> !IsTrough(h, j)
    ensures fmin != 0 ==> i <= fmin && IsTrough(h, fmin)
    ensures fmin != 0 ==> forall j :: i <= j < fmin ==> !IsTrough(h, j)
    decreases |h| - i
  {
    if i + 2 >= |h| then 0
    else if IsTrough(h, i) then i
    else TroughFrom(h, i + 1)
  }

  /** `fmin`: the first trough among bins `1 .. |h|-3`, or 0 when the histogram has none. */
  function FirstTrough(h: seq<nat>): (fmin: nat)
    ensures fmin == 0 <==> forall j :: !IsTrough(h, j)
    ensures fmin != 0 ==> IsTrough(h, fmin) && forall j :: j < fmin ==> !IsTrough(h, j)
  {
    TroughFrom(h, 1)
  }

  /** numpy's argmax of `h[from:]`, shifted back by `from`: the first position of the maximum. */
  function ArgMaxFrom(h: seq<nat>, from: nat): (m: nat)
    requires from < |h|
    ensures from <= m < |h|
    ensures forall j :: from <= j < |h| ==> h[j] <= h[m]
    ensures forall j :: from <= j < m ==> h[j] < h[m]
    decreases |h| - from
  {
    if from == |h| - 1 then from
    else
      var m := ArgMaxFrom(h, from + 1);
      if h[from] >= h[m] then from else m
  }

  /** `fmax`: 0 without a trough, else the first maximum of the histogram from `fmin` on. */
  function Fmax(h: seq<nat>, fmin: nat): (fmax: nat)
    requires fmin == 0 || IsTrough(h, fmin)
    ensures fmin == 0 ==> fmax == 0
    ensures fmin != 0 ==> fmin < fmax < |h|
    ensures fmin != 0 ==> forall j :: fmin <= j < |h| ==> h[j] <= h[fmax]
    ensures fmin != 0 ==> forall j :: fmin <= j < fmax ==> h[j] < h[fmax]
  {
    if fmin == 0 then 0 else ArgMaxFrom(h, fmin)
  }

  // ---------------------------------------------------------------------------------------
  // K-mer spectra: candidate means and their acceptance

  /** Integer square root. */
  function ISqrt(n: nat): (r: nat)
    ensures r * r <= n < (r + 1) * (r + 1)
  {
    if n == 0 then 0
    else
      var r := ISqrt(n - 1);
      if (r + 1) * (r + 1) <= n then
        assert n == (r + 1) * (r + 1);
        assert (r + 2) * (r + 2) == n + 2 * r + 3;
        r + 1
      else r
  }

  /**
   * `int(2 * sqrt(mu))`, the candidate's radius of two standard deviations under the Poisson
   * assumption (variance = mean): the largest `r` with `r*r <= 4*mu`.
   */
  function Radius(mu: real): (r: nat)
    requires 0.0 <= mu
    ensures (r * r) as real <= 4.0 * mu < ((r + 1) * (r + 1)) as real
  {
    ISqrt((4.0 * mu).Floor)
  }

  /** The candidate means in the order they are tried: `fmax/2` unless haploid, then `fmax*1..4`. */
  function Candidates(fmax: nat, haploid: bool): (cs: seq<real>)
    ensures |cs| == if haploid then 4 else 5
    ensures forall i :: 0 <= i < |cs| ==> 0.0 <= cs[i]
  {
    (if haploid then [] else [fmax as real / 2.0]) +
    [fmax as real, (2 * fmax) as real, (3 * fmax) as real, (4 * fmax) as real]
  }

  /** The four boundary rules a candidate mean must pass. */
  predicate Accepts(h: seq<nat>, fmin: nat, mu: real): (b: bool)
    requires 0.0 <= mu
    ensures b ==> fmin < mu.Floor && 2 <= Radius(mu) <= mu.Floor && mu.Floor + Radius(mu) < |h|
  {
    var radius := Radius(mu);
    && radius >= 2
    && mu.Floor > fmin
    && mu - radius as real > 0.0
    && mu + radius as real < |h| as real
  }

  /** The peak seeded at candidate `mu`: at bin `int(mu)`, as high as the histogram there. */
  function SeedPeak(h: seq<nat>, fmax: nat, mu: real): (p: Peak)
    requires 0.0 <= mu < |h| as real
    ensures p.mean <= mu < p.mean + 1.0
    ensures p.peak == h[mu.Floor] as real
    ensures p.primary <==> p.mean == fmax as real
    ensures p.elements == 0.0 && p.description == ""
  {
    var mean := mu.Floor;
    Seed(mean, h[mean], mean == fmax)
  }

  /** The accepted candidates of `cs`, in order, as seeded peaks. */
  function KmerSeeds(h: seq<nat>, fmin: nat, fmax: nat, cs: seq<real>): (ps: seq<Peak>)
    requires forall i :: 0 <= i < |cs| ==> 0.0 <= cs[i]
    ensures |ps| <= |cs|
  {
    if cs == [] then []
    else
      var mu := cs[|cs| - 1];
      KmerSeeds(h, fmin, fmax, cs[..|cs| - 1]) +
      (if Accepts(h, fmin, mu) then [SeedPeak(h, fmax, mu)] else [])
  }

  /** The peak list a k-mer spectrum starts from: None when `fmax < 10`. */
  function KmerPeaks(h: seq<nat>, haploid: bool, fmin: nat, fmax: nat): (r: Option<seq<Peak>>)
    ensures r.None? <==> fmax < 10
    ensures r.Some? ==> |r.value| <= if haploid then 4 else 5
  {
    if fmax < 10 then None else Some(KmerSeeds(h, fmin, fmax, Candidates(fmax, haploid)))
  }

  /** A seeded peak is exactly the seed of an accepted candidate, and every accepted one is seeded. */
  lemma {:induction false} KmerSeedsMembers(h: seq<nat>, fmin: nat, fmax: nat, cs: seq<real>)
    requires forall i :: 0 <= i < |cs| ==> 0.0 <= cs[i]
    ensures forall p :: p in KmerSeeds(h, fmin, fmax, cs) <==>
      exists i :: 0 <= i < |cs| && Accepts(h, fmin, cs[i]) && p == SeedPeak(h, fmax, cs[i])
  {
    if cs != [] {
      var init := cs[..|cs| - 1];
      KmerSeedsMembers(h, fmin, fmax, init);
      var prev := KmerSeeds(h, fmin, fmax, init);
      forall p | p in prev
        ensures exists i :: 0 <= i < |cs| && Accepts(h, fmin, cs[i]) && p == SeedPeak(h, fmax, cs[i])
      {
        var i :| 0 <= i < |init| && Accepts(h, fmin, init[i]) && p == SeedPeak(h, fmax, init[i]);
        assert cs[i] == init[i];
      }
      forall i | 0 <= i < |cs| && Accepts(h, fmin, cs[i])
        ensures SeedPeak(h, fmax, cs[i]) in KmerSeeds(h, fmin, fmax, cs)
      {
        if i < |init| {
          assert init[i] == cs[i];
        }
      }
    }
  }

  /** Candidates with increasing integer parts give peaks in strictly increasing position. */
  lemma {:induction false} KmerSeedsAscending(h: seq<nat>, fmin: nat, fmax: nat, cs: seq<real>)
    requires forall i :: 0 <= i < |cs| ==> 0.0 <= cs[i]
    requires forall i, j :: 0 <= i < j < |cs| ==> cs[i].Floor < cs[j].Floor
    ensures StrictlyAscending(KmerSeeds(h, fmin, fmax, cs))
  {
    if cs != [] {
      var init := cs[..|cs| - 1];
      var mu := cs[|cs| - 1];
      KmerSeedsAscending(h, fmin, fmax, init);
      KmerSeedsMembers(h, fmin, fmax, init);
      var prev := KmerSeeds(h, fmin, fmax, init);
      forall a | 0 <= a < |prev|
        ensures prev[a].mean < mu.Floor as real
      {
        assert prev[a] in prev;
        var i :| 0 <= i < |init| && Accepts(h, fmin, init[i]) && prev[a] == SeedPeak(h, fmax, init[i]);
        assert init[i] == cs[i];
      }
    }
  }

  /** The candidates' integer parts strictly increase once `fmax` is positive. */
  lemma CandidatesAscending(fmax: nat, haploid: bool)
    requires 1 <= fmax
    ensures var cs := Candidates(fmax, haploid);
      forall i, j :: 0 <= i < j < |cs| ==> cs[i].Floor < cs[j].Floor
  {
    var f := fmax as real;
    assert (f / 2.0).Floor < fmax;
    assert f.Floor == fmax;
    assert ((2 * fmax) as real).Floor == 2 * fmax;
    assert ((3 * fmax) as real).Floor == 3 * fmax;
    assert ((4 * fmax) as real).Floor == 4 * fmax;
  }

  /**
   * The k-mer seeding as a whole: no trough or `fmax < 10` gives None; otherwise at most five
   * peaks (four when haploid), in strictly increasing position, each seeded from an accepted
   * candidate and every accepted candidate seeded.
   */
  lemma KmerSeeding(h: seq<nat>, haploid: bool)
    ensures var fmin := FirstTrough(h);
      var fmax := Fmax(h, fmin);
      var r := KmerPeaks(h, haploid, fmin, fmax);
      var cs := Candidates(fmax, haploid);
      && (fmin == 0 ==> r == None)
      && (r == None <==> fmax < 10)
      && (r.Some? ==> |r.value| <= if haploid then 4 else 5)
      && (r.Some? ==> StrictlyAscending(r.value))
      && (r.Some? ==> forall p :: p in r.value <==>
            exists i :: 0 <= i < |cs| && Accepts(h, fmin, cs[i]) && p == SeedPeak(h, fmax, cs[i]))
  {
    var fmin := FirstTrough(h);
    var fmax := Fmax(h, fmin);
    if 10 <= fmax {
      var cs := Candidates(fmax, haploid);
      CandidatesAscending(fmax, haploid);
      KmerSeedsAscending(h, fmin, fmax, cs);
      KmerSeedsMembers(h, fmin, fmax, cs);
    }
  }

  /** Each seeded peak sits on an integer bin past `fmin`, is as high as the histogram there, and is primary iff it sits on `fmax`. */
  lemma KmerSeedFacts(h: seq<nat>, haploid: bool, p: Peak)
    requires var fmin := FirstTrough(h); var r := KmerPeaks(h, haploid, fmin, Fmax(h, fmin));
      r.Some? && p in r.value
    ensures var fmin := FirstTrough(h); var fmax := Fmax(h, fmin);
      && fmin as real < p.mean < |h| as real
      && p.mean == p.mean.Floor as real
      && p.peak == h[p.mean.Floor] as real
      && (p.primary <==> p.mean == fmax as real)
  {
    var fmin := FirstTrough(h);
    var fmax := Fmax(h, fmin);
    var cs := Candidates(fmax, haploid);
    KmerSeedsMembers(h, fmin, fmax, cs);
    var i :| 0 <= i < |cs| && Accepts(h, fmin, cs[i]) && p == SeedPeak(h, fmax, cs[i]);
  }

  lemma MulMono(a: nat, b: nat, c: nat)
    requires a <= b
    ensures a * c <= b * c
  {
  }

  /** For `fmax >= 10` the radius at `fmax` is at least 2 and below `fmax`. */
  lemma RadiusAtFmax(fmax: nat)
    requires 10 <= fmax
    ensures 2 <= ISqrt(4 * fmax) < fmax
  {
    var n := 4 * fmax;
    var r := ISqrt(n);
    assert r * r <= n < (r + 1) * (r + 1);
    if r < 2 {
      MulMono(r + 1, 2, r + 1);
    }
    if fmax <= r {
      MulMono(fmax, r, fmax);
      MulMono(fmax, r, r);
      MulMono(10, fmax, fmax);
    }
  }

  /** The candidate at `fmax` itself passes the boundary rules exactly when it fits below the histogram's end. */
  lemma HomCandidateAccepted(h: seq<nat>, fmin: nat, fmax: nat)
    requires fmin < fmax && 10 <= fmax
    ensures Accepts(h, fmin, fmax as real) <==> fmax + ISqrt(4 * fmax) < |h|
  {
    var f := fmax as real;
    assert (4.0 * f).Floor == 4 * fmax;
    assert f.Floor == fmax;
    RadiusAtFmax(fmax);
  }

  /** Among the candidates, only `fmax` itself has `fmax` as its integer part. */
  lemma OnlyHomCandidateAtFmax(fmax: nat, haploid: bool, i: nat)
    requires 1 <= fmax && i < |Candidates(fmax, haploid)|
    requires Candidates(fmax, haploid)[i].Floor == fmax
    ensures Candidates(fmax, haploid)[i] == fmax as real
  {
    var f := fmax as real;
    assert (f / 2.0).Floor < fmax;
    assert ((2 * fmax) as real).Floor == 2 * fmax;
    assert ((3 * fmax) as real).Floor == 3 * fmax;
    assert ((4 * fmax) as real).Floor == 4 * fmax;
  }

  /**
   * There is a primary peak exactly when the candidate at `fmax` itself fits inside the
   * histogram, and there is never more than one.
   */
  lemma KmerPrimaryPeak(h: seq<nat>, haploid: bool)
    ensures var fmin := FirstTrough(h); var fmax := Fmax(h, fmin);
      var r := KmerPeaks(h, haploid, fmin, fmax);
      r.Some? ==>
        && ((exists p :: p in r.value && p.primary) <==> fmax + ISqrt(4 * fmax) < |h|)
        && forall a, b :: 0 <= a < |r.value| && 0 <= b < |r.value| && r.value[a].primary && r.value[b].primary ==> a == b
  {
    var fmin := FirstTrough(h);
    var fmax := Fmax(h, fmin);
    var r := KmerPeaks(h, haploid, fmin, fmax);
    if r.Some? {
      var cs := Candidates(fmax, haploid);
      var ps := r.value;
      KmerSeeding(h, haploid);
      HomCandidateAccepted(h, fmin, fmax);
      var hom := if haploid then 0 else 1;
      assert cs[hom] == fmax as real;
      if fmax + ISqrt(4 * fmax) < |h| {
        assert SeedPeak(h, fmax, cs[hom]) in ps;
      }
      if exists p :: p in ps && p.primary {
        var p :| p in ps && p.primary;
        var i :| 0 <= i < |cs| && Accepts(h, fmin, cs[i]) && p == SeedPeak(h, fmax, cs[i]);
        OnlyHomCandidateAtFmax(fmax, haploid, i);
      }
      forall a, b | 0 <= a < |ps| && 0 <= b < |ps| && ps[a].primary && ps[b].primary
        ensures a == b
      {
        KmerSeedFacts(h, haploid, ps[a]);
        KmerSeedFacts(h, haploid, ps[b]);
      }
    }
  }

  // ---------------------------------------------------------------------------------------
  // GC spectra: strict local maxima of the smoothed histogram

  const GCWindow: nat := 3
  /** `int(2 * sigma)` for the fixed initial standard deviation of 2.0. */
  const GCRadius: nat := 4

  function ToReals(h: seq<nat>): (x: seq<real>)
    ensures |x| == |h| && forall i :: 0 <= i < |h| ==> x[i] == h[i] as real
  {
    seq(|h|, i requires 0 <= i < |h| => h[i] as real)
  }

  function Smoothed(h: seq<nat>): seq<real>
  {
    Smoothing.Smooth(ToReals(h), GCWindow)
  }

  /** An interior sample strictly above both neighbours (argrelextrema with `np.greater`). */
  predicate IsLocalMax(s: seq<real>, i: int)
  {
    0 < i < |s| - 1 && s[i - 1] < s[i] && s[i + 1] < s[i]
  }

  /** The strict local maxima below `n`, in increasing order. */
  function LocalMaxima(s: seq<real>, n: nat): (ms: seq<nat>)
    requires n <= |s|
    ensures forall i: int :: i in ms <==> i < n && IsLocalMax(s, i)
    ensures forall a, b :: 0 <= a < b < |ms| ==> ms[a] < ms[b]
  {
    if n == 0 then []
    else
      var prev := LocalMaxima(s, n - 1);
      assert forall a :: 0 <= a < |prev| ==> prev[a] < n - 1 by {
        forall a | 0 <= a < |prev| ensures prev[a] < n - 1 { assert prev[a] in prev; }
      }
      prev + (if IsLocalMax(s, n - 1) then [n - 1] else [])
  }

  /** The maxima of the smoothed histogram; each one, moved back by one, is a bin of the histogram. */
  function GCMaxima(h: seq<nat>): (ms: seq<nat>)
    ensures forall i: int :: i in ms <==> IsLocalMax(Smoothed(h), i)
    ensures forall a, b :: 0 <= a < b < |ms| ==> ms[a] < ms[b]
    ensures forall a :: 0 <= a < |ms| ==> 1 <= ms[a] <= |h|
  {
    var s := Smoothed(h);
    var ms := LocalMaxima(s, |s|);
    assert forall a :: 0 <= a < |ms| ==> IsLocalMax(s, ms[a]) by {
      forall a | 0 <= a < |ms| ensures IsLocalMax(s, ms[a]) { assert ms[a] in ms; }
    }
    ms
  }

  /** The position on the histogram of a maximum found at `mu` on the smoothed one. */
  function GCMean(mu: nat): int
  {
    mu - GCWindow + 2
  }

  /** A maximum is kept when its corrected position leaves a full radius on both sides. */
  predicate GCAccepts(k: nat, mu: nat): (b: bool)
    ensures b <==> 6 <= mu && mu + 3 < k
  {
    GCMean(mu) - GCRadius > 0 && GCMean(mu) + GCRadius < k
  }

  /** The peak seeded at smoothed maximum `mu`, primary when it sits on the histogram's first maximum. */
  function GCSeedPeak(h: seq<nat>, mu: nat): (p: Peak)
    requires 1 <= mu <= |h|
    ensures p.mean == (mu - 1) as real && p.peak == h[mu - 1] as real
    ensures p.primary <==>
      (forall j :: 0 <= j < |h| ==> h[j] <= h[mu - 1]) && (forall j :: 0 <= j < mu - 1 ==> h[j] < h[mu - 1])
    ensures p.elements == 0.0 && p.description == ""
  {
    var mean := GCMean(mu);
    Seed(mean, h[mean], mean == ArgMaxFrom(h, 0))
  }

  /** The accepted maxima of `ms`, in order, as seeded peaks. */
  function GCSeeds(h: seq<nat>, k: nat, ms: seq<nat>): (ps: seq<Peak>)
    requires forall a :: 0 <= a < |ms| ==> 1 <= ms[a] <= |h|
    ensures |ps| <= |ms|
  {
    if ms == [] then []
    else
      var mu := ms[|ms| - 1];
      GCSeeds(h, k, ms[..|ms| - 1]) + (if GCAccepts(k, mu) then [GCSeedPeak(h, mu)] else [])
  }

  lemma {:induction false} GCSeedsMembers(h: seq<nat>, k: nat, ms: seq<nat>)
    requires forall a :: 0 <= a < |ms| ==> 1 <= ms[a] <= |h|
    ensures forall p :: p in GCSeeds(h, k, ms) <==>
      exists a :: 0 <= a < |ms| && GCAccepts(k, ms[a]) && p == GCSeedPeak(h, ms[a])
  {
    if ms != [] {
      var init := ms[..|ms| - 1];
      GCSeedsMembers(h, k, init);
      var prev := GCSeeds(h, k, init);
      var mu := ms[|ms| - 1];
      assert GCSeeds(h, k, ms) == prev + (if GCAccepts(k, mu) then [GCSeedPeak(h, mu)] else []);
      forall p | p in prev
        ensures exists a :: 0 <= a < |ms| && GCAccepts(k, ms[a]) && p == GCSeedPeak(h, ms[a])
      {
        var a :| 0 <= a < |init| && GCAccepts(k, init[a]) && p == GCSeedPeak(h, init[a]);
        assert ms[a] == init[a];
      }
      forall a | 0 <= a < |ms| && GCAccepts(k, ms[a])
        ensures GCSeedPeak(h, ms[a]) in GCSeeds(h, k, ms)
      {
        if a < |init| {
          assert init[a] == ms[a];
        }
      }
    }
  }

  lemma {:induction false} GCSeedsAscending(h: seq<nat>, k: nat, ms: seq<nat>)
    requires forall a :: 0 <= a < |ms| ==> 1 <= ms[a] <= |h|
    requires forall a, b :: 0 <= a < b < |ms| ==> ms[a] < ms[b]
    ensures StrictlyAscending(GCSeeds(h, k, ms))
  {
    if ms != [] {
      var init := ms[..|ms| - 1];
      GCSeedsAscending(h, k, init);
      GCSeedsMembers(h, k, init);
      var prev := GCSeeds(h, k, init);
      forall c | 0 <= c < |prev|
        ensures prev[c].mean < GCMean(ms[|ms| - 1]) as real
      {
        assert prev[c] in prev;
        var a :| 0 <= a < |init| && GCAccepts(k, init[a]) && prev[c] == GCSeedPeak(h, init[a]);
        assert init[a] == ms[a];
      }
    }
  }

  /**
   * The GC seeding: an empty list (never None) when nothing qualifies; otherwise peaks in
   * strictly increasing position, each one bin left of a strict local maximum of the smoothed
   * histogram, at least 5 bins from 0 and from `k`, as high as the histogram there and primary
   * iff it sits on the histogram's first maximum; and every such maximum gives a peak.
   */
  lemma GCSeeding(h: seq<nat>, k: nat)
    ensures var ps := GCSeeds(h, k, GCMaxima(h));
      && StrictlyAscending(ps)
      && (forall p :: p in ps <==>
            exists mu: nat :: IsLocalMax(Smoothed(h), mu) && 1 <= mu <= |h| && GCAccepts(k, mu) && p == GCSeedPeak(h, mu))
      && (forall p :: p in ps ==>
            && GCRadius as real < p.mean && p.mean + GCRadius as real < k as real
            && p.mean == p.mean.Floor as real && p.mean.Floor < |h|
            && p.peak == h[p.mean.Floor] as real
            && (p.primary <==> p.mean == ArgMaxFrom(h, 0) as real))
  {
    var ms := GCMaxima(h);
    var ps := GCSeeds(h, k, ms);
    GCSeedsAscending(h, k, ms);
    GCSeedsMembers(h, k, ms);
    forall p
      ensures p in ps <==>
        exists mu: nat :: IsLocalMax(Smoothed(h), mu) && 1 <= mu <= |h| && GCAccepts(k, mu) && p == GCSeedPeak(h, mu)
    {
      if exists mu: nat :: IsLocalMax(Smoothed(h), mu) && 1 <= mu <= |h| && GCAccepts(k, mu) && p == GCSeedPeak(h, mu) {
        var mu: nat :| IsLocalMax(Smoothed(h), mu) && 1 <= mu <= |h| && GCAccepts(k, mu) && p == GCSeedPeak(h, mu);
        assert mu in ms;
        var a :| 0 <= a < |ms| && ms[a] == mu;
      }
      if p in ps {
        var a :| 0 <= a < |ms| && GCAccepts(k, ms[a]) && p == GCSeedPeak(h, ms[a]);
        assert ms[a] in ms;
      }
    }
  }
}
