/**
 * The genome statistics a fitted k-mer spectrum yields (scripts/kat/spectra.py,
 * `getHomozygousPeakIndex`, `calcGenomeSize`, `calcHetRate`, `calcKmerCoverage`), as functions
 * of the peaks' positions (`ms`) and volumes (`es`). Peak indices are 1-based, as in the
 * report; index 0 means "no homozygous peak".
 */
module GenomeMetrics {
  import opened Outcomes
  import Sums

  function Abs(x: real): real
  {
    if x < 0.0 then -x else x
  }

  // ---------------------------------------------------------------------------------------
  // Homozygous peak index

  /** The distance the nearest-peak search starts from: a peak must be nearer to be chosen. */
  const StartDelta: real := 1000000.0

  /** The running minimum over the means seen so far: (1-based index, its distance to `x`). */
  function Nearest(ms: seq<real>, x: real): (r: (nat, real))
    ensures r.0 <= |ms| && r.1 <= StartDelta
    ensures r.0 == 0 ==> r.1 == StartDelta
    ensures r.0 != 0 ==> r.1 == Abs(ms[r.0 - 1] - x)
  {
    if ms == [] then (0, StartDelta)
    else
      var prev := Nearest(ms[..|ms| - 1], x);
      var delta := Abs(ms[|ms| - 1] - x);
      if prev.1 > delta then (|ms|, delta) else prev
  }

  /**
   * The running minimum picks the first peak of least distance to `x`, or none (index 0) when
   * no peak is nearer than the start distance.
   */
  lemma {:induction false} NearestIsFirstClosest(ms: seq<real>, x: real)
    ensures var (i, d) := Nearest(ms, x);
      && i <= |ms|
      && (i == 0 <==> forall j :: 0 <= j < |ms| ==> StartDelta <= Abs(ms[j] - x))
      && (i == 0 ==> d == StartDelta)
      && (i != 0 ==> d == Abs(ms[i - 1] - x) < StartDelta)
      && (i != 0 ==> forall j :: 0 <= j < |ms| ==> d <= Abs(ms[j] - x))
      && (i != 0 ==> forall j :: 0 <= j < i - 1 ==> d < Abs(ms[j] - x))
  {
    if ms != [] {
      var init := ms[..|ms| - 1];
      NearestIsFirstClosest(init, x);
      assert forall j :: 0 <= j < |init| ==> init[j] == ms[j];
    }
  }

  /** The 1-based index of the first mean from `i` on that lies within 1.0 of `target`, or 0. */
  function WithinFrom(ms: seq<real>, target: real, i: nat): (idx: nat)
    requires i <= |ms|
    ensures idx == 0 <==> forall j :: i <= j < |ms| ==> 1.0 <= Abs(ms[j] - target)
    ensures idx != 0 ==> i < idx <= |ms| && Abs(ms[idx - 1] - target) < 1.0
    ensures idx != 0 ==> forall j :: i <= j < idx - 1 ==> 1.0 <= Abs(ms[j] - target)
    decreases |ms| - i
  {
    if i == |ms| then 0
    else if Abs(ms[i] - target) < 1.0 then i + 1
    else WithinFrom(ms, target, i + 1)
  }

  /**
   * The homozygous peak: the first one nearest to `approxFreq` when that is positive, else the
   * first one within 1.0 of `fmax`; 0 when there is none.
   */
  function HomozygousIndex(ms: seq<real>, fmax: nat, approxFreq: real): (idx: nat)
    ensures idx <= |ms|
    ensures approxFreq > 0.0 ==>
      && (idx == 0 <==> forall j :: 0 <= j < |ms| ==> StartDelta <= Abs(ms[j] - approxFreq))
      && (idx != 0 ==> forall j :: 0 <= j < |ms| ==> Abs(ms[idx - 1] - approxFreq) <= Abs(ms[j] - approxFreq))
      && (idx != 0 ==> forall j :: 0 <= j < idx - 1 ==> Abs(ms[idx - 1] - approxFreq) < Abs(ms[j] - approxFreq))
    ensures approxFreq <= 0.0 ==>
      && (idx == 0 <==> forall j :: 0 <= j < |ms| ==> 1.0 <= Abs(ms[j] - fmax as real))
      && (idx != 0 ==> Abs(ms[idx - 1] - fmax as real) < 1.0)
      && (idx != 0 ==> forall j :: 0 <= j < idx - 1 ==> 1.0 <= Abs(ms[j] - fmax as real))
  {
    if approxFreq > 0.0 then
      NearestIsFirstClosest(ms, approxFreq);
      Nearest(ms, approxFreq).0
    else WithinFrom(ms, fmax as real, 0)
  }

  // ---------------------------------------------------------------------------------------
  // Labels

  predicate IsDigit(c: char)
  {
    '0' <= c <= '9'
  }

  function DigitChar(d: nat): char
    requires d < 10
  {
    ('0' as int + d) as char
  }

  /** Python's `str` of a natural number: its decimal digits, without leading zeros. */
  function NatToString(n: nat): (s: string)
    ensures 1 <= |s| && forall i :: 0 <= i < |s| ==> IsDigit(s[i])
  {
    if n < 10 then [DigitChar(n)] else NatToString(n / 10) + [DigitChar(n % 10)]
  }

  /** The number a string of decimal digits denotes. */
  function DigitsValue(s: string): nat
    requires forall i :: 0 <= i < |s| ==> IsDigit(s[i])
  {
    if s == [] then 0
    else
      assert IsDigit(s[|s| - 1]);
      DigitsValue(s[..|s| - 1]) * 10 + (s[|s| - 1] as int - '0' as int)
  }

  lemma {:induction false} NatToStringRoundTrip(n: nat)
    ensures DigitsValue(NatToString(n)) == n
  {
    if 10 <= n {
      NatToStringRoundTrip(n / 10);
      var s := NatToString(n);
      assert s[..|s| - 1] == NatToString(n / 10);
    }
  }

  lemma NatToStringInjective(a: nat, b: nat)
    requires NatToString(a) == NatToString(b)
    ensures a == b
  {
    NatToStringRoundTrip(a);
    NatToStringRoundTrip(b);
  }

  const Homozygous: string := "1X (Homozygous)"
  const Heterozygous: string := "1/2X (Heterozygous)"

  /**
   * The description of the peak at 1-based index `i` when the homozygous peak is `h`:
   * `"{w}X"` past it, `"1/{w}X"` before it (renamed when it reads `"1/2X"`), with `w` the
   * distance plus one.
   */
  function Label(i: int, h: int): (r: string)
    ensures i == h ==> r == Homozygous
    ensures i == h - 1 ==> r == Heterozygous
    ensures i > h ==> r == NatToString(i - h + 1) + "X"
    ensures i < h - 1 ==> r == "1/" + NatToString(h - i + 1) + "X"
  {
    if i > h then NatToString(i - h + 1) + "X"
    else if i < h then
      var d := "1/" + NatToString(h - i + 1) + "X";
      FractionRenamed(h - i + 1);
      if d == "1/2X" then Heterozygous else d
    else Homozygous
  }

  /** Only the distance 2 spells "1/2X", the label that gets renamed. */
  lemma FractionRenamed(w: nat)
    ensures "1/" + NatToString(w) + "X" == "1/2X" <==> w == 2
  {
    var s := NatToString(w);
    var d := "1/" + s + "X";
    NatToStringRoundTrip(w);
    assert NatToString(2) == "2" && DigitsValue("2") == 2;
    assert d[2 .. |d| - 1] == s;
  }

  /** A digit string followed by "X" is never one of the fixed labels nor a fraction label. */
  lemma MultipleLabelShape(a: nat, b: nat)
    requires 2 <= a
    ensures NatToString(a) + "X" != Homozygous
    ensures NatToString(a) + "X" != Heterozygous
    ensures NatToString(a) + "X" != "1/" + NatToString(b) + "X"
  {
    var s := NatToString(a);
    var l := s + "X";
    if |s| == 1 {
      assert |l| == 2;
    } else {
      assert IsDigit(l[1]);
    }
    assert Homozygous[1] == 'X' && |Homozygous| == 15;
    assert Heterozygous[1] == '/';
    assert ("1/" + NatToString(b) + "X")[1] == '/';
  }

  /** Labels tell peaks apart: two different positions never get the same description. */
  lemma LabelsDistinct(i: int, j: int, h: int)
    requires i != j
    ensures Label(i, h) != Label(j, h)
  {
    if i > h && j > h {
      MultipleLabels(i - h + 1, j - h + 1);
    } else if i < h && j < h {
      FractionLabels(h - i + 1, h - j + 1);
    } else if i > h {
      MultipleNotBelow(i, j, h);
    } else if j > h {
      MultipleNotBelow(j, i, h);
    } else if i < h {
      FractionNotHomozygous(i, h);
    } else {
      FractionNotHomozygous(j, h);
    }
  }

  /** A label after the homozygous peak differs from every label at or before it. */
  lemma MultipleNotBelow(i: int, j: int, h: int)
    requires h < i && j <= h
    ensures Label(i, h) != Label(j, h)
  {
    MultipleLabelShape(i - h + 1, if j < h then h - j + 1 else 0);
  }

  /** A label before the homozygous peak differs from the homozygous label. */
  lemma FractionNotHomozygous(i: int, h: int)
    requires i < h
    ensures Label(i, h) != Label(h, h)
  {
    FractionLabelShape(h - i + 1);
  }

  /** Multiple labels for different distances differ. */
  lemma MultipleLabels(v: nat, w: nat)
    requires v != w
    ensures NatToString(v) + "X" != NatToString(w) + "X"
  {
    var a, b := NatToString(v), NatToString(w);
    if a + "X" == b + "X" {
      assert a == (a + "X")[..|a|] == (b + "X")[..|b|] == b;
      NatToStringInjective(v, w);
    }
  }

  /** A label before the homozygous peak is never the homozygous label. */
  lemma FractionLabelShape(w: nat)
    ensures var d := "1/" + NatToString(w) + "X";
      Homozygous != (if d == "1/2X" then Heterozygous else d)
  {
    var d := "1/" + NatToString(w) + "X";
    assert Homozygous[1] == 'X' && d[1] == '/';
    assert |Homozygous| != |Heterozygous|;
  }

  /** Fraction labels for different distances differ, the renamed "1/2X" included. */
  lemma FractionLabels(v: nat, w: nat)
    requires v != w
    ensures var dv := "1/" + NatToString(v) + "X";
      var dw := "1/" + NatToString(w) + "X";
      (if dv == "1/2X" then Heterozygous else dv) != (if dw == "1/2X" then Heterozygous else dw)
  {
    var dv := "1/" + NatToString(v) + "X";
    var dw := "1/" + NatToString(w) + "X";
    var sv, sw := NatToString(v), NatToString(w);
    if dv == dw {
      assert sv == dv[2 .. |dv| - 1] == dw[2 .. |dw| - 1] == sw;
      NatToStringInjective(v, w);
    }
    assert dv[|dv| - 1] == 'X' && dw[|dw| - 1] == 'X';
    assert Heterozygous[|Heterozygous| - 1] == ')';
  }

  /** The homozygous label marks the homozygous peak and only it. */
  lemma HomozygousLabel(i: int, h: int)
    ensures Label(i, h) == Homozygous <==> i == h
  {
    if i != h {
      LabelsDistinct(i, h, h);
    }
  }

  /** The heterozygous label marks the peak just before the homozygous one and only it. */
  lemma HeterozygousLabel(i: int, h: int)
    ensures Label(i, h) == Heterozygous <==> i == h - 1
  {
    assert NatToString(2) == "2";
    assert Label(h - 1, h) == Heterozygous;
    if i != h - 1 {
      LabelsDistinct(i, h - 1, h);
    }
  }

  // ---------------------------------------------------------------------------------------
  // Genome size

  /** No value is negative: the volumes, or the positions, of a set of peaks. */
  predicate NonNegative(es: seq<real>)
  {
    forall i :: 0 <= i < |es| ==> 0.0 <= es[i]
  }

  /** What the peak at 1-based index `i` adds to the genome size when the homozygous peak is `h`. */
  function Contribution(i: int, h: int, e: real): real
  {
    if i > h then (i - h + 1) as real * e
    else if i < h then e / (h - i + 1) as real
    else e
  }

  /**
   * The homozygous peak counts once; a peak before it counts at most once and a peak
   * after it at least once, and no non-negative volume contributes a negative amount.
   */
  lemma ContributionBounds(i: int, h: int, e: real)
    ensures 0.0 <= e ==> 0.0 <= Contribution(i, h, e)
    ensures i == h ==> Contribution(i, h, e) == e
    ensures i < h && 0.0 <= e ==> Contribution(i, h, e) <= e
    ensures h < i && 0.0 <= e ==> e <= Contribution(i, h, e)
  {
  }

  /** The volumes weighted by their distance to the homozygous peak, summed from the first peak. */
  function WeightedSum(es: seq<real>, h: int): real
  {
    if es == [] then 0.0 else WeightedSum(es[..|es| - 1], h) + Contribution(|es|, h, es[|es| - 1])
  }

  /** The genome size: 0 without a homozygous peak, else the weighted volumes of all peaks. */
  function GenomeSize(es: seq<real>, h: int): (r: real)
    ensures h == 0 ==> r == 0.0
    ensures NonNegative(es) ==> 0.0 <= r
  {
    if h == 0 then 0.0
    else
      assert NonNegative(es) ==> 0.0 <= WeightedSum(es, h) by {
        if NonNegative(es) {
          WeightedSumNonNegative(es, h);
        }
      }
      WeightedSum(es, h)
  }

  /** Extending the weighted sum by one more peak adds that peak's contribution. */
  lemma WeightedSumStep(es: seq<real>, i: nat, h: int)
    requires i < |es|
    ensures WeightedSum(es[..i + 1], h) == WeightedSum(es[..i], h) + Contribution(i + 1, h, es[i])
  {
    assert es[..i + 1][..i] == es[..i];
  }

  lemma {:induction false} WeightedSumNonNegative(es: seq<real>, h: int)
    requires NonNegative(es)
    ensures 0.0 <= WeightedSum(es, h)
  {
    if es != [] {
      WeightedSumNonNegative(es[..|es| - 1], h);
      ContributionBounds(|es|, h, es[|es| - 1]);
    }
  }

  /** A lone homozygous peak is the whole genome. */
  lemma GenomeSizeOfSinglePeak(e: real)
    ensures GenomeSize([e], 1) == e
  {
    assert [e][..0] == [];
    assert WeightedSum([e], 1) == WeightedSum([], 1) + Contribution(1, 1, e);
  }

  /** With non-negative volumes the genome size counts the homozygous peak's whole volume at least. */
  lemma {:induction false} GenomeSizeCountsHomozygousPeak(es: seq<real>, h: int)
    requires 1 <= h <= |es|
    requires forall i :: 0 <= i < |es| ==> 0.0 <= es[i]
    ensures es[h - 1] <= GenomeSize(es, h)
  {
    var init := es[..|es| - 1];
    if |es| == h {
      WeightedSumNonNegative(init, h);
    } else {
      GenomeSizeCountsHomozygousPeak(init, h);
      ContributionBounds(|es|, h, es[|es| - 1]);
    }
  }

  // ---------------------------------------------------------------------------------------
  // Heterozygous rate

  /** `sum(elements / k)` over the peaks before the homozygous one (the loop stops at it). */
  function HetSum(es: seq<real>, h: int, k: nat): (r: real)
    requires 1 <= k
    ensures h <= 1 ==> r == 0.0
  {
    if es == [] then 0.0
    else HetSum(es[..|es| - 1], h, k) + HetTerm(|es|, h, k, es[|es| - 1])
  }

  /** The heterozygous rate in percent: 0 without a peak before the homozygous one. */
  function HetRate(es: seq<real>, h: int, k: nat, genomeSize: real): (r: Result<real>)
    requires 1 <= k
    ensures r.Failure? <==> 2 <= h && genomeSize == 0.0
    ensures r.Failure? ==> r.error == DivisionByZero
    ensures h < 2 ==> r == Success(0.0)
    ensures NonNegative(es) && 0.0 < genomeSize ==> r.Success? && 0.0 <= r.value
  {
    if h < 2 then Success(0.0)
    else if genomeSize == 0.0 then Failure(DivisionByZero)
    else
      assert NonNegative(es) ==> 0.0 <= HetSum(es, h, k) by {
        if NonNegative(es) {
          HetSumBound(es, h, k);
        }
      }
      Success(Percent(HetSum(es, h, k), genomeSize))
  }

  /** `part` as a percentage of `whole`. */
  function Percent(part: real, whole: real): (r: real)
    requires whole != 0.0
    ensures 0.0 <= part && 0.0 < whole ==> 0.0 <= r
  {
    part / whole * 100.0
  }

  /** What the peak at 1-based index `i` adds to the heterozygous sum: `elements / k` before the homozygous peak. */
  function HetTerm(i: int, h: int, k: nat, e: real): real
    requires 1 <= k
  {
    if i < h then e / k as real else 0.0
  }

  lemma HetTermBound(i: nat, h: int, k: nat, e: real, q: real)
    requires 1 <= i && 2 <= h && 1 <= k && 0.0 <= e && q == h as real / k as real
    ensures 0.0 <= HetTerm(i, h, k, e) <= q * Contribution(i, h, e)
  {
    var kr, hr := k as real, h as real;
    if i < h {
      var w := (h - i + 1) as real;
      var c := e / w;
      assert Contribution(i, h, e) == c;
      FractionScaled(e, w, hr, kr);
    } else {
      ContributionBounds(i, h, e);
      PositiveTimes(q, Contribution(i, h, e));
    }
  }

  /** `e/k <= (h/k) * (e/w)` when `0 < w <= h`. */
  lemma FractionScaled(e: real, w: real, hr: real, kr: real)
    requires 0.0 <= e && 0.0 < w <= hr && 0.0 < kr
    ensures e / kr <= (hr / kr) * (e / w)
  {
    var c := e / w;
    assert e == w * c;
    assert 0.0 <= c;
    ScaleMono(w, hr, c);
    DivMono(e, hr * c, kr);
    assert (hr * c) / kr == (hr / kr) * c;
  }

  lemma DivMono(a: real, b: real, c: real)
    requires a <= b && 0.0 < c
    ensures a / c <= b / c
  {
    assert b / c - a / c == (b - a) / c;
  }

  lemma PositiveTimes(a: real, b: real)
    requires 0.0 <= a && 0.0 <= b
    ensures 0.0 <= a * b
  {
  }

  lemma {:induction false} HetSumBound(es: seq<real>, h: int, k: nat)
    requires 2 <= h && 1 <= k
    requires forall i :: 0 <= i < |es| ==> 0.0 <= es[i]
    ensures 0.0 <= HetSum(es, h, k) <= (h as real / k as real) * WeightedSum(es, h)
  {
    if es != [] {
      HetSumBound(es[..|es| - 1], h, k);
      HetTermBound(|es|, h, k, es[|es| - 1], h as real / k as real);
    }
  }

  /**
   * Measured against its own genome size, the heterozygous rate lies between 0 and
   * `100 * h / k` percent.
   */
  lemma HetRateBounds(es: seq<real>, h: int, k: nat)
    requires 2 <= h && 1 <= k
    requires forall i :: 0 <= i < |es| ==> 0.0 <= es[i]
    requires 0.0 < GenomeSize(es, h)
    ensures var r := HetRate(es, h, k, GenomeSize(es, h));
      r.Success? && 0.0 <= r.value <= 100.0 * (h as real / k as real)
  {
    var gs := GenomeSize(es, h);
    var hs := HetSum(es, h, k);
    var q := h as real / k as real;
    HetSumBound(es, h, k);
    PercentBound(hs, gs, q);
    assert HetRate(es, h, k, gs) == Success(Percent(hs, gs));
  }

  /** A part between 0 and `q` times the whole is between 0 and `100 q` percent of it. */
  lemma PercentBound(part: real, whole: real, q: real)
    requires 0.0 < whole && 0.0 <= part <= q * whole
    ensures 0.0 <= Percent(part, whole) <= 100.0 * q
  {
    DivBound(part, q, whole);
    assert 0.0 <= part / whole;
  }

  lemma DivBound(a: real, b: real, c: real)
    requires 0.0 < c && a <= b * c
    ensures a / c <= b
  {
    var d := a / c;
    assert d * c == a;
    if d > b {
      assert (d - b) * c > 0.0;
    }
  }

  lemma DivAtLeast(a: real, b: real, c: real)
    requires 0.0 < c && b * c <= a
    ensures b <= a / c
  {
    var d := a / c;
    assert d * c == a;
    if d < b {
      assert (b - d) * c > 0.0;
    }
  }

  // ---------------------------------------------------------------------------------------
  // Mean k-mer coverage

  /** Python's `int()` of a float: truncation toward zero. */
  function Trunc(x: real): (r: int)
    ensures 0.0 <= x ==> 0 <= r && r as real <= x < r as real + 1.0
    ensures x < 0.0 ==> r <= 0 && r as real - 1.0 < x <= r as real
  {
    if x >= 0.0 then x.Floor else -((-x).Floor)
  }

  /** `mean * elements` for every peak. */
  function Products(ms: seq<real>, es: seq<real>): (ps: seq<real>)
    requires |ms| == |es|
    ensures |ps| == |es| && forall i :: 0 <= i < |es| ==> ps[i] == ms[i] * es[i]
  {
    seq(|es|, i requires 0 <= i < |es| => ms[i] * es[i])
  }

  /** `sum(mean * elements)` over the peaks. */
  function WeightedTotal(ms: seq<real>, es: seq<real>): real
    requires |ms| == |es|
  {
    Sums.Sum(Products(ms, es))
  }

  /** `weighted / tot_vol`: the volume-weighted mean position of the peaks. */
  function WeightedMean(ms: seq<real>, es: seq<real>): real
    requires |ms| == |es| && 0.0 < Sums.Sum(es)
  {
    WeightedTotal(ms, es) / Sums.Sum(es)
  }

  /** The weighted mean position, truncated; 0 when the total volume is not positive. */
  function KmerCoverage(ms: seq<real>, es: seq<real>): (c: int)
    requires |ms| == |es|
    ensures Sums.Sum(es) <= 0.0 ==> c == 0
    ensures NonNegative(es) && NonNegative(ms) ==> 0 <= c <= MaxOf(ms).Floor
  {
    if Sums.Sum(es) > 0.0 then
      var m := WeightedMean(ms, es);
      assert NonNegative(es) && NonNegative(ms) ==> 0 <= Trunc(m) <= MaxOf(ms).Floor by {
        if forall i :: 0 <= i < |es| ==> 0.0 <= es[i] && 0.0 <= ms[i] {
          WeightedMeanWithin(ms, es, 0.0, MaxOf(ms));
          TruncBetween(m, 0.0, MaxOf(ms));
        }
      }
      Trunc(m)
    else 0
  }

  /** The largest of the values, 0 for none. */
  function MaxOf(s: seq<real>): (r: real)
    ensures forall i :: 0 <= i < |s| ==> s[i] <= r
    ensures s != [] ==> r in s
    ensures s == [] ==> r == 0.0
  {
    if |s| <= 1 then (if s == [] then 0.0 else s[0])
    else
      var m := MaxOf(s[..|s| - 1]);
      if s[|s| - 1] > m then s[|s| - 1] else m
  }

  lemma WeightedTotalBounds(ms: seq<real>, es: seq<real>, lo: real, hi: real)
    requires |ms| == |es|
    requires forall i :: 0 <= i < |es| ==> 0.0 <= es[i] && lo <= ms[i] <= hi
    ensures lo * Sums.Sum(es) <= WeightedTotal(ms, es) <= hi * Sums.Sum(es)
  {
    var ps := Products(ms, es);
    var los, his := Scaled(lo, es), Scaled(hi, es);
    forall i | 0 <= i < |es| ensures los[i] <= ps[i] <= his[i] {
      ElementBetween(ms, es, lo, hi, i);
    }
    SumMono(los, ps);
    SumMono(ps, his);
    SumScaled(lo, es);
    SumScaled(hi, es);
  }

  /** Every sample multiplied by `c`. */
  function Scaled(c: real, s: seq<real>): (r: seq<real>)
    ensures |r| == |s| && forall i :: 0 <= i < |s| ==> r[i] == c * s[i]
  {
    seq(|s|, i requires 0 <= i < |s| => c * s[i])
  }

  lemma {:induction false} SumScaled(c: real, s: seq<real>)
    ensures Sums.Sum(Scaled(c, s)) == c * Sums.Sum(s)
  {
    if s != [] {
      var n := |s| - 1;
      var rest := Sums.Sum(s[..n]);
      SumScaled(c, s[..n]);
      ScaledPrefix(c, s);
      assert Sums.Sum(Scaled(c, s)) == c * rest + c * s[n];
      Distribute(c, rest, s[n]);
    }
  }

  lemma ScaledPrefix(c: real, s: seq<real>)
    requires s != []
    ensures Scaled(c, s)[..|s| - 1] == Scaled(c, s[..|s| - 1])
  {
    var n := |s| - 1;
    forall i | 0 <= i < n ensures Scaled(c, s)[..n][i] == Scaled(c, s[..n])[i] {
      assert Scaled(c, s)[i] == c * s[i];
    }
  }

  /** Scaling a sum scales both of its parts. */
  lemma Distribute(c: real, a: real, b: real)
    ensures c * (a + b) == c * a + c * b
  {
  }

  lemma {:induction false} SumMono(a: seq<real>, b: seq<real>)
    requires |a| == |b| && forall i :: 0 <= i < |a| ==> a[i] <= b[i]
    ensures Sums.Sum(a) <= Sums.Sum(b)
  {
    if a != [] {
      SumMono(a[..|a| - 1], b[..|b| - 1]);
    }
  }

  lemma ElementBetween(ms: seq<real>, es: seq<real>, lo: real, hi: real, i: nat)
    requires |ms| == |es| && i < |es| && 0.0 <= es[i] && lo <= ms[i] <= hi
    ensures Scaled(lo, es)[i] <= Products(ms, es)[i] <= Scaled(hi, es)[i]
  {
    assert Scaled(lo, es)[i] == lo * es[i];
    assert Scaled(hi, es)[i] == hi * es[i];
    assert Products(ms, es)[i] == ms[i] * es[i];
    ScaleMono(lo, ms[i], es[i]);
    ScaleMono(ms[i], hi, es[i]);
  }

  lemma ScaleMono(a: real, b: real, c: real)
    requires a <= b && 0.0 <= c
    ensures a * c <= b * c
  {
    assert b * c - a * c == (b - a) * c;
  }

  /**
   * The coverage is a mean position: with non-negative volumes that are not all zero and every
   * peak between `lo >= 0` and `hi`, it lies between their integer parts.
   */
  lemma CoverageWithinMeans(ms: seq<real>, es: seq<real>, lo: real, hi: real)
    requires |ms| == |es| && 0.0 <= lo
    requires forall i :: 0 <= i < |es| ==> 0.0 <= es[i] && lo <= ms[i] <= hi
    requires 0.0 < Sums.Sum(es)
    ensures lo.Floor <= KmerCoverage(ms, es) <= hi.Floor
  {
    WeightedMeanWithin(ms, es, lo, hi);
    TruncBetween(WeightedMean(ms, es), lo, hi);
  }

  /** A mean weighted by non-negative volumes lies between the least and the greatest position. */
  lemma WeightedMeanWithin(ms: seq<real>, es: seq<real>, lo: real, hi: real)
    requires |ms| == |es|
    requires forall i :: 0 <= i < |es| ==> 0.0 <= es[i] && lo <= ms[i] <= hi
    requires 0.0 < Sums.Sum(es)
    ensures lo <= WeightedMean(ms, es) <= hi
  {
    var total, volume := WeightedTotal(ms, es), Sums.Sum(es);
    WeightedTotalBounds(ms, es, lo, hi);
    DivBound(total, hi, volume);
    DivAtLeast(total, lo, volume);
    assert WeightedMean(ms, es) == total / volume;
  }

  /** Truncation is monotone on the non-negative reals. */
  lemma TruncBetween(x: real, lo: real, hi: real)
    requires 0.0 <= lo <= x <= hi
    ensures lo.Floor <= Trunc(x) <= hi.Floor
  {
    var r := Trunc(x);
    assert lo.Floor as real <= lo && hi < hi.Floor as real + 1.0;
  }
}
