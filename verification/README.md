# KAT spectra analysis and k-mer histogram, modelled in Dafny

This project models two parts of KAT, the K-mer Analysis Toolkit.

- `scripts/kat/spectra.py` is the spectrum analyser. It finds peaks in a k-mer spectrum
  (the histogram of k-mer multiplicities) or in a GC spectrum, and derives genome statistics
  from them. A k-mer spectrum is seeded from its first trough and the first maximum after it.
  A GC spectrum is seeded from the local maxima of its smoothed histogram. The peaks are then
  fitted one by one, pruned, and fitted together in height. The statistics are the index of
  the homozygous peak, the genome size (which also relabels every peak), the heterozygous rate
  and the mean k-mer coverage.
- `src/histogram.cc` is `kat::Histogram`. It bins the count of every k-mer of a hash into
  `nb_buckets` buckets, one array per thread, merges the arrays and prints them as columns.

Modules:

| file | module | contents |
|---|---|---|
| outcomes.dfy | `Outcomes` | `Option`, `Result`, `Outcome` and the error cases (the exceptions the source raises) |
| peak.dfy | `Peaks` | the `Peak` record passed between stages: position, height, primary flag, volume, label |
| sums.dfy | `Sums` | the sum of a sequence of reals, shared by smoothing and the coverage |
| smoothing.dfy | `Smoothing` | `smooth` |
| seeding.dfy | `Seeding` | both `_createInitialPeaks` as functions of the histogram |
| fitting.dfy | `Fitting` | the local fit loop, pruning, the `optimise` guard and bounds, `_updateModel`, `_residuals`, and `analyse` after seeding; the Peak model's `updateModel` is a function parameter |
| genome_metrics.dfy | `GenomeMetrics` | homozygous index, peak labels, genome size, heterozygous rate, coverage |
| spectra.dfy | `Spectra` | classes `KmerSpectra` and `GCSpectra` whose methods run the source's loops and are proved equal to those functions |
| histogram.dfy | `KatHistogram` | class `Histogram` over `array<nat>`, and the counting specification |

The Python code that works by loops and mutation is written as methods with loop invariants:
`_createInitialPeaks`, `getHomozygousPeakIndex`, `calcGenomeSize`, `calcHetRate` and
`_residuals`, plus every modelled method of `kat::Histogram` except `Execute`, which has no loop of
its own. Each method's `ensures` ties its result or
its new state to a specification function. Lemmas about those functions state what the source
promises.

## Model

| member | source | states |
|---|---|---|
| Smoothing.Smooth | scripts/kat/spectra.py:25-31 | A histogram shorter than the window, or a window below 3, comes back unchanged. Otherwise the result has one mean per full window of the reflected input: `|x| + w - 1` values. |
| Smoothing.ReflectPad | scripts/kat/spectra.py:28 | The padded sequence has `2(w-1)` extra samples, holds `x` unchanged in the middle and mirrors it about its first and last sample. Every padded sample is a sample of `x`. |
| Smoothing.SmoothWithinBounds | scripts/kat/spectra.py:28-30 | Every smoothed value lies within any bounds that hold all input values. |
| Smoothing.SmoothOfConstant | scripts/kat/spectra.py:28-30 | A flat histogram stays flat. |
| Smoothing.SmoothThreeCentred | scripts/kat/spectra.py:28-30 | With window 3, output `j` is the mean of `x[j-2]`, `x[j-1]` and `x[j]`. It is centred one bin to the left, which is the shift `mean = mu - wlen + 2` undoes at line 454. |
| Seeding.TroughFrom | scripts/kat/spectra.py:241-245 | Returns the first bin from `i` on that is lower than both of the next two bins, or 0 exactly when there is none. |
| Seeding.FirstTrough | scripts/kat/spectra.py:241-245 | `fmin` is 0 iff no bin in `1 .. len-3` is a trough. Otherwise it is a trough and no earlier bin is one. |
| Seeding.ArgMaxFrom | scripts/kat/spectra.py:253 | Returns a position at or after `from` holding the maximum of `h[from:]`, with every earlier position in that range strictly lower (numpy's first argmax). |
| Seeding.Fmax | scripts/kat/spectra.py:249-253 | `fmax` is 0 without a trough. Otherwise it lies strictly after `fmin` and is the first maximum of the histogram from `fmin` on. |
| Seeding.ISqrt | scripts/kat/spectra.py:279-282 | Returns the integer square root: `r*r <= n < (r+1)*(r+1)`. |
| Seeding.Radius | scripts/kat/spectra.py:279-282 | `int(2*sqrt(mu))` is the largest `r` with `r*r <= 4*mu`. |
| Seeding.Candidates | scripts/kat/spectra.py:270-274 | There are five candidate means, four when haploid, all non-negative. |
| Seeding.KmerSeeds | scripts/kat/spectra.py:276-296 | The acceptance loop yields at most one peak per candidate. |
| Seeding.KmerSeedsMembers | scripts/kat/spectra.py:276-296 | A peak is seeded iff it is the seed of a candidate passing all four boundary rules of line 289. |
| Seeding.KmerSeedsAscending | scripts/kat/spectra.py:276-296 | Candidates with increasing integer parts give peaks in strictly increasing position. |
| Seeding.CandidatesAscending | scripts/kat/spectra.py:270-274 | For `fmax >= 1` the integer parts of the candidates strictly increase. |
| Seeding.KmerSeeding | scripts/kat/spectra.py:241-298 | No trough gives None. None occurs iff `fmax < 10`. Otherwise there are at most 5 peaks (4 haploid), strictly ascending, exactly the seeds of the accepted candidates. |
| Seeding.KmerPeaks | scripts/kat/spectra.py:259-298 | The peak list is None iff `fmax < 10`. Otherwise it holds at most 5 peaks, at most 4 when haploid. |
| Seeding.Accepts | scripts/kat/spectra.py:279-289 | An accepted candidate has its integer part after `fmin`, a radius of at least 2 and at most that integer part, and its integer part plus the radius inside the histogram. |
| Seeding.SeedPeak | scripts/kat/spectra.py:283-296 | The seed sits at `int(mu)`, within 1 below `mu`. Its height is the histogram at that bin. It is primary iff it sits on `fmax`. Its volume is 0 and its label empty. |
| Seeding.KmerSeedFacts | scripts/kat/spectra.py:283-296 | Every seeded peak sits on an integer bin after `fmin` and inside the histogram, is as high as the histogram there, and is primary iff it sits on `fmax`. |
| Seeding.RadiusAtFmax | scripts/kat/spectra.py:282 | For `fmax >= 10` the radius at `fmax` is at least 2 and below `fmax`. |
| Seeding.HomCandidateAccepted | scripts/kat/spectra.py:289 | The candidate `fmax` itself is accepted iff `fmax + radius < len(histogram)`. |
| Seeding.OnlyHomCandidateAtFmax | scripts/kat/spectra.py:270-274 | Only the candidate `fmax * 1` has `fmax` as its integer part. |
| Seeding.KmerPrimaryPeak | scripts/kat/spectra.py:289-295 | A seeded list has a primary peak iff `fmax + radius(fmax) < len(histogram)`, and never more than one. |
| Seeding.LocalMaxima | scripts/kat/spectra.py:438 | Returns exactly the interior samples strictly above both neighbours (`argrelextrema` with `np.greater`), in increasing order. |
| Seeding.GCMaxima | scripts/kat/spectra.py:434-438 | Returns the strict local maxima of the smoothed histogram, increasing. Each one, moved back by one, is a bin of the histogram. |
| Seeding.GCSeeds | scripts/kat/spectra.py:451-471 | The GC seeding loop yields at most one peak per maximum. |
| Seeding.GCSeedsMembers | scripts/kat/spectra.py:451-471 | A peak is seeded iff it is the seed of a maximum passing the edge test of line 464. |
| Seeding.GCSeedsAscending | scripts/kat/spectra.py:451-471 | Increasing maxima give strictly ascending peaks. |
| Seeding.GCAccepts | scripts/kat/spectra.py:454-464 | A smoothed maximum `mu` is kept iff `6 <= mu` and `mu + 3 < k`: its corrected position `mu - 1` lies more than the radius 4 from both 0 and `k`. |
| Seeding.GCSeedPeak | scripts/kat/spectra.py:454-471 | The seed sits at `mu - 1`, as high as the histogram there. It is primary iff that bin holds the histogram's maximum and no earlier bin does. Its volume is 0 and its label empty. |
| Seeding.GCSeeding | scripts/kat/spectra.py:428-475 | GC peaks are strictly ascending, and they are exactly the seeds of the accepted maxima. Each lies more than 4 bins from 0 and from `k`, is as high as the histogram there, and is primary iff it sits on the histogram's first maximum. |
| Fitting.LocalFit | scripts/kat/spectra.py:157-158 | Every peak is replaced by its local fit, in place, in order. |
| Fitting.Prune | scripts/kat/spectra.py:170 | Keeps exactly the peaks holding at least `min_elements`, never adding one. |
| Fitting.PruneAppend | scripts/kat/spectra.py:170 | Pruning a concatenation prunes each part, in order (the filter is order-preserving). |
| Fitting.PruneKeepsOrder | scripts/kat/spectra.py:170 | Pruning keeps peaks in strictly increasing position. |
| Fitting.PruneIdempotent | scripts/kat/spectra.py:170 | Pruning twice removes nothing more. |
| Fitting.OptimiseSetup | scripts/kat/spectra.py:111-123 | `optimise` raises iff the peak list is None or empty. Otherwise each peak gets one parameter: start at its height, bounded by 0 and its height. |
| Fitting.UpdateHeights | scripts/kat/spectra.py:55-62 | Raises iff the parameter count differs from the peak count. Otherwise peak `i` is rebuilt by `updateModel` from parameter `i`. With a Peak model that sets the height and keeps the position, positions are kept and the heights are the parameters. |
| Fitting.GlobalFitLowersHeights | scripts/kat/spectra.py:114-132 | A solution inside the box of `optimise` is written back without a mismatch. Positions are kept and every height ends between 0 and where it was. |
| Fitting.Residuals | scripts/kat/spectra.py:79-104 | Raises iff the parameter count is wrong. Otherwise every bin holds `observed - model`, set to 0 in the first 5 bins and multiplied by the peak count where negative. |
| Fitting.Penalised | scripts/kat/spectra.py:97-102 | In the first 5 bins the residual is 0. Past them a non-negative residual is kept, a negative one stays at most 0, and with at least one peak it is at most the original residual. |
| Fitting.PenaltyShape | scripts/kat/spectra.py:97-102 | Past the noise bins a non-negative residual is kept. A negative one stays negative, grows at least as large in size, and grows larger with more peaks. |
| Fitting.FitPeaks | scripts/kat/spectra.py:150-189 | The peaks after local fit, pruning and the guarded global fit equal `Analysed`, with `updateModel` as the parameter `update`. A failing or raising solve keeps the pruned peaks. |
| Fitting.GlobalFit | scripts/kat/spectra.py:111-132 | The peak count is kept. Either the peaks come back unchanged (no peaks, a failed solve, or a height count that does not match), or every peak is rebuilt by `updateModel` at its solved height. |
| Fitting.Analysed | scripts/kat/spectra.py:157-189 | `analyse` never returns more peaks than were seeded. |
| Fitting.GlobalFitSameShape | scripts/kat/spectra.py:55-62 | With a Peak model that keeps positions, the global fit moves no peak whatever the solver returns. Each peak either stays as it was or is rebuilt by `updateModel` at a new height. |
| Fitting.GlobalFitKeepsShape | scripts/kat/spectra.py:111-133 | With a Peak model that keeps positions, and a solver that keeps to its box, no peak moves and every height either stays or drops to between 0 and its old value. |
| Fitting.AnalysedPeaks | scripts/kat/spectra.py:150-189 | `analyse` returns as many peaks as pruning kept, never more than were seeded. Each kept peak held at least `min_elements` and is the local fit of a seed. With a Peak model that keeps positions, positions are those of the kept peaks, each peak stays or is rebuilt at a new height, and order is kept when the seeds were ascending and the local fit moves none. |
| GenomeMetrics.NearestIsFirstClosest | scripts/kat/spectra.py:313-320 | The scan picks the first peak of least distance to `approx_freq`, or index 0 exactly when none is nearer than 1000000. |
| GenomeMetrics.Nearest | scripts/kat/spectra.py:313-320 | The scan returns an index no larger than the peak count and a distance no larger than 1000000. Index 0 comes with 1000000. Any other index comes with the distance of that peak to `approx_freq`. |
| GenomeMetrics.WithinFrom | scripts/kat/spectra.py:323-327 | Returns the 1-based index of the first peak within 1.0 of the target, or 0 exactly when there is none. |
| GenomeMetrics.HomozygousIndex | scripts/kat/spectra.py:304-327 | With `approx_freq > 0` the result is the first nearest peak (0 iff none is nearer than 1000000). Otherwise it is the first peak within 1.0 of `fmax` (0 iff none). The index never exceeds the peak count. |
| GenomeMetrics.NatToString | scripts/kat/spectra.py:348 | `str` of a natural number is a non-empty string of decimal digits. |
| GenomeMetrics.NatToStringRoundTrip | scripts/kat/spectra.py:348 | Reading the digits back gives the number. |
| GenomeMetrics.NatToStringInjective | scripts/kat/spectra.py:348 | Different numbers give different strings. |
| GenomeMetrics.Label | scripts/kat/spectra.py:344-357 | Peak `h` is `1X (Homozygous)` and peak `h-1` is `1/2X (Heterozygous)`. A later peak `i` is `"{i-h+1}X"`. An earlier peak `i` (before `h-1`) is `"1/{h-i+1}X"`. |
| GenomeMetrics.FractionRenamed | scripts/kat/spectra.py:352-354 | A fraction label is `1/2X`, and so renamed, iff its distance is 2. |
| GenomeMetrics.MultipleLabels | scripts/kat/spectra.py:346-348 | Different distances after the homozygous peak give different `"{d}X"` labels. |
| GenomeMetrics.FractionLabels | scripts/kat/spectra.py:350-354 | Different distances before it give different `"1/{d}X"` labels, the renamed `1/2X (Heterozygous)` included. |
| GenomeMetrics.MultipleLabelShape | scripts/kat/spectra.py:346-357 | A `"{d}X"` label (d >= 2) is never the homozygous, the heterozygous or a fraction label. |
| GenomeMetrics.LabelsDistinct | scripts/kat/spectra.py:344-357 | Two different peak positions never get the same description. |
| GenomeMetrics.HomozygousLabel | scripts/kat/spectra.py:355-357 | The label `1X (Homozygous)` goes to the homozygous peak and only to it. |
| GenomeMetrics.HeterozygousLabel | scripts/kat/spectra.py:349-354 | The label `1/2X (Heterozygous)` goes to the peak just before the homozygous one and only to it. |
| GenomeMetrics.GenomeSizeOfSinglePeak | scripts/kat/spectra.py:338-359 | A lone homozygous peak is the whole genome size. |
| GenomeMetrics.ContributionBounds | scripts/kat/spectra.py:345-357 | The homozygous peak adds its volume. With a non-negative volume, a peak adds at least 0, an earlier peak at most its volume and a later peak at least its volume. |
| GenomeMetrics.GenomeSize | scripts/kat/spectra.py:338-359 | No homozygous peak gives 0. With non-negative volumes the size is non-negative. |
| GenomeMetrics.WeightedSumStep | scripts/kat/spectra.py:344-357 | One more peak adds exactly its contribution to the running sum. |
| GenomeMetrics.WeightedSumNonNegative | scripts/kat/spectra.py:343-357 | With non-negative volumes the weighted sum is non-negative. |
| GenomeMetrics.GenomeSizeCountsHomozygousPeak | scripts/kat/spectra.py:340-359 | With non-negative volumes the genome size is at least the homozygous peak's volume. |
| GenomeMetrics.HetSum | scripts/kat/spectra.py:376-381 | With the homozygous peak at index 1 or none, the sum is 0. |
| GenomeMetrics.HetRate | scripts/kat/spectra.py:373-383 | 0 when `h < 2`. It fails, with a division by zero, iff `h >= 2` and the genome size is 0. With non-negative volumes and a positive size it succeeds and is non-negative. |
| GenomeMetrics.Percent | scripts/kat/spectra.py:383 | A non-negative part of a positive whole is a non-negative percentage. |
| GenomeMetrics.HetTermBound | scripts/kat/spectra.py:345-381 | A peak's term in the heterozygous sum lies between 0 and `h/k` times its contribution to the genome size. |
| GenomeMetrics.HetSumBound | scripts/kat/spectra.py:376-381 | The heterozygous sum lies between 0 and `h/k` times the weighted volume sum. |
| GenomeMetrics.HetRateBounds | scripts/kat/spectra.py:369-383 | Against its own genome size the rate succeeds and lies in `[0, 100*h/k]` percent. |
| GenomeMetrics.PercentBound | scripts/kat/spectra.py:383 | A part between 0 and `q` times a positive whole is between 0 and `100 q` percent of it. |
| GenomeMetrics.Trunc | scripts/kat/spectra.py:388 | `int()` truncates toward zero: the result is the integer part on both sides of 0. |
| GenomeMetrics.WeightedTotalBounds | scripts/kat/spectra.py:386-387 | With positions in `[lo, hi]` and non-negative volumes, the weighted sum lies between `lo` and `hi` times the total volume. |
| GenomeMetrics.WeightedMeanWithin | scripts/kat/spectra.py:386-388 | The volume-weighted mean position lies between the least and greatest position bound. |
| GenomeMetrics.CoverageWithinMeans | scripts/kat/spectra.py:385-388 | With positive total volume the coverage lies between the integer parts of the position bounds. |
| GenomeMetrics.KmerCoverage | scripts/kat/spectra.py:385-388 | With no positive total volume the coverage is 0. With non-negative volumes and positions it lies between 0 and the integer part of the furthest position. |
| GenomeMetrics.MaxOf | scripts/kat/spectra.py:385-388 | Returns a value no smaller than any element, one of the elements when there are any, and 0 for none. |
| Spectra.Relabelled | scripts/kat/spectra.py:344-357 | Relabelling keeps count, positions and volumes and changes only each peak's description, to the label of its position. |
| Spectra.RelabelledDistinct | scripts/kat/spectra.py:344-357 | After `calcGenomeSize` no two peaks share a description. |
| Spectra.RelabelledMarks | scripts/kat/spectra.py:349-357 | After relabelling, exactly peak `h` is homozygous and exactly peak `h-1` heterozygous. |
| Spectra.HetSumStops | scripts/kat/spectra.py:377-380 | Peaks from the homozygous one on add nothing: the loop's `break` does not change the sum. |
| Spectra.KmerSpectra.constructor | scripts/kat/spectra.py:210-223 | Keeps the histogram, `haploid` and `k`; `fmin = fmax = 0`; no peaks. |
| Spectra.KmerSpectra.CreateInitialPeaks | scripts/kat/spectra.py:230-300 | Sets `fmin`, `fmax` and `peaks` to `FirstTrough`, `Fmax` and `KmerPeaks` of the histogram. |
| Spectra.KmerSpectra.FirstTrough | scripts/kat/spectra.py:241-245 | The scan with `break` returns `Seeding.FirstTrough`. |
| Spectra.KmerSpectra.Frequencies | scripts/kat/spectra.py:270-274 | The list built by the loop is `Seeding.Candidates`. |
| Spectra.KmerSpectra.SeedAtFrequencies | scripts/kat/spectra.py:276-296 | The acceptance loop returns `Seeding.KmerSeeds`. |
| Spectra.KmerSpectra.Analyse | scripts/kat/spectra.py:139-191 | After `analyse`, a seeding of None or [] is left as it is. Otherwise the peaks are `Analysed` of the seeds, with the Peak model's `updateModel` as `update`. |
| Spectra.KmerSpectra.GetHomozygousPeakIndex | scripts/kat/spectra.py:304-327 | Both loops return `HomozygousIndex` of the peak positions. |
| Spectra.KmerSpectra.CalcGenomeSize | scripts/kat/spectra.py:329-359 | Without a homozygous peak the size is 0 and the peaks are unchanged. Otherwise the size is the weighted volume sum and the peaks are `Relabelled`. |
| Spectra.KmerSpectra.WeighAndLabel | scripts/kat/spectra.py:343-359 | The loop returns the weighted sum and the relabelled peaks. |
| Spectra.KmerSpectra.CalcHetRate | scripts/kat/spectra.py:361-383 | The size is computed when not positive, and the homozygous index comes from `hom_peak` as a frequency. The result is `HetRate`: 0 when `h < 2`, an error on a zero size, else the percentage. A positive size leaves the peaks alone. Otherwise the peaks are unchanged without a homozygous peak, and exactly `Relabelled` around it with one. |
| Spectra.KmerSpectra.HetSum | scripts/kat/spectra.py:376-381 | The loop with `break` returns `GenomeMetrics.HetSum`. |
| Spectra.KmerSpectra.CalcKmerCoverage | scripts/kat/spectra.py:385-388 | With no positive total volume the coverage is 0. With non-negative volumes and positions it lies between 0 and the integer part of the furthest peak position. |
| Spectra.GCSpectra.constructor | scripts/kat/spectra.py:417-425 | Keeps histogram and `k`; no peaks. |
| Spectra.GCSpectra.CreateInitialPeaks | scripts/kat/spectra.py:428-475 | Peaks are set to `Some(GCSeeds)` of the smoothed histogram's maxima, never None. |
| Spectra.GCSpectra.SeedAtMaxima | scripts/kat/spectra.py:451-471 | The seeding loop returns `Seeding.GCSeeds`. |
| Spectra.GCSpectra.Analyse | scripts/kat/spectra.py:139-191 | An empty seeding stays empty. Otherwise the peaks are `Analysed` of the seeds, with the Peak model's `updateModel` as `update`. |
| KatHistogram.Bucket | src/histogram.cc:162-167 | Every count value lands in a bucket below `nb_buckets`. |
| KatHistogram.NbBuckets | src/histogram.cc:52 | There is at least one bucket, and the last one is `ceil`: `base + nb_buckets - 1 == ceil`. |
| KatHistogram.Column | src/histogram.cc:98-99 | The printed column is at least `base`, and with a positive `inc` it is `base` plus exactly `i` steps of `inc`. |
| KatHistogram.BucketColumn | src/histogram.cc:98-101 | A value from `base` to `ceil` lies in the `inc`-wide range starting at its bucket's printed column; with `inc` 1 the column is the value. |
| KatHistogram.Counts | src/histogram.cc:157-168 | Returns one count per bucket. |
| KatHistogram.CountsStep | src/histogram.cc:160-168 | One more value increments exactly its bucket. |
| KatHistogram.CountsAreMultiplicities | src/histogram.cc:155-171 | Each bucket holds exactly as many counts as there are values belonging to it. |
| KatHistogram.CountsTotal | src/histogram.cc:155-171 | Every value is counted once: the counts sum to the number of values. |
| KatHistogram.CountsAppend | src/histogram.cc:155-171 | Counting two runs of values adds their counts bucket by bucket. |
| KatHistogram.MergeOfSlices | src/histogram.cc:118-128 | Merging the per-thread counts gives the counts of all values together. |
| KatHistogram.Histogram.constructor | src/histogram.cc:46-53 | `nb_buckets = ceil + 1 - base`, and the other fields are kept. |
| KatHistogram.Histogram.Execute | src/histogram.cc:56-89 | Refuses iff `high < low`, changing nothing. Otherwise `data` is a fresh array holding the counts of all threads' values, and there is one per-thread array per slice holding that slice's counts. |
| KatHistogram.Histogram.StartAndJoinThreads | src/histogram.cc:134-153 | Thread `i`'s array holds the counts of slice `i`. |
| KatHistogram.Histogram.Start | src/histogram.cc:155-171 | Appends one fresh array holding the counts of the slice; earlier arrays are kept. |
| KatHistogram.Histogram.Merge | src/histogram.cc:118-132 | Every bucket of `data` grows by the sum of that bucket over the threads. |
| KatHistogram.Histogram.MergeBucket | src/histogram.cc:124-128 | The inner loop adds every thread's bucket `i` into `data[i]` and leaves other buckets unchanged. |
| KatHistogram.Histogram.Print | src/histogram.cc:98-101 | One line per bucket: column `base + i*inc` and count `data[i]`. |

## Left out

- The Peak model (`peak.py`: the Gaussian curve, `createModel`, `gaussian`, `Peak.optimise`, `updateModel`) is not part of this model. The local fit is the parameter `refine`, and `updateModel` the parameter `update`. The model curves `Tx`/`Ty`, their sum in `_updateModel` and in `_residuals`, and the 1000x factor at line 90 are left out. `Residuals` receives the summed model curve as an input.
- `optimize.least_squares` is the parameter `solve`. None stands for `res.success` being false or the call raising. Its internal numerics are not modelled.
- Fitting.GlobalFitKeepsShape: requires the solver's answer to lie inside the box it was given, which `least_squares` promises but the model cannot check, and a Peak model that keeps positions.
- Fitting.FitPeaks: the volumes, widths and curves of the peaks after the global fit come from `updateModel` (the parameter `update`); nothing is promised about them.
- Spectra.KmerSpectra.Analyse: the same holds for the post-fit volumes of a k-mer spectrum's peaks.
- Spectra.GCSpectra.Analyse: the same holds for the post-fit volumes of a GC spectrum's peaks.
- Floating point: positions, heights, volumes and rates are Dafny reals. `np.sqrt` and `int(sigma * 2.0)` are the exact integer square root (`Radius`); rounding of `sqrt` near perfect squares is not captured.
- Seeded peaks carry no standard deviation (sigma is only used by the Peak model). Their volume starts at 0 and their description is empty.
- The `ndim != 1` check of `smooth` is left out: histograms are one-dimensional sequences here.
- Smoothing.Smooth: numpy's "valid" convolution of the padded input yields `len(x) + w - 1` samples, not `len(x)`; the model follows the code.
- Spectra.GCSpectra.CreateInitialPeaks: `argrelextrema` returns a one-element tuple, which is never empty, so the `None` branch at lines 440-443 is unreachable and the peaks are never None; the model follows the code.
- Methods that iterate `self.peaks` (`getHomozygousPeakIndex`, `calcGenomeSize`, `calcHetRate`, `calcKmerCoverage`) require the peaks to be set. Python raises `TypeError` on None there.
- Spectra.KmerSpectra.CalcHetRate: division by a zero genome size is the error `DivisionByZero`. Python raises for a plain `0` and numpy gives inf/nan for a float zero; neither is modelled apart.
- Spectra.KmerSpectra.CalcHetRate: requires `k >= 1`. With `k = 0` Python raises on the division by `k`, which is not modelled as an error.
- `printPeaks`, `printGenomeStats`, plotting, verbose output and `print(res.nfev)` are I/O and are left out.
- `maxValue` (scripts/kat/spectra.py:225-226) is a one-line getter of `histogram[fmax]` that the analysis never calls; it is left out.
- `Histogram`: the Jellyfish hash (`jellyfishCount`, symlinks, `loadHashes`, `getRegionSlice`) is not modelled. `Execute` receives the count values of each thread's region slice.
- `Histogram`: `calcBase` and `calcCeil` are not part of this model. `base` and `ceil` are constructor parameters, assumed to satisfy `base <= ceil` whenever `low <= high`.
- `Histogram`: threads run one after another in thread order. Concurrent `push_back` into `threadedData` and its ordering are not captured. Merging sums over all threads, so the order does not change `data`.
- `Histogram`: counts are unbounded naturals. `uint64_t` wrap-around of counts and of `ceil + 1 - base` is not modelled.
- KatHistogram.Histogram.constructor: requires `inc >= 1`. With `inc = 0` the bucket index `(val - base) / inc` at src/histogram.cc:167 divides by zero, which is not modelled as an error.
- `Histogram.Print`: the four header lines and the hash file name are left out. The result is the list of `(column, count)` pairs.
- `main`, option parsing and `helpMessage` are left out.
