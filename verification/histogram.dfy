/**
 * `kat::Histogram` (src/histogram.cc): the k-mer counts of a hash, binned into `nb_buckets`
 * buckets of width `inc` starting at `base`, counted per thread and then merged.
 *
 * The hash and its partition into per-thread region slices are outside the model: `Execute`
 * receives the count values each thread's slice yields. Threads run one after another, in
 * thread order.
 */
module KatHistogram {
  import opened Outcomes

  // ---------------------------------------------------------------------------------------
  // Binning

  /** The bucket layout: first column, last column and column width. */
  datatype Binning = Binning(base: nat, ceil: nat, inc: nat)

  predicate ValidBinning(b: Binning)
  {
    1 <= b.inc && b.base <= b.ceil
  }

  /** `nb_buckets`: one bucket per value from `base` to `ceil`. */
  function NbBuckets(b: Binning): (n: nat)
    requires ValidBinning(b)
    ensures 1 <= n && b.base + (n - 1) == b.ceil
  {
    b.ceil + 1 - b.base
  }

  /**
   * The bucket a count value goes to: values below `base` into the first bucket, values
   * above `ceil` into the last, the rest by their distance from `base` in steps of `inc`.
   */
  function Bucket(b: Binning, v: nat): (i: nat)
    requires ValidBinning(b)
    ensures i < NbBuckets(b)
  {
    if v < b.base then 0
    else if v > b.ceil then NbBuckets(b) - 1
    else
      DivAtMost(v - b.base, b.inc);
      (v - b.base) / b.inc
  }

  lemma DivAtMost(x: nat, y: nat)
    requires 1 <= y
    ensures x / y <= x
  {
    var q, r := x / y, x % y;
    assert q * y + r == x && 0 <= r < y;
    assert 0 <= q;
    MulAtLeast(q, y);
  }

  lemma {:induction false} MulAtLeast(q: nat, y: nat)
    requires 1 <= y
    ensures q <= q * y
  {
    if y > 1 {
      MulAtLeast(q, y - 1);
      assert q * y == q * (y - 1) + q;
    }
  }

  /**
   * The column printed for bucket `i`: `base`, then one `inc` further per bucket, so that the
   * bucket can be read back from its column.
   */
  function Column(b: Binning, i: nat): (c: nat)
    ensures b.base <= c
    ensures 1 <= b.inc ==> (c - b.base) % b.inc == 0 && (c - b.base) / b.inc == i
  {
    var c := b.base + i * b.inc;
    assert 1 <= b.inc ==> (i * b.inc) % b.inc == 0 && (i * b.inc) / b.inc == i by {
      if 1 <= b.inc {
        MulDiv(i, b.inc);
      }
    }
    c
  }

  lemma MulDiv(i: nat, y: nat)
    requires 1 <= y
    ensures (i * y) % y == 0 && (i * y) / y == i
  {
    var q, r := (i * y) / y, (i * y) % y;
    assert q * y + r == i * y && 0 <= r < y;
    var d := i - q;
    assert d * y == r;
    SmallMultiple(d, y);
  }

  /** The only multiple of `y` in `[0, y)` is 0. */
  lemma SmallMultiple(d: int, y: nat)
    requires 1 <= y && 0 <= d * y < y
    ensures d == 0
  {
    if 1 <= d {
      MulAtLeast(y, d);
    }
  }

  /**
   * A value from `base` to `ceil` lies in the `inc`-wide range starting at its bucket's
   * column; with `inc` 1 the column is the value itself.
   */
  lemma BucketColumn(b: Binning, v: nat)
    requires ValidBinning(b) && b.base <= v <= b.ceil
    ensures Column(b, Bucket(b, v)) <= v < Column(b, Bucket(b, v)) + b.inc
    ensures b.inc == 1 ==> Column(b, Bucket(b, v)) == v
  {
    var d := v - b.base;
    var q := d / b.inc;
    assert d == q * b.inc + d % b.inc;
    assert Column(b, Bucket(b, v)) == b.base + q * b.inc;
  }

  /** The per-bucket counts of the values `vs`, added one value at a time as `start` does. */
  function Counts(b: Binning, vs: seq<nat>): (c: seq<nat>)
    requires ValidBinning(b)
    ensures |c| == NbBuckets(b)
  {
    if vs == [] then seq(NbBuckets(b), _ => 0)
    else
      var c := Counts(b, vs[..|vs| - 1]);
      var i := Bucket(b, vs[|vs| - 1]);
      c[i := c[i] + 1]
  }

  /** Counting one more value of `vs` increments its bucket. */
  lemma CountsStep(b: Binning, vs: seq<nat>, n: nat)
    requires ValidBinning(b) && n < |vs|
    ensures Counts(b, vs[..n + 1]) ==
      Counts(b, vs[..n])[Bucket(b, vs[n]) := Counts(b, vs[..n])[Bucket(b, vs[n])] + 1]
  {
    assert vs[..n + 1][..n] == vs[..n];
  }

  /** The bucket of every value, in order. */
  function Buckets(b: Binning, vs: seq<nat>): (bs: seq<nat>)
    requires ValidBinning(b)
    ensures |bs| == |vs| && forall j :: 0 <= j < |vs| ==> bs[j] == Bucket(b, vs[j])
  {
    seq(|vs|, j requires 0 <= j < |vs| => Bucket(b, vs[j]))
  }

  /** Each bucket holds exactly as many counts as there are values that belong to it. */
  lemma {:induction false} CountsAreMultiplicities(b: Binning, vs: seq<nat>)
    requires ValidBinning(b)
    ensures forall i :: 0 <= i < NbBuckets(b) ==> Counts(b, vs)[i] == multiset(Buckets(b, vs))[i]
  {
    if vs != [] {
      var init := vs[..|vs| - 1];
      CountsAreMultiplicities(b, init);
      assert Buckets(b, vs) == Buckets(b, init) + [Bucket(b, vs[|vs| - 1])];
    }
  }

  function Total(s: seq<nat>): nat
  {
    if s == [] then 0 else Total(s[..|s| - 1]) + s[|s| - 1]
  }

  lemma {:induction false} TotalIncrement(s: seq<nat>, i: nat)
    requires i < |s|
    ensures Total(s[i := s[i] + 1]) == Total(s) + 1
  {
    var t := s[i := s[i] + 1];
    if i < |s| - 1 {
      TotalIncrement(s[..|s| - 1], i);
      assert t[..|t| - 1] == s[..|s| - 1][i := s[i] + 1];
    } else {
      assert t[..|t| - 1] == s[..|s| - 1];
    }
  }

  lemma {:induction false} TotalOfZeros(n: nat)
    ensures Total(seq(n, _ => 0)) == 0
  {
    if n != 0 {
      TotalOfZeros(n - 1);
      assert seq(n, _ => 0)[..n - 1] == seq(n - 1, _ => 0);
    }
  }

  /** Every value is counted exactly once: the counts add up to the number of values. */
  lemma {:induction false} CountsTotal(b: Binning, vs: seq<nat>)
    requires ValidBinning(b)
    ensures Total(Counts(b, vs)) == |vs|
  {
    if vs == [] {
      TotalOfZeros(NbBuckets(b));
    } else {
      var init := vs[..|vs| - 1];
      CountsTotal(b, init);
      TotalIncrement(Counts(b, init), Bucket(b, vs[|vs| - 1]));
    }
  }

  /** Counting two runs of values one after the other adds their counts bucket by bucket. */
  lemma CountsAppend(b: Binning, xs: seq<nat>, ys: seq<nat>)
    requires ValidBinning(b)
    ensures forall i :: 0 <= i < NbBuckets(b) ==> Counts(b, xs + ys)[i] == Counts(b, xs)[i] + Counts(b, ys)[i]
  {
    CountsAreMultiplicities(b, xs);
    CountsAreMultiplicities(b, ys);
    CountsAreMultiplicities(b, xs + ys);
    assert Buckets(b, xs + ys) == Buckets(b, xs) + Buckets(b, ys);
  }

  // ---------------------------------------------------------------------------------------
  // Merging the per-thread counts

  /** The sum of column `i` over all rows. */
  function ColumnSum(rows: seq<seq<nat>>, i: nat): nat
    requires forall j :: 0 <= j < |rows| ==> i < |rows[j]|
  {
    if rows == [] then 0 else ColumnSum(rows[..|rows| - 1], i) + rows[|rows| - 1][i]
  }

  /** All thread slices, one after the other. */
  function Flatten(slices: seq<seq<nat>>): seq<nat>
  {
    if slices == [] then [] else Flatten(slices[..|slices| - 1]) + slices[|slices| - 1]
  }

  /** The counts of each slice separately. */
  function PerSlice(b: Binning, slices: seq<seq<nat>>): (rows: seq<seq<nat>>)
    requires ValidBinning(b)
    ensures |rows| == |slices| && forall j :: 0 <= j < |slices| ==> rows[j] == Counts(b, slices[j])
  {
    seq(|slices|, j requires 0 <= j < |slices| => Counts(b, slices[j]))
  }

  /**
   * Splitting the values among threads does not change the result: merging the per-slice
   * counts gives the counts of all values together.
   */
  lemma {:induction false} MergeOfSlices(b: Binning, slices: seq<seq<nat>>, i: nat)
    requires ValidBinning(b) && i < NbBuckets(b)
    ensures ColumnSum(PerSlice(b, slices), i) == Counts(b, Flatten(slices))[i]
  {
    if slices != [] {
      var init := slices[..|slices| - 1];
      MergeOfSlices(b, init, i);
      assert PerSlice(b, slices)[..|slices| - 1] == PerSlice(b, init);
      CountsAppend(b, Flatten(init), slices[|slices| - 1]);
    }
  }

  // ---------------------------------------------------------------------------------------
  // The histogram object

  class Histogram {
    const low: nat
    const high: nat
    const inc: nat
    /** `calcBase()` and `calcCeil()`, which are not part of this model, as given values. */
    const base: nat
    const ceil: nat
    const nbBuckets: int
    const threads: nat
    var data: array<nat>
    var threadedData: seq<array<nat>>

    /** The layout the constructor sets up; `base <= ceil` whenever `low <= high`. */
    predicate Configured()
    {
      1 <= inc && (low <= high ==> base <= ceil) && nbBuckets == ceil + 1 - base
    }

    function Bins(): Binning
    {
      Binning(base, ceil, inc)
    }

    /** The counts of each thread's array, in thread order. */
    function Rows(): (rows: seq<seq<nat>>)
      reads this, threadedData
      ensures |rows| == |threadedData| && forall j :: 0 <= j < |rows| ==> rows[j] == threadedData[j][..]
    {
      seq(|threadedData|, j reads this, threadedData requires 0 <= j < |threadedData| => threadedData[j][..])
    }

    constructor (low: nat, high: nat, inc: nat, base: nat, ceil: nat, threads: nat)
      requires 1 <= inc && (low <= high ==> base <= ceil)
      ensures this.low == low && this.high == high && this.inc == inc && this.threads == threads
      ensures this.base == base && this.ceil == ceil
      ensures nbBuckets == ceil + 1 - base && Configured()
      ensures data.Length == 0 && threadedData == []
    {
      this.low, this.high, this.inc := low, high, inc;
      this.base, this.ceil := base, ceil;
      this.threads := threads;
      nbBuckets := ceil + 1 - base;
      data := new nat[0];
      threadedData := [];
    }

    /**
     * `execute`: a high count below the low count is refused and nothing changes; otherwise the
     * counts are zeroed, every thread counts its slice and the per-thread counts are merged,
     * so the histogram holds the counts of all values.
     */
    method Execute(slices: seq<seq<nat>>) returns (r: Outcome)
      requires Configured() && |slices| == threads
      modifies this
      ensures r.Fail? <==> high < low
      ensures r.Fail? ==> r.error == HighBelowLow && data == old(data) && threadedData == old(threadedData)
      ensures r.Pass? ==> ValidBinning(Bins()) && fresh(data) && data[..] == Counts(Bins(), Flatten(slices))
      ensures r.Pass? ==> |threadedData| == threads
      ensures r.Pass? ==> forall j :: 0 <= j < threads ==> threadedData[j][..] == Counts(Bins(), slices[j])
    {
      if high < low {
        return Fail(HighBelowLow);
      }
      data := new nat[nbBuckets](_ => 0);
      threadedData := [];
      StartAndJoinThreads(slices);
      Merge();
      forall i | 0 <= i < data.Length ensures data[i] == Counts(Bins(), Flatten(slices))[i] {
        assert Rows() == PerSlice(Bins(), slices);
        MergeOfSlices(Bins(), slices, i);
      }
      return Pass;
    }

    /** `startAndJoinThreads`: thread `i` counts slice `i` into an array of its own. */
    method StartAndJoinThreads(slices: seq<seq<nat>>)
      requires Configured() && base <= ceil && |slices| == threads && threadedData == []
      modifies this`threadedData
      ensures |threadedData| == threads
      ensures forall j :: 0 <= j < threads ==>
        fresh(threadedData[j]) && threadedData[j][..] == Counts(Bins(), slices[j])
    {
      var i := 0;
      while i < threads
        invariant 0 <= i <= threads && |threadedData| == i
        invariant forall j :: 0 <= j < i ==>
          fresh(threadedData[j]) && threadedData[j][..] == Counts(Bins(), slices[j])
      {
        Start(slices[i]);
        i := i + 1;
      }
    }

    /**
     * `start`: a zeroed array of `nb_buckets` counts, one increment per value of the thread's
     * slice, appended to the per-thread arrays.
     */
    method Start(slice: seq<nat>)
      requires Configured() && base <= ceil
      modifies this`threadedData
      ensures |threadedData| == |old(threadedData)| + 1
      ensures threadedData[..|old(threadedData)|] == old(threadedData)
      ensures fresh(threadedData[|old(threadedData)|])
      ensures threadedData[|old(threadedData)|][..] == Counts(Bins(), slice)
    {
      ghost var b := Bins();
      var hist := new nat[nbBuckets](_ => 0);
      assert hist[..] == Counts(b, slice[..0]);
      var n := 0;
      while n < |slice|
        invariant 0 <= n <= |slice|
        invariant hist[..] == Counts(b, slice[..n])
        modifies hist
      {
        var val := slice[n];
        CountsStep(b, slice, n);
        if val < base {
          hist[0] := hist[0] + 1;
        } else if val > ceil {
          hist[nbBuckets - 1] := hist[nbBuckets - 1] + 1;
        } else {
          hist[(val - base) / inc] := hist[(val - base) / inc] + 1;
        }
        n := n + 1;
      }
      assert slice[..n] == slice;
      threadedData := threadedData + [hist];
    }

    /** `merge`: every thread's count is added into the corresponding bucket of `data`. */
    method Merge()
      requires data.Length == nbBuckets && |threadedData| == threads
      requires forall j :: 0 <= j < threads ==> threadedData[j].Length == nbBuckets && threadedData[j] != data
      modifies data
      ensures forall i :: 0 <= i < data.Length ==> data[i] == old(data[i]) + ColumnSum(Rows(), i)
    {
      var i := 0;
      while i < nbBuckets
        invariant 0 <= i <= nbBuckets
        invariant forall i' :: 0 <= i' < i ==> data[i'] == old(data[i']) + ColumnSum(Rows(), i')
        invariant forall i' :: i <= i' < data.Length ==> data[i'] == old(data[i'])
      {
        MergeBucket(i);
        i := i + 1;
      }
    }

    /** The inner loop of `merge`: bucket `i` of every thread added into `data[i]`. */
    method MergeBucket(i: nat)
      requires i < data.Length == nbBuckets && |threadedData| == threads
      requires forall j :: 0 <= j < threads ==> threadedData[j].Length == nbBuckets && threadedData[j] != data
      modifies data
      ensures data[i] == old(data[i]) + ColumnSum(Rows(), i)
      ensures forall i' :: 0 <= i' < data.Length && i' != i ==> data[i'] == old(data[i'])
    {
      ghost var rows := Rows();
      var j := 0;
      while j < threads
        invariant 0 <= j <= threads
        invariant Rows() == rows
        invariant data[i] == old(data[i]) + ColumnSum(rows[..j], i)
        invariant forall i' :: 0 <= i' < data.Length && i' != i ==> data[i'] == old(data[i'])
      {
        data[i] := data[i] + threadedData[j][i];
        assert rows[..j + 1][..j] == rows[..j];
        j := j + 1;
      }
      assert rows[..j] == rows;
    }

    /**
     * `print`, without its header: one line per bucket, its column (starting at `base`, one
     * `inc` further each line) and its count.
     */
    method Print() returns (lines: seq<(nat, nat)>)
      requires data.Length == nbBuckets
      ensures |lines| == data.Length
      ensures forall i :: 0 <= i < |lines| ==> lines[i] == (Column(Bins(), i), data[i])
    {
      lines := [];
      var col := base;
      var i := 0;
      while i < data.Length
        invariant 0 <= i <= data.Length && |lines| == i
        invariant col == Column(Bins(), i)
        invariant forall j :: 0 <= j < i ==> lines[j] == (Column(Bins(), j), data[j])
      {
        lines := lines + [(col, data[i])];
        i, col := i + 1, col + inc;
      }
    }
  }
}
