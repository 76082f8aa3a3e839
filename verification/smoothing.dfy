/**
 * The moving-average filter applied to a histogram before its local maxima are searched
 * (scripts/kat/spectra.py, `smooth`). The input is reflected at both ends and convolved with a
 * flat window of `w` weights `1/w`; numpy's "valid" convolution keeps every full window.
 */
module Smoothing {
  import opened Sums

  function Reversed(s: seq<real>): (r: seq<real>)
    ensures |r| == |s|
    ensures forall i :: 0 <= i < |s| ==> r[i] == s[|s| - 1 - i]
  {
    if s == [] then [] else Reversed(s[1..]) + [s[0]]
  }

  /**
   * `x[w-1:0:-1] ++ x ++ x[-2:-w-1:-1]`: the samples `x[w-1] .. x[1]`, then `x`, then
   * `x[n-2] .. x[n-w]`, so that the padded sequence is mirrored about `x[0]` and about `x[n-1]`.
   */
  function ReflectPad(x: seq<real>, w: nat): (s: seq<real>)
    requires 1 <= w <= |x|
    ensures |s| == |x| + 2 * (w - 1)
    ensures s[w - 1 .. w - 1 + |x|] == x
    ensures forall i :: 0 <= i < w - 1 ==> s[i] == s[2 * (w - 1) - i]
    ensures forall i :: w - 1 + |x| <= i < |s| ==> s[i] == s[2 * (w - 2 + |x|) - i]
    ensures forall i :: 0 <= i < |s| ==> s[i] in x
  {
    Reversed(x[1..w]) + x + Reversed(x[|x| - w .. |x| - 1])
  }

  /** Mean of the `w` padded samples starting at `j`: one output of the valid convolution. */
  function WindowMean(s: seq<real>, j: nat, w: nat): real
    requires 1 <= w && j + w <= |s|
  {
    Sum(s[j .. j + w]) / (w as real)
  }

  /**
   * The smoothed histogram. Inputs shorter than the window, or windows below 3, come back
   * unchanged; otherwise there are `|x| + w - 1` outputs, one per full window of the padding.
   */
  function Smooth(x: seq<real>, w: nat): (y: seq<real>)
    ensures |x| < w || w < 3 ==> y == x
    ensures 3 <= w <= |x| ==> |y| == |x| + w - 1
  {
    if |x| < w || w < 3 then x
    else
      var s := ReflectPad(x, w);
      seq(|x| + w - 1, j requires 0 <= j < |x| + w - 1 => WindowMean(s, j, w))
  }

  /** A window mean of samples in `[lo, hi]` is in `[lo, hi]`. */
  lemma WindowMeanBounds(s: seq<real>, j: nat, w: nat, lo: real, hi: real)
    requires 1 <= w && j + w <= |s|
    requires forall i :: 0 <= i < |s| ==> lo <= s[i] <= hi
    ensures lo <= WindowMean(s, j, w) <= hi
  {
    var win := s[j .. j + w];
    SumBounds(win, lo, hi);
    var t, wr := Sum(win), w as real;
    assert wr * lo <= t <= wr * hi;
    assert t / wr * wr == t;
  }

  /** Smoothing never leaves the range of its input. */
  lemma SmoothWithinBounds(x: seq<real>, w: nat, lo: real, hi: real)
    requires forall i :: 0 <= i < |x| ==> lo <= x[i] <= hi
    ensures forall j :: 0 <= j < |Smooth(x, w)| ==> lo <= Smooth(x, w)[j] <= hi
  {
    if 3 <= w <= |x| {
      var s := ReflectPad(x, w);
      forall i | 0 <= i < |s| ensures lo <= s[i] <= hi {
        assert s[i] in x;
      }
      forall j | 0 <= j < |x| + w - 1
        ensures lo <= Smooth(x, w)[j] <= hi
      {
        WindowMeanBounds(s, j, w, lo, hi);
      }
    }
  }

  /** A flat histogram stays flat: every output equals the constant. */
  lemma SmoothOfConstant(x: seq<real>, w: nat, c: real)
    requires forall i :: 0 <= i < |x| ==> x[i] == c
    ensures forall j :: 0 <= j < |Smooth(x, w)| ==> Smooth(x, w)[j] == c
  {
    SmoothWithinBounds(x, w, c, c);
  }

  /**
   * With the default window of 3, output `j` is the mean of `x[j-2], x[j-1], x[j]`: it is
   * centred on `x[j-1]`, which is why peak positions found on the smoothed histogram are
   * moved back by one.
   */
  lemma SmoothThreeCentred(x: seq<real>, j: nat)
    requires 3 <= |x| && 2 <= j < |x|
    ensures Smooth(x, 3)[j] == (x[j - 2] + x[j - 1] + x[j]) / 3.0
  {
    var s := ReflectPad(x, 3);
    var win := s[j .. j + 3];
    assert s[2 .. 2 + |x|] == x;
    assert win == [x[j - 2], x[j - 1], x[j]] by {
      assert s[j] == s[2 .. 2 + |x|][j - 2];
      assert s[j + 1] == s[2 .. 2 + |x|][j - 1];
      assert s[j + 2] == s[2 .. 2 + |x|][j];
    }
    assert win[..2][..1] == [x[j - 2]];
    assert Sum(win[..2][..1]) == x[j - 2];
    assert Sum(win[..2]) == x[j - 2] + x[j - 1];
    assert Sum(win) == x[j - 2] + x[j - 1] + x[j];
  }
}
