/** The peak record that every stage of the spectra pipeline passes along. */
module Peaks {

  /**
   * One fitted component of a k-mer spectrum: its position on the frequency axis, its height,
   * whether it is the primary (homozygous) peak, its volume ("elements") and its report label.
   * The Gaussian curve behind it belongs to the Peak model, which is not part of this model.
   */
  datatype Peak = Peak(mean: real, peak: real, primary: bool, elements: real, description: string)

  /** A freshly seeded peak: volume and label are filled in by later stages. */
  function Seed(mean: nat, height: nat, primary: bool): Peak
  {
    Peak(mean as real, height as real, primary, 0.0, "")
  }

  /** Peaks ordered by position, as the genome-size arithmetic needs them. */
  predicate StrictlyAscending(ps: seq<Peak>)
  {
    forall i, j :: 0 <= i < j < |ps| ==> ps[i].mean < ps[j].mean
  }

  function Means(ps: seq<Peak>): (ms: seq<real>)
    ensures |ms| == |ps| && forall i :: 0 <= i < |ps| ==> ms[i] == ps[i].mean
  {
    seq(|ps|, i requires 0 <= i < |ps| => ps[i].mean)
  }

  function Elements(ps: seq<Peak>): (es: seq<real>)
    ensures |es| == |ps| && forall i :: 0 <= i < |ps| ==> es[i] == ps[i].elements
  {
    seq(|ps|, i requires 0 <= i < |ps| => ps[i].elements)
  }

  function Heights(ps: seq<Peak>): (hs: seq<real>)
    ensures |hs| == |ps| && forall i :: 0 <= i < |ps| ==> hs[i] == ps[i].peak
  {
    seq(|ps|, i requires 0 <= i < |ps| => ps[i].peak)
  }
}
