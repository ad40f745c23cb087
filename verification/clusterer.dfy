/** `_determine_n_components` of ml/clustering/clusterer.py: the number of
    mixture components chosen from the sample count, band by band. Python's
    `//` floors; for the positive divisors here that is Dafny's `/`. */
module Clusterer {

  function Max(a: int, b: int): int {
    if a < b then b else a
  }

  function DetermineNComponents(nSamples: int): (k: int)
    ensures k >= 3
  {
    if nSamples < 100 then Max(3, nSamples / 20)
    else if nSamples < 1000 then Max(5, nSamples / 50)
    else if nSamples < 10000 then Max(10, nSamples / 200)
    else Max(20, nSamples / 500)
  }

  /** The range each band produces; from 10000 samples on the floor of 20
      never applies, so the count is exactly `n // 500`. */
  lemma Bands(n: int)
    ensures n < 100 ==> 3 <= DetermineNComponents(n) <= 4
    ensures 100 <= n < 1000 ==> 5 <= DetermineNComponents(n) <= 19
    ensures 1000 <= n < 10000 ==> 10 <= DetermineNComponents(n) <= 49
    ensures 10000 <= n ==> DetermineNComponents(n) == n / 500 && n / 500 >= 20
  {
  }

  /** Band of a sample count: 0 below 100, 1 below 1000, 2 below 10000,
      3 from there on. */
  function Band(n: int): nat {
    if n < 100 then 0 else if n < 1000 then 1 else if n < 10000 then 2 else 3
  }

  /** More samples in the same band never give fewer components. */
  lemma MonotoneWithinBand(n: int, m: int)
    requires n <= m && Band(n) == Band(m)
    ensures DetermineNComponents(n) <= DetermineNComponents(m)
  {
  }

  /** Across band edges the count can drop: 999 samples give 19
      components, 1000 give 10. */
  lemma NotMonotone()
    ensures DetermineNComponents(999) == 19
    ensures DetermineNComponents(1000) == 10
  {
  }
}
