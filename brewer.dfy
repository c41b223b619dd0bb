/** The colorbrewer palettes the core reads (`cb.Paired[n]`, `cb.Set1[n]`,
    `cb.Pastel1[n]`, `cb.Set2[n]`). Their colour values belong to a foreign library;
    they enter the model as a value whose shape is known: the scheme of size n has
    n colours, each with channels in 0..255. */
module Brewer {
  import opened Hex

  datatype Tables = Tables(
    paired: map<int, seq<RGB>>,
    set1: map<int, seq<RGB>>,
    pastel1: map<int, seq<RGB>>,
    set2: map<int, seq<RGB>>)

  /** Sizes `lo..hi` of a scheme exist and have as many valid colours as their size. */
  predicate Scheme(s: map<int, seq<RGB>>, lo: int, hi: int) {
    forall n :: lo <= n <= hi ==> n in s && |s[n]| == n && AllValid(s[n])
  }

  /** The sizes colorbrewer provides: Paired 3..12, Set1 3..9, Pastel1 3..9, Set2 3..8. */
  predicate Valid(t: Tables) {
    Scheme(t.paired, 3, 12) && Scheme(t.set1, 3, 9) && Scheme(t.pastel1, 3, 9) && Scheme(t.set2, 3, 8)
  }
}
