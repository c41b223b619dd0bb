/** itolparser_functions.py, the older functional variant: `create_dicts` builds the
    value-to-colour dictionary of one column and `printitol` renders one colorstrip
    file as the sequence of strings it writes. The `CONTINUOUS > 0` switch of
    `create_dicts` selects between `CreateDictsContinuous` (numeric values) and
    `CreateDictsDiscrete` (text values). */
module Legacy {
  import opened Wrappers
  import opened Text
  import opened Seqs
  import opened Hex
  import opened OrderedDict
  import opened Numbers
  import Brewer
  import Column

  // ---------------------------------------------------------------------
  // create_dicts, continuous branch

  /** Python's `min` of a non-empty list. */
  function SeqMin(s: seq<real>): (m: real)
    requires |s| > 0
    ensures m in s && forall i :: 0 <= i < |s| ==> m <= s[i]
  {
    if |s| == 1 then s[0]
    else
      var rest := SeqMin(s[1..]);
      assert forall i :: 1 <= i < |s| ==> s[i] == s[1..][i - 1];
      if s[0] <= rest then s[0] else rest
  }

  /** Python's `max` of a non-empty list. */
  function SeqMax(s: seq<real>): (m: real)
    requires |s| > 0
    ensures m in s && forall i :: 0 <= i < |s| ==> s[i] <= m
  {
    if |s| == 1 then s[0]
    else
      var rest := SeqMax(s[1..]);
      assert forall i :: 1 <= i < |s| ==> s[i] == s[1..][i - 1];
      if rest <= s[0] then s[0] else rest
  }

  /** The message `min` raises on an empty list. */
  const EmptyMin: string := "min() arg is an empty sequence"

  /** The ramp triple of value `v`: with t its ratio between `lo` and `hi`, the
      truncations of 255 - 255t, 255 - 155t and 150 - 150t. */
  function RampRgb(v: real, lo: real, hi: real): (c: RGB)
    requires hi - lo != 0.0
    ensures v == lo ==> c == RGB(255, 255, 150)
    ensures v == hi ==> c == RGB(0, 100, 0)
  {
    RatioAtEnds(lo, hi);
    var t := Ratio(v, lo, hi);
    RGB(Trunc(255.0 - t * 255.0), Trunc(255.0 - t * 155.0), Trunc(150.0 - t * 150.0))
  }

  /** The colour the ramp between `lo` and `hi` gives a value. */
  function RampColor(lo: real, hi: real): (f: real -> string)
    requires hi - lo != 0.0
    ensures lo < hi ==> f(lo) == "#ffff96" && f(hi) == "#006400"
  {
    RampEndsIf(lo, hi);
    v => RgbToHex(RampRgb(v, lo, hi))
  }

  /** The dictionary of the continuous branch: every value, in order of first
      occurrence, with the colour of its ramp triple. */
  function RampDictOf(vals: seq<real>): (d: Dict<real, string>)
    requires |vals| > 0 && SeqMin(vals) < SeqMax(vals)
    ensures Valid(d) && d.keys == Dedup(vals)
    ensures forall v :: v in d.m <==> v in vals
  {
    DictOf(vals, RampColor(SeqMin(vals), SeqMax(vals)))
  }

  /** `create_dicts` with `CONTINUOUS > 0`: an empty list fails in `min`, a list of
      equal values divides by zero at its first value, any other list is ramped
      value by value. */
  method CreateDictsContinuous(vals: seq<real>) returns (r: Result<Dict<real, string>>)
    ensures |vals| == 0 ==> r == Err(ValueError(EmptyMin))
    ensures |vals| > 0 && SeqMin(vals) == SeqMax(vals) ==> r == Err(ZeroDivisionError)
    ensures |vals| > 0 && SeqMin(vals) < SeqMax(vals) ==> r == Ok(RampDictOf(vals))
  {
    if |vals| == 0 {
      return Err(ValueError(EmptyMin));
    }
    var lo := SeqMin(vals);
    var hi := SeqMax(vals);
    if hi - lo == 0.0 {
      return Err(ZeroDivisionError);
    }
    var d := PutAll(vals, RampColor(lo, hi));
    r := Ok(d);
  }

  /** The smallest value is `#ffff96`, the largest `#006400`. */
  lemma RampEnds(lo: real, hi: real)
    requires lo < hi
    ensures RgbToHex(RampRgb(lo, lo, hi)) == "#ffff96"
    ensures RgbToHex(RampRgb(hi, lo, hi)) == "#006400"
  {
    RatioClosed(lo, lo, hi);
    assert RampRgb(lo, lo, hi) == RGB(255, 255, 150);
    assert RampRgb(hi, lo, hi) == RGB(0, 100, 0);
    assert ToHex(150) == "96" by { assert ToHex(9) == "9"; }
    assert ToHex(255) == "ff" by { assert ToHex(15) == "f"; }
    assert ToHex(100) == "64" by { assert ToHex(6) == "6"; }
  }

  lemma RampEndsIf(lo: real, hi: real)
    ensures lo < hi ==> RgbToHex(RampRgb(lo, lo, hi)) == "#ffff96"
    ensures lo < hi ==> RgbToHex(RampRgb(hi, lo, hi)) == "#006400"
  {
    if lo < hi {
      RampEnds(lo, hi);
    }
  }

  /** A value between the extremes gets channels in 0..255, so a `#rrggbb` colour;
      the red, green and blue channels fall as the value grows. */
  lemma RampChannels(v: real, w: real, lo: real, hi: real)
    requires lo < hi && lo <= v <= hi && lo <= w <= hi
    ensures ValidRGB(RampRgb(v, lo, hi)) && IsHexColor(RgbToHex(RampRgb(v, lo, hi)))
    ensures v <= w ==> RampRgb(w, lo, hi).r <= RampRgb(v, lo, hi).r
    ensures v <= w ==> RampRgb(w, lo, hi).g <= RampRgb(v, lo, hi).g
    ensures v <= w ==> RampRgb(w, lo, hi).b <= RampRgb(v, lo, hi).b
  {
    RatioClosed(v, lo, hi);
    RatioClosed(w, lo, hi);
    RgbToHexShape(RampRgb(v, lo, hi));
    if v <= w {
      RatioMonotone(v, w, lo, hi);
    }
  }

  lemma RatioMonotone(v: real, w: real, lo: real, hi: real)
    requires lo < hi && v <= w
    ensures Ratio(v, lo, hi) <= Ratio(w, lo, hi)
  {
    if v < w {
      var m := hi - lo;
      var q := Ratio(w, lo, hi) - Ratio(v, lo, hi);
      assert q * m == w - v;
      FactorBounds(q, m, w - v);
    }
  }

  /** Every value of a list with distinct extremes gets a `#rrggbb` colour in the
      continuous branch; the minimum gets `#ffff96` and the maximum `#006400`. */
  lemma RampDictColors(vals: seq<real>)
    requires |vals| > 0 && SeqMin(vals) < SeqMax(vals)
    ensures var d := RampDictOf(vals);
      && (forall v :: v in d.m ==> IsHexColor(d.m[v]))
      && d.m[SeqMin(vals)] == "#ffff96" && d.m[SeqMax(vals)] == "#006400"
  {
    var lo, hi := SeqMin(vals), SeqMax(vals);
    var d := RampDictOf(vals);
    forall v | v in d.m ensures IsHexColor(d.m[v]) {
      var i :| 0 <= i < |vals| && vals[i] == v;
      RampChannels(v, v, lo, hi);
    }
    RampEnds(lo, hi);
  }

  // ---------------------------------------------------------------------
  // create_dicts, discrete branches with at most 18 values

  /** The colours the discrete branch with `n` values reads by position: black for one
      value, Set2 of size 3 for two, Paired of size n up to 12 (never read for an empty
      list), Set1 of size 9 then Pastel1 of size n - 9 up to 18. */
  function LegacyPalette(n: nat, cb: Brewer.Tables): (p: Column.Palette)
    requires Brewer.Valid(cb) && n <= 18
    ensures p.Single? <==> n == 1
    ensures n == 1 ==> p.color == Column.Black
    ensures n == 2 ==> p.colors == cb.set2[3]
    ensures 3 <= n <= 12 ==> p.colors == cb.paired[n]
    ensures 13 <= n ==> p.colors == cb.set1[9] + cb.pastel1[n - 9]
    ensures p.Single? ==> ValidRGB(p.color)
    ensures p.Many? ==> AllValid(p.colors) && n <= |p.colors|
  {
    if n == 1 then Column.Single(Column.Black)
    else if n == 2 then Column.Many(cb.set2[3])
    else if n <= 12 then Column.Many(if n == 0 then [] else cb.paired[n])
    else Column.Many(cb.set1[9] + cb.pastel1[n - 9])
  }

  /** The dictionary the discrete branch returns for at most 18 values. */
  function BandDictOf(vals: seq<string>, cb: Brewer.Tables): (d: Dict<string, string>)
    requires Brewer.Valid(cb) && |vals| <= 18
    ensures Valid(d) && d.keys == Dedup(vals)
  {
    Column.ColordictOf(vals, LegacyPalette(|vals|, cb))
  }

  /** A single value is black. */
  lemma BandOneValue(a: string, cb: Brewer.Tables)
    requires Brewer.Valid(cb)
    ensures BandDictOf([a], cb) == Dict([a], map[a := "#000000"])
  {
    Column.FixedColors();
    Column.SingleColordict([a], LegacyPalette(1, cb));
  }

  /** From two to eighteen distinct values, value `i` gets colour `i` of its band's
      scheme, and every colour is a `#rrggbb` string. */
  lemma BandColors(vals: seq<string>, cb: Brewer.Tables)
    requires Brewer.Valid(cb) && Distinct(vals) && 2 <= |vals| <= 18
    ensures var d := BandDictOf(vals, cb);
      var n := |vals|;
      var scheme := if n == 2 then cb.set2[3] else if n <= 12 then cb.paired[n]
                    else cb.set1[9] + cb.pastel1[n - 9];
      && d.keys == vals
      && (forall i :: 0 <= i < n ==> d.m[vals[i]] == RgbToHex(scheme[i]))
      && (forall v :: v in d.m ==> IsHexColor(d.m[v]))
  {
    DedupOfDistinct(vals);
    var p := LegacyPalette(|vals|, cb);
    var d := BandDictOf(vals, cb);
    forall i | 0 <= i < |vals| ensures d.m[vals[i]] == RgbToHex(p.colors[i]) {
      Column.IndexOfDistinct(vals, i);
    }
    forall v | v in d.m ensures IsHexColor(d.m[v]) {
      RgbToHexShape(p.colors[IndexOf(vals, v)]);
    }
  }

  // ---------------------------------------------------------------------
  // create_dicts, more than 18 values: the kept categories

  /** `list.remove(x)` for every `x` of `removeVals` that is still present, in order. */
  function RemoveEach(s: seq<string>, removeVals: seq<string>): (r: seq<string>)
    ensures |r| <= |s|
    ensures multiset(r) <= multiset(s)
    ensures forall x :: x in r ==> x in s
  {
    if |removeVals| == 0 then s else RemoveEach(RemoveFirst(s, removeVals[0]), removeVals[1..])
  }

  /** `list_include`: the first `maxCategories` of the values ranked by count, without
      the first occurrence of each value to remove. */
  function IncludeOf(ranked: seq<string>, maxCategories: int, removeVals: seq<string>): (inc: seq<string>)
    ensures 0 <= maxCategories ==> |inc| <= maxCategories
    ensures forall x :: x in inc ==> x in ranked
  {
    RemoveEach(PrefixSlice(ranked, maxCategories), removeVals)
  }

  /** The `list_include` loop of `create_dicts`. */
  method FilterInclude(ranked: seq<string>, maxCategories: int, removeVals: seq<string>)
    returns (kept: seq<string>)
    ensures kept == IncludeOf(ranked, maxCategories, removeVals)
  {
    kept := PrefixSlice(ranked, maxCategories);
    var k := 0;
    while k < |removeVals|
      invariant 0 <= k <= |removeVals|
      invariant RemoveEach(kept, removeVals[k..]) == IncludeOf(ranked, maxCategories, removeVals)
    {
      var removeval := removeVals[k];
      assert removeVals[k..][1..] == removeVals[k + 1..];
      if removeval in kept {
        kept := RemoveFirst(kept, removeval);
      }
      k := k + 1;
    }
  }

  /** Removal keeps the others in their order. */
  lemma {:induction false} RemoveEachSubseq(s: seq<string>, removeVals: seq<string>)
    ensures IsSubseq(RemoveEach(s, removeVals), s)
  {
    if |removeVals| == 0 {
      SubseqRefl(s);
    } else {
      var s' := RemoveFirst(s, removeVals[0]);
      RemoveEachSubseq(s', removeVals[1..]);
      RemoveFirstSubseq(s, removeVals[0]);
      SubseqTrans(RemoveEach(s', removeVals[1..]), s', s);
    }
  }

  /** From a list without repeats, removal removes every listed value and leaves a
      list without repeats. */
  lemma {:induction false} RemoveEachDistinct(s: seq<string>, removeVals: seq<string>)
    requires Distinct(s)
    ensures Distinct(RemoveEach(s, removeVals))
    ensures forall x :: x in removeVals ==> x !in RemoveEach(s, removeVals)
  {
    if |removeVals| > 0 {
      var x := removeVals[0];
      var s' := RemoveFirst(s, x);
      if x in s {
        RemoveAtDistinct(s, IndexOf(s, x));
      }
      DistinctCount(s, x);
      assert multiset(s')[x] == 0;
      RemoveEachDistinct(s', removeVals[1..]);
      RemoveEachSubseq(s', removeVals[1..]);
      SubseqMembers(RemoveEach(s', removeVals[1..]), s');
      assert forall y :: y in removeVals ==> y == x || y in removeVals[1..];
    }
  }

  lemma {:induction false} DistinctCount(s: seq<string>, x: string)
    requires Distinct(s)
    ensures multiset(s)[x] <= 1
  {
    if |s| > 0 {
      var t := s[1..];
      assert Distinct(t) by {
        forall i, j | 0 <= i < j < |t| ensures t[i] != t[j] {
          assert t[i] == s[i + 1] && t[j] == s[j + 1];
        }
      }
      DistinctCount(t, x);
      assert s == [s[0]] + t;
      if s[0] == x {
        assert forall j :: 0 <= j < |t| ==> t[j] == s[j + 1] != s[0];
        assert multiset(t)[x] == 0;
      }
    }
  }

  /** `list_include` keeps ranked values in their ranked order, has at most
      `maxCategories` entries, and, the ranking of `value_counts` having no repeats,
      holds none of the values to remove. */
  lemma IncludeBounds(ranked: seq<string>, maxCategories: int, removeVals: seq<string>)
    ensures var inc := IncludeOf(ranked, maxCategories, removeVals);
      && IsSubseq(inc, ranked)
      && (0 <= maxCategories ==> |inc| <= maxCategories)
      && (Distinct(ranked) ==> forall x :: x in removeVals ==> x !in inc)
  {
    var pre := PrefixSlice(ranked, maxCategories);
    RemoveEachSubseq(pre, removeVals);
    PrefixSubseq(ranked, |pre|);
    SubseqTrans(IncludeOf(ranked, maxCategories, removeVals), pre, ranked);
    SubseqLength(IncludeOf(ranked, maxCategories, removeVals), pre);
    if Distinct(ranked) {
      assert Distinct(pre);
      RemoveEachDistinct(pre, removeVals);
    }
  }

  lemma {:induction false} PrefixSubseq(s: seq<string>, n: nat)
    requires n <= |s|
    ensures IsSubseq(s[..n], s)
  {
    if n == 0 {
    } else {
      PrefixSubseq(s[1..], n - 1);
      assert s[..n][1..] == s[1..][..n - 1];
    }
  }

  lemma {:induction false} SubseqLength(a: seq<string>, b: seq<string>)
    requires IsSubseq(a, b)
    ensures |a| <= |b|
    decreases |b|
  {
    if |a| > 0 {
      if a[0] == b[0] && IsSubseq(a[1..], b[1..]) {
        SubseqLength(a[1..], b[1..]);
      } else {
        SubseqLength(a, b[1..]);
      }
    }
  }

  // ---------------------------------------------------------------------
  // create_dicts, more than 18 values: random colours and the grey collapse

  /** `n` successive `random.choice(list_random)` results, from draw `base` on. */
  function Draws(rnd: nat -> HexChar, base: nat, n: nat): (s: string)
    ensures |s| == n && forall j :: 0 <= j < n ==> s[j] == rnd(base + j)
  {
    seq(n, j requires 0 <= j < n => rnd(base + j) as char)
  }

  /** The colour built from the six draws starting at `base`. */
  function RandomHex(rnd: nat -> HexChar, base: nat): string {
    "#" + Draws(rnd, base, 6)
  }

  /** The position of the last occurrence of `x`. */
  function LastIndexOf(s: seq<string>, x: string): (i: nat)
    requires x in s
    ensures i < |s| && s[i] == x && forall j :: i < j < |s| ==> s[j] != x
  {
    if s[|s| - 1] == x then |s| - 1
    else
      assert x in s[..|s| - 1] by {
        var k :| 0 <= k < |s| && s[k] == x;
        assert s[..|s| - 1][k] == x;
      }
      LastIndexOf(s[..|s| - 1], x)
  }

  /** The random dictionary: the value at position `p` draws characters `6p .. 6p+5`,
      and a repeated value keeps the colour of its last position. */
  function RandomDictOf(vals: seq<string>, rnd: nat -> HexChar): (d: Dict<string, string>)
    ensures Valid(d) && d.keys == Dedup(vals)
  {
    Dict(Dedup(vals), map v | v in vals :: RandomHex(rnd, 6 * LastIndexOf(vals, v)))
  }

  /** The random-colour loop of `create_dicts`: six draws per value, the entry being
      stored again after every draw. */
  method RandomColors(vals: seq<string>, rnd: nat -> HexChar) returns (d: Dict<string, string>)
    ensures d == RandomDictOf(vals, rnd)
  {
    d := Empty();
    var i := 0;
    while i < |vals|
      invariant 0 <= i <= |vals|
      invariant RandomSoFar(vals[..i], rnd, d)
    {
      var v := vals[i];
      RandomStep(vals[..i], v, rnd, d);
      d := DrawColor(d, v, rnd, 6 * i);
      Column.PrefixStep(vals, i);
      i := i + 1;
    }
    assert vals[..i] == vals;
    RandomComplete(vals, rnd, d);
  }

  /** The inner loop: six draws appended to `#`, the entry for `v` stored after each. */
  method DrawColor(d: Dict<string, string>, v: string, rnd: nat -> HexChar, base: nat)
    returns (d': Dict<string, string>)
    requires Valid(d)
    ensures d' == Put(d, v, RandomHex(rnd, base))
  {
    d' := d;
    var hex := "#";
    for j := 0 to 6
      invariant hex == "#" + Draws(rnd, base, j)
      invariant j == 0 ==> d' == d
      invariant j > 0 ==> d' == Put(d, v, hex)
    {
      assert Draws(rnd, base, j + 1) == Draws(rnd, base, j) + [rnd(base + j)];
      var hex' := hex + [rnd(base + j)];
      if j > 0 {
        PutTwice(d, v, hex, hex');
      }
      hex := hex';
      d' := Put(d', v, hex);
    }
  }

  /** What the random-colour loop has built after the values `done`. */
  ghost predicate RandomSoFar(done: seq<string>, rnd: nat -> HexChar, d: Dict<string, string>) {
    && Valid(d)
    && d.keys == Dedup(done)
    && (forall v :: v in d.m <==> v in done)
    && (forall v :: v in d.m ==> v in done && d.m[v] == RandomHex(rnd, 6 * LastIndexOf(done, v)))
  }

  lemma RandomStep(done: seq<string>, v: string, rnd: nat -> HexChar, d: Dict<string, string>)
    requires RandomSoFar(done, rnd, d)
    ensures RandomSoFar(done + [v], rnd, Put(d, v, RandomHex(rnd, 6 * |done|)))
  {
    DedupPutKeys(done, v, d.keys);
    RandomValues(done, v, rnd, d);
  }

  lemma DedupPutKeys(done: seq<string>, v: string, keys: seq<string>)
    requires keys == Dedup(done)
    ensures Dedup(done + [v]) == if v in keys then keys else keys + [v]
  {
    DedupSnoc(done, v);
  }

  lemma RandomValues(done: seq<string>, v: string, rnd: nat -> HexChar, d: Dict<string, string>)
    requires forall x :: x in d.m <==> x in done
    requires forall x :: x in d.m ==> x in done && d.m[x] == RandomHex(rnd, 6 * LastIndexOf(done, x))
    ensures var m := d.m[v := RandomHex(rnd, 6 * |done|)];
      && (forall x :: x in m <==> x in done + [v])
      && (forall x :: x in m ==> x in done + [v] && m[x] == RandomHex(rnd, 6 * LastIndexOf(done + [v], x)))
  {
    var m := d.m[v := RandomHex(rnd, 6 * |done|)];
    assert forall x :: x in done + [v] <==> x in done || x == v;
    forall x | x in m
      ensures m[x] == RandomHex(rnd, 6 * LastIndexOf(done + [v], x))
    {
      LastIndexSnoc(done, v, x);
    }
  }

  lemma LastIndexSnoc(done: seq<string>, v: string, x: string)
    requires x in done + [v]
    ensures x == v ==> LastIndexOf(done + [v], x) == |done|
    ensures x != v ==> x in done && LastIndexOf(done + [v], x) == LastIndexOf(done, x)
  {
    assert (done + [v])[..|done|] == done;
    if x != v {
      assert x in done by {
        var k :| 0 <= k < |done + [v]| && (done + [v])[k] == x;
        assert k < |done| && done[k] == x;
      }
    }
  }

  lemma RandomComplete(vals: seq<string>, rnd: nat -> HexChar, d: Dict<string, string>)
    requires RandomSoFar(vals, rnd, d)
    ensures d == RandomDictOf(vals, rnd)
  {
    assert d.m == map v | v in vals :: RandomHex(rnd, 6 * LastIndexOf(vals, v));
  }

  /** Every random colour is `#` and six characters of `0-9a-f`. */
  lemma RandomColorsShape(vals: seq<string>, rnd: nat -> HexChar)
    ensures var d := RandomDictOf(vals, rnd);
      forall v :: v in d.m ==> IsHexColor(d.m[v])
  {
    var d := RandomDictOf(vals, rnd);
    forall v | v in d.m ensures IsHexColor(d.m[v]) {
      var h := d.m[v];
      assert forall i :: 1 <= i < 7 ==> h[i] == rnd(6 * LastIndexOf(vals, v) + i - 1);
    }
  }

  /** The colour of the other categories. */
  const Other: string := "#bebebe"

  /** `a_dict_alt`: the same keys in the same order; every value of `vals` not kept
      turns grey. */
  function AltOf(d: Dict<string, string>, vals: seq<string>, kept: seq<string>): (alt: Dict<string, string>)
    requires Valid(d)
    ensures Valid(alt)
    ensures alt.keys == d.keys && forall k :: k in alt.m <==> k in d.m
  {
    Dict(d.keys, map k | k in d.m :: if k in vals && k !in kept then Other else d.m[k])
  }

  /** The copy-and-overwrite loop that builds `a_dict_alt`. */
  method Collapse(d: Dict<string, string>, vals: seq<string>, kept: seq<string>)
    returns (alt: Dict<string, string>)
    requires Valid(d) && forall k :: k in vals ==> k in d.m
    ensures alt == AltOf(d, vals, kept)
  {
    alt := d;
    var i := 0;
    while i < |vals|
      invariant 0 <= i <= |vals|
      invariant CollapsedSoFar(d, vals[..i], kept, alt)
    {
      var k := vals[i];
      Column.PrefixStep(vals, i);
      CollapseStep(d, vals[..i], k, kept, alt);
      if k !in kept {
        alt := Put(alt, k, Other);
      }
      i := i + 1;
    }
    assert vals[..i] == vals;
    CollapseComplete(d, vals, kept, alt);
  }

  /** What the copy-and-overwrite loop has built after the values `done`. */
  ghost predicate CollapsedSoFar(d: Dict<string, string>, done: seq<string>, kept: seq<string>,
                                 alt: Dict<string, string>) {
    && Valid(alt)
    && alt.keys == d.keys
    && (forall k :: k in alt.m <==> k in d.m)
    && (forall k :: k in alt.m ==> alt.m[k] == if k in done && k !in kept then Other else d.m[k])
  }

  lemma CollapseStep(d: Dict<string, string>, done: seq<string>, k: string, kept: seq<string>,
                     alt: Dict<string, string>)
    requires CollapsedSoFar(d, done, kept, alt) && k in d.m
    ensures k in kept ==> CollapsedSoFar(d, done + [k], kept, alt)
    ensures k !in kept ==> CollapsedSoFar(d, done + [k], kept, Put(alt, k, Other))
  {
    assert forall x :: x in done + [k] <==> x in done || x == k;
  }

  lemma CollapseComplete(d: Dict<string, string>, vals: seq<string>, kept: seq<string>,
                         alt: Dict<string, string>)
    requires Valid(d) && CollapsedSoFar(d, vals, kept, alt)
    ensures alt == AltOf(d, vals, kept)
  {
    assert alt.m == map k | k in d.m :: if k in vals && k !in kept then Other else d.m[k];
  }

  /** The grey collapse keeps the keys and their order; kept values keep their colour,
      the others become `#bebebe`; so every colour is still a `#rrggbb` string. */
  lemma AltColors(vals: seq<string>, rnd: nat -> HexChar, kept: seq<string>)
    ensures var d := RandomDictOf(vals, rnd);
      var alt := AltOf(d, vals, kept);
      && alt.keys == d.keys
      && (forall k :: k in alt.m <==> k in vals)
      && (forall k :: k in alt.m && k in kept ==> alt.m[k] == d.m[k])
      && (forall k :: k in alt.m && k !in kept ==> alt.m[k] == Other)
      && (forall k :: k in alt.m ==> IsHexColor(alt.m[k]))
  {
    var d := RandomDictOf(vals, rnd);
    RandomColorsShape(vals, rnd);
    AltEntries(d, vals, kept);
    AltHex(d, vals, kept);
  }

  lemma AltEntries(d: Dict<string, string>, vals: seq<string>, kept: seq<string>)
    requires Valid(d) && forall k :: k in d.m <==> k in vals
    ensures var alt := AltOf(d, vals, kept);
      && alt.keys == d.keys
      && (forall k :: k in alt.m <==> k in vals)
      && (forall k :: k in alt.m && k in kept ==> alt.m[k] == d.m[k])
      && (forall k :: k in alt.m && k !in kept ==> alt.m[k] == Other)
  {
  }

  lemma AltHex(d: Dict<string, string>, vals: seq<string>, kept: seq<string>)
    requires Valid(d) && forall k :: k in d.m ==> IsHexColor(d.m[k])
    ensures var alt := AltOf(d, vals, kept);
      forall k :: k in alt.m ==> IsHexColor(alt.m[k])
  {
    OtherIsHexColor();
  }

  lemma WhiteIsHexColor()
    ensures IsHexColor("#ffffff")
  {
  }

  lemma OtherIsHexColor()
    ensures IsHexColor(Other)
  {
  }

  /** What the discrete branch returns: the dictionary for at most 18 values, the pair
      `(a_dict_alt, list_include)` otherwise. */
  datatype Colouring =
    | Plain(dict: Dict<string, string>)
    | Filtered(alt: Dict<string, string>, kept: seq<string>)

  /** `create_dicts` with `CONTINUOUS <= 0`. The ranking by count is given as
      `ranked`, the random draws as `rnd`. */
  method CreateDictsDiscrete(vals: seq<string>, ranked: seq<string>, maxCategories: int,
                             removeVals: seq<string>, cb: Brewer.Tables, rnd: nat -> HexChar)
    returns (r: Colouring)
    requires Brewer.Valid(cb)
    ensures |vals| <= 18 ==> r == Plain(BandDictOf(vals, cb))
    ensures |vals| > 18 ==> r == Filtered(AltOf(RandomDictOf(vals, rnd), vals, IncludeOf(ranked, maxCategories, removeVals)),
                                          IncludeOf(ranked, maxCategories, removeVals))
  {
    if |vals| <= 18 {
      var d := Column.BuildColordict(vals, LegacyPalette(|vals|, cb));
      r := Plain(d);
    } else {
      var kept := FilterInclude(ranked, maxCategories, removeVals);
      var d := RandomColors(vals, rnd);
      var alt := Collapse(d, vals, kept);
      r := Filtered(alt, kept);
    }
  }

  // ---------------------------------------------------------------------
  // printitol

  /** The file name: the name without path-unsafe characters between the fixed prefix
      and `.txt`, spaces turned into underscores. */
  function FileName(printname: string): (f: string)
    ensures |f| == |FilePrefix| + |Column.PrintName(printname)| + |FileSuffix|
    ensures forall i :: 0 <= i < |f| ==> f[i] != ' '
  {
    ReplaceChar(FilePrefix + Column.PrintName(printname) + FileSuffix, ' ', '_')
  }

  const FilePrefix: string := "DATASET_COLORSTRIP_"
  const FileSuffix: string := ".txt"

  /** Neither fixed part of the file name holds a space or a path-unsafe character. */
  lemma FixedPartsSafe()
    ensures ' ' !in FilePrefix && ' ' !in FileSuffix
    ensures forall i :: 0 <= i < |FilePrefix| ==> FilePrefix[i] !in Column.PathUnsafe
    ensures forall i :: 0 <= i < |FileSuffix| ==> FileSuffix[i] !in Column.PathUnsafe
  {
    forall c | 'A' <= c <= 'Z' || c == '_' || 'a' <= c <= 'z' || c == '.'
      ensures c !in Column.PathUnsafe
    {
    }
  }

  /** The file name is the prefix, the sanitised name with `_` for every space, and
      `.txt`. */
  lemma FileNameShape(printname: string)
    ensures FileName(printname) ==
      "DATASET_COLORSTRIP_" + ReplaceChar(Column.PrintName(printname), ' ', '_') + ".txt"
  {
    var p := Column.PrintName(printname);
    FixedPartsSafe();
    ReplaceConcat(FilePrefix + p, FileSuffix, ' ', '_');
    ReplaceConcat(FilePrefix, p, ' ', '_');
    ReplaceAbsent(FilePrefix, ' ', '_');
    ReplaceAbsent(FileSuffix, ' ', '_');
  }

  lemma {:induction false} ReplaceConcat(x: string, y: string, a: char, b: char)
    ensures ReplaceChar(x + y, a, b) == ReplaceChar(x, a, b) + ReplaceChar(y, a, b)
  {
    if |x| == 0 {
      assert x + y == y;
    } else {
      assert (x + y)[1..] == x[1..] + y;
      ReplaceConcat(x[1..], y, a, b);
    }
  }

  lemma ReplaceAbsent(x: string, a: char, b: char)
    requires a !in x
    ensures ReplaceChar(x, a, b) == x
  {
  }

  /** The file name holds no space and no path-unsafe character. */
  lemma FileNameSafe(printname: string)
    ensures var f := FileName(printname);
      forall i :: 0 <= i < |f| ==> f[i] != ' ' && f[i] !in Column.PathUnsafe
  {
    var p := Column.PrintName(printname);
    var raw := FilePrefix + p + FileSuffix;
    var f := FileName(printname);
    FixedPartsSafe();
    forall i | 0 <= i < |f| ensures raw[i] !in Column.PathUnsafe {
      if i < |FilePrefix| {
        assert raw[i] == FilePrefix[i];
      } else if i >= |FilePrefix| + |p| {
        assert raw[i] == FileSuffix[i - |FilePrefix| - |p|];
      }
    }
  }

  /** `HEXLEGEND`: three random characters, each followed by `f`. */
  function HexLegend(h1: HexChar, h2: HexChar, h3: HexChar): (c: string)
    ensures IsHexColor(c) && c[1] == h1 && c[3] == h2 && c[5] == h3 && c[2] == c[4] == c[6] == 'f'
  {
    "#" + [h1] + "f" + [h2] + "f" + [h3] + "f"
  }

  /** The three legend strings written after `LEGEND_COLORS`, `LEGEND_LABELS` and
      `LEGEND_SHAPES`. */
  datatype Legend = Legend(colors: string, names: string, shapes: string)

  /** `format(x)` of every key. */
  function Names<K>(keys: seq<K>, show: K -> string): (ns: seq<string>)
    ensures |ns| == |keys| && forall i :: 0 <= i < |keys| ==> ns[i] == show(keys[i])
  {
    seq(|keys|, i requires 0 <= i < |keys| => show(keys[i]))
  }

  /** The legend strings: the colours, names and shapes of `subdict` for a discrete
      column; the fixed ramp ends, the first and last names and two shapes for a
      continuous one, which raises `IndexError` on an empty dictionary. */
  function LegendOf<K>(subdict: Dict<K, string>, continuous: int, show: K -> string): (r: Result<Legend>)
    requires Valid(subdict)
    ensures r.Err? <==> continuous != 0 && |subdict.keys| == 0
    ensures r.Err? ==> r.error == IndexError
  {
    var names := Names(subdict.keys, show);
    if continuous == 0 then
      Ok(Legend(Join(Values(subdict), ","), Join(names, ","), Join(Repeat("1", |subdict.keys|), ",")))
    else if |names| == 0 then Err(IndexError)
    else Ok(Legend("#ffff96,#006400", names[0] + "," + names[|names| - 1], "1,1"))
  }

  /** The twelve header writes. */
  function HeaderWrites(printname: string, hexlegend: string, l: Legend, margin: string, stripwidth: string)
    : (ws: seq<string>)
    ensures |ws| == 12
  {
    ["DATASET_COLORSTRIP\r\n",
     "SEPARATOR COMMA\r\n",
     "BORDER_WIDTH,0.5\r\n",
     "COLOR," + hexlegend + "\r\n",
     "DATASET_LABEL," + printname + "\r\n",
     "LEGEND_COLORS," + l.colors + ",#ffffff\r\n",
     "LEGEND_LABELS," + l.names + ",NA\r\n",
     "LEGEND_SHAPES," + l.shapes + ",1\r\n",
     "LEGEND_TITLE," + printname + "\r\n",
     "MARGIN," + margin + "\r\n",
     "STRIP_WIDTH," + stripwidth + "\r\n",
     "DATA\r\n"]
  }

  /** The header starts the file; the label and the title both write the name, the
      colour line writes `HEXLEGEND`, the three legend lines write the legend strings
      between their tag and their closing entry, and every write ends in `\r\n`. */
  lemma HeaderEntries(printname: string, hexlegend: string, l: Legend, margin: string, stripwidth: string)
    ensures var ws := HeaderWrites(printname, hexlegend, l, margin, stripwidth);
      && ws[0] == "DATASET_COLORSTRIP\r\n" && ws[11] == "DATA\r\n"
      && ws[3] == "COLOR," + hexlegend + "\r\n"
      && ws[4] == "DATASET_LABEL," + printname + "\r\n"
      && ws[8] == "LEGEND_TITLE," + printname + "\r\n"
      && ws[5] == "LEGEND_COLORS," + l.colors + ",#ffffff\r\n"
      && ws[6] == "LEGEND_LABELS," + l.names + ",NA\r\n"
      && ws[7] == "LEGEND_SHAPES," + l.shapes + ",1\r\n"
      && forall i :: 0 <= i < 12 ==> EndsInCrLf(ws[i])
  {
    var ws := HeaderWrites(printname, hexlegend, l, margin, stripwidth);
    forall i | 0 <= i < 12 ensures EndsInCrLf(ws[i]) {
      CrLfEnd(ws[i][..|ws[i]| - 2]);
      assert ws[i] == ws[i][..|ws[i]| - 2] + "\r\n";
    }
  }

  /** `s` ends with `\r\n`. */
  predicate EndsInCrLf(s: string) {
    |s| >= 2 && s[|s| - 2..] == "\r\n"
  }

  lemma CrLfEnd(s: string)
    ensures EndsInCrLf(s + "\r\n")
  {
    assert (s + "\r\n")[|s|..] == "\r\n";
  }

  /** The colour of a row: its value's colour, `#ffffff` when the value has none. */
  function RowColor<K(==)>(dict: Dict<K, string>, value: K): (c: string)
    ensures (forall k :: k in dict.m ==> IsHexColor(dict.m[k])) ==> IsHexColor(c)
  {
    WhiteIsHexColor();
    if value in dict.m then dict.m[value] else "#ffffff"
  }

  /** The data line of a row `(id, value)`. */
  function DataLine<K(==)>(row: (string, K), dict: Dict<K, string>, show: K -> string): (line: string)
    ensures |line| >= |row.0| + 2 && line[|line| - 2..] == "\r\n"
    ensures line[..|row.0|] == row.0
  {
    row.0 + "," + RowColor(dict, row.1) + "," + show(row.1) + "\r\n"
  }

  /** One data line per row, in row order. */
  function DataLines<K(==)>(rows: seq<(string, K)>, dict: Dict<K, string>, show: K -> string)
    : (ls: seq<string>)
    ensures |ls| == |rows| && forall i :: 0 <= i < |rows| ==> ls[i] == DataLine(rows[i], dict, show)
  {
    seq(|rows|, i requires 0 <= i < |rows| => DataLine(rows[i], dict, show))
  }

  /** A written colorstrip file: its name and the strings written to it, in order. */
  datatype ColorstripFile = ColorstripFile(filename: string, writes: seq<string>)

  /** `printitol`. The table is given as its `(id, value)` rows, `str` of a key or
      value as `show`, the three `HEXLEGEND` draws as `h1`, `h2`, `h3`. */
  method PrintItol<K(==)>(printname: string, rows: seq<(string, K)>, dict: Dict<K, string>,
                          subdict: Dict<K, string>, margin: string, stripwidth: string,
                          continuous: int, h1: HexChar, h2: HexChar, h3: HexChar, show: K -> string)
    returns (r: Result<ColorstripFile>)
    requires Valid(subdict)
    ensures LegendOf(subdict, continuous, show).Err? ==> r == Err(LegendOf(subdict, continuous, show).error)
    ensures LegendOf(subdict, continuous, show).Ok? ==>
      r == Ok(ColorstripFile(FileName(printname),
                             HeaderWrites(printname, HexLegend(h1, h2, h3), LegendOf(subdict, continuous, show).value,
                                          margin, stripwidth)
                             + DataLines(rows, dict, show)))
  {
    var filename := FileName(printname);
    var hexlegend := HexLegend(h1, h2, h3);
    var legend := LegendStrings(subdict, continuous, show);
    if legend.Err? {
      return Err(legend.error);
    }
    var writes := WriteHeader(printname, hexlegend, legend.value, margin, stripwidth);
    writes := WriteRows(writes, rows, dict, show);
    r := Ok(ColorstripFile(filename, writes));
  }

  /** The legend strings of `printitol`; the continuous branch reads the first and the
      last name. */
  method LegendStrings<K>(subdict: Dict<K, string>, continuous: int, show: K -> string)
    returns (r: Result<Legend>)
    requires Valid(subdict)
    ensures r == LegendOf(subdict, continuous, show)
  {
    var listNames := Names(subdict.keys, show);
    if continuous == 0 {
      var colorstring := Join(Values(subdict), ",");
      var namestring := Join(listNames, ",");
      var shapestring := Join(Repeat("1", |subdict.keys|), ",");
      r := Ok(Legend(colorstring, namestring, shapestring));
    } else {
      var colorstring := "#ffff96,#006400";
      if |listNames| == 0 {
        return Err(IndexError);
      }
      var namestring := listNames[0] + "," + listNames[|listNames| - 1];
      var shapestring := "1,1";
      r := Ok(Legend(colorstring, namestring, shapestring));
    }
  }

  /** The twelve `f.write` calls of the header, in order. */
  method WriteHeader(printname: string, hexlegend: string, legend: Legend, margin: string, stripwidth: string)
    returns (writes: seq<string>)
    ensures writes == HeaderWrites(printname, hexlegend, legend, margin, stripwidth)
  {
    writes := [];
    writes := writes + ["DATASET_COLORSTRIP\r\n"];
    writes := writes + ["SEPARATOR COMMA\r\n"];
    writes := writes + ["BORDER_WIDTH,0.5\r\n"];
    writes := writes + ["COLOR," + hexlegend + "\r\n"];
    writes := writes + ["DATASET_LABEL," + printname + "\r\n"];
    writes := writes + ["LEGEND_COLORS," + legend.colors + ",#ffffff\r\n"];
    writes := writes + ["LEGEND_LABELS," + legend.names + ",NA\r\n"];
    writes := writes + ["LEGEND_SHAPES," + legend.shapes + ",1\r\n"];
    writes := writes + ["LEGEND_TITLE," + printname + "\r\n"];
    writes := writes + ["MARGIN," + margin + "\r\n"];
    writes := writes + ["STRIP_WIDTH," + stripwidth + "\r\n"];
    writes := writes + ["DATA\r\n"];
  }

  /** The row loop: one `id,colour,value` line per row appended to what was written. */
  method WriteRows<K(==)>(header: seq<string>, rows: seq<(string, K)>, dict: Dict<K, string>, show: K -> string)
    returns (writes: seq<string>)
    ensures writes == header + DataLines(rows, dict, show)
  {
    writes := header;
    var i := 0;
    while i < |rows|
      invariant 0 <= i <= |rows|
      invariant writes == header + DataLines(rows[..i], dict, show)
    {
      var id := rows[i].0;
      var tmpHex := if rows[i].1 !in dict.m then "#ffffff" else dict.m[rows[i].1];
      var line := id + "," + tmpHex + "," + show(rows[i].1) + "\r\n";
      assert line == DataLine(rows[i], dict, show);
      DataLinesSnoc(rows, i, dict, show);
      writes := writes + [line];
      i := i + 1;
    }
    assert rows[..i] == rows;
  }

  lemma DataLinesSnoc<K>(rows: seq<(string, K)>, i: nat, dict: Dict<K, string>, show: K -> string)
    requires i < |rows|
    ensures DataLines(rows[..i + 1], dict, show) == DataLines(rows[..i], dict, show) + [DataLine(rows[i], dict, show)]
  {
    assert rows[..i + 1][i] == rows[i];
  }

  /** For a discrete column with at least one key and no comma in any name or colour,
      the legend strings split back into the colours, the names and one shape per key
      of `subdict`, in key order. */
  lemma LegendSplitDiscrete<K>(subdict: Dict<K, string>, show: K -> string)
    requires Valid(subdict) && |subdict.keys| >= 1
    requires forall i :: 0 <= i < |subdict.keys| ==>
      ',' !in show(subdict.keys[i]) && ',' !in subdict.m[subdict.keys[i]]
    ensures LegendOf(subdict, 0, show).Ok?
    ensures var l := LegendOf(subdict, 0, show).value;
      && Split(l.colors, ',') == Values(subdict)
      && Split(l.names, ',') == Names(subdict.keys, show)
      && Split(l.shapes, ',') == Repeat("1", |subdict.keys|)
  {
    SplitJoin(Values(subdict), ',');
    SplitJoin(Names(subdict.keys, show), ',');
    SplitJoin(Repeat("1", |subdict.keys|), ',');
  }

  /** For a continuous column with at least one key and no comma in the first and last
      names, the legend lists the two ramp ends, the first and last names and two
      shapes. */
  lemma LegendSplitContinuous<K>(subdict: Dict<K, string>, continuous: int, show: K -> string)
    requires Valid(subdict) && |subdict.keys| >= 1 && continuous != 0
    requires ',' !in show(subdict.keys[0]) && ',' !in show(subdict.keys[|subdict.keys| - 1])
    ensures LegendOf(subdict, continuous, show).Ok?
    ensures var l := LegendOf(subdict, continuous, show).value;
      && Split(l.colors, ',') == ["#ffff96", "#006400"]
      && Split(l.names, ',') == [show(subdict.keys[0]), show(subdict.keys[|subdict.keys| - 1])]
      && Split(l.shapes, ',') == ["1", "1"]
  {
    var names := Names(subdict.keys, show);
    SplitPair(names[0], names[|names| - 1]);
    RampEndsLiteral();
    SplitPair("#ffff96", "#006400");
    ShapesLiteral();
    SplitPair("1", "1");
  }

  lemma RampEndsLiteral()
    ensures "#ffff96,#006400" == "#ffff96" + "," + "#006400"
  {
  }

  lemma ShapesLiteral()
    ensures "1,1" == "1" + "," + "1"
  {
  }

  /** Two comma-free fields joined by a comma split back into the two. */
  lemma SplitPair(a: string, b: string)
    requires ',' !in a && ',' !in b
    ensures Split(a + "," + b, ',') == [a, b]
  {
    var ends := [a, b];
    assert ends[1..] == [b];
    assert Join(ends, ",") == a + "," + b;
    SplitJoin(ends, ',');
  }

  /** A data line ends in `\r\n` and, with no comma in its fields, splits into the
      id, the colour (the value's colour, `#ffffff` when the value has none) and the
      value. */
  lemma DataLineFields<K>(row: (string, K), dict: Dict<K, string>, show: K -> string)
    requires ',' !in row.0 && ',' !in show(row.1)
    requires row.1 in dict.m ==> ',' !in dict.m[row.1]
    ensures var line := DataLine(row, dict, show);
      && |line| >= 2 && line[|line| - 2..] == "\r\n"
      && Split(line[..|line| - 2], ',') ==
         [row.0, if row.1 in dict.m then dict.m[row.1] else "#ffffff", show(row.1)]
  {
    var line := DataLine(row, dict, show);
    var body := row.0 + "," + RowColor(dict, row.1) + "," + show(row.1);
    assert line == body + "\r\n";
    assert line[..|line| - 2] == body;
    JoinThree(row.0, RowColor(dict, row.1), show(row.1), ",");
    SplitJoin([row.0, RowColor(dict, row.1), show(row.1)], ',');
  }

  lemma JoinThree(a: string, b: string, c: string, sep: string)
    ensures Join([a, b, c], sep) == a + sep + b + sep + c
  {
    assert [a, b, c][1..] == [b, c];
    assert [b, c][1..] == [c];
    assert Join([b, c], sep) == b + sep + c;
    assert a + sep + (b + sep + c) == a + sep + b + sep + c;
  }
}
