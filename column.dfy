/** main.py, `ItolparserColumn` and `ItolparserDiscreteColumn`: the printable column
    name, NA filtering of the unique values, palette choice, the value-to-colour
    dictionary, the legend header and the per-row colour mapping. The column object's
    fields (`margin`, `stripwidth`, `list_removevals`) are passed as parameters. */
module Column {
  import opened Wrappers
  import opened Text
  import opened Seqs
  import opened Hex
  import opened OrderedDict
  import Brewer

  // ---------------------------------------------------------------------
  // printname

  /** The characters `\ / : * ? " < > |` that `printname` removes. */
  const PathUnsafe: string := "\\/:*?\"<>|"

  /** `printname`: the column name without the path-unsafe characters. */
  function PrintName(name: string): (r: string)
    ensures forall i :: 0 <= i < |r| ==> r[i] !in PathUnsafe
    ensures forall c :: c !in PathUnsafe ==> multiset(r)[c] == multiset(name)[c]
  {
    Strip(name, PathUnsafe)
  }

  /** Sanitising a printable name again changes nothing. */
  lemma PrintNameIdempotent(name: string)
    ensures PrintName(PrintName(name)) == PrintName(name)
  {
    StripClean(PrintName(name), PathUnsafe);
  }

  /** The kept characters stay in their order: sanitising works piece by piece. */
  lemma PrintNameConcat(a: string, b: string)
    ensures PrintName(a + b) == PrintName(a) + PrintName(b)
  {
    StripConcat(a, b, PathUnsafe);
  }

  // ---------------------------------------------------------------------
  // remove_na_values

  /** `list_removevals`. */
  const NaTokens: seq<string> := ["none", "absent", "nan", "na", "-"]

  /** The test of `remove_na_values`: the lower-cased text, or the value itself, is
      one of the tokens. */
  predicate IsNa(v: string, removeVals: seq<string>)
    ensures Lower(v) == v ==> (IsNa(v, removeVals) <==> v in removeVals)
  {
    Lower(v) in removeVals || v in removeVals
  }

  /** What the `for` loop of `remove_na_values` does from iterator position `i` on:
      the iterator reads `l[i]` and moves to `i + 1`; an NA value is removed with
      `list.remove`, which takes out its first occurrence, so the element that
      moves into position `i` is never read. */
  function Sweep(l: seq<string>, i: nat, removeVals: seq<string>): (r: seq<string>)
    ensures |r| <= |l|
    ensures multiset(r) <= multiset(l)
    decreases |l| - i
  {
    if i >= |l| then l
    else if IsNa(l[i], removeVals) then Sweep(RemoveFirst(l, l[i]), i + 1, removeVals)
    else Sweep(l, i + 1, removeVals)
  }

  /** `remove_na_values`: the list is changed while the loop walks over it. */
  method RemoveNaValues(values: seq<string>, removeVals: seq<string>) returns (r: seq<string>)
    ensures r == Sweep(values, 0, removeVals)
  {
    r := values;
    var i := 0;
    while i < |r|
      invariant Sweep(r, i, removeVals) == Sweep(values, 0, removeVals)
      decreases |r| - i
    {
      var v := r[i];
      i := i + 1;
      if Lower(v) in removeVals {
        r := RemoveFirst(r, v);
      } else if v in removeVals {
        r := RemoveFirst(r, v);
      }
    }
  }

  /** On a list without repeats (the unique values), the loop removes an NA value and
      skips the element after it, which survives unexamined. */
  function SkipFilter(s: seq<string>, removeVals: seq<string>): (r: seq<string>)
    ensures |r| <= |s|
    ensures forall x :: x in r ==> x in s
  {
    if |s| == 0 then []
    else if IsNa(s[0], removeVals) then
      (if |s| == 1 then [] else [s[1]] + SkipFilter(s[2..], removeVals))
    else [s[0]] + SkipFilter(s[1..], removeVals)
  }

  /** The survivors keep their relative order. */
  lemma {:induction false} SweepSubseq(l: seq<string>, i: nat, removeVals: seq<string>)
    ensures IsSubseq(Sweep(l, i, removeVals), l)
    decreases |l| - i
  {
    if i >= |l| {
      SubseqRefl(l);
    } else if IsNa(l[i], removeVals) {
      var l' := RemoveFirst(l, l[i]);
      SweepSubseq(l', i + 1, removeVals);
      RemoveFirstSubseq(l, l[i]);
      SubseqTrans(Sweep(l', i + 1, removeVals), l', l);
    } else {
      SweepSubseq(l, i + 1, removeVals);
    }
  }

  /** Only NA values are ever removed, and nothing is added. */
  lemma {:induction false} SweepRemovesOnlyNa(l: seq<string>, i: nat, removeVals: seq<string>)
    ensures forall x :: multiset(Sweep(l, i, removeVals))[x] <= multiset(l)[x]
    ensures forall x :: multiset(Sweep(l, i, removeVals))[x] < multiset(l)[x] ==> IsNa(x, removeVals)
    decreases |l| - i
  {
    if i >= |l| {
    } else if IsNa(l[i], removeVals) {
      var l' := RemoveFirst(l, l[i]);
      SweepRemovesOnlyNa(l', i + 1, removeVals);
      assert multiset(l') == multiset(l) - multiset{l[i]};
    } else {
      SweepRemovesOnlyNa(l, i + 1, removeVals);
    }
  }

  /** For a list without repeats, the loop from position `i` keeps `l[..i]` and
      skip-filters the rest. */
  lemma {:induction false} SweepDistinct(l: seq<string>, i: nat, removeVals: seq<string>)
    requires Distinct(l) && i <= |l|
    ensures Sweep(l, i, removeVals) == l[..i] + SkipFilter(l[i..], removeVals)
    decreases |l| - i
  {
    if i == |l| {
      assert l[..i] == l;
    } else if IsNa(l[i], removeVals) {
      SweepDistinctNa(l, i, removeVals);
    } else {
      SweepDistinct(l, i + 1, removeVals);
      SkipKeep(l, i, removeVals);
    }
  }

  /** The sequence facts behind one step past a kept value. */
  lemma SkipKeep(l: seq<string>, i: nat, removeVals: seq<string>)
    requires i < |l| && !IsNa(l[i], removeVals)
    ensures l[..i + 1] + SkipFilter(l[i + 1..], removeVals) == l[..i] + SkipFilter(l[i..], removeVals)
  {
    var t := l[i..];
    assert t[1..] == l[i + 1..];
    assert SkipFilter(t, removeVals) == [l[i]] + SkipFilter(l[i + 1..], removeVals);
    assert l[..i + 1] == l[..i] + [l[i]];
  }

  lemma {:induction false} SweepDistinctNa(l: seq<string>, i: nat, removeVals: seq<string>)
    requires Distinct(l) && i < |l| && IsNa(l[i], removeVals)
    ensures Sweep(l, i, removeVals) == l[..i] + SkipFilter(l[i..], removeVals)
    decreases |l| - i, 0
  {
    IndexOfDistinct(l, i);
    var l' := RemoveFirst(l, l[i]);
    assert l' == l[..i] + l[i + 1..];
    assert Sweep(l, i, removeVals) == Sweep(l', i + 1, removeVals);
    if i + 1 == |l| {
      assert l' == l[..i];
      assert l[i..] == [l[i]];
    } else {
      RemoveAtDistinct(l, i);
      SweepDistinct(l', i + 1, removeVals);
      SkipAfterRemoval(l, i, removeVals);
    }
  }

  /** The sequence facts behind one removal step, kept apart from `Distinct`. */
  lemma SkipAfterRemoval(l: seq<string>, i: nat, removeVals: seq<string>)
    requires i + 1 < |l| && IsNa(l[i], removeVals)
    ensures var l' := l[..i] + l[i + 1..];
      l'[..i + 1] + SkipFilter(l'[i + 1..], removeVals) == l[..i] + SkipFilter(l[i..], removeVals)
  {
    var l' := l[..i] + l[i + 1..];
    var t := l[i..];
    assert l'[..i + 1] == l[..i] + [l[i + 1]];
    assert l'[i + 1..] == l[i + 2..];
    assert t[2..] == l[i + 2..] && t[1] == l[i + 1] && t[0] == l[i];
    assert SkipFilter(t, removeVals) == [l[i + 1]] + SkipFilter(l[i + 2..], removeVals);
  }

  lemma IndexOfDistinct(l: seq<string>, i: nat)
    requires Distinct(l) && i < |l|
    ensures IndexOf(l, l[i]) == i
  {
  }

  /** `remove_na_values` on the unique values of a column is the skip filter. */
  lemma RemoveNaOfUnique(l: seq<string>, removeVals: seq<string>)
    requires Distinct(l)
    ensures Sweep(l, 0, removeVals) == SkipFilter(l, removeVals)
  {
    SweepDistinct(l, 0, removeVals);
    assert l[0..] == l;
  }

  /** Every NA value is removed when no two NA values are adjacent. */
  lemma {:induction false} SkipFilterComplete(s: seq<string>, removeVals: seq<string>)
    requires forall k :: 0 <= k < |s| - 1 ==> !(IsNa(s[k], removeVals) && IsNa(s[k + 1], removeVals))
    ensures forall j :: 0 <= j < |SkipFilter(s, removeVals)| ==> !IsNa(SkipFilter(s, removeVals)[j], removeVals)
  {
    if |s| >= 2 && IsNa(s[0], removeVals) {
      SkipFilterComplete(s[2..], removeVals);
      assert !IsNa(s[1], removeVals);
    } else if |s| >= 1 && !IsNa(s[0], removeVals) {
      SkipFilterComplete(s[1..], removeVals);
    }
  }

  /** A list without NA values passes through unchanged. */
  lemma {:induction false} SweepNoNa(l: seq<string>, i: nat, removeVals: seq<string>)
    requires forall k :: 0 <= k < |l| ==> !IsNa(l[k], removeVals)
    ensures Sweep(l, i, removeVals) == l
    decreases |l| - i
  {
    if i < |l| {
      SweepNoNa(l, i + 1, removeVals);
    }
  }

  /** Two adjacent NA tokens leave the second in place, so filtering twice differs
      from filtering once, also on unique values as `unique()` gives them. */
  lemma RemoveNaNotIdempotent()
    ensures Distinct(["na", "NA"])
    ensures Sweep(["na", "NA"], 0, NaTokens) == ["NA"]
    ensures Sweep(["NA"], 0, NaTokens) == []
  {
    SweepNaThenNA();
    SweepNA();
  }

  lemma SweepNaThenNA()
    ensures Sweep(["na", "NA"], 0, NaTokens) == ["NA"]
  {
    var l := ["na", "NA"];
    NaIsNa();
    SweepRemoveStep(l, 0, NaTokens);
    assert RemoveFirst(l, l[0]) == ["NA"];
    SweepEnd(["NA"], 1, NaTokens);
  }

  lemma SweepNA()
    ensures Sweep(["NA"], 0, NaTokens) == []
  {
    var l := ["NA"];
    UpperNaIsNa();
    SweepRemoveStep(l, 0, NaTokens);
    assert RemoveFirst(l, l[0]) == [];
    SweepEnd([], 1, NaTokens);
  }

  /** One step of the loop on an NA value: it is removed, the iterator moves on. */
  lemma SweepRemoveStep(l: seq<string>, i: nat, removeVals: seq<string>)
    requires i < |l| && IsNa(l[i], removeVals)
    ensures Sweep(l, i, removeVals) == Sweep(RemoveFirst(l, l[i]), i + 1, removeVals)
  {
  }

  lemma SweepEnd(l: seq<string>, i: nat, removeVals: seq<string>)
    requires |l| <= i
    ensures Sweep(l, i, removeVals) == l
  {
  }

  lemma UpperNaIsNa()
    ensures IsNa("NA", NaTokens)
  {
    LowerTokens();
    assert NaTokens[3] == "na";
  }

  lemma NaIsNa()
    ensures IsNa("na", NaTokens)
  {
    assert NaTokens[3] == "na";
  }

  /** Case does not matter: `"NA"`, `"None"` and `"NaN"` are all filtered. */
  lemma NaTokensIgnoreCase()
    ensures IsNa("NA", NaTokens) && IsNa("None", NaTokens) && IsNa("NaN", NaTokens)
    ensures !IsNa("red", NaTokens)
  {
    LowerTokens();
    assert NaTokens[0] == "none" && NaTokens[2] == "nan" && NaTokens[3] == "na";
    RedIsNotNa();
  }

  lemma LowerTokens()
    ensures Lower("NA") == "na" && Lower("None") == "none" && Lower("NaN") == "nan"
  {
    assert Lower("NA") == "na";
    assert Lower("None") == "none";
    assert Lower("NaN") == "nan";
  }

  lemma RedIsNotNa()
    ensures !IsNa("red", NaTokens)
  {
    assert Lower("red") == "red";
    assert forall t :: t in NaTokens ==> t[0] != 'r';
  }

  // ---------------------------------------------------------------------
  // select_color_palette and build_colordict

  /** A palette: `select_color_palette` returns a bare triple for one value. */
  datatype Palette = Single(color: RGB) | Many(colors: seq<RGB>)

  const Black: RGB := RGB(0, 0, 0)
  const Gray: RGB := RGB(189, 189, 189)
  const Red: RGB := RGB(240, 59, 32)

  /** `n` triples made of the successive `random.randint(0, 255)` results:
      draw `3j`, `3j+1`, `3j+2` make triple `j`. */
  function RandomPalette(n: nat, rnd: nat -> Byte): (cs: seq<RGB>)
    ensures |cs| == n && AllValid(cs)
  {
    seq(n, j requires 0 <= j => RGB(rnd(3 * j), rnd(3 * j + 1), rnd(3 * j + 2)))
  }

  /** `select_color_palette` for `n` unique values. */
  function SelectColorPalette(n: nat, cb: Brewer.Tables, rnd: nat -> Byte): (p: Palette)
    requires Brewer.Valid(cb)
    ensures p.Single? <==> n == 1
    ensures n == 1 ==> p.color == Black
    ensures n != 1 && n <= 2 ==> p.colors == [Gray, Red]
    ensures 3 <= n <= 12 ==> p.colors == cb.paired[n]
    ensures 13 <= n <= 18 ==> p.colors == cb.set1[9] + cb.pastel1[n - 9]
    ensures 18 < n ==> p.colors == RandomPalette(n, rnd)
    ensures p.Many? ==> AllValid(p.colors) && |p.colors| == (if n == 0 then 2 else n)
  {
    if n == 1 then Single(Black)
    else if n <= 2 then Many([Gray, Red])
    else if n <= 12 then Many(cb.paired[n])
    else if n <= 18 then Many(cb.set1[9] + cb.pastel1[n - 9])
    else Many(RandomPalette(n, rnd))
  }

  /** The palette is usable by `build_colordict` for these values: a bare triple for one
      value, otherwise at least one colour per position. */
  predicate PaletteFits(values: seq<string>, p: Palette) {
    (|values| == 1 ==> p.Single?) && (|values| != 1 ==> p.Many? && |values| <= |p.colors|)
  }

  /** The colour `build_colordict` gives to `v`: the palette entry at `values.index(v)`. */
  function ColorOf(values: seq<string>, p: Palette, v: string): (c: string)
    requires PaletteFits(values, p) && v in values
    ensures |c| >= 7 && c[0] == '#'
  {
    if |values| == 1 then RgbToHex(p.color) else RgbToHex(p.colors[IndexOf(values, v)])
  }

  /** The dictionary `build_colordict` returns: keys are the values in order of first
      occurrence, each with the colour at its first position. */
  function ColordictOf(values: seq<string>, p: Palette): (d: Dict<string, string>)
    requires PaletteFits(values, p)
    ensures Valid(d) && d.keys == Dedup(values)
    ensures forall v :: v in d.m <==> v in values
    ensures forall v :: v in d.m ==> d.m[v] == ColorOf(values, p, v)
  {
    DictOf(values, ColorFn(values, p))
  }

  /** `build_colordict`. */
  method BuildColordict(values: seq<string>, p: Palette) returns (d: Dict<string, string>)
    requires PaletteFits(values, p)
    ensures d == ColordictOf(values, p)
  {
    d := Empty();
    if |values| == 1 {
      d := Put(d, values[0], RgbToHex(p.color));
      SingleColordict(values, p);
    } else {
      var i := 0;
      while i < |values|
        invariant 0 <= i <= |values|
        invariant PutSoFar(values, values[..i], ColorFn(values, p), d)
      {
        var v := values[i];
        var index := IndexOf(values, v);
        var hex := RgbToHex(p.colors[index]);
        assert hex == ColorFn(values, p)(v);
        PutStep(values, values[..i], v, ColorFn(values, p), d);
        PrefixStep(values, i);
        d := Put(d, v, hex);
        i := i + 1;
      }
      assert values[..i] == values;
      PutComplete(values, ColorFn(values, p), d);
    }
  }

  /** `ColorOf` as a function value. */
  function ColorFn(values: seq<string>, p: Palette): string --> string
    requires PaletteFits(values, p)
  {
    v requires v in values => ColorOf(values, p, v)
  }

  lemma PrefixStep(values: seq<string>, i: nat)
    requires i < |values|
    ensures values[..i + 1] == values[..i] + [values[i]]
    ensures forall x :: x in values[..i + 1] <==> x in values[..i] || x == values[i]
  {
    assert values[..i + 1] == values[..i] + [values[i]];
  }

  lemma SingleColordict(values: seq<string>, p: Palette)
    requires PaletteFits(values, p) && |values| == 1
    ensures ColordictOf(values, p) == Put(Empty(), values[0], RgbToHex(p.color))
  {
    DedupOfDistinct(values);
    assert forall v :: v in values <==> v == values[0];
    assert (map v | v in values :: ColorOf(values, p, v)) == map[values[0] := RgbToHex(p.color)];
  }

  /** The palette `select_color_palette` picks fits its own values, and the values of a
      column without repeats come out as exactly the dictionary's keys, in order, each
      with a valid `#rrggbb` colour. */
  lemma DiscreteColordict(values: seq<string>, cb: Brewer.Tables, rnd: nat -> Byte)
    requires Brewer.Valid(cb) && Distinct(values)
    ensures PaletteFits(values, SelectColorPalette(|values|, cb, rnd))
    ensures var d := ColordictOf(values, SelectColorPalette(|values|, cb, rnd));
      d.keys == values && forall v :: v in d.m ==> IsHexColor(d.m[v])
  {
    var p := SelectColorPalette(|values|, cb, rnd);
    DedupOfDistinct(values);
    var d := ColordictOf(values, p);
    forall v | v in d.m ensures IsHexColor(d.m[v]) {
      if |values| == 1 {
        RgbToHexShape(p.color);
      } else {
        RgbToHexShape(p.colors[IndexOf(values, v)]);
      }
    }
  }

  /** The fixed colours of the one- and two-value palettes. */
  lemma FixedColors()
    ensures RgbToHex(Black) == "#000000"
    ensures RgbToHex(Gray) == "#bdbdbd"
    ensures RgbToHex(Red) == "#f03b20"
  {
    assert ToHex(189) == "bd" by { assert ToHex(11) == "b"; }
    assert ToHex(240) == "f0" by { assert ToHex(15) == "f"; }
    assert ToHex(59) == "3b" by { assert ToHex(3) == "3"; }
    assert ToHex(32) == "20" by { assert ToHex(2) == "2"; }
  }

  /** One value gets black. */
  lemma OneValueColordict(a: string, cb: Brewer.Tables, rnd: nat -> Byte)
    requires Brewer.Valid(cb)
    ensures ColordictOf([a], SelectColorPalette(1, cb, rnd)) == Dict([a], map[a := "#000000"])
  {
    FixedColors();
    SingleColordict([a], SelectColorPalette(1, cb, rnd));
  }

  /** Two values get `#bdbdbd` and `#f03b20`, in order. */
  lemma TwoValueColordict(a: string, b: string, cb: Brewer.Tables, rnd: nat -> Byte)
    requires Brewer.Valid(cb) && a != b
    ensures ColordictOf([a, b], SelectColorPalette(2, cb, rnd)) ==
            Dict([a, b], map[a := "#bdbdbd", b := "#f03b20"])
  {
    var p := SelectColorPalette(2, cb, rnd);
    assert p == Many([Gray, Red]);
    TwoColordict(a, b, Gray, Red);
    FixedColors();
  }

  /** Two distinct values take the first and the second colour of a two-colour palette. */
  lemma TwoColordict(a: string, b: string, c0: RGB, c1: RGB)
    requires a != b
    ensures ColordictOf([a, b], Many([c0, c1])) == Dict([a, b], map[a := RgbToHex(c0), b := RgbToHex(c1)])
  {
    var d := ColordictOf([a, b], Many([c0, c1]));
    DedupOfDistinct([a, b]);
    TwoColorOf(a, b, c0, c1);
    assert d.m == map[a := RgbToHex(c0), b := RgbToHex(c1)];
  }

  lemma TwoColorOf(a: string, b: string, c0: RGB, c1: RGB)
    requires a != b
    ensures ColorOf([a, b], Many([c0, c1]), a) == RgbToHex(c0)
    ensures ColorOf([a, b], Many([c0, c1]), b) == RgbToHex(c1)
  {
    assert IndexOf([a, b], a) == 0;
    assert IndexOf([a, b], b) == 1;
  }

  // ---------------------------------------------------------------------
  // make_legend_text

  /** A legend entry line: the tag, the entries and one closing entry, comma-separated. */
  function EntryLine(tag: string, entries: seq<string>, last: string): string {
    tag + "," + Join(entries, ",") + "," + last
  }

  /** The twelve lines of the legend header, in order. */
  function LegendLines(printname: string, d: Dict<string, string>, margin: int, stripwidth: int): (ls: seq<string>)
    requires Valid(d)
    ensures |ls| == 12
  {
    ["DATASET_COLORSTRIP"]
    + ["SEPARATOR COMMA"]
    + ["BORDER_WIDTH,0.5"]
    + ["COLOR,#000000"]
    + ["DATASET_LABEL," + printname]
    + [EntryLine("LEGEND_COLORS", Values(d), "#ffffff")]
    + [EntryLine("LEGEND_LABELS", d.keys, "NA")]
    + [EntryLine("LEGEND_SHAPES", Repeat("1", |d.keys|), "1")]
    + ["LEGEND_TITLE," + printname]
    + ["MARGIN," + IntToDecimal(margin)]
    + ["STRIP_WIDTH," + IntToDecimal(stripwidth)]
    + ["DATA\n"]
  }

  /** `make_legend_text`: the lines are appended one by one and joined with newlines. */
  method MakeLegendText(printname: string, d: Dict<string, string>, margin: int, stripwidth: int)
    returns (text: string)
    requires Valid(d)
    ensures text == Join(LegendLines(printname, d, margin, stripwidth), "\n")
  {
    var lines: seq<string> := [];
    lines := lines + ["DATASET_COLORSTRIP"];
    lines := lines + ["SEPARATOR COMMA"];
    lines := lines + ["BORDER_WIDTH,0.5"];
    lines := lines + ["COLOR,#000000"];
    lines := lines + ["DATASET_LABEL," + printname];
    lines := lines + [EntryLine("LEGEND_COLORS", Values(d), "#ffffff")];
    lines := lines + [EntryLine("LEGEND_LABELS", d.keys, "NA")];
    lines := lines + [EntryLine("LEGEND_SHAPES", Repeat("1", |d.keys|), "1")];
    lines := lines + ["LEGEND_TITLE," + printname];
    lines := lines + ["MARGIN," + IntToDecimal(margin)];
    lines := lines + ["STRIP_WIDTH," + IntToDecimal(stripwidth)];
    lines := lines + ["DATA\n"];
    LegendLinesAppended(printname, d, margin, stripwidth);
    text := Join(lines, "\n");
  }

  lemma LegendLinesAppended(printname: string, d: Dict<string, string>, margin: int, stripwidth: int)
    requires Valid(d)
    ensures [] + ["DATASET_COLORSTRIP"]
    + ["SEPARATOR COMMA"]
    + ["BORDER_WIDTH,0.5"]
    + ["COLOR,#000000"]
    + ["DATASET_LABEL," + printname]
    + [EntryLine("LEGEND_COLORS", Values(d), "#ffffff")]
    + [EntryLine("LEGEND_LABELS", d.keys, "NA")]
    + [EntryLine("LEGEND_SHAPES", Repeat("1", |d.keys|), "1")]
    + ["LEGEND_TITLE," + printname]
    + ["MARGIN," + IntToDecimal(margin)]
    + ["STRIP_WIDTH," + IntToDecimal(stripwidth)]
    + ["DATA\n"] == LegendLines(printname, d, margin, stripwidth)
  {
    assert [] + ["DATASET_COLORSTRIP"] == ["DATASET_COLORSTRIP"];
  }

  /** No character of `s` is a newline. */
  predicate OneLine(s: string) {
    '\n' !in s
  }

  /** With no newline in the name or the dictionary, the header text splits back into
      its eleven lines, then `DATA`, then the empty rest after the final newline. */
  lemma LegendTextLines(printname: string, d: Dict<string, string>, margin: int, stripwidth: int)
    requires Valid(d) && OneLine(printname)
    requires forall i :: 0 <= i < |d.keys| ==> OneLine(d.keys[i]) && OneLine(d.m[d.keys[i]])
    ensures var ls := LegendLines(printname, d, margin, stripwidth);
      Split(Join(ls, "\n"), '\n') == ls[..11] + ["DATA", ""]
  {
    var ls := LegendLines(printname, d, margin, stripwidth);
    LegendLinesOneLine(printname, d, margin, stripwidth);
    assert ls[11] == "DATA" + "\n";
    assert ls == ls[..11] + [ls[11]];
    JoinTrailingNewline(ls[..11], "DATA");
    var parts := ls[..11] + ["DATA", ""];
    assert forall i :: 0 <= i < |parts| ==> '\n' !in parts[i] by {
      forall i | 0 <= i < |parts| ensures '\n' !in parts[i] {
        if i < 11 {
          assert parts[i] == ls[..11][i];
        }
      }
    }
    SplitJoin(parts, '\n');
  }

  /** Joining lines whose last one ends in a newline is joining them with an empty
      line after it. */
  lemma JoinTrailingNewline(init: seq<string>, last: string)
    requires |init| >= 1
    ensures Join(init + [last + "\n"], "\n") == Join(init + [last, ""], "\n")
  {
    JoinAppend(init, [last + "\n"], "\n");
    JoinAppend(init, [last, ""], "\n");
    assert Join([last, ""], "\n") == last + "\n" + Join([""], "\n");
  }

  /** The first eleven legend lines hold no newline. */
  lemma LegendLinesOneLine(printname: string, d: Dict<string, string>, margin: int, stripwidth: int)
    requires Valid(d) && OneLine(printname)
    requires forall i :: 0 <= i < |d.keys| ==> OneLine(d.keys[i]) && OneLine(d.m[d.keys[i]])
    ensures var ls := LegendLines(printname, d, margin, stripwidth);
      forall i :: 0 <= i < 11 ==> '\n' !in ls[i]
  {
    var ls := LegendLines(printname, d, margin, stripwidth);
    LegendLinesDisplay(printname, d, margin, stripwidth);
    EntryLinesOneLine(d);
    LiteralLines(printname, margin, stripwidth);
    ElevenFree(ls, '\n');
  }

  lemma ElevenFree(ls: seq<string>, c: char)
    requires |ls| == 12
    requires c !in ls[0] && c !in ls[1] && c !in ls[2] && c !in ls[3] && c !in ls[4]
    requires c !in ls[5] && c !in ls[6] && c !in ls[7] && c !in ls[8] && c !in ls[9]
    requires c !in ls[10]
    ensures forall i :: 0 <= i < 11 ==> c !in ls[i]
  {
  }

  /** The twelve lines as one display. */
  lemma LegendLinesDisplay(printname: string, d: Dict<string, string>, margin: int, stripwidth: int)
    requires Valid(d)
    ensures LegendLines(printname, d, margin, stripwidth) ==
      ["DATASET_COLORSTRIP", "SEPARATOR COMMA", "BORDER_WIDTH,0.5", "COLOR,#000000",
       "DATASET_LABEL," + printname,
       EntryLine("LEGEND_COLORS", Values(d), "#ffffff"),
       EntryLine("LEGEND_LABELS", d.keys, "NA"),
       EntryLine("LEGEND_SHAPES", Repeat("1", |d.keys|), "1"),
       "LEGEND_TITLE," + printname,
       "MARGIN," + IntToDecimal(margin),
       "STRIP_WIDTH," + IntToDecimal(stripwidth),
       "DATA\n"]
  {
    Twelve("DATASET_COLORSTRIP", "SEPARATOR COMMA", "BORDER_WIDTH,0.5", "COLOR,#000000",
           "DATASET_LABEL," + printname,
           EntryLine("LEGEND_COLORS", Values(d), "#ffffff"),
           EntryLine("LEGEND_LABELS", d.keys, "NA"),
           EntryLine("LEGEND_SHAPES", Repeat("1", |d.keys|), "1"),
           "LEGEND_TITLE," + printname,
           "MARGIN," + IntToDecimal(margin),
           "STRIP_WIDTH," + IntToDecimal(stripwidth),
           "DATA\n");
  }

  lemma Twelve<T>(a0: T, a1: T, a2: T, a3: T, a4: T, a5: T, a6: T, a7: T, a8: T, a9: T, a10: T, a11: T)
    ensures [a0] + [a1] + [a2] + [a3] + [a4] + [a5] + [a6] + [a7] + [a8] + [a9] + [a10] + [a11]
      == [a0, a1, a2, a3, a4, a5, a6, a7, a8, a9, a10, a11]
  {
  }

  lemma EntryLinesOneLine(d: Dict<string, string>)
    requires Valid(d)
    requires forall i :: 0 <= i < |d.keys| ==> OneLine(d.keys[i]) && OneLine(d.m[d.keys[i]])
    ensures '\n' !in EntryLine("LEGEND_COLORS", Values(d), "#ffffff")
    ensures '\n' !in EntryLine("LEGEND_LABELS", d.keys, "NA")
    ensures '\n' !in EntryLine("LEGEND_SHAPES", Repeat("1", |d.keys|), "1")
  {
    var vs := Values(d);
    assert forall i :: 0 <= i < |vs| ==> '\n' !in vs[i];
    EntryLineNoChar("LEGEND_COLORS", vs, "#ffffff", '\n');
    EntryLineNoChar("LEGEND_LABELS", d.keys, "NA", '\n');
    EntryLineNoChar("LEGEND_SHAPES", Repeat("1", |d.keys|), "1", '\n');
  }

  lemma LiteralLines(printname: string, margin: int, stripwidth: int)
    requires OneLine(printname)
    ensures '\n' !in "DATASET_COLORSTRIP" && '\n' !in "SEPARATOR COMMA"
    ensures '\n' !in "BORDER_WIDTH,0.5" && '\n' !in "COLOR,#000000"
    ensures '\n' !in "DATASET_LABEL," + printname && '\n' !in "LEGEND_TITLE," + printname
    ensures '\n' !in "MARGIN," + IntToDecimal(margin)
    ensures '\n' !in "STRIP_WIDTH," + IntToDecimal(stripwidth)
  {
    FixedLines();
    NamedLines(printname);
    NumberLines(margin, stripwidth);
  }

  lemma FixedLines()
    ensures '\n' !in "DATASET_COLORSTRIP" && '\n' !in "SEPARATOR COMMA"
    ensures '\n' !in "BORDER_WIDTH,0.5" && '\n' !in "COLOR,#000000"
  {
  }

  lemma NamedLines(printname: string)
    requires OneLine(printname)
    ensures '\n' !in "DATASET_LABEL," + printname && '\n' !in "LEGEND_TITLE," + printname
  {
  }

  lemma NumberLines(margin: int, stripwidth: int)
    ensures '\n' !in "MARGIN," + IntToDecimal(margin)
    ensures '\n' !in "STRIP_WIDTH," + IntToDecimal(stripwidth)
  {
  }

  lemma EntryLineNoChar(tag: string, entries: seq<string>, last: string, c: char)
    requires c != ',' && c !in tag && c !in last
    requires forall i :: 0 <= i < |entries| ==> c !in entries[i]
    ensures c !in EntryLine(tag, entries, last)
  {
    JoinNoChar(entries, ",", c);
  }

  /** A comma-free join stays comma-free in every entry. */
  lemma {:induction false} JoinNoChar(parts: seq<string>, sep: string, c: char)
    requires c !in sep
    requires forall i :: 0 <= i < |parts| ==> c !in parts[i]
    ensures c !in Join(parts, sep)
  {
    if |parts| > 1 {
      JoinNoChar(parts[1..], sep, c);
    }
  }

  /** An entry line read back with a comma split gives the tag, the entries in order
      and the closing entry, provided no entry holds a comma. */
  lemma EntryLineSplit(tag: string, entries: seq<string>, last: string)
    requires |entries| >= 1 && ',' !in tag && ',' !in last
    requires forall i :: 0 <= i < |entries| ==> ',' !in entries[i]
    ensures Split(EntryLine(tag, entries, last), ',') == [tag] + entries + [last]
  {
    JoinFramed(tag, entries, last, ",");
    var parts := [tag] + entries + [last];
    forall i | 0 <= i < |parts| ensures ',' !in parts[i] {
      if 0 < i < |parts| - 1 {
        assert parts[i] == entries[i - 1];
      }
    }
    SplitJoin(parts, ',');
  }

  /** The fields of an entry line read back with a comma split, one by one. */
  lemma EntryFields(tag: string, entries: seq<string>, last: string)
    requires |entries| >= 1 && ',' !in tag && ',' !in last
    requires forall i :: 0 <= i < |entries| ==> ',' !in entries[i]
    ensures var cs := Split(EntryLine(tag, entries, last), ',');
      && |cs| == |entries| + 2 && cs[0] == tag && cs[|cs| - 1] == last
      && forall i :: 0 <= i < |entries| ==> cs[i + 1] == entries[i]
  {
    EntryLineSplit(tag, entries, last);
  }

  /** The name is both the dataset label and the legend title, the header ends with
      `DATA` and a newline, and the labels are the dictionary's keys followed by `NA`. */
  lemma LegendEntries(printname: string, d: Dict<string, string>, margin: int, stripwidth: int)
    requires Valid(d) && |d.keys| >= 1
    requires forall i :: 0 <= i < |d.keys| ==> ',' !in d.keys[i]
    ensures var ls := LegendLines(printname, d, margin, stripwidth);
      && ls[4] == "DATASET_LABEL," + printname
      && ls[8] == "LEGEND_TITLE," + printname
      && ls[11] == "DATA\n"
      && Split(ls[6], ',') == ["LEGEND_LABELS"] + d.keys + ["NA"]
  {
    LegendEntryLines(printname, d, margin, stripwidth);
    LabelFields(LegendLines(printname, d, margin, stripwidth)[6], d.keys);
  }

  lemma LabelFields(line: string, keys: seq<string>)
    requires |keys| >= 1 && forall i :: 0 <= i < |keys| ==> ',' !in keys[i]
    requires line == EntryLine("LEGEND_LABELS", keys, "NA")
    ensures Split(line, ',') == ["LEGEND_LABELS"] + keys + ["NA"]
  {
    EntryLineSplit("LEGEND_LABELS", keys, "NA");
  }

  /** The legend colours are the dictionary's colours in key order, then `#ffffff`. */
  lemma LegendColors(printname: string, d: Dict<string, string>, margin: int, stripwidth: int)
    requires Valid(d) && |d.keys| >= 1
    requires forall i :: 0 <= i < |d.keys| ==> ',' !in d.m[d.keys[i]]
    ensures var cs := Split(LegendLines(printname, d, margin, stripwidth)[5], ',');
      && |cs| == |d.keys| + 2 && cs[0] == "LEGEND_COLORS" && cs[|cs| - 1] == "#ffffff"
      && forall i :: 0 <= i < |d.keys| ==> cs[i + 1] == d.m[d.keys[i]]
  {
    LegendEntryLines(printname, d, margin, stripwidth);
    ColorFields(LegendLines(printname, d, margin, stripwidth)[5], d);
  }

  lemma ColorFields(line: string, d: Dict<string, string>)
    requires Valid(d) && |d.keys| >= 1
    requires forall i :: 0 <= i < |d.keys| ==> ',' !in d.m[d.keys[i]]
    requires line == EntryLine("LEGEND_COLORS", Values(d), "#ffffff")
    ensures var cs := Split(line, ',');
      && |cs| == |d.keys| + 2 && cs[0] == "LEGEND_COLORS" && cs[|cs| - 1] == "#ffffff"
      && forall i :: 0 <= i < |d.keys| ==> cs[i + 1] == d.m[d.keys[i]]
  {
    EntryFields("LEGEND_COLORS", Values(d), "#ffffff");
  }

  /** An empty dictionary (every value filtered as NA) still gets a legend: an empty
      label before `NA`, an empty shape before the closing `1`, no colour before
      `#ffffff`. */
  lemma LegendEmpty(printname: string, margin: int, stripwidth: int)
    ensures var ls := LegendLines(printname, Empty(), margin, stripwidth);
      && ls[5] == "LEGEND_COLORS,,#ffffff"
      && ls[6] == "LEGEND_LABELS,,NA"
      && ls[7] == "LEGEND_SHAPES,,1"
  {
    var d: Dict<string, string> := Empty();
    LegendEntryLines(printname, d, margin, stripwidth);
    EmptyEntries(d);
    EmptyColors();
    EmptyLabels();
    EmptyShapes();
  }

  lemma EmptyColors()
    ensures EntryLine("LEGEND_COLORS", [], "#ffffff") == "LEGEND_COLORS,,#ffffff"
  {
    EmptyEntryLine("LEGEND_COLORS", "#ffffff");
  }

  lemma EmptyLabels()
    ensures EntryLine("LEGEND_LABELS", [], "NA") == "LEGEND_LABELS,,NA"
  {
    EmptyEntryLine("LEGEND_LABELS", "NA");
  }

  lemma EmptyShapes()
    ensures EntryLine("LEGEND_SHAPES", [], "1") == "LEGEND_SHAPES,,1"
  {
    EmptyEntryLine("LEGEND_SHAPES", "1");
  }

  lemma EmptyEntries(d: Dict<string, string>)
    requires Valid(d) && d.keys == []
    ensures Values(d) == [] && Repeat("1", |d.keys|) == []
  {
  }

  lemma EmptyEntryLine(tag: string, last: string)
    ensures EntryLine(tag, [], last) == tag + ",," + last
  {
    assert tag + "," + "" + "," + last == tag + ",," + last;
  }

  /** The legend has one shape `1` per key and one more. */
  lemma LegendShapes(printname: string, d: Dict<string, string>, margin: int, stripwidth: int)
    requires Valid(d) && |d.keys| >= 1
    ensures var ss := Split(LegendLines(printname, d, margin, stripwidth)[7], ',');
      && |ss| == |d.keys| + 2 && ss[0] == "LEGEND_SHAPES"
      && forall i :: 1 <= i < |ss| ==> ss[i] == "1"
  {
    LegendEntryLines(printname, d, margin, stripwidth);
    ShapeFields(LegendLines(printname, d, margin, stripwidth)[7], |d.keys|);
  }

  /** The three entry lines of the legend. */
  lemma LegendEntryLines(printname: string, d: Dict<string, string>, margin: int, stripwidth: int)
    requires Valid(d)
    ensures var ls := LegendLines(printname, d, margin, stripwidth);
      && ls[5] == EntryLine("LEGEND_COLORS", Values(d), "#ffffff")
      && ls[6] == EntryLine("LEGEND_LABELS", d.keys, "NA")
      && ls[7] == EntryLine("LEGEND_SHAPES", Repeat("1", |d.keys|), "1")
  {
    LegendLinesDisplay(printname, d, margin, stripwidth);
  }

  lemma ShapeFields(line: string, n: nat)
    requires n >= 1 && line == EntryLine("LEGEND_SHAPES", Repeat("1", n), "1")
    ensures var ss := Split(line, ',');
      && |ss| == n + 2 && ss[0] == "LEGEND_SHAPES"
      && forall i :: 1 <= i < |ss| ==> ss[i] == "1"
  {
    var ones := Repeat("1", n);
    EntryFields("LEGEND_SHAPES", ones, "1");
    var ss := Split(EntryLine("LEGEND_SHAPES", ones, "1"), ',');
    forall i | 1 <= i < |ss| ensures ss[i] == "1" {
      if i < |ss| - 1 {
        assert ss[i] == ones[i - 1];
      }
    }
  }

  // ---------------------------------------------------------------------
  // make_data_section (discrete)

  /** A row of the two-column table: sample id and cell text. */
  datatype Row = Row(id: string, value: string)

  /** A row of the data section: id, colour (absent when the value has no colour),
      value. */
  datatype DataRow = DataRow(id: string, color: Option<string>, value: string)

  /** `column_data.iloc[:, 1].map(colordict)` placed between the id and the value. */
  function MapColors(rows: seq<Row>, d: Dict<string, string>): (r: seq<DataRow>)
    ensures |r| == |rows|
    ensures forall i :: 0 <= i < |rows| ==> r[i].id == rows[i].id && r[i].value == rows[i].value
    ensures forall i :: 0 <= i < |rows| ==> (r[i].color.Some? <==> rows[i].value in d.m)
    ensures forall i :: 0 <= i < |rows| ==> r[i].color.Some? ==> r[i].color.value == d.m[rows[i].value]
  {
    seq(|rows|, i requires 0 <= i < |rows| => DataRow(rows[i].id, Get(d, rows[i].value), rows[i].value))
  }

  /** Each row of a discrete column gets the colour of the first position of its value
      among the unique values, and no colour when the value was filtered out. */
  lemma DataSectionColors(rows: seq<Row>, values: seq<string>, p: Palette)
    requires PaletteFits(values, p)
    ensures var r := MapColors(rows, ColordictOf(values, p));
      forall i :: 0 <= i < |rows| ==>
        r[i].color == if rows[i].value in values then Some(ColorOf(values, p, rows[i].value)) else None
  {
  }

  /** Three rows with two distinct values: the first-seen value is grey, the other red. */
  lemma ThreeRowScenario(cb: Brewer.Tables, rnd: nat -> Byte)
    requires Brewer.Valid(cb)
    ensures MapColors([Row("s1", "red"), Row("s2", "blue"), Row("s3", "red")],
                      ColordictOf(["red", "blue"], SelectColorPalette(2, cb, rnd)))
         == [DataRow("s1", Some("#bdbdbd"), "red"),
             DataRow("s2", Some("#f03b20"), "blue"),
             DataRow("s3", Some("#bdbdbd"), "red")]
  {
    TwoValueColordict("red", "blue", cb, rnd);
  }
}
