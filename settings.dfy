/** main.py, class `Itolparser`: which data columns are drawn and whether each is
    treated as continuous. The table itself (`input`, `delim`, `outdir`, `df`) is not
    part of this model; the column names are passed in. */
module Settings {
  import opened Wrappers
  import opened Seqs
  import opened OrderedDict

  /** The nested dictionary `{"continuous": flag}` kept per column. */
  datatype ColumnSettings = ColumnSettings(continuous: bool)

  /** The columns of `cols` not named in `ignore`, in their order. */
  function Kept(cols: seq<string>, ignore: seq<string>): (r: seq<string>)
    ensures forall x :: x in r <==> x in cols && x !in ignore
  {
    if |cols| == 0 then []
    else if cols[0] in ignore then Kept(cols[1..], ignore)
    else [cols[0]] + Kept(cols[1..], ignore)
  }

  /** Leaving columns out keeps the others in their order. */
  lemma {:induction false} KeptSubseq(cols: seq<string>, ignore: seq<string>)
    ensures IsSubseq(Kept(cols, ignore), cols)
  {
    if |cols| == 0 {
    } else if cols[0] in ignore {
      KeptSubseq(cols[1..], ignore);
      SubseqDropHead(Kept(cols[1..], ignore), cols);
    } else {
      KeptSubseq(cols[1..], ignore);
      SubseqKeepHead(Kept(cols[1..], ignore), cols);
    }
  }

  lemma SubseqDropHead(a: seq<string>, b: seq<string>)
    requires |b| > 0 && IsSubseq(a, b[1..])
    ensures IsSubseq(a, b)
  {
  }

  lemma SubseqKeepHead(a: seq<string>, b: seq<string>)
    requires |b| > 0 && IsSubseq(a, b[1..])
    ensures IsSubseq([b[0]] + a, b)
  {
    assert ([b[0]] + a)[1..] == a;
  }

  /** The dictionary `build_settings_dict` returns for these lists: one entry per kept
      column, in order of first occurrence, flagged continuous when listed so. */
  function SettingsOf(cols: seq<string>, ignore: seq<string>, continuous: seq<string>)
    : (d: Dict<string, ColumnSettings>)
    ensures Valid(d)
    ensures forall n :: n in d.keys <==> n in cols && n !in ignore
  {
    Dict(Dedup(Kept(cols, ignore)),
         map n | n in cols && n !in ignore :: ColumnSettings(n in continuous))
  }

  /** The keys are exactly the data columns that are not ignored; a column is flagged
      continuous exactly when it is listed as continuous; an ignored column is left out
      even when it is also listed as continuous. */
  lemma SettingsKeysAndFlags(cols: seq<string>, ignore: seq<string>, continuous: seq<string>, n: string)
    ensures var d := SettingsOf(cols, ignore, continuous);
      && (n in d.keys <==> n in cols && n !in ignore)
      && (n in d.m ==> (d.m[n].continuous <==> n in continuous))
      && (n in ignore ==> n !in d.m)
  {
  }

  /** Distinct column names come out in their own order, ignored ones removed. */
  lemma SettingsOrder(cols: seq<string>, ignore: seq<string>, continuous: seq<string>)
    requires Distinct(cols)
    ensures SettingsOf(cols, ignore, continuous).keys == Kept(cols, ignore)
    ensures IsSubseq(SettingsOf(cols, ignore, continuous).keys, cols)
  {
    KeptSubseq(cols, ignore);
    SubseqDistinct(Kept(cols, ignore), cols);
    DedupOfDistinct(Kept(cols, ignore));
  }

  /** With nothing ignored and nothing continuous, every column is drawn as discrete. */
  lemma SettingsDefaults(cols: seq<string>)
    requires Distinct(cols)
    ensures var d := SettingsOf(cols, [], []);
      d.keys == cols && forall n :: n in d.m ==> !d.m[n].continuous
  {
    SettingsOrder(cols, [], []);
    KeptNothing(cols);
  }

  lemma {:induction false} KeptNothing(cols: seq<string>)
    ensures Kept(cols, []) == cols
  {
    if |cols| > 0 {
      KeptNothing(cols[1..]);
      assert [cols[0]] + cols[1..] == cols;
    }
  }

  /** The `Itolparser` object, with the fields `build_settings_dict` reads and writes. */
  class Itolparser {
    var ignoreCols: Option<seq<string>>
    var continuousCols: Option<seq<string>>
    var margin: int
    var stripwidth: int
    var maxcategories: int

    constructor (ignoreCols: Option<seq<string>>, continuousCols: Option<seq<string>>,
                 margin: int, stripwidth: int, maxcategories: int)
      ensures this.ignoreCols == ignoreCols && this.continuousCols == continuousCols
      ensures this.margin == margin && this.stripwidth == stripwidth
      ensures this.maxcategories == maxcategories
    {
      this.ignoreCols := ignoreCols;
      this.continuousCols := continuousCols;
      this.margin := margin;
      this.stripwidth := stripwidth;
      this.maxcategories := maxcategories;
    }

    /** `build_settings_dict`: a missing ignore or continuous list is replaced by an
        empty one on the object, then each data column is entered in turn. */
    method BuildSettingsDict(dataCols: seq<string>) returns (settings: Dict<string, ColumnSettings>)
      modifies this`ignoreCols, this`continuousCols
      ensures ignoreCols == Some(old(ignoreCols).GetOr([]))
      ensures continuousCols == Some(old(continuousCols).GetOr([]))
      ensures settings == SettingsOf(dataCols, ignoreCols.value, continuousCols.value)
    {
      if ignoreCols.None? {
        ignoreCols := Some([]);
      }
      if continuousCols.None? {
        continuousCols := Some([]);
      }
      settings := CollectSettings(dataCols, ignoreCols.value, continuousCols.value);
    }
  }

  /** The loop of `build_settings_dict`: every column not ignored is entered, flagged
      continuous when listed so. */
  method CollectSettings(dataCols: seq<string>, ignore: seq<string>, continuous: seq<string>)
    returns (settings: Dict<string, ColumnSettings>)
    ensures settings == SettingsOf(dataCols, ignore, continuous)
  {
    settings := Empty();
    assert dataCols[..0] == [];
    var i := 0;
    while i < |dataCols|
      invariant 0 <= i <= |dataCols|
      invariant SettingsSoFar(dataCols[..i], ignore, continuous, settings)
    {
      var name := dataCols[i];
      assert dataCols[..i + 1] == dataCols[..i] + [name];
      SettingsStep(dataCols[..i], name, ignore, continuous, settings);
      if name !in ignore {
        settings := Put(settings, name, ColumnSettings(name in continuous));
      }
      i := i + 1;
    }
    assert dataCols[..i] == dataCols;
    SettingsMapComplete(dataCols, ignore, continuous, settings);
  }

  /** What the loop of `build_settings_dict` has built after the columns `done`. */
  ghost predicate SettingsSoFar(done: seq<string>, ignore: seq<string>, continuous: seq<string>,
                                d: Dict<string, ColumnSettings>)
  {
    && Valid(d)
    && d.keys == Dedup(Kept(done, ignore))
    && (forall n :: n in d.m <==> n in done && n !in ignore)
    && (forall n :: n in d.m ==> d.m[n] == ColumnSettings(n in continuous))
  }

  lemma SettingsStep(done: seq<string>, name: string, ignore: seq<string>, continuous: seq<string>,
                     d: Dict<string, ColumnSettings>)
    requires SettingsSoFar(done, ignore, continuous, d)
    ensures name in ignore ==> SettingsSoFar(done + [name], ignore, continuous, d)
    ensures name !in ignore ==>
      SettingsSoFar(done + [name], ignore, continuous, Put(d, name, ColumnSettings(name in continuous)))
  {
    SettingsKeys(done, name, ignore, d.keys);
    SettingsMembers(done, name, ignore, continuous, d);
  }

  lemma SettingsKeys(done: seq<string>, name: string, ignore: seq<string>, keys: seq<string>)
    requires keys == Dedup(Kept(done, ignore))
    ensures name in ignore ==> Dedup(Kept(done + [name], ignore)) == keys
    ensures name !in ignore ==>
      Dedup(Kept(done + [name], ignore)) == if name in keys then keys else keys + [name]
  {
    KeptSnoc(done, name, ignore);
    if name !in ignore {
      DedupPut(Kept(done, ignore), name, keys);
    }
  }

  lemma DedupPut(s: seq<string>, x: string, keys: seq<string>)
    requires keys == Dedup(s)
    ensures Dedup(s + [x]) == if x in keys then keys else keys + [x]
  {
    DedupSnoc(s, x);
  }

  lemma SettingsMembers(done: seq<string>, name: string, ignore: seq<string>, continuous: seq<string>,
                        d: Dict<string, ColumnSettings>)
    requires Valid(d)
    requires forall n :: n in d.m <==> n in done && n !in ignore
    requires forall n :: n in d.m ==> d.m[n] == ColumnSettings(n in continuous)
    ensures var d' := if name in ignore then d else Put(d, name, ColumnSettings(name in continuous));
      && (forall n :: n in d'.m <==> n in done + [name] && n !in ignore)
      && (forall n :: n in d'.m ==> d'.m[n] == ColumnSettings(n in continuous))
  {
    assert forall n :: n in done + [name] <==> n in done || n == name;
  }

  lemma {:induction false} KeptSnoc(cols: seq<string>, x: string, ignore: seq<string>)
    ensures Kept(cols + [x], ignore) == if x in ignore then Kept(cols, ignore) else Kept(cols, ignore) + [x]
  {
    if |cols| == 0 {
      assert cols + [x] == [x];
    } else {
      assert (cols + [x])[1..] == cols[1..] + [x];
      KeptSnoc(cols[1..], x, ignore);
    }
  }

  lemma SettingsMapComplete(cols: seq<string>, ignore: seq<string>, continuous: seq<string>,
                            d: Dict<string, ColumnSettings>)
    requires SettingsSoFar(cols, ignore, continuous, d)
    ensures d == SettingsOf(cols, ignore, continuous)
  {
    assert d.m == map n | n in cols && n !in ignore :: ColumnSettings(n in continuous);
  }
}
