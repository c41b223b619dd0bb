# itolparser colorstrip model

This project models in Dafny the part of itolparser that turns one column of a
typing or metadata table into an iTOL `DATASET_COLORSTRIP` annotation. There are
two variants of this logic.

- The class-based variant in `itolparser/main.py` covers several steps:
  - which columns are drawn, and which are continuous;
  - the printable column name;
  - NA filtering of the unique values;
  - palette choice and the value-to-colour dictionary;
  - the legend header and the colour column of the data section;
  - for numeric columns, the colour lookup by exact key or by `bisect` and blend.
- The older functional variant in `itolparser_functions/itolparser_functions.py`
  has two parts:
  - `create_dicts` covers the linear ramp, the colorbrewer bands, and random colours
    with the grey "other" collapse.
  - `printitol` covers the file name and the exact strings written to the file.
- The delimiter rule of `itolparser/args.py`.

Modules:

- `Wrappers`, `Text`, `Seqs`, `Numbers`: Python's strings, lists, `round` and `int`.
- `Hex`: `#rrggbb` rendering.
- `OrderedDict`: insertion-ordered dictionaries.
- `Brewer`: the colorbrewer tables as a value.
- `Args`: `args.py`.
- `Settings`: the `Itolparser` class.
- `Column`: `ItolparserColumn` and `ItolparserDiscreteColumn`.
- `Continuous`: `ItolparserContinuousColumn`.
- `Legacy`: `itolparser_functions.py`.

Python dictionaries are modelled as a key sequence (insertion order) plus a map.
Loops that fill or mutate a dictionary or list are methods with loop invariants,
proved against a specification function. The properties are proved about that
function.

Two behaviours of the code worth knowing:

- **NA filtering is not idempotent.** The code removes elements from the list it
  is iterating over, so the element right after a removed one is never examined.
  The model follows the code. `Column.RemoveNaNotIdempotent` shows the list
  `["na", "NA"]`, which has no repeats, filtering to `["NA"]`, and that filtering
  again to `[]`.
- **Missing colours.** A value missing from the dictionary renders as `#ffffff`
  only in the functional variant (`Legacy.RowColor`). In the class-based variant,
  `Series.map` leaves the colour absent (`Column.MapColors` gives `None`).

## Model

| member | source | states |
|---|---|---|
| Args.ValidateArgs | itolparser/args.py:94-96 | fails, with the `ValueError` message, exactly when both `--tsv` and `--csv` are set |
| Args.SelectInputType | itolparser/args.py:99-115 | the result is always tab, comma or none; `--tsv` gives tab; otherwise `--csv` gives comma; with neither flag, tab iff the suffix is `.tsv`, comma iff `.csv`, none iff neither |
| Args.FlagsBeforeSuffix | itolparser/args.py:94-115 | after a passing validation, a set flag decides the delimiter whatever the suffix |
| Hex.Format02x | itolparser/main.py:103 | `format(n, "02x")` has at least two characters, and starts with `-` exactly when n is negative |
| Hex.RgbToHex | itolparser/main.py:102-103 | the rendering is `#` followed by at least six characters |
| Hex.Format02xByte | itolparser/main.py:103 | for 0..255, `format(n, "02x")` is exactly the high and the low nibble digit |
| Hex.RgbToHexShape | itolparser/main.py:102-103 | for channels in 0..255 the colour is `#` plus six lower-case hex digits, two per channel, in R, G, B order |
| Hex.ParseRgbToHex | itolparser/main.py:102-103 | reading the rendered colour back gives the triple |
| Hex.RgbToHexInjective | itolparser/main.py:102-103 | distinct valid triples render to distinct strings |
| Settings.Itolparser.constructor | itolparser/main.py:17-37 | the object holds the ignore and continuous lists, margin, strip width and category limit it was given |
| Settings.Itolparser.BuildSettingsDict | itolparser/main.py:47-64 | a missing ignore or continuous list becomes an empty list on the object; the result is the settings of the data columns under the two lists |
| Settings.SettingsOf | itolparser/main.py:47-64 | the settings dictionary is well formed, and a name is a key iff it is a data column and not ignored |
| Settings.CollectSettings | itolparser/main.py:54-64 | the loop builds exactly the settings dictionary of the columns, via a preserved invariant over the columns seen so far |
| Settings.Kept | itolparser/main.py:54-55 | a column is kept iff it is a data column and not ignored |
| Settings.KeptSubseq | itolparser/main.py:54-55 | the kept columns are a subsequence of the data columns |
| Settings.SettingsKeysAndFlags | itolparser/main.py:54-61 | a column is a key iff it is a data column and not ignored; it is flagged continuous iff it is listed as continuous; ignoring beats continuous |
| Settings.SettingsOrder | itolparser/main.py:54-61 | for distinct column names the keys are the kept columns in their original order |
| Settings.SettingsDefaults | itolparser/main.py:50-61 | with both lists empty, every column is a key, in order, and none is continuous |
| Column.PrintName | itolparser/main.py:74 | no character of `\ / : * ? " < > \|` remains; every other character occurs as often as in the name |
| Column.PrintNameIdempotent | itolparser/main.py:74 | sanitising a printable name again changes nothing |
| Column.PrintNameConcat | itolparser/main.py:74 | sanitising works piece by piece, so the kept characters stay in their order |
| Column.IsNa | itolparser/main.py:95-97 | for a value that is already lower case, the test is plain membership in the NA list |
| Column.Sweep | itolparser/main.py:93-100 | the filtered list is no longer than the input and takes no element more often than the input has it |
| Column.SkipFilter | itolparser/main.py:93-100 | the skip-filter is no longer than its input and holds only input elements |
| Column.RemoveNaValues | itolparser/main.py:93-100 | the in-place loop (iterator position, first-occurrence `remove`) yields exactly the sweep function's result |
| Column.SweepSubseq | itolparser/main.py:93-100 | the survivors are a subsequence of the input |
| Column.SweepRemovesOnlyNa | itolparser/main.py:93-100 | no element is added, and any element whose count drops is an NA token |
| Column.SweepDistinct | itolparser/main.py:93-100 | on a list without repeats, the loop from position i keeps the first i elements and skip-filters the rest |
| Column.RemoveNaOfUnique | itolparser/main.py:93-100 | on unique values the filter drops each NA value and passes over the element after it unexamined |
| Column.SkipFilterComplete | itolparser/main.py:93-100 | when no two NA values are adjacent, no NA value survives |
| Column.SweepNoNa | itolparser/main.py:93-100 | a list without NA values passes through unchanged |
| Column.RemoveNaNotIdempotent | itolparser/main.py:80-100 | `["na","NA"]` has no repeats, yet filters to `["NA"]`, which filters to `[]`: the filter is not idempotent |
| Column.NaTokensIgnoreCase | itolparser/main.py:80-100 | `NA`, `None` and `NaN` are filtered through lower-casing; `red` is not |
| Column.RandomPalette | itolparser/main.py:155-159 | n triples, each with channels in 0..255 |
| Column.SelectColorPalette | itolparser/main.py:141-161 | a bare black triple iff n == 1; grey and red for n == 0 or 2; Paired[n] for 3..12; Set1[9] + Pastel1[n-9] for 13..18; n random triples beyond; every palette valid and of length n (2 for n == 0) |
| Column.ColordictOf | itolparser/main.py:163-174 | keys are the values in order of first occurrence, exactly the input values, each with the hex of the palette entry at its first position |
| Column.ColorOf | itolparser/main.py:170-172 | the colour of a value, taken from the palette entry at its first position, is `#` followed by at least six characters |
| Column.BuildColordict | itolparser/main.py:163-174 | the loop builds exactly that dictionary, the one-value case from the bare triple |
| Column.DiscreteColordict | itolparser/main.py:141-174 | the chosen palette fits its values, and for distinct values the keys are the values in order, every colour a `#rrggbb` string |
| Column.FixedColors | itolparser/main.py:146-149 | black, grey and red render as `#000000`, `#bdbdbd`, `#f03b20` |
| Column.OneValueColordict | itolparser/main.py:166-167 | one value maps to `#000000` |
| Column.TwoValueColordict | itolparser/main.py:148-173 | two values map to `#bdbdbd` then `#f03b20`, in order |
| Column.LegendLines | itolparser/main.py:111-123 | the legend has twelve lines |
| Column.MakeLegendText | itolparser/main.py:105-126 | the appended lines, newline-joined, are exactly the twelve legend lines |
| Column.LegendTextLines | itolparser/main.py:111-124 | with no newline in the name or the dictionary, the text splits back into its eleven lines, `DATA` and an empty rest: twelve lines ending in `DATA\n` |
| Column.LegendEntries | itolparser/main.py:116-123 | the name is both the dataset label and the legend title; the last line is `DATA\n`; the labels are the keys in order, then `NA` |
| Column.LegendColors | itolparser/main.py:108-117 | the legend colours are the dictionary's colours in key order, then `#ffffff` |
| Column.LegendShapes | itolparser/main.py:109-119 | one shape `1` per key, plus one more |
| Column.LegendEmpty | itolparser/main.py:107-119 | with an empty dictionary the lines are `LEGEND_COLORS,,#ffffff`, `LEGEND_LABELS,,NA` and `LEGEND_SHAPES,,1` |
| Column.MapColors | itolparser/main.py:176-181 | one row out per row in, with id and value kept; a colour iff the value is a key, and then that key's colour |
| Column.DataSectionColors | itolparser/main.py:176-178 | a row's colour is its value's first-position colour, or none when the value is not among the unique values |
| Column.ThreeRowScenario | itolparser/main.py:163-181 | rows red, blue, red with unique values red, blue get grey, red, grey |
| Continuous.Blend | itolparser/main.py:229 | one rounded channel: ratio 0, or equal channels, gives the left channel; ratio 1 gives the right one |
| Continuous.MediumRgb | itolparser/main.py:226-230 | ratio 0, or equal colours, gives the left colour; ratio 1 gives the right one |
| Continuous.GetMediumRgbValue | itolparser/main.py:226-230 | the array loop gives exactly the channel-wise rounded blend |
| Continuous.BlendBetween | itolparser/main.py:229 | for a ratio in [0,1], the rounded channel lies between the two channels |
| Continuous.MediumEnds | itolparser/main.py:226-230 | ratio 0 gives the left colour, ratio 1 the right one |
| Continuous.MediumBetween | itolparser/main.py:226-230 | for a ratio in [0,1], every channel lies between the two colours' channels, so valid colours blend to a valid colour |
| Continuous.BisectRight | itolparser/main.py:237 | the insertion point lies within the searched bounds |
| Continuous.BisectSplits | itolparser/main.py:237 | on a sorted list, `bisect` splits the keys into those `<= x` and those `> x` |
| Continuous.PyIndex | itolparser/main.py:239-242 | Python indexing: success iff `-len <= i < len`; negative indices count from the end |
| Continuous.Interpolate | itolparser/main.py:238-245 | the only errors are `IndexError` and `ZeroDivisionError`; success needs the right index and the left index below it to be valid Python indices of both the palette and the keys; with both valid, the only possible error is `ZeroDivisionError` |
| Continuous.GetHexColor | itolparser/main.py:232-246 | the only errors are `IndexError` and `ZeroDivisionError`, and they arise only for a value that is not a key |
| Continuous.HexOf | itolparser/main.py:244-245 | rendering succeeds iff the blend did, and passes on its error |
| Continuous.InterpolateInside | itolparser/main.py:238-244 | at an inner right index, the blend of the neighbouring palette colours at the key ratio |
| Continuous.InterpolateWrap | itolparser/main.py:238-244 | at right index 0, the left index -1 reads the last palette colour and key |
| Continuous.GetHexColorExact | itolparser/main.py:232-235 | a value equal to a legend key gets exactly that key's colour |
| Continuous.GetHexColorInterior | itolparser/main.py:236-245 | a value strictly inside the keys and equal to none is bracketed with key[j-1] < v < key[j]; it gets the blend of palette colours j-1 and j at a ratio strictly inside (0,1); with a valid palette the result is a `#rrggbb` colour |
| Continuous.GetHexColorAbove | itolparser/main.py:237-240 | a value above every key raises `IndexError` |
| Continuous.GetHexColorBelow | itolparser/main.py:237-245 | a value below every key of a legend with two or more keys wraps to the last colour and blends at a ratio above 1 |
| Continuous.GetHexColorSingleKeyBelow | itolparser/main.py:237-243 | with one key and a value below it, the ratio divides by zero |
| Continuous.MakeColorData | itolparser/main.py:248-256 | success iff every lookup succeeds, and then one colour per row equal to its lookup; otherwise the error of the first failing row |
| Continuous.FillColorData | itolparser/main.py:249-256 | the row loop stores each lookup's colour and stops at the first error |
| Numbers.RoundHalfEven | itolparser/main.py:229 | Python `round`: within one half of x, ties to the even integer |
| Numbers.RoundBetween | itolparser/main.py:229 | rounding keeps a value between two integers between them, and gives back an integer |
| Numbers.Trunc | itolparser_functions/itolparser_functions.py:22-24 | Python `int` on a float: truncation toward zero |
| Numbers.RatioInside | itolparser/main.py:241-243 | strictly between the keys, the ratio is strictly inside (0,1) |
| Numbers.RatioBeyond | itolparser/main.py:241-243 | below both keys with the left one larger, the ratio exceeds 1 |
| Numbers.RatioAtEnds | itolparser_functions/itolparser_functions.py:22-24 | the ratio is 0 at the low end and 1 at the high end |
| Numbers.RatioClosed | itolparser_functions/itolparser_functions.py:22-24 | between MIN and MAX, t lies in [0,1], and is 0 at MIN and 1 at MAX |
| Legacy.SeqMin | itolparser_functions/itolparser_functions.py:19 | the minimum is an element, and no element is smaller |
| Legacy.SeqMax | itolparser_functions/itolparser_functions.py:20 | the maximum is an element, and no element is larger |
| Legacy.RampRgb | itolparser_functions/itolparser_functions.py:22-24 | MIN gives the channels (255, 255, 150), MAX gives (0, 100, 0) |
| Legacy.RampColor | itolparser_functions/itolparser_functions.py:22-25 | for MIN below MAX, MIN renders as `#ffff96` and MAX as `#006400` |
| Legacy.RampDictOf | itolparser_functions/itolparser_functions.py:18-28 | keys are the values in order of first occurrence, exactly the input values |
| Legacy.CreateDictsContinuous | itolparser_functions/itolparser_functions.py:18-28 | an empty list fails in `min`; equal values divide by zero; otherwise the loop yields the ramp dictionary |
| Legacy.RampEnds | itolparser_functions/itolparser_functions.py:21-26 | MIN renders as `#ffff96` and MAX as `#006400` |
| Legacy.RampChannels | itolparser_functions/itolparser_functions.py:21-26 | between the extremes every channel is in 0..255, so a `#rrggbb` colour; each channel falls as the value grows |
| Legacy.RatioMonotone | itolparser_functions/itolparser_functions.py:22-24 | t grows with the value |
| Legacy.RampDictColors | itolparser_functions/itolparser_functions.py:18-28 | every colour is `#rrggbb`; the minimum gets `#ffff96`, the maximum `#006400` |
| Legacy.LegacyPalette | itolparser_functions/itolparser_functions.py:31-57 | black for one value; Set2[3] for two; Paired[n] for 3..12; Set1[9] + Pastel1[n-9] for 13..18; always valid and long enough |
| Legacy.BandDictOf | itolparser_functions/itolparser_functions.py:31-57 | keys are the values in order of first occurrence |
| Legacy.BandOneValue | itolparser_functions/itolparser_functions.py:32-34 | one value maps to `#000000` |
| Legacy.BandColors | itolparser_functions/itolparser_functions.py:37-57 | for 2..18 distinct values, value i gets the hex of colour i of its band's scheme; every colour is `#rrggbb` |
| Legacy.RemoveEach | itolparser_functions/itolparser_functions.py:65-67 | removing the NA values takes out elements and adds none: no longer, no element more often, only elements of the input |
| Legacy.IncludeOf | itolparser_functions/itolparser_functions.py:63-67 | the include list has at most MAXCATEGORIES entries and holds only ranked values |
| Legacy.FilterInclude | itolparser_functions/itolparser_functions.py:62-67 | the removal loop yields the specified include list |
| Legacy.RemoveEachSubseq | itolparser_functions/itolparser_functions.py:65-67 | removals keep the rest in order |
| Legacy.RemoveEachDistinct | itolparser_functions/itolparser_functions.py:65-67 | on a list without repeats, no value to remove survives, and no repeats appear |
| Legacy.IncludeBounds | itolparser_functions/itolparser_functions.py:62-67 | the include list is an ordered subsequence of the ranking, has at most MAXCATEGORIES entries, and for a ranking without repeats holds no NA token |
| Legacy.Draws | itolparser_functions/itolparser_functions.py:72-73 | n characters, the k-th being draw base + k |
| Legacy.RandomDictOf | itolparser_functions/itolparser_functions.py:70-74 | keys are the values in order of first occurrence |
| Legacy.RandomColors | itolparser_functions/itolparser_functions.py:70-74 | the nested loop yields the random dictionary: the value at position p takes draws 6p..6p+5, and a repeated value keeps its last colour |
| Legacy.DrawColor | itolparser_functions/itolparser_functions.py:71-74 | six draws appended to `#`, with the entry stored after each draw, leave the entry holding the full string |
| Legacy.RandomColorsShape | itolparser_functions/itolparser_functions.py:7-8 | every random colour is `#` plus six characters of `0-9a-f` |
| Legacy.AltOf | itolparser_functions/itolparser_functions.py:77-80 | the collapsed dictionary is well formed, with the same keys in the same order |
| Legacy.Collapse | itolparser_functions/itolparser_functions.py:77-80 | the copy-and-overwrite loop yields the collapsed dictionary |
| Legacy.AltEntries | itolparser_functions/itolparser_functions.py:77-80 | same keys in the same order; kept values keep their colour; the rest become `#bebebe` |
| Legacy.AltColors | itolparser_functions/itolparser_functions.py:70-80 | on the random dictionary: the keys are the values; kept values keep their colour, others are `#bebebe`; all colours are `#rrggbb` |
| Legacy.AltHex | itolparser_functions/itolparser_functions.py:77-80 | collapsing keeps every colour a `#rrggbb` string |
| Legacy.CreateDictsDiscrete | itolparser_functions/itolparser_functions.py:29-85 | up to 18 values, the band dictionary alone; beyond, the pair of the collapsed random dictionary and the include list |
| Legacy.FixedPartsSafe | itolparser_functions/itolparser_functions.py:89 | the prefix and `.txt` hold no space and no unsafe character |
| Legacy.FileName | itolparser_functions/itolparser_functions.py:88-90 | the name is as long as the prefix, the sanitised name and `.txt` together, and holds no space |
| Legacy.FileNameShape | itolparser_functions/itolparser_functions.py:88-90 | the file name is `DATASET_COLORSTRIP_`, then the sanitised name with `_` for spaces, then `.txt` |
| Legacy.FileNameSafe | itolparser_functions/itolparser_functions.py:88-90 | the file name holds no space and no path-unsafe character |
| Legacy.HexLegend | itolparser_functions/itolparser_functions.py:91 | `HEXLEGEND` is a `#rrggbb` colour with `f` in positions 2, 4 and 6 and the draws in between |
| Legacy.LegendOf | itolparser_functions/itolparser_functions.py:93-102 | the legend fails iff the column is continuous and the dictionary empty, and then with `IndexError` |
| Legacy.Names | itolparser_functions/itolparser_functions.py:95 | one formatted name per key, in key order |
| Legacy.LegendStrings | itolparser_functions/itolparser_functions.py:93-102 | the two legend branches give exactly the specified strings, with `IndexError` for an empty continuous dictionary |
| Legacy.LegendSplitDiscrete | itolparser_functions/itolparser_functions.py:93-97 | the discrete legend splits back into the colours, names and one shape per key, in key order |
| Legacy.LegendSplitContinuous | itolparser_functions/itolparser_functions.py:98-102 | the continuous legend is `#ffff96,#006400`, the first and last names, and `1,1` |
| Legacy.HeaderWrites | itolparser_functions/itolparser_functions.py:105-116 | the header is twelve writes |
| Legacy.HeaderEntries | itolparser_functions/itolparser_functions.py:105-116 | every write ends in `\r\n`; the first is `DATASET_COLORSTRIP`, the last `DATA`; the fourth holds `HEXLEGEND`; the fifth and ninth hold the name; the sixth to eighth hold the colour, label and shape strings, closed by `#ffffff`, `NA` and `1` |
| Legacy.WriteHeader | itolparser_functions/itolparser_functions.py:105-116 | the twelve writes are exactly the header, in order |
| Legacy.RowColor | itolparser_functions/itolparser_functions.py:119-122 | when every dictionary colour is `#rrggbb`, so is the row's colour, `#ffffff` included for a missing value |
| Legacy.DataLine | itolparser_functions/itolparser_functions.py:123-125 | the line starts with the id and ends in `\r\n` |
| Legacy.DataLines | itolparser_functions/itolparser_functions.py:118-125 | one line per row, in row order |
| Legacy.WriteRows | itolparser_functions/itolparser_functions.py:118-125 | the row loop appends exactly one data line per row to what was written |
| Legacy.DataLineFields | itolparser_functions/itolparser_functions.py:119-125 | a data line ends in `\r\n` and splits into id, colour and value; the colour is `#ffffff` when the value has none |
| Legacy.PrintItol | itolparser_functions/itolparser_functions.py:87-127 | a failing legend is passed on as the error; otherwise the file name and the header writes, then the data lines |

## Left out

- File and console I/O: `read_input`, `write_file`, `mkdir`, `open` and `f.write`, and logging. A written file is modelled as its name plus the strings written to it, in order.
- `get_args` and argparse: the delimiter rule takes the two flags and the input suffix as a value.
- pandas: `unique`, `value_counts`, `iterrows` and `concat`, plus `to_csv` (quoting and NaN rendering). The unique values, the count ranking (`ranked`) and the table rows are inputs. The class-based data section stops at one (id, colour or none, value) triple per row.
- The continuous `build_colordict` of `ItolparserContinuousColumn` is not modelled. It uses `np.arange` with a float step, `round(i, 1)` and `str(float)` keys. The sorted keys and palette are inputs, and `float(str(k)) == k` is assumed for the keys.
- Floating point: floats are real numbers, so float rounding error is not modelled. `round` is modelled as exact round-half-even on reals, and `int` as truncation toward zero.
- The colorbrewer tables: a foreign library, modelled as a value whose schemes have the documented sizes and channels in 0..255. The concrete colours are not part of this model.
- `random.randint` and `random.choice`: the successive draws are a function parameter from draw index to value. The global random stream, and the draw order shared with other columns, are not modelled.
- `str()` and `format()` of keys and values in the functional variant are a `show` parameter. Discrete cell values in the class-based variant are modelled as their text.
- `create_dicts` is modelled as two methods, one for `CONTINUOUS > 0` (numeric values) and one otherwise (text values). A Python list mixes numbers and text; a Dafny sequence has one type.
- Legacy.IncludeBounds: "no NA token in `list_include`" is proved only for a ranking without repeats. `value_counts` gives that; `remove` takes out one occurrence only.
- Floats that are NaN or infinite are not modelled, since floats are real numbers here. In the source, a blank cell of a continuous column reaches `get_hex_color` as NaN. NaN equals no key, `bisect` puts it at `len(keys)`, and the palette lookup raises `IndexError` (itolparser/main.py:234-242).
- Continuous.GetHexColorBelow and GetHexColorAbove cover values outside the keys. No bound is stated for the wrapped blend, since its ratio exceeds 1.
