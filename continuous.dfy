/** main.py, `ItolparserContinuousColumn`: the colour of a numeric cell. A value equal
    to a legend key takes that key's colour; any other value is placed between two
    keys by `bisect.bisect` and gets a channel-wise blend of the two neighbouring
    palette colours. The legend keys are modelled by their float values (the model
    takes `float(str(k)) == k`), floats by reals. */
module Continuous {
  import opened Wrappers
  import opened Hex
  import opened OrderedDict
  import opened Numbers

  // ---------------------------------------------------------------------
  // get_medium_rgb_value

  /** Channel `i` (0, 1, 2 for R, G, B) of a triple: `rgb[i]`. */
  function Channel(c: RGB, i: int): int
    requires 0 <= i < 3
  {
    if i == 0 then c.r else if i == 1 then c.g else c.b
  }

  /** `left + (right - left) * ratio`. */
  function Lerp(left: int, right: int, ratio: real): real {
    left as real + (right - left) as real * ratio
  }

  /** One blended channel: `round(left + (right - left) * ratio)`. */
  function Blend(left: int, right: int, ratio: real): (b: int)
    ensures ratio == 0.0 || left == right ==> b == left
    ensures ratio == 1.0 ==> b == right
  {
    RoundHalfEven(Lerp(left, right, ratio))
  }

  /** The triple `get_medium_rgb_value` returns. */
  function MediumRgb(left: RGB, right: RGB, ratio: real): (m: RGB)
    ensures ratio == 0.0 || left == right ==> m == left
    ensures ratio == 1.0 ==> m == right
  {
    RGB(Blend(left.r, right.r, ratio), Blend(left.g, right.g, ratio), Blend(left.b, right.b, ratio))
  }

  /** `get_medium_rgb_value`: `rgb_new` starts as `[0, 0, 0]` and the loop sets one
      channel per step. */
  method GetMediumRgbValue(left: RGB, right: RGB, ratio: real) returns (rgb: RGB)
    ensures rgb == MediumRgb(left, right, ratio)
  {
    var rgbNew := new int[3](_ => 0);
    for i := 0 to 3
      invariant forall j :: 0 <= j < i ==> rgbNew[j] == Blend(Channel(left, j), Channel(right, j), ratio)
    {
      rgbNew[i] := Blend(Channel(left, i), Channel(right, i), ratio);
    }
    rgb := RGB(rgbNew[0], rgbNew[1], rgbNew[2]);
  }

  /** A blended channel lies between the two channels when the ratio is in [0, 1]. */
  lemma BlendBetween(left: int, right: int, ratio: real)
    requires 0.0 <= ratio <= 1.0
    ensures left <= right ==> left <= Blend(left, right, ratio) <= right
    ensures right <= left ==> right <= Blend(left, right, ratio) <= left
  {
    LerpBetween(left, right, ratio);
    if left <= right {
      RoundBetween(Lerp(left, right, ratio), left, right);
    } else {
      RoundBetween(Lerp(left, right, ratio), right, left);
    }
  }

  lemma LerpBetween(left: int, right: int, ratio: real)
    requires 0.0 <= ratio <= 1.0
    ensures left <= right ==> left as real <= Lerp(left, right, ratio) <= right as real
    ensures right <= left ==> right as real <= Lerp(left, right, ratio) <= left as real
  {
    var w := (right - left) as real;
    ScaleBetween(w, ratio);
    assert w == right as real - left as real;
  }

  /** Ratio 0 gives the left colour back, ratio 1 the right one. */
  lemma MediumEnds(left: RGB, right: RGB)
    ensures MediumRgb(left, right, 0.0) == left
    ensures MediumRgb(left, right, 1.0) == right
  {
    RoundBetween(left.r as real, left.r, left.r);
    RoundBetween(left.g as real, left.g, left.g);
    RoundBetween(left.b as real, left.b, left.b);
    RoundBetween(right.r as real, right.r, right.r);
    RoundBetween(right.g as real, right.g, right.g);
    RoundBetween(right.b as real, right.b, right.b);
  }

  /** For a ratio in [0, 1] every channel of the blend lies between the two colours'
      channels, so two valid colours blend to a valid colour. */
  lemma MediumBetween(left: RGB, right: RGB, ratio: real)
    requires 0.0 <= ratio <= 1.0
    ensures forall i :: 0 <= i < 3 ==>
      var (a, b, m) := (Channel(left, i), Channel(right, i), Channel(MediumRgb(left, right, ratio), i));
      (a <= b ==> a <= m <= b) && (b <= a ==> b <= m <= a)
    ensures ValidRGB(left) && ValidRGB(right) ==> ValidRGB(MediumRgb(left, right, ratio))
  {
    BlendBetween(left.r, right.r, ratio);
    BlendBetween(left.g, right.g, ratio);
    BlendBetween(left.b, right.b, ratio);
  }

  // ---------------------------------------------------------------------
  // bisect.bisect and Python indexing

  predicate StrictlySorted(a: seq<real>) {
    forall i, j :: 0 <= i < j < |a| ==> a[i] < a[j]
  }

  /** `bisect.bisect(a, x, lo, hi)` (`bisect_right`), as CPython's binary search. */
  function BisectRight(a: seq<real>, x: real, lo: nat, hi: nat): (r: nat)
    requires lo <= hi <= |a|
    ensures lo <= r <= hi
    decreases hi - lo
  {
    if lo < hi then
      var mid := (lo + hi) / 2;
      if x < a[mid] then BisectRight(a, x, lo, mid) else BisectRight(a, x, mid + 1, hi)
    else lo
  }

  /** On a sorted list, `bisect` splits it into the elements `<= x` and those `> x`. */
  lemma {:induction false} BisectSplits(a: seq<real>, x: real, lo: nat, hi: nat)
    requires lo <= hi <= |a| && StrictlySorted(a)
    requires forall i :: 0 <= i < lo ==> a[i] <= x
    requires forall i :: hi <= i < |a| ==> x < a[i]
    ensures var r := BisectRight(a, x, lo, hi);
      (forall i :: 0 <= i < r ==> a[i] <= x) && (forall i :: r <= i < |a| ==> x < a[i])
    decreases hi - lo
  {
    if lo < hi {
      var mid := (lo + hi) / 2;
      if x < a[mid] {
        BisectSplits(a, x, lo, mid);
      } else {
        BisectSplits(a, x, mid + 1, hi);
      }
    }
  }

  /** `s[i]` with Python's indexing: negative indexes count from the end, anything
      else out of range is an `IndexError`. */
  function PyIndex<T>(s: seq<T>, i: int): (r: Result<T>)
    ensures r.Ok? <==> -|s| <= i < |s|
    ensures 0 <= i < |s| ==> r == Ok(s[i])
    ensures -|s| <= i < 0 ==> r == Ok(s[|s| + i])
  {
    if 0 <= i < |s| then Ok(s[i])
    else if -|s| <= i < 0 then Ok(s[|s| + i])
    else Err(IndexError)
  }

  // ---------------------------------------------------------------------
  // get_hex_color

  /** `get_hex_color`: an exact key hit returns the key's colour; any other value is
      interpolated at the index `bisect` returns. */
  function GetHexColor(val: real, d: Dict<real, string>, palette: seq<RGB>): (r: Result<string>)
    requires Valid(d)
    ensures r.Err? ==> r.error == IndexError || r.error == ZeroDivisionError
    ensures r.Err? ==> val !in d.m
  {
    if val in d.m then Ok(d.m[val])
    else HexOf(Interpolate(val, d.keys, palette, BisectRight(d.keys, val, 0, |d.keys|)))
  }

  /** `rgb_to_hex` of the blended triple, errors passed on. */
  function HexOf(r: Result<RGB>): (h: Result<string>)
    ensures h.Ok? <==> r.Ok?
    ensures h.Err? ==> h.error == r.error
  {
    match r
    case Err(e) => Err(e)
    case Ok(rgb) => Ok(RgbToHex(rgb))
  }

  /** The `else` branch of `get_hex_color` for right index `right`: the two palette
      colours are read first, then the left and the right key, then the ratio is
      divided out; the result is `final_rgb_val`. */
  function Interpolate(val: real, keys: seq<real>, palette: seq<RGB>, right: int): (r: Result<RGB>)
    ensures r.Err? ==> r.error == IndexError || r.error == ZeroDivisionError
    ensures r.Ok? ==> 1 - |palette| <= right < |palette| && 1 - |keys| <= right < |keys|
    ensures r.Err? && 1 - |palette| <= right < |palette| && 1 - |keys| <= right < |keys| ==>
      r.error == ZeroDivisionError
  {
    var left := right - 1;
    match PyIndex(palette, left)
    case Err(e) => Err(e)
    case Ok(leftRgb) =>
      match PyIndex(palette, right)
      case Err(e) => Err(e)
      case Ok(rightRgb) =>
        match PyIndex(keys, left)
        case Err(e) => Err(e)
        case Ok(leftKey) =>
          match PyIndex(keys, right)
          case Err(e) => Err(e)
          case Ok(rightKey) =>
            if rightKey - leftKey == 0.0 then Err(ZeroDivisionError)
            else Ok(MediumRgb(leftRgb, rightRgb, Ratio(val, leftKey, rightKey)))
  }

  /** Interpolation at an index inside both lists blends the neighbouring colours. */
  lemma InterpolateInside(val: real, keys: seq<real>, palette: seq<RGB>, right: int)
    requires 0 < right < |keys| && right < |palette| && keys[right] != keys[right - 1]
    ensures Interpolate(val, keys, palette, right) ==
      Ok(MediumRgb(palette[right - 1], palette[right], Ratio(val, keys[right - 1], keys[right])))
  {
  }

  /** Interpolation at right index 0 wraps the left index round to the last element. */
  lemma InterpolateWrap(val: real, keys: seq<real>, palette: seq<RGB>)
    requires 1 <= |keys| && 1 <= |palette| && keys[0] != keys[|keys| - 1]
    ensures Interpolate(val, keys, palette, 0) ==
      Ok(MediumRgb(palette[|palette| - 1], palette[0], Ratio(val, keys[|keys| - 1], keys[0])))
  {
  }

  /** A value equal to a legend key gets exactly that key's colour. */
  lemma GetHexColorExact(val: real, d: Dict<real, string>, palette: seq<RGB>)
    requires Valid(d) && val in d.keys
    ensures GetHexColor(val, d, palette) == Ok(d.m[val])
  {
  }

  /** A value strictly between the first and last key of a sorted legend, and equal to
      none, is bracketed by keys `j - 1` and `j` with key[j-1] < val < key[j], and
      gets the blend of palette colours `j - 1` and `j` at a ratio strictly inside
      (0, 1); with a valid palette the result is a `#rrggbb` colour. */
  lemma GetHexColorInterior(val: real, d: Dict<real, string>, palette: seq<RGB>) returns (j: nat)
    requires Valid(d) && StrictlySorted(d.keys) && |d.keys| <= |palette|
    requires |d.keys| >= 1 && d.keys[0] < val < d.keys[|d.keys| - 1]
    requires val !in d.keys
    ensures 0 < j < |d.keys| && d.keys[j - 1] < val < d.keys[j]
    ensures var ratio := Ratio(val, d.keys[j - 1], d.keys[j]);
      && 0.0 < ratio < 1.0
      && GetHexColor(val, d, palette) == Ok(RgbToHex(MediumRgb(palette[j - 1], palette[j], ratio)))
    ensures AllValid(palette) ==> IsHexColor(GetHexColor(val, d, palette).value)
  {
    var keys := d.keys;
    BisectSplits(keys, val, 0, |keys|);
    j := BisectRight(keys, val, 0, |keys|);
    assert keys[j - 1] < val by {
      assert keys[j - 1] <= val;
    }
    var lo, hi := keys[j - 1], keys[j];
    var ratio := Ratio(val, lo, hi);
    RatioInside(val, lo, hi);
    assert val !in d.m;
    InterpolateInside(val, keys, palette, j);
    GetHexColorVia(val, d, palette, j, MediumRgb(palette[j - 1], palette[j], ratio));
    if AllValid(palette) {
      MediumBetween(palette[j - 1], palette[j], ratio);
      RgbToHexShape(MediumRgb(palette[j - 1], palette[j], ratio));
    }
  }

  /** A value above every key runs the right index past the end: whatever the
      palette, `IndexError`. */
  lemma GetHexColorAbove(val: real, d: Dict<real, string>, palette: seq<RGB>)
    requires Valid(d) && StrictlySorted(d.keys)
    requires forall i :: 0 <= i < |d.keys| ==> d.keys[i] < val
    ensures GetHexColor(val, d, palette) == Err(IndexError)
  {
    BisectSplits(d.keys, val, 0, |d.keys|);
  }

  /** A value below every key of a legend with at least two keys gets left index -1,
      which Python reads as the last element: the blend runs from the last palette
      colour towards the first with a ratio above 1. */
  lemma GetHexColorBelow(val: real, d: Dict<real, string>, palette: seq<RGB>)
    requires Valid(d) && StrictlySorted(d.keys) && |d.keys| >= 2 && |palette| >= 1
    requires val < d.keys[0]
    ensures d.keys[0] < d.keys[|d.keys| - 1]
    ensures Ratio(val, d.keys[|d.keys| - 1], d.keys[0]) > 1.0
    ensures GetHexColor(val, d, palette) ==
      Ok(RgbToHex(MediumRgb(palette[|palette| - 1], palette[0], Ratio(val, d.keys[|d.keys| - 1], d.keys[0]))))
  {
    BelowEnds(val, d);
    BelowLookup(val, d, palette);
  }

  lemma BelowEnds(val: real, d: Dict<real, string>)
    requires StrictlySorted(d.keys) && |d.keys| >= 2 && val < d.keys[0]
    ensures d.keys[0] < d.keys[|d.keys| - 1]
    ensures Ratio(val, d.keys[|d.keys| - 1], d.keys[0]) > 1.0
  {
    assert d.keys[0] < d.keys[|d.keys| - 1];
    RatioBeyond(val, d.keys[|d.keys| - 1], d.keys[0]);
  }

  lemma BelowLookup(val: real, d: Dict<real, string>, palette: seq<RGB>)
    requires Valid(d) && StrictlySorted(d.keys) && |d.keys| >= 2 && |palette| >= 1
    requires val < d.keys[0] && d.keys[0] < d.keys[|d.keys| - 1]
    ensures GetHexColor(val, d, palette) ==
      Ok(RgbToHex(MediumRgb(palette[|palette| - 1], palette[0], Ratio(val, d.keys[|d.keys| - 1], d.keys[0]))))
  {
    InterpolateWrap(val, d.keys, palette);
    BelowMiss(val, d, palette, MediumRgb(palette[|palette| - 1], palette[0], Ratio(val, d.keys[|d.keys| - 1], d.keys[0])));
  }

  /** Below every key, `bisect` gives right index 0, so the colour is that of the
      interpolation at 0. */
  lemma BelowMiss(val: real, d: Dict<real, string>, palette: seq<RGB>, c: RGB)
    requires Valid(d) && StrictlySorted(d.keys) && |d.keys| >= 1 && val < d.keys[0]
    requires Interpolate(val, d.keys, palette, 0) == Ok(c)
    ensures GetHexColor(val, d, palette) == Ok(RgbToHex(c))
  {
    BisectBelow(d.keys, val);
    BelowAbsent(val, d);
    GetHexColorVia(val, d, palette, 0, c);
  }

  /** A value that is not a key, whose interpolation at the `bisect` index gives `c`,
      gets the hex of `c`. */
  lemma GetHexColorVia(val: real, d: Dict<real, string>, palette: seq<RGB>, right: nat, c: RGB)
    requires Valid(d) && val !in d.m && right == BisectRight(d.keys, val, 0, |d.keys|)
    requires Interpolate(val, d.keys, palette, right) == Ok(c)
    ensures GetHexColor(val, d, palette) == Ok(RgbToHex(c))
  {
    GetHexColorMiss(val, d, palette, right);
    HexOfOk(Interpolate(val, d.keys, palette, right), c);
  }

  lemma HexOfOk(r: Result<RGB>, c: RGB)
    requires r == Ok(c)
    ensures HexOf(r) == Ok(RgbToHex(c))
  {
  }

  lemma BisectBelow(a: seq<real>, x: real)
    requires StrictlySorted(a) && |a| >= 1 && x < a[0]
    ensures BisectRight(a, x, 0, |a|) == 0
  {
    BisectSplits(a, x, 0, |a|);
  }

  lemma BelowAbsent(val: real, d: Dict<real, string>)
    requires Valid(d) && StrictlySorted(d.keys) && |d.keys| >= 1 && val < d.keys[0]
    ensures val !in d.m
  {
    assert forall i :: 0 <= i < |d.keys| ==> val < d.keys[i];
  }

  /** A value that is not a key goes to the interpolation. */
  lemma GetHexColorMiss(val: real, d: Dict<real, string>, palette: seq<RGB>, right: nat)
    requires Valid(d) && val !in d.m && right == BisectRight(d.keys, val, 0, |d.keys|)
    ensures GetHexColor(val, d, palette) == HexOf(Interpolate(val, d.keys, palette, right))
  {
  }

  /** A one-key legend and a value below the key: both neighbours are that key, and
      the ratio divides by zero. */
  lemma GetHexColorSingleKeyBelow(val: real, d: Dict<real, string>, palette: seq<RGB>)
    requires Valid(d) && |d.keys| == 1 && |palette| >= 1 && val < d.keys[0]
    ensures GetHexColor(val, d, palette) == Err(ZeroDivisionError)
  {
  }

  // ---------------------------------------------------------------------
  // make_data_section (continuous): the colour column

  /** Row `k` is the first whose lookup fails, and it fails with `e`. */
  predicate FirstError(vals: seq<real>, d: Dict<real, string>, palette: seq<RGB>, k: int, e: PyError)
    requires Valid(d)
  {
    && 0 <= k < |vals|
    && GetHexColor(vals[k], d, palette) == Err(e)
    && forall i :: 0 <= i < k ==> GetHexColor(vals[i], d, palette).Ok?
  }

  /** The lookup of `val` succeeds with colour `c`. */
  predicate LooksUp(val: real, d: Dict<real, string>, palette: seq<RGB>, c: string)
    requires Valid(d)
  {
    GetHexColor(val, d, palette) == Ok(c)
  }

  /** The lookup `make_data_section` applies to every row. */
  function Lookup(d: Dict<real, string>, palette: seq<RGB>): real -> Result<string>
    requires Valid(d)
  {
    v => GetHexColor(v, d, palette)
  }

  /** The colour column of `make_data_section`: the first row whose lookup raises ends
      it with that error. */
  method MakeColorData(vals: seq<real>, d: Dict<real, string>, palette: seq<RGB>)
    returns (r: Result<seq<string>>)
    requires Valid(d)
    ensures r.Ok? <==> forall i :: 0 <= i < |vals| ==> GetHexColor(vals[i], d, palette).Ok?
    ensures r.Ok? ==> |r.value| == |vals|
    ensures r.Ok? ==> forall i :: 0 <= i < |vals| ==> GetHexColor(vals[i], d, palette) == Ok(r.value[i])
    ensures r.Err? ==> exists k :: FirstError(vals, d, palette, k, r.error)
  {
    r := FillColorData(vals, Lookup(d, palette));
    if r.Err? {
      var k :| 0 <= k < |vals| && Lookup(d, palette)(vals[k]) == Err(r.error)
               && forall i :: 0 <= i < k ==> Lookup(d, palette)(vals[i]).Ok?;
      assert FirstError(vals, d, palette, k, r.error);
    }
  }

  /** The row loop of `make_data_section`: `color_data[index]` is set row by row, and
      the first lookup that raises ends the loop with its error. */
  method FillColorData<A>(vals: seq<A>, f: A -> Result<string>) returns (r: Result<seq<string>>)
    ensures r.Ok? <==> forall i :: 0 <= i < |vals| ==> f(vals[i]).Ok?
    ensures r.Ok? ==> |r.value| == |vals|
    ensures r.Ok? ==> forall i :: 0 <= i < |vals| ==> f(vals[i]) == Ok(r.value[i])
    ensures r.Err? ==> exists k :: 0 <= k < |vals| && f(vals[k]) == Err(r.error)
                                   && forall i :: 0 <= i < k ==> f(vals[i]).Ok?
  {
    var colorData := new string[|vals|](_ => "0");
    var i := 0;
    while i < |vals|
      invariant 0 <= i <= |vals|
      invariant forall j :: 0 <= j < i ==> f(vals[j]) == Ok(colorData[j])
    {
      var hex := f(vals[i]);
      if hex.Err? {
        return Err(hex.error);
      }
      colorData[i] := hex.value;
      i := i + 1;
    }
    r := Ok(colorData[..]);
  }
}
