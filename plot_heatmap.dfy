/**
 * Heat-map colours: reading "#RRGGBBAA" colours, the piecewise-linear colour
 * ramp through a list of base colours, and the two-sided red/blue ramp.
 */
module PlotHeatmap {
  import opened Wrappers
  import opened Text
  import opened Numeric

  /** Red, green, blue and alpha. */
  type Rgba = (int, int, int, int)

  predicate InByte(c: int) { 0 <= c < 256 }

  predicate IsByteColor(c: Rgba) { InByte(c.0) && InByte(c.1) && InByte(c.2) && InByte(c.3) }

  /** Python's `s[a:b]` for 0 <= a <= b: the bounds are cut back to the length. */
  function PySlice(s: string, a: nat, b: nat): (r: string)
    requires a <= b
    ensures b <= |s| ==> r == s[a..b]
  {
    var lo := if a < |s| then a else |s|;
    var hi := if b < |s| then b else |s|;
    s[lo..hi]
  }

  /** The value of the hex pair at `1 + 2 * i`; None when it does not read as hex. */
  function Channel(color: string, i: nat): Option<int>
  {
    PyIntHex(PySlice(color, 1 + 2 * i, 3 + 2 * i))
  }

  /** `html_to_rgba`: the hex pairs at positions 1, 3, 5 and 7; one that does not read as hex raises. */
  function HtmlToRgba(color: string): (r: Option<Rgba>)
    ensures r.Some? <==> Channel(color, 0).Some? && Channel(color, 1).Some? && Channel(color, 2).Some? && Channel(color, 3).Some?
    ensures r.Some? ==> Channel(color, 0) == Some(r.value.0) && Channel(color, 1) == Some(r.value.1)
                        && Channel(color, 2) == Some(r.value.2) && Channel(color, 3) == Some(r.value.3)
  {
    match (Channel(color, 0), Channel(color, 1), Channel(color, 2), Channel(color, 3))
    case (Some(red), Some(green), Some(blue), Some(alpha)) => Some((red, green, blue, alpha))
    case _ => None
  }

  /** `f'#{red:02x}{green:02x}{blue:02x}{alpha:02x}'`. */
  function FormatRgba(c: Rgba): (s: string)
    ensures |s| >= 9 && s[0] == '#'
    ensures IsByteColor(c) ==> |s| == 9
  {
    "#" + Hex02(c.0) + Hex02(c.1) + Hex02(c.2) + Hex02(c.3)
  }

  /** A byte is written as exactly two hex digits, which read back as it. */
  lemma Hex02Byte(n: int)
    requires InByte(n)
    ensures |Hex02(n)| == 2 && PyIntHex(Hex02(n)) == Some(n)
  {
    HexLength(n);
    PyIntHex02(n);
  }

  /** The pairs of "#" followed by four two-character strings are those strings. */
  lemma SlicePairs(a: string, b: string, c: string, d: string)
    requires |a| == 2 && |b| == 2 && |c| == 2 && |d| == 2
    ensures var s := "#" + a + b + c + d;
            PySlice(s, 1, 3) == a && PySlice(s, 3, 5) == b && PySlice(s, 5, 7) == c && PySlice(s, 7, 9) == d
  {
    var s := "#" + a + b + c + d;
    assert s[1..3] == a && s[3..5] == b && s[5..7] == c && s[7..9] == d;
  }

  /** Reading back a formatted colour of byte channels gives the channels (the round trip). */
  lemma HtmlToRgbaOfFormat(c: Rgba)
    requires IsByteColor(c)
    ensures HtmlToRgba(FormatRgba(c)) == Some(c)
  {
    Hex02Byte(c.0);
    Hex02Byte(c.1);
    Hex02Byte(c.2);
    Hex02Byte(c.3);
    SlicePairs(Hex02(c.0), Hex02(c.1), Hex02(c.2), Hex02(c.3));
  }

  /** The lower end i/n of range i. */
  function Lo(i: int, n: int): real
    requires n > 0
  {
    (i as real) / (n as real)
  }

  /** `i / n <= val` is `i <= val * n`. */
  lemma LoBelow(i: int, n: int, val: real)
    requires n > 0
    ensures Lo(i, n) <= val <==> (i as real) <= val * (n as real)
  {
    var q := Lo(i, n);
    assert q * (n as real) == i as real;
    if q <= val {
      assert q * (n as real) <= val * (n as real);
    } else {
      assert val * (n as real) < q * (n as real);
    }
  }

  /** In range i, val lies less than one range width past i / n. */
  lemma RangeOffset(val: real, n: int, i: int, v: real)
    requires n > 0 && Lo(i, n) <= val < Lo(i + 1, n) && v == val - Lo(i, n)
    ensures 0.0 <= (n as real) * v < 1.0
  {
    LoBelow(i, n, val);
    LoBelow(i + 1, n, val);
    var q := Lo(i, n);
    assert q * (n as real) == i as real;
    var m := val * (n as real);
    assert (i as real) <= m < (i as real) + 1.0;
    assert (n as real) * v == m - (i as real);
  }

  /** The first of the ranges i, i + 1, ..., n - 1 holding `val`, as the loop of `get_color` finds it. */
  function FindRange(val: real, n: int, i: nat): (r: Option<nat>)
    requires n > 0
    ensures r.Some? ==> i <= r.value < n && Lo(r.value, n) <= val < Lo(r.value + 1, n)
    decreases n - i
  {
    if i >= n then None
    else if Lo(i, n) <= val < Lo(i + 1, n) then Some(i)
    else FindRange(val, n, i + 1)
  }

  /** Range i + 1 starts no lower than range i, and range i starts at most at 1 when i <= n. */
  lemma LoSteps(i: int, n: int)
    requires n > 0
    ensures Lo(i, n) <= Lo(i + 1, n)
    ensures i <= n ==> Lo(i, n) <= 1.0
  {
    var q := Lo(i + 1, n);
    assert q * (n as real) == (i + 1) as real;
    LoBelow(i, n, q);
    LoBelow(i, n, 1.0);
  }

  /** A value in range k has floor(val * n) == k. */
  lemma RangeFloor(val: real, n: int, k: int)
    requires n > 0 && Lo(k, n) <= val < Lo(k + 1, n)
    ensures (val * (n as real)).Floor == k
  {
    LoBelow(k, n, val);
    LoBelow(k + 1, n, val);
  }

  /** From range i on, a range is found exactly when i / n <= val < 1, and it is floor(val * n). */
  lemma {:induction false} FindRangeFrom(val: real, n: int, i: nat)
    requires n > 0 && i <= n
    ensures FindRange(val, n, i).Some? <==> Lo(i, n) <= val < 1.0
    ensures FindRange(val, n, i).Some? ==> FindRange(val, n, i).value == (val * (n as real)).Floor
    decreases n - i
  {
    LoSteps(i, n);
    if i == n {
      assert Lo(n, n) == 1.0;
    } else if !(Lo(i, n) <= val < Lo(i + 1, n)) {
      FindRangeFrom(val, n, i + 1);
    } else {
      RangeFloor(val, n, i);
    }
  }

  /**
   * The ranges cover [0, 1): a range is found exactly for those values, it
   * is range floor(val * n), and val lies less than one range width into it.
   */
  lemma FindRangeCovers(val: real, n: int)
    requires n > 0
    ensures FindRange(val, n, 0).Some? <==> 0.0 <= val < 1.0
    ensures FindRange(val, n, 0).Some? ==>
              var i := FindRange(val, n, 0).value;
              i == (val * (n as real)).Floor && 0.0 <= (n as real) * (val - Lo(i, n)) < 1.0
  {
    FindRangeFrom(val, n, 0);
    if 0.0 <= val < 1.0 {
      var i := FindRange(val, n, 0).value;
      RangeOffset(val, n, i, val - Lo(i, n));
    }
  }

  /** `floor(c1 + d * n * v)`, one interpolated channel. */
  function Ramp(c1: int, c2: int, n: int, v: real): int
  {
    ((c1 as real) + ((c2 - c1) as real) * (n as real) * v).Floor
  }

  /** Within its range the interpolation stays between the two end colours, and starts at the first. */
  lemma RampBetween(c1: int, c2: int, n: int, v: real)
    requires 0.0 <= (n as real) * v < 1.0
    ensures (c1 <= c2 ==> c1 <= Ramp(c1, c2, n, v) <= c2) && (c2 <= c1 ==> c2 <= Ramp(c1, c2, n, v) <= c1)
    ensures v == 0.0 ==> Ramp(c1, c2, n, v) == c1
  {
    var t := (n as real) * v;
    var d := (c2 - c1) as real;
    assert d * (n as real) * v == d * t;
    Scaled(d, t, d * t);
  }

  /** The colour of range i at offset v into it; alpha is 255 unless it is interpolated too. */
  function RangeColor(c1: Rgba, c2: Rgba, n: int, v: real, useAlpha: bool): Rgba
  {
    (Ramp(c1.0, c2.0, n, v), Ramp(c1.1, c2.1, n, v), Ramp(c1.2, c2.2, n, v),
     if useAlpha then Ramp(c1.3, c2.3, n, v) else 255)
  }

  /** The channels `get_color` computes, before they are formatted. */
  function GetColorRgba(val: real, base: seq<Rgba>, useAlpha: bool): (r: Option<Rgba>)
  {
    var n := |base| - 1;
    if n <= 0 then None
    else match FindRange(val, n, 0)
      case None => None
      case Some(i) => Some(RangeColor(base[i], base[i + 1], n, val - Lo(i, n), useAlpha))
  }

  /**
   * `get_color(val, base, use_alpha)`: the range [i/n, (i+1)/n) holding val,
   * n being one less than the number of base colours, then the colour
   * interpolated from base[i] to base[i + 1]. A value in no range gives None.
   */
  function GetColor(val: real, base: seq<Rgba>, useAlpha: bool): (r: Option<string>)
    ensures r.Some? <==> |base| >= 2 && 0.0 <= val < 1.0
    ensures r.Some? ==> |r.value| >= 9 && r.value[0] == '#'
  {
    GetColorRange(val, base, useAlpha);
    match GetColorRgba(val, base, useAlpha)
    case None => None
    case Some(c) => Some(FormatRgba(c))
  }

  predicate ByteBase(base: seq<Rgba>)
  {
    forall i :: 0 <= i < |base| ==> IsByteColor(base[i])
  }

  /**
   * A colour is given exactly for val in [0, 1) (and at least two base
   * colours); it is the interpolation in the range holding val.
   */
  lemma GetColorRange(val: real, base: seq<Rgba>, useAlpha: bool)
    ensures GetColorRgba(val, base, useAlpha).Some? <==> |base| >= 2 && 0.0 <= val < 1.0
    ensures GetColorRgba(val, base, useAlpha).Some? ==>
              var n := |base| - 1;
              FindRange(val, n, 0).Some? &&
              var i := FindRange(val, n, 0).value;
              GetColorRgba(val, base, useAlpha).value == RangeColor(base[i], base[i + 1], n, val - Lo(i, n), useAlpha)
  {
    if |base| >= 2 {
      FindRangeCovers(val, |base| - 1);
    }
  }

  /**
   * Within a range every channel stays between those of the range's two
   * base colours, and at the range's start it is the first colour's (alpha
   * 255 when alpha is not interpolated).
   */
  lemma RangeColorBetween(c1: Rgba, c2: Rgba, n: int, v: real, useAlpha: bool)
    requires 0.0 <= (n as real) * v < 1.0
    ensures var c := RangeColor(c1, c2, n, v, useAlpha);
            Between(c1.0, c.0, c2.0) && Between(c1.1, c.1, c2.1) && Between(c1.2, c.2, c2.2)
            && (useAlpha ==> Between(c1.3, c.3, c2.3)) && (!useAlpha ==> c.3 == 255)
            && (v == 0.0 ==> c == (c1.0, c1.1, c1.2, if useAlpha then c1.3 else 255))
  {
    RampBetween(c1.0, c2.0, n, v);
    RampBetween(c1.1, c2.1, n, v);
    RampBetween(c1.2, c2.2, n, v);
    RampBetween(c1.3, c2.3, n, v);
  }

  /**
   * The colour of val stays between the base colours around it (those of
   * range floor(val * n), by `FindRangeCovers`), and at val = i / n it is
   * base[i]'s.
   */
  lemma GetColorBetween(val: real, base: seq<Rgba>, useAlpha: bool)
    requires |base| >= 2 && 0.0 <= val < 1.0
    ensures var n := |base| - 1;
            FindRange(val, n, 0).Some? &&
            var i := FindRange(val, n, 0).value;
            0 <= i < n && GetColorRgba(val, base, useAlpha).Some? &&
            var c := GetColorRgba(val, base, useAlpha).value;
            Between(base[i].0, c.0, base[i + 1].0) && Between(base[i].1, c.1, base[i + 1].1)
            && Between(base[i].2, c.2, base[i + 1].2) && (useAlpha ==> Between(base[i].3, c.3, base[i + 1].3))
            && (!useAlpha ==> c.3 == 255)
            && (val == Lo(i, n) ==> c == (base[i].0, base[i].1, base[i].2, if useAlpha then base[i].3 else 255))
  {
    GetColorRange(val, base, useAlpha);
    var n := |base| - 1;
    var i := FindRange(val, n, 0).value;
    var v := val - Lo(i, n);
    RangeOffset(val, n, i, v);
    RangeColorBetween(base[i], base[i + 1], n, v, useAlpha);
  }

  /** x lies between a and b, in either order. */
  predicate Between(a: int, x: int, b: int)
  {
    (a <= x <= b) || (b <= x <= a)
  }

  /** With byte base colours the ramp's colour is written so that it reads back as its channels. */
  lemma GetColorReadBack(val: real, base: seq<Rgba>, useAlpha: bool)
    requires |base| >= 2 && ByteBase(base) && 0.0 <= val < 1.0
    ensures GetColor(val, base, useAlpha).Some?
    ensures HtmlToRgba(GetColor(val, base, useAlpha).value) == GetColorRgba(val, base, useAlpha)
  {
    GetColorBetween(val, base, useAlpha);
    var n := |base| - 1;
    var i := FindRange(val, n, 0).value;
    assert IsByteColor(base[i]) && IsByteColor(base[i + 1]);
    HtmlToRgbaOfFormat(GetColorRgba(val, base, useAlpha).value);
  }

  /** Every entry of a 256-colour map `[get_color(k / 256, base) for k in range(256)]` exists. */
  lemma ColorMapDefined(base: seq<Rgba>, useAlpha: bool, k: int)
    requires |base| >= 2 && 0 <= k < 256
    ensures GetColor((k as real) / 256.0, base, useAlpha).Some?
  {
    GetColorRange((k as real) / 256.0, base, useAlpha);
  }

  /** The channels of `get_rgb(x)`: red and green rise above one half, blue falls below it. */
  function RgbChannels(x: real): (c: Rgba)
  {
    var red := if x > 0.5 then (255.0 * x).Floor else 0;
    var green := if x > 0.5 then (255.0 * x).Floor else 0;
    var blue := if x < 0.5 then (255.0 * (1.0 - x)).Floor else 0;
    (red, green, blue, (((765 - red - green - blue) as real) / 3.0).Floor)
  }

  /** `get_rgb(x)`. */
  function GetRgb(x: real): (color: string)
    ensures |color| >= 9 && color[0] == '#'
    ensures 0.0 <= x <= 1.0 ==> HtmlToRgba(color) == Some(RgbChannels(x))
  {
    var c := RgbChannels(x);
    if 0.0 <= x <= 1.0 then
      RgbChannelsBytes(x);
      HtmlToRgbaOfFormat(c);
      FormatRgba(c)
    else
      FormatRgba(c)
  }

  /** For x in [0, 1] every channel of `get_rgb` is a byte. */
  lemma RgbChannelsBytes(x: real)
    requires 0.0 <= x <= 1.0
    ensures IsByteColor(RgbChannels(x))
  {
    if x > 0.5 {
      assert 127.5 < 255.0 * x <= 255.0;
    }
    if x < 0.5 {
      assert 127.5 < 255.0 * (1.0 - x) <= 255.0;
    }
  }

  /**
   * For x in [0, 1] every channel is a byte, so the colour reads back; red
   * and green are equal, at most one of red and blue is non-zero, and the
   * alpha leaves room for the other channels: 3 * a + r + g + b is within 2
   * of 765.
   */
  lemma GetRgbReadBack(x: real)
    requires 0.0 <= x <= 1.0
    ensures var c := RgbChannels(x);
            IsByteColor(c) && HtmlToRgba(GetRgb(x)) == Some(c)
            && c.0 == c.1 && (c.0 == 0 || c.2 == 0)
            && 763 <= 3 * c.3 + c.0 + c.1 + c.2 <= 765
  {
    RgbChannelsBytes(x);
  }

  /** The ends and the middle of the ramp: blue at 0, black at one half, yellow at 1. */
  lemma GetRgbEnds()
    ensures RgbChannels(0.0) == (0, 0, 255, 170)
    ensures RgbChannels(0.5) == (0, 0, 0, 255)
    ensures RgbChannels(1.0) == (255, 255, 0, 85)
  {
  }
}
