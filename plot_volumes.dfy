/**
 * Link colours by traffic volume: red grows linearly and green
 * quadratically with the volume, each clamped at 255, and blue is zero.
 */
module PlotVolumes {
  import opened Wrappers
  import opened Text
  import opened PlotHeatmap

  const MAX_VOLUME: int := 1200

  /** floor(255 * volume / MAX_VOLUME), clamped at 255. */
  function Red(volume: int): (red: int)
    ensures red <= 255
    ensures red == 255 || red * MAX_VOLUME <= 255 * volume < (red + 1) * MAX_VOLUME
  {
    var red := (255 * volume) / MAX_VOLUME;
    if red > 255 then 255 else red
  }

  /** floor(255 * volume^2 / (8 * MAX_VOLUME^2)), clamped at 255. */
  function Green(volume: int): (green: int)
    ensures green <= 255
    ensures green == 255 || green * (8 * MAX_VOLUME * MAX_VOLUME) <= 255 * volume * volume < (green + 1) * (8 * MAX_VOLUME * MAX_VOLUME)
  {
    var green := (255 * volume * volume) / (8 * MAX_VOLUME * MAX_VOLUME);
    if green > 255 then 255 else green
  }

  /** `comp_color(volume)`: grey for no traffic, otherwise "#RRGG00". */
  function CompColor(volume: int): (color: string)
    ensures volume == 0 <==> color == "#b3b3b3"
    ensures |color| >= 7 && color[0] == '#'
    ensures volume != 0 ==> color[|color| - 2..] == "00"
  {
    var grey := "#b3b3b3";
    assert |grey| == 7 && grey[0] == '#' && grey[6] == '3';
    if volume == 0 then grey
    else
      var red, green := Hex02(Red(volume)), Hex02(Green(volume));
      var color := "#" + red + green + "00";
      assert |color| == |red| + |green| + 3 >= 7;
      assert color[0] == '#' && color[|color| - 2..] == "00";
      assert color[|color| - 1] != grey[6];
      color
  }

  lemma DivMonotone(a: int, b: int, d: int)
    requires a <= b && d > 0
    ensures a / d <= b / d
  {
    var qa, qb := a / d, b / d;
    if qa > qb {
      ProductAtLeast(qa - qb, d);
    }
  }

  lemma {:induction false} ProductAtLeast(k: int, d: int)
    requires k >= 1 && d > 0
    ensures k * d >= d
  {
    if k > 1 {
      ProductAtLeast(k - 1, d);
    }
  }

  lemma SquareMonotoneInt(a: int, b: int)
    requires 0 <= a <= b
    ensures a * a <= b * b
  {
    assert a * a <= a * b <= b * b;
  }

  /** For non-negative volumes both channels are bytes and never decrease as the volume grows. */
  lemma ChannelsMonotone(v1: int, v2: int)
    requires 0 <= v1 <= v2
    ensures InByte(Red(v1)) && InByte(Green(v1))
    ensures Red(v1) <= Red(v2) && Green(v1) <= Green(v2)
  {
    DivMonotone(255 * v1, 255 * v2, MAX_VOLUME);
    SquareMonotoneInt(v1, v2);
    assert 255 * v1 * v1 <= 255 * v2 * v2;
    DivMonotone(255 * v1 * v1, 255 * v2 * v2, 8 * MAX_VOLUME * MAX_VOLUME);
    DivMonotone(0, 255 * v1 * v1, 8 * MAX_VOLUME * MAX_VOLUME);
    DivMonotone(0, 255 * v1, MAX_VOLUME);
  }

  /** Red saturates from the maximum volume on. */
  lemma RedSaturates(v: int)
    requires v >= 0
    ensures Red(v) == 255 <==> v >= MAX_VOLUME
  {
    if v >= MAX_VOLUME {
      DivMonotone(255 * MAX_VOLUME, 255 * v, MAX_VOLUME);
    } else {
      DivMonotone(255 * v, 255 * (MAX_VOLUME - 1), MAX_VOLUME);
    }
  }

  /** Green saturates from 3395 on, the first volume whose square reaches 8 * MAX_VOLUME^2. */
  lemma GreenSaturates(v: int)
    requires v >= 0
    ensures Green(v) == 255 <==> v >= 3395
  {
    var d := 8 * MAX_VOLUME * MAX_VOLUME;
    if v >= 3395 {
      SquareMonotoneInt(3395, v);
      DivMonotone(255 * 3395 * 3395, 255 * v * v, d);
    } else {
      SquareMonotoneInt(v, 3394);
      DivMonotone(255 * v * v, 255 * 3394 * 3394, d);
    }
  }

  /** "#RRGG00" with byte channels: seven characters whose pairs read back as the channels and zero. */
  lemma RedGreenReadBack(r: int, g: int)
    requires InByte(r) && InByte(g)
    ensures var s := "#" + Hex02(r) + Hex02(g) + "00";
            |s| == 7 && s[0] == '#' && PyIntHex(s[1..3]) == Some(r) && PyIntHex(s[3..5]) == Some(g) && s[5..7] == "00"
  {
    Hex02Byte(r);
    Hex02Byte(g);
    SliceRedGreen(Hex02(r), Hex02(g));
  }

  lemma SliceRedGreen(a: string, b: string)
    requires |a| == 2 && |b| == 2
    ensures var s := "#" + a + b + "00"; |s| == 7 && s[0] == '#' && s[1..3] == a && s[3..5] == b && s[5..7] == "00"
  {
    var s := "#" + a + b + "00";
    assert s[1..3] == a && s[3..5] == b;
  }

  /**
   * No traffic is grey; the colour of a positive volume is seven characters
   * whose pairs read back as red, green and zero.
   */
  lemma CompColorReadBack(v: int)
    requires v >= 0
    ensures v == 0 ==> CompColor(v) == "#b3b3b3"
    ensures v > 0 ==> var s := CompColor(v);
            |s| == 7 && s[0] == '#' && PyIntHex(s[1..3]) == Some(Red(v)) && PyIntHex(s[3..5]) == Some(Green(v))
            && s[5..7] == "00"
  {
    ChannelsMonotone(v, v);
    RedGreenReadBack(Red(v), Green(v));
  }
}
