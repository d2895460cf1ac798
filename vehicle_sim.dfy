/**
 * Vehicle snapshots of the crate: the `Agent` value, its construction from
 * a snapshot record, and the textual timestamps "[day@]hour:minute[:second]"
 * that records carry, with the formatter and parser the serde attribute
 * pairs up and the range checks on numeric timestamps.
 */
module VehicleSim {
  import opened Wrappers
  import opened Text
  import opened MachineInts
  import opened Geo

  /** A snapshot of one vehicle: its id, its time in seconds and its position. */
  datatype Agent = Agent(id: U32, time: U32, position: Coords)

  /** A raw snapshot record: vehicle, time, link, direction, lane, offset, driver and the coordinates. */
  datatype AgentRecord = AgentRecord(vehicle: U32, time: U32, link: U16, direction: U8, lane: U8,
                                     offset: real, driver: U32, x: real, y: real)

  /** `AgentRecord::position`. */
  function RecordPosition(r: AgentRecord): (p: Coords)
    ensures p.x == r.x && p.y == r.y
  {
    Coords(r.x, r.y)
  }

  /** `Agent::from(record)` (owned or borrowed): vehicle becomes the id, the time is kept, the coordinates become the position. */
  function FromRecord(r: AgentRecord): (a: Agent)
    ensures a.id == r.vehicle && a.time == r.time && a.position == RecordPosition(r)
  {
    Agent(r.vehicle, r.time, RecordPosition(r))
  }

  /** Two records that agree on vehicle, time and coordinates give the same agent; the other fields are dropped. */
  lemma FromRecordKeeps(r1: AgentRecord, r2: AgentRecord)
    ensures FromRecord(r1) == FromRecord(r2) <==> r1.vehicle == r2.vehicle && r1.time == r2.time && r1.x == r2.x && r1.y == r2.y
  {
  }

  /** `{:02}` of a natural number. */
  function Padded2(n: nat): (s: string)
    ensures |s| >= 2 && AllDigits(s)
  {
    var d := Decimal(n);
    var r := ZeroPad(d, 2);
    assert AllDigits(r) by {
      forall i | 0 <= i < |r|
        ensures IsDigit(r[i])
      {
        if i >= |r| - |d| {
          assert r[i] == r[|r| - |d|..][i - (|r| - |d|)];
        }
      }
    }
    r
  }

  /**
   * `format_time`: the day count zero-padded to two digits and an '@' when
   * there is a day, the hour unpadded, ':' and the minute zero-padded to two
   * digits, and ':' with the second zero-padded when the second is not 0.
   */
  function FormatTime(t: U32): (s: string)
    ensures |s| >= 4
    ensures t < 86400 ==> s == ClockText(t / 3600, (t % 3600) / 60, t % 60)
  {
    var days, rest := t / 86400, t % 86400;
    var hours, rest2 := rest / 3600, rest % 3600;
    var minutes, seconds := rest2 / 60, rest2 % 60;
    var s := FormatFields(days, hours, minutes, seconds);
    if t < 86400 then
      WithinDay(t);
      assert days == 0 && rest == t;
      assert hours == t / 3600 && rest2 == t % 3600;
      SecondsOfHour(t);
      assert s == "" + ClockText(t / 3600, (t % 3600) / 60, t % 60);
      s
    else s
  }

  /** Within an hour, minutes and seconds: the seconds of the minute are those of the time. */
  lemma SecondsOfHour(t: nat)
    ensures (t % 3600) % 60 == t % 60
  {
  }

  /** A time below one day has day 0 and is its own remainder. */
  lemma WithinDay(t: nat)
    ensures t < 86400 ==> t / 86400 == 0 && t % 86400 == t
  {
  }

  /** The text `format_time` writes for a day, an hour, a minute and a second. */
  function FormatFields(days: nat, hours: nat, minutes: nat, seconds: nat): (s: string)
    ensures |s| >= |ClockText(hours, minutes, seconds)|
  {
    DayPrefix(days) + ClockText(hours, minutes, seconds)
  }

  /** The day zero-padded to two digits and '@', or nothing on day 0. */
  function DayPrefix(days: nat): string
  {
    if days > 0 then Padded2(days) + "@" else ""
  }

  /** The hour, ':' and the padded minute, then ':' and the padded second unless it is 0. */
  function ClockText(hours: nat, minutes: nat, seconds: nat): (s: string)
    ensures |s| >= 4
  {
    Decimal(hours) + ":" + Padded2(minutes) + (if seconds > 0 then ":" + Padded2(seconds) else "")
  }

  /** `rsplit(sep)`: the pieces of `split(sep)`, last first. */
  function RSplit(s: string, sep: char): (parts: seq<string>)
    ensures |parts| == |Split(s, sep)|
    ensures forall k :: 0 <= k < |parts| ==> parts[k] == Split(s, sep)[|parts| - 1 - k]
  {
    var p := Split(s, sep);
    seq(|p|, k requires 0 <= k < |p| => p[|p| - 1 - k])
  }

  /** A text without the separator is its own only piece. */
  lemma RSplitWithout(s: string, sep: char)
    requires sep !in s
    ensures RSplit(s, sep) == [s]
  {
    SplitWithout(s, sep);
  }

  /** Two separator-free pieces come back last first. */
  lemma RSplitPair(a: string, b: string, sep: char)
    requires sep !in a && sep !in b
    ensures RSplit(a + [sep] + b, sep) == [b, a]
  {
    SplitPair(a, b, sep);
    var r := RSplit(a + [sep] + b, sep);
    assert r[0] == b && r[1] == a;
  }

  /** A field parsed with `parse::<u32>()`, the failure reported with the panic message `err`. */
  function Field(s: string, err: string): (r: Result<nat>)
    ensures r.Ok? <==> ParseU32(s).Some?
    ensures r.Ok? ==> r.value == ParseU32(s).value <= U32_MAX
    ensures r.Err? ==> r.error == err
  {
    var v := ParseU32(s);
    if v.Some? then Ok(v.value) else Err(err)
  }

  /** An optional field: absent means 0. */
  function OptionalField(parts: seq<string>, k: nat, err: string): (r: Result<nat>)
    ensures k >= |parts| ==> r == Ok(0)
    ensures k < |parts| ==> r == Field(parts[k], err)
  {
    if k < |parts| then Field(parts[k], err) else Ok(0)
  }

  /** `day * 86400 + hour * 3600 + minute * 60 + second` in `u32`, whose overflow panics. */
  function Total(day: nat, hour: nat, minute: nat, second: nat): (r: Result<U32>)
    ensures r.Ok? <==> day * 86400 + hour * 3600 + minute * 60 + second <= U32_MAX
    ensures r.Ok? ==> r.value == day * 86400 + hour * 3600 + minute * 60 + second
  {
    var total := day * 86400 + hour * 3600 + minute * 60 + second;
    if total <= U32_MAX then Ok(total) else Err("attempt to add with overflow")
  }

  /**
   * `parse_timestamp` with its panics as errors: the part after the last '@'
   * is split on ':' into hour, minute and an optional second (later pieces
   * are ignored), the piece before that '@', when there is one, is the day,
   * and the total in seconds must fit in 32 bits.
   */
  function ParseTimestamp(ts: string): (r: Result<U32>)
    ensures ts == "" ==> r == Err("invalid hour")
    ensures r.Err? ==> r.error in {"invalid hour", "could not get minute", "invalid minute", "invalid second",
                                   "invalid day", "attempt to add with overflow"}
  {
    var split1 := RSplit(ts, '@');
    var split2 := Split(split1[0], ':');
    var hour := Field(split2[0], "invalid hour");
    if hour.Err? then Err(hour.error)
    else if |split2| < 2 then Err("could not get minute")
    else
      var minute := Field(split2[1], "invalid minute");
      if minute.Err? then Err(minute.error)
      else
        var second := OptionalField(split2, 2, "invalid second");
        if second.Err? then Err(second.error)
        else
          var day := OptionalField(split1, 1, "invalid day");
          if day.Err? then Err(day.error)
          else Total(day.value, hour.value, minute.value, second.value)
  }

  /**
   * `parse_timestamp` on a text whose pieces are known: the hour and minute
   * fields read `h` and `m`, the second field `sec` or is absent, and the day
   * piece `d` or is absent.
   */
  lemma ParseOfPieces(ts: string, split1: seq<string>, split2: seq<string>, d: nat, h: nat, m: nat, sec: nat)
    requires split1 == RSplit(ts, '@') && split2 == Split(split1[0], ':') && |split2| >= 2
    requires ParseU32(split2[0]) == Some(h) && ParseU32(split2[1]) == Some(m)
    requires if |split2| > 2 then ParseU32(split2[2]) == Some(sec) else sec == 0
    requires if |split1| > 1 then ParseU32(split1[1]) == Some(d) else d == 0
    ensures ParseTimestamp(ts) == Total(d, h, m, sec)
  {
  }

  /** `parse_timestamp` stops at the hour or the minute when one is missing or not a number. */
  lemma ParseOfBadPieces(ts: string, split1: seq<string>, split2: seq<string>)
    requires split1 == RSplit(ts, '@') && split2 == Split(split1[0], ':')
    ensures ParseU32(split2[0]).None? ==> ParseTimestamp(ts) == Err("invalid hour")
    ensures ParseU32(split2[0]).Some? && |split2| < 2 ==> ParseTimestamp(ts) == Err("could not get minute")
    ensures ParseU32(split2[0]).Some? && |split2| >= 2 && ParseU32(split2[1]).None? ==> ParseTimestamp(ts) == Err("invalid minute")
  {
  }

  /** A day, an hour, a minute and a second written in digits. */
  lemma ParseDigitFields(ts: string, dd: string, hh: string, mm: string, ss: string)
    requires Readable(dd) && Readable(hh) && Readable(mm) && Readable(ss)
    requires ts == dd + ['@'] + (hh + [':'] + mm + [':'] + ss)
    ensures ParseTimestamp(ts) == Total(DigitsValue(dd), DigitsValue(hh), DigitsValue(mm), DigitsValue(ss))
  {
    var hms := hh + [':'] + mm + [':'] + ss;
    ReadableField(dd);
    ReadableField(hh);
    ReadableField(mm);
    ReadableField(ss);
    ClockFieldsSplit(hh, mm, ss);
    RSplitPair(dd, hms, '@');
    ParseOfNamedPieces(ts, hms, dd, hh, mm, ss, DigitsValue(dd), DigitsValue(hh), DigitsValue(mm), DigitsValue(ss));
  }

  /** A field in digits holds no separator and parses to its value. */
  lemma ReadableField(s: string)
    requires Readable(s)
    ensures '@' !in s && ':' !in s && ParseU32(s) == Some(DigitsValue(s))
  {
    DigitsNoSeparator(s);
    ParseU32Digits(s);
  }

  /** Three separator-free fields joined by colons split back into them and hold no '@'. */
  lemma ClockFieldsSplit(hh: string, mm: string, ss: string)
    requires '@' !in hh && '@' !in mm && '@' !in ss
    requires ':' !in hh && ':' !in mm && ':' !in ss
    ensures '@' !in hh + [':'] + mm + [':'] + ss
    ensures Split(hh + [':'] + mm + [':'] + ss, ':') == [hh, mm, ss]
  {
    SplitTriple(hh, mm, ss, ':');
  }

  /** `ParseOfPieces` for a day and three clock fields. */
  lemma ParseOfNamedPieces(ts: string, hms: string, dd: string, hh: string, mm: string, ss: string, d: nat, h: nat, m: nat, sec: nat)
    requires RSplit(ts, '@') == [hms, dd] && Split(hms, ':') == [hh, mm, ss]
    requires ParseU32(dd) == Some(d) && ParseU32(hh) == Some(h) && ParseU32(mm) == Some(m) && ParseU32(ss) == Some(sec)
    ensures ParseTimestamp(ts) == Total(d, h, m, sec)
  {
    ParseOfPieces(ts, [hms, dd], [hh, mm, ss], d, h, m, sec);
  }

  /** An hour, a minute and a second written in digits, with no day. */
  lemma ParseClockFields(hh: string, mm: string, ss: string)
    requires Readable(hh) && Readable(mm) && Readable(ss)
    ensures ParseTimestamp(hh + ":" + mm + ":" + ss) == Total(0, DigitsValue(hh), DigitsValue(mm), DigitsValue(ss))
  {
    var hms := hh + ":" + mm + ":" + ss;
    HmsPieces(hh, mm, ss);
    RSplitWithout(hms, '@');
    ParseU32Digits(hh);
    ParseU32Digits(mm);
    ParseU32Digits(ss);
    ParseOfPieces(hms, [hms], [hh, mm, ss], 0, DigitsValue(hh), DigitsValue(mm), DigitsValue(ss));
  }

  /** An hour and a minute written in digits, with no day and no second. */
  lemma ParseHourMinute(hh: string, mm: string)
    requires Readable(hh) && Readable(mm)
    ensures ParseTimestamp(hh + ":" + mm) == Total(0, DigitsValue(hh), DigitsValue(mm), 0)
  {
    var hm := hh + ":" + mm;
    HmsPieces(hh, mm, "");
    RSplitWithout(hm, '@');
    ParseU32Digits(hh);
    ParseU32Digits(mm);
    ParseOfPieces(hm, [hm], [hh, mm], 0, DigitsValue(hh), DigitsValue(mm), 0);
  }

  /** A field `u32::from_str` accepts as written: digits only, of a value that fits. */
  predicate Readable(s: string)
  {
    |s| > 0 && AllDigits(s) && DigitsValue(s) <= U32_MAX
  }

  /** The examples documented with `parse_timestamp`. */
  lemma ParseExamples()
    ensures ParseTimestamp("1@0:59:30") == Ok(89970)
    ensures ParseTimestamp("2:48:30") == Ok(10110)
    ensures ParseTimestamp("0:02") == Ok(120)
  {
    ParseDayExample();
    ParseClockExample();
    ParseShortExample();
  }

  lemma ParseDayExample()
    ensures ParseTimestamp("1@0:59:30") == Ok(89970)
  {
    ExampleDigits();
    assert "1@0:59:30" == "1" + ['@'] + ("0" + [':'] + "59" + [':'] + "30");
    ParseDigitFields("1@0:59:30", "1", "0", "59", "30");
  }

  lemma ParseClockExample()
    ensures ParseTimestamp("2:48:30") == Ok(10110)
  {
    ExampleDigits();
    assert "2:48:30" == "2" + ":" + "48" + ":" + "30";
    ParseClockFields("2", "48", "30");
  }

  lemma ParseShortExample()
    ensures ParseTimestamp("0:02") == Ok(120)
  {
    ExampleDigits();
    assert "0:02" == "0" + ":" + "02";
    ParseHourMinute("0", "02");
  }

  /** The values of the digit fields of the examples. */
  lemma ExampleDigits()
    ensures Readable("0") && DigitsValue("0") == 0
    ensures Readable("1") && DigitsValue("1") == 1
    ensures Readable("2") && DigitsValue("2") == 2
    ensures Readable("02") && DigitsValue("02") == 2
    ensures Readable("30") && DigitsValue("30") == 30
    ensures Readable("48") && DigitsValue("48") == 48
    ensures Readable("59") && DigitsValue("59") == 59
    ensures Readable("12") && DigitsValue("12") == 12
  {
    assert DigitsValue("0") == 0 && DigitsValue("1") == 1 && DigitsValue("2") == 2 by {
      assert "0"[..0] == "" && "1"[..0] == "" && "2"[..0] == "";
    }
    assert DigitsValue("02") == 2 by { assert "02"[..1] == "0"; }
    assert DigitsValue("30") == 30 by { assert "30"[..1] == "3"; }
    assert DigitsValue("48") == 48 by { assert "48"[..1] == "4"; }
    assert DigitsValue("59") == 59 by { assert "59"[..1] == "5"; }
    assert DigitsValue("12") == 12 by { assert "12"[..1] == "1"; }
  }

  /** A missing minute, or an hour or minute that is not a number, is an error. */
  lemma ParseRejects()
    ensures ParseTimestamp("12") == Err("could not get minute")
    ensures ParseTimestamp("x:05") == Err("invalid hour")
    ensures ParseTimestamp("1:") == Err("invalid minute")
  {
    ExampleDigits();
    RejectNoMinute("12");
    assert ParseTimestamp("x:05") == Err("invalid hour") by {
      assert "x:05" == "x" + [':'] + "05";
      RejectBadHour("x", "05");
    }
    assert ParseTimestamp("1:") == Err("invalid minute") by {
      assert "1:" == "1" + [':'] + "";
      RejectEmptyMinute("1");
    }
  }

  /** One field of digits and no ':': the minute is missing. */
  lemma RejectNoMinute(hh: string)
    requires Readable(hh)
    ensures ParseTimestamp(hh) == Err("could not get minute")
  {
    DigitsNoSeparator(hh);
    RSplitWithout(hh, '@');
    SplitWithout(hh, ':');
    ParseU32Digits(hh);
    ParseOfBadPieces(hh, [hh], [hh]);
  }

  /** An hour field that does not start with a digit or '+' is rejected. */
  lemma RejectBadHour(hh: string, mm: string)
    requires |hh| > 0 && !IsDigit(hh[0]) && hh[0] != '+' && '@' !in hh && ':' !in hh && '@' !in mm && ':' !in mm
    ensures ParseTimestamp(hh + [':'] + mm) == Err("invalid hour")
  {
    var ts := hh + [':'] + mm;
    assert '@' !in ts;
    RSplitWithout(ts, '@');
    SplitPair(hh, mm, ':');
    ParseOfBadPieces(ts, [ts], [hh, mm]);
  }

  /** A readable hour and an empty minute field. */
  lemma RejectEmptyMinute(hh: string)
    requires Readable(hh)
    ensures ParseTimestamp(hh + [':'] + "") == Err("invalid minute")
  {
    var ts := hh + [':'] + "";
    DigitsNoSeparator(hh);
    assert '@' !in ts;
    RSplitWithout(ts, '@');
    SplitPair(hh, "", ':');
    ParseU32Digits(hh);
    ParseOfBadPieces(ts, [ts], [hh, ""]);
  }

  /** A string of digits holds no separator. */
  lemma DigitsNoSeparator(s: string)
    requires AllDigits(s)
    ensures '@' !in s && ':' !in s
  {
  }

  /** The zero-padded rendering of `n` parses back to `n`. */
  lemma Padded2Parses(n: nat)
    requires n <= U32_MAX
    ensures ParseU32(Padded2(n)) == Some(n)
  {
    ParseU32Padded(n, 2);
  }

  /** The hour, minute and second text of `format_time`, and the pieces `parse_timestamp` splits it into. */
  lemma HmsPieces(h: string, m: string, sec: string)
    requires AllDigits(h) && AllDigits(m) && AllDigits(sec)
    ensures '@' !in h + ":" + m + ":" + sec && '@' !in h + ":" + m
    ensures Split(h + ":" + m + ":" + sec, ':') == [h, m, sec]
    ensures Split(h + ":" + m, ':') == [h, m]
  {
    DigitsNoSeparator(h);
    DigitsNoSeparator(m);
    DigitsNoSeparator(sec);
    assert h + ":" + m + ":" + sec == h + [':'] + m + [':'] + sec;
    SplitTriple(h, m, sec, ':');
    assert h + ":" + m == h + [':'] + m;
    SplitPair(h, m, ':');
  }

  /** The day, hour, minute and second that `format_time` takes apart add back up to the time. */
  lemma Breakdown(t: nat, days: nat, rest: nat, hours: nat, rest2: nat, minutes: nat, seconds: nat)
    requires days == t / 86400 && rest == t % 86400
    requires hours == rest / 3600 && rest2 == rest % 3600
    requires minutes == rest2 / 60 && seconds == rest2 % 60
    ensures days * 86400 + hours * 3600 + minutes * 60 + seconds == t
    ensures hours < 24 && minutes < 60 && seconds < 60 && days <= t
  {
  }

  /** The day, hour, minute and second `format_time` writes for `t`, which add back up to `t`. */
  lemma FormatPieces(t: U32) returns (d: nat, h: nat, m: nat, sec: nat)
    ensures d * 86400 + h * 3600 + m * 60 + sec == t
    ensures h < 24 && m < 60 && sec < 60 && (d > 0 <==> t >= 86400)
    ensures FormatTime(t) == DayPrefix(d) + ClockText(h, m, sec)
  {
    var rest := t % 86400;
    var rest2 := rest % 3600;
    d, h := t / 86400, rest / 3600;
    m, sec := rest2 / 60, rest2 % 60;
    Breakdown(t, d, rest, h, rest2, m, sec);
    assert FormatTime(t) == FormatFields(d, h, m, sec);
  }

  /** The ':'-separated fields of the clock text, which holds no '@'. */
  lemma ClockPieces(h: nat, m: nat, sec: nat) returns (fields: seq<string>)
    ensures |fields| == (if sec > 0 then 3 else 2)
    ensures fields[0] == Decimal(h) && fields[1] == Padded2(m) && (sec > 0 ==> fields[2] == Padded2(sec))
    ensures '@' !in ClockText(h, m, sec) && Split(ClockText(h, m, sec), ':') == fields
  {
    var hh, mm, ss := Decimal(h), Padded2(m), Padded2(sec);
    HmsPieces(hh, mm, ss);
    if sec > 0 {
      fields := [hh, mm, ss];
      assert ClockText(h, m, sec) == hh + ":" + mm + ":" + ss;
    } else {
      fields := [hh, mm];
      assert ClockText(h, m, sec) == hh + ":" + mm;
    }
  }

  /** The pieces after the last '@' of `format_time`'s text: the clock, and the day when there is one. */
  lemma DayPieces(d: nat, clock: string)
    requires '@' !in clock
    ensures '@' in DayPrefix(d) + clock <==> d > 0
    ensures RSplit(DayPrefix(d) + clock, '@') == [clock] + (if d > 0 then [Padded2(d)] else [])
  {
    if d > 0 {
      var day := Padded2(d);
      DigitsNoSeparator(day);
      assert DayPrefix(d) + clock == day + ['@'] + clock;
      assert (day + ['@'] + clock)[|day|] == '@';
      RSplitPair(day, clock, '@');
    } else {
      assert DayPrefix(d) + clock == clock;
      RSplitWithout(clock, '@');
    }
  }

  /** What `format_time` writes: an '@' exactly when there is a day, and two or three ':'-separated fields. */
  lemma FormatShape(t: U32)
    ensures '@' in FormatTime(t) <==> t >= 86400
    ensures |Split(RSplit(FormatTime(t), '@')[0], ':')| == if t % 60 > 0 then 3 else 2
  {
    var d, h, m, sec := FormatPieces(t);
    var fields := ClockPieces(h, m, sec);
    DayPieces(d, ClockText(h, m, sec));
    Seconds(t, d, h, m, sec);
  }

  /** The second field is the time modulo a minute. */
  lemma Seconds(t: nat, d: nat, h: nat, m: nat, sec: nat)
    requires d * 86400 + h * 3600 + m * 60 + sec == t && sec < 60
    ensures t % 60 == sec
  {
    assert t == (d * 1440 + h * 60 + m) * 60 + sec;
  }

  /** `parse_timestamp(&format_time(t)) == t` for every 32-bit `t`: the serde pair round-trips. */
  lemma ParseFormat(t: U32)
    ensures ParseTimestamp(FormatTime(t)) == Ok(t)
  {
    var d, h, m, sec := FormatPieces(t);
    TotalOfPieces(t, d, h, m, sec);
    ParseFields(d, h, m, sec);
  }

  /** Pieces that add up to a 32-bit time total to it without overflow. */
  lemma TotalOfPieces(t: U32, d: nat, h: nat, m: nat, sec: nat)
    requires d * 86400 + h * 3600 + m * 60 + sec == t
    ensures d <= U32_MAX && h <= U32_MAX && m <= U32_MAX && sec <= U32_MAX
    ensures Total(d, h, m, sec) == Ok(t)
  {
  }

  /** The text written for a day, hour, minute and second reads back as their total in seconds. */
  lemma ParseFields(d: nat, h: nat, m: nat, sec: nat)
    requires d <= U32_MAX && h <= U32_MAX && m <= U32_MAX && sec <= U32_MAX
    ensures ParseTimestamp(DayPrefix(d) + ClockText(h, m, sec)) == Total(d, h, m, sec)
  {
    var ts := DayPrefix(d) + ClockText(h, m, sec);
    var fields := ClockPieces(h, m, sec);
    DayPieces(d, ClockText(h, m, sec));
    ParseU32Decimal(h);
    Padded2Parses(m);
    if sec > 0 {
      Padded2Parses(sec);
    }
    if d > 0 {
      Padded2Parses(d);
    }
    ParseOfPieces(ts, RSplit(ts, '@'), fields, d, h, m, sec);
  }

  /** What the timestamp visitor expects, for its `invalid_value` errors. */
  const EXPECTING: string := "either an unsigned integer < 2^32 or a string timestamp"

  /** `visit_i64`: a signed value is a timestamp when it lies in [0, u32::MAX], and is taken unchanged. */
  function VisitI64(v: int): (r: Result<U32>)
    requires -0x8000_0000_0000_0000 <= v < 0x8000_0000_0000_0000
    ensures r.Ok? <==> 0 <= v <= U32_MAX
    ensures r.Ok? ==> r.value == v
  {
    if v < 0 || v > U32_MAX then Err(EXPECTING) else Ok(v as U32)
  }

  /** `visit_u64`: an unsigned value is a timestamp when it is at most u32::MAX, and is taken unchanged. */
  function VisitU64(v: nat): (r: Result<U32>)
    requires v < 0x1_0000_0000_0000_0000
    ensures r.Ok? <==> v <= U32_MAX
    ensures r.Ok? ==> r.value == v
  {
    if v > U32_MAX then Err(EXPECTING) else Ok(v as U32)
  }

  /** A timestamp written as an integer and one written by `format_time` deserialize to the same time. */
  lemma SerdeAgree(t: U32)
    ensures VisitU64(t) == ParseTimestamp(FormatTime(t)) == Ok(t)
    ensures VisitI64(t) == Ok(t)
  {
    ParseFormat(t);
  }
}
