/**
 * Simulation snapshots: frames of vehicle state at half-minute resolution,
 * their "(DD@)H:MM(:30)" timestamps, per-vehicle traces and the stable merge
 * of two traces by time.
 */
module SimsIo {
  import opened Wrappers
  import opened Text
  import opened Sorting
  import opened Rows

  /**
   * `parse_timestamp`: "D@" adds D days when the string holds exactly one '@'
   * (a day count that is not a number adds nothing), then "H:M" adds H hours
   * and M minutes, and any third ':' part adds one half minute whatever it
   * holds. A missing minute part or a non-numeric hour or minute raises.
   */
  function ParseTimestamp(ts: string): (r: Option<int>)
    ensures r.Some? ==> ':' in ts
  {
    var at := Split(ts, '@');
    var clock := if |at| == 2 then at[1] else ts;
    var days := if |at| == 2 && PyInt(at[0]).Some? then PyInt(at[0]).value * 2880 else 0;
    match ParseClock(clock)
    case Some(c) =>
      assert ':' in ts by {
        if |at| == 2 {
          SplitPieceChars(ts, '@', 1, ':');
        }
      }
      Some(days + c)
    case None => None
  }

  /** The "H:M(:S)" part of `parse_timestamp`. */
  function ParseClock(clock: string): (r: Option<int>)
    ensures r.Some? ==> ':' in clock
  {
    var parts := Split(clock, ':');
    if |parts| < 2 || PyInt(parts[0]).None? || PyInt(parts[1]).None? then None
    else
      assert ':' in clock by {
        if ':' !in clock {
          SplitWithout(clock, ':');
        }
      }
      Some(PyInt(parts[0]).value * 120 + PyInt(parts[1]).value * 2 + (if |parts| > 2 then 1 else 0))
  }

  lemma ParseClockOf(clock: string, parts: seq<string>, h: int, m: int, half: int)
    requires Split(clock, ':') == parts && 2 <= |parts| <= 3 && half == |parts| - 2
    requires PyInt(parts[0]) == Some(h) && PyInt(parts[1]) == Some(m)
    ensures ParseClock(clock) == Some(h * 120 + m * 2 + half)
  {
  }

  /** Without an '@' the whole string is the clock. */
  lemma ParseTimestampNoDays(ts: string)
    requires '@' !in ts
    ensures ParseTimestamp(ts) == ParseClock(ts)
  {
    SplitWithout(ts, '@');
  }

  /** With exactly one '@' the day count in front of it is added. */
  lemma ParseTimestampDays(dd: string, clock: string, d: int)
    requires '@' !in dd && '@' !in clock && PyInt(dd) == Some(d)
    ensures ParseTimestamp(dd + "@" + clock) == match ParseClock(clock) case Some(c) => Some(d * 2880 + c) case None => None
  {
    SplitPair(dd, clock, '@');
  }

  /** The documented forms parse to their half-minute counts. */
  lemma ParseTimestampForms(d: nat, h: nat, m: nat, s: string)
    requires ':' !in s
    ensures ParseTimestamp(Decimal(d) + "@" + Decimal(h) + ":" + Decimal(m))
            == Some(d * 2880 + h * 120 + m * 2)
    ensures '@' !in s ==> ParseTimestamp(Decimal(h) + ":" + Decimal(m) + ":" + s) == Some(h * 120 + m * 2 + 1)
  {
    DigitsHaveNoSeparators(Decimal(d));
    DigitsHaveNoSeparators(Decimal(h));
    DigitsHaveNoSeparators(Decimal(m));
    PyIntDecimal(d);
    PyIntDecimal(h);
    PyIntDecimal(m);
    ParseDayClock(Decimal(d), Decimal(h), Decimal(m), d, h, m);
    if '@' !in s {
      ClockThree(Decimal(h), Decimal(m), s, h, m);
    }
  }

  lemma ParseDayClock(dd: string, hh: string, mm: string, d: int, h: int, m: int)
    requires ':' !in hh && ':' !in mm && '@' !in hh && '@' !in mm && '@' !in dd
    requires PyInt(dd) == Some(d) && PyInt(hh) == Some(h) && PyInt(mm) == Some(m)
    ensures ParseTimestamp(dd + "@" + hh + ":" + mm) == Some(d * 2880 + h * 120 + m * 2)
  {
    SplitDayClock(dd, hh, mm);
    ParseClockOf(hh + ":" + mm, [hh, mm], h, m, 0);
  }

  lemma SplitDayClock(dd: string, hh: string, mm: string)
    requires ':' !in hh && ':' !in mm && '@' !in hh && '@' !in mm && '@' !in dd
    ensures Split(hh + ":" + mm, ':') == [hh, mm]
    ensures Split(dd + "@" + hh + ":" + mm, '@') == [dd, hh + ":" + mm]
  {
    var clock := hh + ":" + mm;
    SplitPair(hh, mm, ':');
    assert '@' !in clock;
    SplitPair(dd, clock, '@');
    assert dd + "@" + hh + ":" + mm == dd + "@" + clock;
  }

  /** "H:M" is the hours and minutes. */
  lemma ClockTwo(hh: string, mm: string, h: int, m: int)
    requires ':' !in hh && ':' !in mm && '@' !in hh && '@' !in mm
    requires PyInt(hh) == Some(h) && PyInt(mm) == Some(m)
    ensures ParseTimestamp(hh + ":" + mm) == Some(h * 120 + m * 2)
  {
    SplitClock(hh, mm, []);
    ParseClockOf(hh + ":" + mm, [hh, mm], h, m, 0);
  }

  /** "H:M:S" adds one half minute, whatever S holds. */
  lemma ClockThree(hh: string, mm: string, s: string, h: int, m: int)
    requires ':' !in hh && ':' !in mm && ':' !in s && '@' !in hh && '@' !in mm && '@' !in s
    requires PyInt(hh) == Some(h) && PyInt(mm) == Some(m)
    ensures ParseTimestamp(hh + ":" + mm + ":" + s) == Some(h * 120 + m * 2 + 1)
  {
    SplitClock(hh, mm, [s]);
    ParseClockOf(hh + ":" + mm + ":" + s, [hh, mm, s], h, m, 1);
  }

  /** A day-less clock splits at its colons and has no '@' to split at. */
  lemma SplitClock(hh: string, mm: string, extra: seq<string>)
    requires ':' !in hh && ':' !in mm && '@' !in hh && '@' !in mm
    requires |extra| <= 1 && forall k :: 0 <= k < |extra| ==> ':' !in extra[k] && '@' !in extra[k]
    ensures var t := if extra == [] then hh + ":" + mm else hh + ":" + mm + ":" + extra[0];
            Split(t, ':') == [hh, mm] + extra && Split(t, '@') == [t] && '@' !in t
  {
    var t := if extra == [] then hh + ":" + mm else hh + ":" + mm + ":" + extra[0];
    if extra == [] {
      SplitPair(hh, mm, ':');
      assert [hh, mm] + extra == [hh, mm];
    } else {
      SplitTriple(hh, mm, extra[0], ':');
      assert [hh, mm] + extra == [hh, mm, extra[0]];
    }
    assert '@' !in t;
    SplitWithout(t, '@');
  }

  lemma DigitsHaveNoSeparators(s: string)
    requires AllDigits(s)
    ensures ':' !in s && '@' !in s
  {
  }

  /** Python's `int(x / 120)`: true division, then truncation toward zero. */
  function TruncDiv(x: int, d: nat): (q: int)
    requires d > 0
    ensures x >= 0 ==> q == x / d
    ensures x < 0 ==> q == -((-x) / d)
  {
    if x >= 0 then x / d else -((-x) / d)
  }

  datatype Frame = Frame(vid: int, time: int, link: int, direct: int, lane: int, offset: real, speed: real,
                         accel: real, vtype: int, driver: int, passengers: int, x: real, y: real)

  /** `Frame.timedelta`: the frame time in seconds. */
  function Timedelta(f: Frame): (seconds: int)
    ensures seconds % 30 == 0 && seconds / 30 == f.time
  {
    f.time * 30
  }

  /**
   * `Frame.timestamp`: hours unpadded and never folded into days, minutes
   * padded to two digits, and ":30" for an odd count.
   */
  function Timestamp(time: int): (s: string)
    ensures '@' !in s && ':' in s
    ensures time % 2 == 1 ==> |s| >= 3 && s[|s| - 3..] == ":30"
  {
    var h := TruncDiv(time, 120);
    var m := (time % 120) / 2;
    var hh, mm := IntDecimal(h), ZeroPad(Decimal(m), 2);
    IntDecimalNoSeparators(h);
    DigitsHaveNoSeparators(mm);
    var s := hh + ":" + mm + (if time % 2 == 1 then ":30" else "");
    assert s[|hh|] == ':';
    s
  }

  /** The timestamp has no day part, two minute digits, and ends in ":30" exactly for odd counts. */
  lemma TimestampShape(time: int)
    ensures '@' !in Timestamp(time)
    ensures var parts := Split(Timestamp(time), ':');
            |parts| == (if time % 2 == 1 then 3 else 2) && |parts[1]| == 2
            && (time % 2 == 1 ==> parts[2] == "30")
  {
    var h := TruncDiv(time, 120);
    var m := (time % 120) / 2;
    var hh := IntDecimal(h);
    var mm := ZeroPad(Decimal(m), 2);
    IntDecimalNoSeparators(h);
    PaddedDecimalValue(m, 2);
    DigitsHaveNoSeparators(mm);
    DecimalLength(m);
    var extra: seq<string> := if time % 2 == 1 then ["30"] else [];
    SplitClock(hh, mm, extra);
    TimestampPieces(time, hh, mm);
  }

  lemma IntDecimalNoSeparators(i: int)
    ensures ':' !in IntDecimal(i) && '@' !in IntDecimal(i)
  {
    DigitsHaveNoSeparators(Decimal(if i < 0 then -i else i));
  }

  lemma DecimalLength(n: nat)
    ensures n < 100 ==> |Decimal(n)| <= 2
  {
  }

  /** `parse_timestamp(Frame(time=t).timestamp()) == t` for every non-negative count, also past one day. */
  lemma TimestampRoundTrip(time: int)
    requires time >= 0
    ensures ParseTimestamp(Timestamp(time)) == Some(time)
  {
    var h := TruncDiv(time, 120);
    var m := (time % 120) / 2;
    var hh := IntDecimal(h);
    var mm := ZeroPad(Decimal(m), 2);
    PyIntDecimal(h);
    PaddedDecimalValue(m, 2);
    DigitsHaveNoSeparators(mm);
    IntDecimalNoSeparators(h);
    TimestampPieces(time, hh, mm);
    HalfMinutes(time, h, m);
    if time % 2 == 1 {
      ClockThree(hh, mm, "30", h, m);
    } else {
      ClockTwo(hh, mm, h, m);
    }
  }

  /** The hour and minute of a non-negative count, with the odd half minute, add back up to it. */
  lemma HalfMinutes(time: int, h: int, m: int)
    requires time >= 0 && h == TruncDiv(time, 120) && m == (time % 120) / 2
    ensures h * 120 + m * 2 + (if time % 2 == 1 then 1 else 0) == time
  {
  }

  /** The timestamp is its hour and padded minute, joined by ':', with ":30" for an odd count. */
  lemma TimestampPieces(time: int, hh: string, mm: string)
    requires hh == IntDecimal(TruncDiv(time, 120)) && mm == ZeroPad(Decimal((time % 120) / 2), 2)
    ensures Timestamp(time) == if time % 2 == 1 then hh + ":" + mm + ":" + "30" else hh + ":" + mm
  {
    if time % 2 == 1 {
      assert hh + ":" + mm + ":30" == hh + ":" + mm + ":" + "30";
    } else {
      assert hh + ":" + mm + "" == hh + ":" + mm;
    }
  }

  /** For a negative count the truncating hour and the floored minute disagree, and the round trip fails. */
  lemma NegativeTimestamp()
    ensures Timestamp(-1) == "0:59:30"
    ensures ParseTimestamp(Timestamp(-1)) == Some(119)
  {
    SameTimestamp(-1, 119);
    TimestampOf119();
    TimestampRoundTrip(119);
  }

  /** Counts with the same truncated hour, the same floored minute and the same parity print alike. */
  lemma SameTimestamp(a: int, b: int)
    requires TruncDiv(a, 120) == TruncDiv(b, 120) && (a % 120) / 2 == (b % 120) / 2 && a % 2 == b % 2
    ensures Timestamp(a) == Timestamp(b)
  {
  }

  lemma TimestampOf119()
    ensures Timestamp(119) == "0:59:30"
  {
    assert TruncDiv(119, 120) == 0 && (119 % 120) / 2 == 59;
    assert Decimal(59) == "59" by {
      assert Decimal(5) == "5";
    }
    assert ZeroPad("59", 2) == "59";
    assert IntDecimal(0) == "0";
    assert Timestamp(119) == "0" + ":" + "59" + ":30";
  }

  /** `Frame.parse_row`: thirteen columns; a short row or a field that does not convert raises. */
  function ParseFrameRow(row: seq<string>): Option<Frame>
  {
    if |row| < 13 then None
    else if PyInt(row[0]).None? || ParseTimestamp(row[1]).None? || PyInt(row[2]).None? || PyInt(row[3]).None?
         || PyInt(row[4]).None? || PyFloat(row[5]).None? || PyFloat(row[6]).None? || PyFloat(row[7]).None?
         || PyInt(row[8]).None? || PyInt(row[9]).None? || PyInt(row[10]).None? || PyFloat(row[11]).None?
         || PyFloat(row[12]).None? then None
    else Some(Frame(PyInt(row[0]).value, ParseTimestamp(row[1]).value, PyInt(row[2]).value, PyInt(row[3]).value,
                    PyInt(row[4]).value, PyFloat(row[5]).value, PyFloat(row[6]).value, PyFloat(row[7]).value,
                    PyInt(row[8]).value, PyInt(row[9]).value, PyInt(row[10]).value, PyFloat(row[11]).value,
                    PyFloat(row[12]).value))
  }

  /** Column k of a parsed row is field k of the frame: vid, time, link, ..., x, y. */
  lemma ParseFrameRowColumns(row: seq<string>)
    requires ParseFrameRow(row).Some?
    ensures var f := ParseFrameRow(row).value;
            |row| >= 13 && PyInt(row[0]) == Some(f.vid) && ParseTimestamp(row[1]) == Some(f.time)
            && PyInt(row[2]) == Some(f.link) && PyFloat(row[11]) == Some(f.x) && PyFloat(row[12]) == Some(f.y)
  {
  }

  function TimeKey(f: Frame): real { f.time as real }

  ghost predicate TimeSorted(s: seq<Frame>)
  {
    forall i, j :: 0 <= i < j < |s| ==> s[i].time <= s[j].time
  }

  /** `Trace.merge`: repeatedly take the earlier head, `other`'s on a tie, then the rest of either. */
  function MergeOf(a: seq<Frame>, b: seq<Frame>): (r: seq<Frame>)
    ensures |r| == |a| + |b|
    decreases |a| + |b|
  {
    if a == [] then b
    else if b == [] then a
    else if a[0].time < b[0].time then [a[0]] + MergeOf(a[1..], b)
    else [b[0]] + MergeOf(a, b[1..])
  }

  /** The merge is a permutation of both traces together. */
  lemma {:induction false} MergeCount(a: seq<Frame>, b: seq<Frame>)
    ensures |MergeOf(a, b)| == |a| + |b|
    ensures multiset(MergeOf(a, b)) == multiset(a) + multiset(b)
    decreases |a| + |b|
  {
    if a != [] && b != [] {
      if a[0].time < b[0].time {
        MergeCount(a[1..], b);
        HeadTail(a);
      } else {
        MergeCount(a, b[1..]);
        HeadTail(b);
      }
    }
  }

  /** A non-empty trace is its head followed by its tail. */
  lemma HeadTail(s: seq<Frame>)
    requires s != []
    ensures s == [s[0]] + s[1..] && multiset(s) == multiset{s[0]} + multiset(s[1..])
  {
    assert s == [s[0]] + s[1..];
  }

  /** One step of the merge loop. */
  lemma MergeStep(a: seq<Frame>, b: seq<Frame>)
    requires a != [] && b != []
    ensures a[0].time < b[0].time ==> MergeOf(a, b) == [a[0]] + MergeOf(a[1..], b)
    ensures a[0].time >= b[0].time ==> MergeOf(a, b) == [b[0]] + MergeOf(a, b[1..])
  {
  }

  lemma AtTimeCons(f: Frame, s: seq<Frame>, t: int)
    ensures AtTime([f] + s, t) == (if f.time == t then [f] else []) + AtTime(s, t)
  {
    assert ([f] + s)[1..] == s;
  }

  /** The frames of `s` at time `t`, in order. */
  function AtTime(s: seq<Frame>, t: int): seq<Frame>
  {
    if s == [] then [] else (if s[0].time == t then [s[0]] else []) + AtTime(s[1..], t)
  }

  /** All frames of a sorted trace after a head later than `t` miss `t`. */
  lemma {:induction false} AtTimeNone(s: seq<Frame>, t: int)
    requires forall i :: 0 <= i < |s| ==> s[i].time > t
    ensures AtTime(s, t) == []
  {
    if s != [] {
      AtTimeNone(s[1..], t);
    }
  }

  /** Merging two time-sorted traces gives a time-sorted trace. */
  lemma {:induction false} MergeSorted(a: seq<Frame>, b: seq<Frame>)
    requires TimeSorted(a) && TimeSorted(b)
    ensures TimeSorted(MergeOf(a, b))
    decreases |a| + |b|
  {
    if a != [] && b != [] {
      var r := MergeOf(a, b);
      if a[0].time < b[0].time {
        MergeSorted(a[1..], b);
        MergeHeadBound(a[1..], b, a[0].time);
      } else {
        MergeSorted(a, b[1..]);
        MergeHeadBound(a, b[1..], b[0].time);
      }
    }
  }

  /** A bound below both traces' frames is below every merged frame, so it can be put in front. */
  lemma MergeHeadBound(a: seq<Frame>, b: seq<Frame>, t: int)
    requires TimeSorted(MergeOf(a, b))
    requires forall i :: 0 <= i < |a| ==> t <= a[i].time
    requires forall i :: 0 <= i < |b| ==> t <= b[i].time
    ensures forall i :: 0 <= i < |MergeOf(a, b)| ==> t <= MergeOf(a, b)[i].time
  {
    var r := MergeOf(a, b);
    MergeCount(a, b);
    forall i | 0 <= i < |r| ensures t <= r[i].time {
      assert r[i] in multiset(a) + multiset(b);
      if r[i] in multiset(a) {
        var k :| 0 <= k < |a| && a[k] == r[i];
      } else {
        var k :| 0 <= k < |b| && b[k] == r[i];
      }
    }
  }

  /** Among frames of equal time, `other`'s come first, then `self`'s, each in their own order. */
  lemma {:induction false} MergeTies(a: seq<Frame>, b: seq<Frame>, t: int)
    requires TimeSorted(a) && TimeSorted(b)
    ensures AtTime(MergeOf(a, b), t) == AtTime(b, t) + AtTime(a, t)
    decreases |a| + |b|
  {
    if a == [] {
      assert AtTime(b, t) + [] == AtTime(b, t);
    } else if b == [] {
    } else if a[0].time < b[0].time {
      SortedTail(a);
      MergeTies(a[1..], b, t);
      MergeTiesSelf(a, b, t);
    } else {
      SortedTail(b);
      MergeTies(a, b[1..], t);
      MergeTiesOther(a, b, t);
    }
  }

  lemma SortedTail(s: seq<Frame>)
    requires TimeSorted(s) && s != []
    ensures TimeSorted(s[1..])
    ensures forall i :: 0 <= i < |s| ==> s[0].time <= s[i].time
  {
    assert forall i, j :: 0 <= i < j < |s| - 1 ==> s[1..][i] == s[i + 1] && s[1..][j] == s[j + 1];
  }

  /** The step of `MergeTies` where `self`'s head is taken. */
  lemma MergeTiesSelf(a: seq<Frame>, b: seq<Frame>, t: int)
    requires a != [] && b != [] && a[0].time < b[0].time && TimeSorted(b)
    requires AtTime(MergeOf(a[1..], b), t) == AtTime(b, t) + AtTime(a[1..], t)
    ensures AtTime(MergeOf(a, b), t) == AtTime(b, t) + AtTime(a, t)
  {
    var rest, tail := MergeOf(a[1..], b), a[1..];
    MergeStep(a, b);
    AtTimeCons(a[0], rest, t);
    AtTimeCons(a[0], tail, t);
    assert [a[0]] + tail == a;
    if a[0].time == t {
      SortedAfter(b, t);
      assert AtTime(rest, t) == AtTime(tail, t);
      assert AtTime(MergeOf(a, b), t) == AtTime(a, t);
    } else {
      assert AtTime(MergeOf(a, b), t) == AtTime(rest, t);
      assert AtTime(a, t) == AtTime(tail, t);
    }
  }

  /** A sorted trace whose head is later than `t` has no frame at `t`. */
  lemma SortedAfter(s: seq<Frame>, t: int)
    requires TimeSorted(s) && s != [] && s[0].time > t
    ensures AtTime(s, t) == []
  {
    SortedTail(s);
    AtTimeNone(s, t);
  }

  /** The step of `MergeTies` where `other`'s head is taken. */
  lemma MergeTiesOther(a: seq<Frame>, b: seq<Frame>, t: int)
    requires a != [] && b != [] && a[0].time >= b[0].time
    requires AtTime(MergeOf(a, b[1..]), t) == AtTime(b[1..], t) + AtTime(a, t)
    ensures AtTime(MergeOf(a, b), t) == AtTime(b, t) + AtTime(a, t)
  {
    MergeStep(a, b);
    PrependAtTime(b[0], MergeOf(a, b[1..]), b[1..], a, t);
    assert [b[0]] + b[1..] == b;
  }

  /** Putting a frame in front of a sequence and of its first part keeps a split of the frames at `t`. */
  lemma PrependAtTime(f: Frame, r: seq<Frame>, s1: seq<Frame>, s2: seq<Frame>, t: int)
    requires AtTime(r, t) == AtTime(s1, t) + AtTime(s2, t)
    ensures AtTime([f] + r, t) == AtTime([f] + s1, t) + AtTime(s2, t)
  {
    var x := if f.time == t then [f] else [];
    AtTimeCons(f, r, t);
    AtTimeCons(f, s1, t);
    assert x + (AtTime(s1, t) + AtTime(s2, t)) == (x + AtTime(s1, t)) + AtTime(s2, t);
  }

  class Trace {
    var frames: seq<Frame>

    constructor ()
      ensures frames == []
    {
      frames := [];
    }

    method Append(f: Frame)
      modifies this
      ensures frames == old(frames) + [f]
    {
      frames := frames + [f];
    }

    /**
     * `Trace.merge`: this trace becomes the merge of both, taken from the
     * front one frame at a time, and `other` is emptied.
     */
    method Merge(other: Trace)
      requires other != this
      modifies this, other
      ensures frames == MergeOf(old(frames), old(other.frames))
      ensures other.frames == []
    {
      var a := frames;
      var b := other.frames;
      var result: seq<Frame> := [];
      while |a| > 0 && |b| > 0
        invariant result + MergeOf(a, b) == MergeOf(old(frames), old(other.frames))
        decreases |a| + |b|
      {
        MergeStep(a, b);
        if a[0].time < b[0].time {
          result := result + [a[0]];
          a := a[1..];
        } else {
          result := result + [b[0]];
          b := b[1..];
        }
      }
      assert MergeOf(a, b) == a + b;
      result := result + a + b;
      frames := result;
      other.frames := [];
    }
  }

  /** The frames of vehicle `vid`, in order. */
  function OfVehicle(s: seq<Frame>, vid: int): (r: seq<Frame>)
    ensures |r| <= |s|
  {
    if s == [] then []
    else OfVehicle(s[..|s| - 1], vid) + (if s[|s| - 1].vid == vid then [s[|s| - 1]] else [])
  }

  /** The traces a sequence of appends builds: one per vehicle seen, its frames in append order. */
  function TracesOf(s: seq<Frame>): map<int, seq<Frame>>
  {
    if s == [] then map[]
    else
      var t := TracesOf(s[..|s| - 1]);
      var f := s[|s| - 1];
      t[f.vid := (if f.vid in t then t[f.vid] else []) + [f]]
  }

  /** The traces partition the frames by vehicle: a key per vehicle seen, holding exactly its frames. */
  lemma {:induction false} TracesPartition(s: seq<Frame>, vid: int)
    ensures vid in TracesOf(s) <==> exists i :: 0 <= i < |s| && s[i].vid == vid
    ensures vid in TracesOf(s) ==> TracesOf(s)[vid] == OfVehicle(s, vid)
    ensures vid !in TracesOf(s) ==> OfVehicle(s, vid) == []
  {
    if s != [] {
      var init := s[..|s| - 1];
      TracesPartition(init, vid);
      if exists i :: 0 <= i < |init| && init[i].vid == vid {
        var i :| 0 <= i < |init| && init[i].vid == vid;
        assert s[i] == init[i];
      }
      if exists i :: 0 <= i < |s| && s[i].vid == vid {
        var i :| 0 <= i < |s| && s[i].vid == vid;
        if i < |init| {
          assert init[i] == s[i];
        }
      }
    }
  }

  /** Every element of a vehicle's frames is a frame of `s` with that vehicle. */
  lemma {:induction false} OfVehicleMember(s: seq<Frame>, vid: int, f: Frame)
    requires f in OfVehicle(s, vid)
    ensures f in s && f.vid == vid
  {
    if s != [] {
      if f in OfVehicle(s[..|s| - 1], vid) {
        OfVehicleMember(s[..|s| - 1], vid, f);
      }
    }
  }

  /** A vehicle's frames taken from a time-sorted sequence are time-sorted. */
  lemma {:induction false} OfVehicleSorted(s: seq<Frame>, vid: int)
    requires TimeSorted(s)
    ensures TimeSorted(OfVehicle(s, vid))
  {
    if s != [] {
      var init := s[..|s| - 1];
      var last := s[|s| - 1];
      assert TimeSorted(init);
      OfVehicleSorted(init, vid);
      var r := OfVehicle(init, vid);
      if last.vid == vid {
        forall i, j | 0 <= i < j < |r| + 1 ensures (r + [last])[i].time <= (r + [last])[j].time {
          if j == |r| {
            assert (r + [last])[i] == r[i] && r[i] in r;
            OfVehicleMember(init, vid, r[i]);
            var k :| 0 <= k < |init| && init[k] == r[i];
            assert s[k] == init[k];
          }
        }
      }
    }
  }

  class Snapshot {
    var frames: seq<Frame>
    var traces: map<int, seq<Frame>>

    /** `frames` and `traces` agree: the traces are those the frames' appends build. */
    ghost predicate Valid()
      reads this
    {
      traces == TracesOf(frames)
    }

    constructor ()
      ensures frames == [] && traces == map[]
      ensures Valid()
    {
      frames := [];
      traces := map[];
    }

    /** `Snapshot.append`: the frame goes to `frames` and to its vehicle's trace, which is created on first sight. */
    method Append(f: Frame)
      modifies this
      ensures frames == old(frames) + [f]
      ensures traces == old(traces)[f.vid := (if f.vid in old(traces) then old(traces)[f.vid] else []) + [f]]
      ensures old(Valid()) ==> Valid()
    {
      ghost var before := frames;
      frames := frames + [f];
      if f.vid in traces {
        traces := traces[f.vid := traces[f.vid] + [f]];
      } else {
        traces := traces[f.vid := [f]];
        assert [] + [f] == [f];
      }
      assert frames[..|frames| - 1] == before;
    }

    /** Appends every frame in turn. */
    method AppendAll(s: seq<Frame>)
      requires Valid()
      modifies this
      ensures frames == old(frames) + s
      ensures Valid()
    {
      var i := 0;
      while i < |s|
        invariant 0 <= i <= |s|
        invariant frames == old(frames) + s[..i]
        invariant Valid()
      {
        Append(s[i]);
        assert s[..i + 1] == s[..i] + [s[i]];
        i := i + 1;
      }
      assert s[..i] == s;
    }

    /**
     * `Snapshot.load` after the header row: the frames in file order, or,
     * unordered, stably sorted by time first. A row that does not parse
     * raises, which is `null`.
     */
    static method Load(rows: seq<seq<string>>, ordered: bool) returns (snap: Snapshot?)
      ensures snap == null <==> ParseAll(rows, ParseFrameRow).None?
      ensures snap != null ==> fresh(snap) && snap.Valid()
      ensures snap != null ==> snap.frames == if ordered then ParseAll(rows, ParseFrameRow).value
                                              else SortBy(ParseAll(rows, ParseFrameRow).value, TimeKey)
    {
      var parsed := ParseEach(rows, ParseFrameRow);
      if parsed.None? {
        return null;
      }
      var result := new Snapshot();
      if ordered {
        result.AppendAll(parsed.value);
      } else {
        result.AppendAll(SortBy(parsed.value, TimeKey));
      }
      return result;
    }
  }

  /**
   * An unordered load sorts stably by time: the frames are a time-sorted
   * permutation of the rows, equal times keep file order, and every trace
   * is time-sorted.
   */
  lemma UnorderedLoad(parsed: seq<Frame>, t: real, vid: int)
    ensures TimeSorted(SortBy(parsed, TimeKey))
    ensures multiset(SortBy(parsed, TimeKey)) == multiset(parsed)
    ensures KeyFilter(SortBy(parsed, TimeKey), TimeKey, t) == KeyFilter(parsed, TimeKey, t)
    ensures vid in TracesOf(SortBy(parsed, TimeKey)) ==> TimeSorted(TracesOf(SortBy(parsed, TimeKey))[vid])
  {
    var s := SortBy(parsed, TimeKey);
    SortByCorrect(parsed, TimeKey);
    assert TimeSorted(s) by {
      forall i, j | 0 <= i < j < |s| ensures s[i].time <= s[j].time {
        assert TimeKey(s[i]) <= TimeKey(s[j]);
      }
    }
    SortByStable(parsed, TimeKey, t);
    TracesPartition(s, vid);
    OfVehicleSorted(s, vid);
  }
}
