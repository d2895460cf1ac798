/**
 * The `group_by_time` tool of the agent-mapping crate: vehicle snapshot
 * records are filtered to whole minutes, grouped by the hour of their
 * timestamp, mapped to buildings, optionally trimmed to the Tukey fences of
 * their distances, counted per building and written out in the layout the
 * Python mapping reader expects. Fields of a CSV `ByteRecord` are byte
 * strings, modelled as strings of characters below 256. The rayon folds and
 * reductions run as sequential loops; the lemmas about merging and counting
 * state why splitting the input does not change the result.
 */
module GroupByTime {
  import opened Wrappers
  import opened MachineInts
  import opened Text
  import opened Sorting
  import opened Geo
  import opened AgentBuildings
  import VehicleSim
  import Mappings

  /** A string of bytes. */
  predicate IsBytes(s: string)
  {
    forall i :: 0 <= i < |s| ==> s[i] as int < 256
  }

  type Bytes = s: string | IsBytes(s)

  /** A CSV record read as bytes: one byte string per field. */
  type ByteRecord = seq<Bytes>

  /** `field.ends_with(suffix)`. */
  predicate EndsWith(s: string, suffix: string)
  {
    |s| >= |suffix| && s[|s| - |suffix|..] == suffix
  }

  // ---------------------------------------------------------------------
  // load_record_file
  // ---------------------------------------------------------------------

  /** Whether `load_record_file` yields a record: its timestamp field (field 1) is at a whole minute. */
  predicate OnTheMinute(r: ByteRecord)
    requires |r| > 1
  {
    EndsWith(r[1], ":00")
  }

  /**
   * The records `load_record_file` yields, in file order: those whose field 1
   * ends with ":00". A record without a field 1 makes the indexing panic.
   */
  function KeptRecords(rows: seq<ByteRecord>): (r: Result<seq<ByteRecord>>)
    ensures r.Err? <==> exists i :: 0 <= i < |rows| && |rows[i]| < 2
    ensures r.Ok? ==> forall x :: x in r.value <==> x in rows && OnTheMinute(x)
    ensures r.Ok? ==> |r.value| <= |rows|
  {
    if rows == [] then Ok([])
    else
      var init := rows[..|rows| - 1];
      var last := rows[|rows| - 1];
      assert forall i :: 0 <= i < |init| ==> init[i] == rows[i];
      assert forall x :: x in rows <==> x in init || x == last;
      var kept := KeptRecords(init);
      if kept.Err? then kept
      else if |last| < 2 then Err("index out of bounds")
      else if OnTheMinute(last) then Ok(kept.value + [last])
      else kept
  }

  // ---------------------------------------------------------------------
  // get_hour
  // ---------------------------------------------------------------------

  /** `b.saturating_sub(b'0')` of a byte. */
  function DigitOrZero(c: char): (v: nat)
    requires c as int < 256
    ensures v <= 207
    ensures IsDigit(c) ==> v == DigitValue(c)
  {
    if c as int >= '0' as int then c as int - '0' as int else 0
  }

  /**
   * `get_hour`: with ':' as the second byte, the first digit; with '@' as
   * the second byte, 24 plus the third byte's digit; otherwise the first two
   * bytes as a two-digit number. A timestamp too short for the bytes read
   * panics, and so does the `u8` arithmetic when it overflows.
   */
  function GetHour(ts: Bytes): (r: Result<U8>)
    ensures |ts| < 2 || (ts[1] == '@' && |ts| < 3) ==> r.Err?
    ensures |ts| >= 2 && IsDigit(ts[0]) && ts[1] == ':' ==> r == Ok(DigitValue(ts[0]))
    ensures |ts| >= 3 && ts[1] == '@' && IsDigit(ts[2]) ==> r == Ok(24 + DigitValue(ts[2]))
    ensures |ts| >= 2 && IsDigit(ts[0]) && IsDigit(ts[1]) ==> r == Ok(10 * DigitValue(ts[0]) + DigitValue(ts[1]))
  {
    if |ts| < 2 then Err("index out of bounds")
    else if ts[1] == ':' then Ok(DigitOrZero(ts[0]))
    else if ts[1] == '@' then
      if |ts| < 3 then Err("index out of bounds") else Ok(24 + DigitOrZero(ts[2]))
    else
      var tens := 10 * DigitOrZero(ts[0]);
      if tens > 255 then Err("attempt to multiply with overflow")
      else if tens + DigitOrZero(ts[1]) > 255 then Err("attempt to add with overflow")
      else Ok(tens + DigitOrZero(ts[1]))
  }

  /** The three forms of timestamps: "H:…", "HH…" and "D@H…", and a zero-padded day that reads as two digits. */
  lemma GetHourExamples()
    ensures GetHour("7:00:00") == Ok(7)
    ensures GetHour("13:00:00") == Ok(13)
    ensures GetHour("1@0:59:00") == Ok(24)
    ensures GetHour("01@0:59:00") == Ok(1)
  {
  }

  /**
   * On the text `format_time` writes for a time within the first day, the
   * hour read back is the hour of the time.
   */
  lemma GetHourOfFormatTime(t: U32)
    requires t < 86400
    ensures IsBytes(VehicleSim.FormatTime(t))
    ensures GetHour(VehicleSim.FormatTime(t)) == Ok(t / 3600)
  {
    var h, m, sec := ClockOfDay(t);
    GetHourOfClock(h, m, sec);
  }

  /** Within the first day, `format_time` writes only the clock, whose hour is the time's quotient by 3600. */
  lemma ClockOfDay(t: U32) returns (h: nat, m: nat, sec: nat)
    requires t < 86400
    ensures h == t / 3600 && h < 24
    ensures VehicleSim.FormatTime(t) == VehicleSim.ClockText(h, m, sec)
  {
    var d;
    d, h, m, sec := VehicleSim.FormatPieces(t);
    assert d == 0;
    HourOfTime(t, h, m, sec);
    NoDayPrefix(VehicleSim.DayPrefix(d), VehicleSim.ClockText(h, m, sec));
  }

  lemma NoDayPrefix(prefix: string, clock: string)
    requires prefix == []
    ensures prefix + clock == clock
  {
  }

  /** Below 24 hours, `get_hour` reads the hour back from the clock text. */
  lemma GetHourOfClock(h: nat, m: nat, sec: nat)
    requires h < 24
    ensures IsBytes(VehicleSim.ClockText(h, m, sec))
    ensures GetHour(VehicleSim.ClockText(h, m, sec)) == Ok(h)
  {
    var s := VehicleSim.ClockText(h, m, sec);
    ClockLeads(h, m, sec);
    assert s[0] == s[..2][0] && s[1] == s[..2][1];
    GetHourOfDigits(s, h);
  }

  /** A text opening with the one or two digits of an hour below 24 reads back as that hour. */
  lemma GetHourOfDigits(ts: Bytes, h: nat)
    requires h < 24 && |ts| >= 2
    requires h < 10 ==> ts[0] == DigitChar(h) && ts[1] == ':'
    requires h >= 10 ==> ts[0] == DigitChar(h / 10) && ts[1] == DigitChar(h % 10)
    ensures GetHour(ts) == Ok(h)
  {
  }

  /**
   * From day 1 on, `format_time` writes the day zero-padded to two digits
   * before the '@', so `get_hour` takes the two-digit branch and returns the
   * day count rather than 24 plus the hour.
   */
  lemma GetHourOfFormatDay(t: U32)
    requires 86400 <= t < 10 * 86400
    ensures IsBytes(VehicleSim.FormatTime(t))
    ensures GetHour(VehicleSim.FormatTime(t)) == Ok(t / 86400)
  {
    var d, h, m, sec := VehicleSim.FormatPieces(t);
    DayOfTime(t, d, h, m, sec);
    DayLeads(d, h, m, sec);
    GetHourOfPaddedDay(VehicleSim.FormatTime(t), d);
  }

  /** For days 1 to 9, the text of a day and a clock is bytes opening with '0' and the digit of the day. */
  lemma DayLeads(d: nat, h: nat, m: nat, sec: nat)
    requires 1 <= d <= 9 && h < 24
    ensures var s := VehicleSim.DayPrefix(d) + VehicleSim.ClockText(h, m, sec);
            IsBytes(s) && |s| >= 2 && s[0] == '0' && s[1] == DigitChar(d)
  {
    ClockBytes(h, m, sec);
    var prefix := VehicleSim.DayPrefix(d);
    assert prefix == ['0', DigitChar(d), '@'] by {
      assert Decimal(d) == [DigitChar(d)];
    }
    LeadingBytes(prefix, VehicleSim.ClockText(h, m, sec), prefix + VehicleSim.ClockText(h, m, sec));
  }

  /** A text opening with '0' and a digit reads as that digit through the two-digit branch. */
  lemma GetHourOfPaddedDay(s: Bytes, d: nat)
    requires d <= 9 && |s| >= 2 && s[0] == '0' && s[1] == DigitChar(d)
    ensures GetHour(s) == Ok(d)
  {
    assert DigitValue('0') == 0;
  }

  /** A text made of two byte texts is bytes, and opens like the first when that has two characters. */
  lemma LeadingBytes(prefix: string, rest: string, s: string)
    requires s == prefix + rest && |prefix| >= 2 && IsBytes(prefix) && IsBytes(rest)
    ensures IsBytes(s) && |s| >= 2 && s[0] == prefix[0] && s[1] == prefix[1]
  {
    assert forall i :: 0 <= i < |s| ==> s[i] == if i < |prefix| then prefix[i] else rest[i - |prefix|];
  }

  /** Within a day, the hour of the time is its quotient by 3600. */
  lemma HourOfTime(t: nat, h: nat, m: nat, sec: nat)
    requires h * 3600 + m * 60 + sec == t && m < 60 && sec < 60
    ensures t / 3600 == h
  {
  }

  /** The day of the time is its quotient by 86400. */
  lemma DayOfTime(t: nat, d: nat, h: nat, m: nat, sec: nat)
    requires d * 86400 + h * 3600 + m * 60 + sec == t && h < 24 && m < 60 && sec < 60
    ensures t / 86400 == d
  {
  }

  /**
   * The clock text is bytes, and it opens with the hour: one digit and ':'
   * below 10, two digits from 10 to 23.
   */
  lemma ClockLeads(h: nat, m: nat, sec: nat)
    requires h < 24
    ensures IsBytes(VehicleSim.ClockText(h, m, sec))
    ensures h < 10 ==> VehicleSim.ClockText(h, m, sec)[..2] == [DigitChar(h), ':']
    ensures h >= 10 ==> VehicleSim.ClockText(h, m, sec)[..2] == [DigitChar(h / 10), DigitChar(h % 10)]
  {
    var hh := Decimal(h);
    var mm := VehicleSim.Padded2(m);
    var tail := if sec > 0 then ":" + VehicleSim.Padded2(sec) else "";
    var s := VehicleSim.ClockText(h, m, sec);
    assert s == hh + ":" + mm + tail;
    ClockBytes(h, m, sec);
    if h < 10 {
      assert hh == [DigitChar(h)];
      assert s[0] == DigitChar(h) && s[1] == ':';
    } else {
      assert Decimal(h / 10) == [DigitChar(h / 10)];
      assert hh == [DigitChar(h / 10), DigitChar(h % 10)];
      assert s[0] == DigitChar(h / 10) && s[1] == DigitChar(h % 10);
    }
  }

  /** The clock text is bytes: digits and ':'. */
  lemma ClockBytes(h: nat, m: nat, sec: nat)
    ensures IsBytes(VehicleSim.ClockText(h, m, sec))
  {
    var hh := Decimal(h);
    var mm := VehicleSim.Padded2(m);
    var tail := if sec > 0 then ":" + VehicleSim.Padded2(sec) else "";
    assert VehicleSim.ClockText(h, m, sec) == hh + ":" + mm + tail;
  }

  // ---------------------------------------------------------------------
  // group_records and merge_groups
  // ---------------------------------------------------------------------

  /** `AgentGrouping`: the records of each hour, in the order they were filed. */
  type Grouping = map<U8, seq<ByteRecord>>

  /** The hour a record is filed under: `get_hour` of field 1, which a record without one lacks. */
  function HourOf(rec: ByteRecord): (r: Result<U8>)
    ensures |rec| < 2 ==> r == Err("index out of bounds")
    ensures |rec| >= 2 && |rec[1]| >= 2 && IsDigit(rec[1][0]) && IsDigit(rec[1][1]) ==>
              r == Ok(10 * DigitValue(rec[1][0]) + DigitValue(rec[1][1]))
  {
    if |rec| < 2 then Err("index out of bounds") else GetHour(rec[1])
  }

  /** The records of an hour, empty when the hour has none. */
  function Group(m: Grouping, h: U8): seq<ByteRecord>
  {
    if h in m then m[h] else []
  }

  /** `hm.entry(hour).or_insert_with(Vec::new).push(record)`. */
  function Filed(m: Grouping, h: U8, rec: ByteRecord): (r: Grouping)
    ensures r.Keys == m.Keys + {h}
    ensures forall g :: Group(r, g) == Group(m, g) + (if g == h then [rec] else [])
  {
    m[h := Group(m, h) + [rec]]
  }

  /** Every record has an hour. */
  predicate Hourly(records: seq<ByteRecord>)
  {
    forall i :: 0 <= i < |records| ==> HourOf(records[i]).Ok?
  }

  /** The records of hour `h`, in their order: the reference the grouping is measured against. */
  function WithHour(records: seq<ByteRecord>, h: U8): (r: seq<ByteRecord>)
    requires Hourly(records)
    ensures |r| <= |records|
  {
    if records == [] then []
    else
      var init, last := records[..|records| - 1], records[|records| - 1];
      assert forall i :: 0 <= i < |init| ==> init[i] == records[i];
      WithHour(init, h) + (if HourOf(last).value == h then [last] else [])
  }

  /** `group_records` over the records in order, or the panic of the first record without an hour. */
  function Grouped(records: seq<ByteRecord>): Result<Grouping>
  {
    if records == [] then Ok(map[])
    else
      var g := Grouped(records[..|records| - 1]);
      var last := records[|records| - 1];
      if g.Err? then g
      else match HourOf(last)
        case Err(e) => Err(e)
        case Ok(h) => Ok(Filed(g.value, h, last))
  }

  /** `group_records`: each record is appended to the group of its hour. */
  method GroupRecords(records: seq<ByteRecord>) returns (r: Result<Grouping>)
    ensures r == Grouped(records)
  {
    var hm: Grouping := map[];
    var i := 0;
    while i < |records|
      invariant 0 <= i <= |records|
      invariant Grouped(records[..i]) == Ok(hm)
    {
      GroupedStep(records, i);
      var hour := HourOf(records[i]);
      if hour.Err? {
        GroupedPrefixErr(records, i + 1);
        return Err(hour.error);
      }
      var v := if hour.value in hm then hm[hour.value] else [];
      hm := hm[hour.value := v + [records[i]]];
      i := i + 1;
    }
    assert records[..i] == records;
    r := Ok(hm);
  }

  /** One more record: filed under its hour, or the grouping fails with that record's panic. */
  lemma GroupedStep(records: seq<ByteRecord>, i: nat)
    requires i < |records| && Grouped(records[..i]).Ok?
    ensures HourOf(records[i]).Err? ==> Grouped(records[..i + 1]) == Err(HourOf(records[i]).error)
    ensures HourOf(records[i]).Ok? ==>
      Grouped(records[..i + 1]) == Ok(Filed(Grouped(records[..i]).value, HourOf(records[i]).value, records[i]))
  {
    assert records[..i + 1][..i] == records[..i];
  }

  /** Once a prefix fails, the whole grouping fails with the same panic. */
  lemma {:induction false} GroupedPrefixErr(records: seq<ByteRecord>, n: nat)
    requires n <= |records| && Grouped(records[..n]).Err?
    ensures Grouped(records) == Grouped(records[..n])
  {
    if n < |records| {
      var init := records[..|records| - 1];
      assert init[..n] == records[..n];
      GroupedPrefixErr(init, n);
    } else {
      assert records[..n] == records;
    }
  }

  /** Grouping succeeds exactly when every record has an hour. */
  lemma {:induction false} GroupedOk(records: seq<ByteRecord>)
    ensures Grouped(records).Ok? <==> Hourly(records)
  {
    if records != [] {
      var init := records[..|records| - 1];
      GroupedOk(init);
      HourlySnoc(records, init, records[|records| - 1]);
    }
  }

  /** A sequence of records all have an hour when its front does and its last record has one. */
  lemma HourlySnoc(records: seq<ByteRecord>, init: seq<ByteRecord>, last: ByteRecord)
    requires records == init + [last]
    ensures Hourly(records) <==> Hourly(init) && HourOf(last).Ok?
  {
    assert forall i :: 0 <= i < |init| ==> init[i] == records[i];
    assert records[|init|] == last;
  }

  /**
   * `group_records` files each record under its hour, keeping their order:
   * the group of every hour is the records of that hour, and an hour has a
   * group exactly when it has a record.
   */
  lemma {:induction false} GroupedByHour(records: seq<ByteRecord>, h: U8)
    requires Hourly(records)
    ensures Grouped(records).Ok?
    ensures Group(Grouped(records).value, h) == WithHour(records, h)
    ensures h in Grouped(records).value <==> WithHour(records, h) != []
  {
    GroupedOk(records);
    if records != [] {
      var init := records[..|records| - 1];
      assert forall i :: 0 <= i < |init| ==> init[i] == records[i];
      GroupedByHour(init, h);
    }
  }

  /** The total size of the groups of the hours below `n`. */
  function HourTotal(records: seq<ByteRecord>, n: nat): nat
    requires Hourly(records) && n <= 256
  {
    if n == 0 then 0 else HourTotal(records, n - 1) + |WithHour(records, n - 1)|
  }

  /** One more record adds one to the total of the hours below `n` when its hour is among them. */
  lemma {:induction false} HourTotalSnoc(records: seq<ByteRecord>, x: ByteRecord, n: nat)
    requires Hourly(records + [x]) && n <= 256
    ensures Hourly(records) && HourOf(x).Ok?
    ensures HourTotal(records + [x], n) == HourTotal(records, n) + (if HourOf(x).value < n then 1 else 0)
  {
    var all := records + [x];
    assert all[..|records|] == records;
    assert forall i :: 0 <= i < |records| ==> records[i] == all[i];
    assert all[|records|] == x;
    if n > 0 {
      HourTotalSnoc(records, x, n - 1);
      assert WithHour(all, n - 1) == WithHour(records, n - 1) + (if HourOf(x).value == n - 1 then [x] else []);
    }
  }

  /** Grouping neither loses nor duplicates a record: the groups of all 256 hours together hold every record. */
  lemma {:induction false} GroupSizesTotal(records: seq<ByteRecord>)
    requires Hourly(records)
    ensures HourTotal(records, 256) == |records|
  {
    if records != [] {
      var init, last := records[..|records| - 1], records[|records| - 1];
      assert records == init + [last];
      HourTotalSnoc(init, last, 256);
      var h := HourOf(last).value;
      assert 0 <= h < 256;
      GroupSizesTotal(init);
    } else {
      NoRecordsTotal(records, 256);
    }
  }

  /** Without records, every hour's group is empty. */
  lemma {:induction false} NoRecordsTotal(records: seq<ByteRecord>, n: nat)
    requires records == [] && n <= 256
    ensures HourTotal(records, n) == 0
  {
    if n > 0 {
      NoRecordsTotal(records, n - 1);
    }
  }

  /** The records of an hour in two runs of records are those of the first run, then those of the second. */
  lemma {:induction false} WithHourAppend(a: seq<ByteRecord>, b: seq<ByteRecord>, h: U8)
    requires Hourly(a) && Hourly(b)
    ensures Hourly(a + b)
    ensures WithHour(a + b, h) == WithHour(a, h) + WithHour(b, h)
  {
    HourlyAppend(a, b);
    if b != [] {
      var init, last := b[..|b| - 1], b[|b| - 1];
      assert b == init + [last];
      HourlySnoc(b, init, last);
      WithHourAppend(a, init, h);
      var ab := a + b;
      assert ab[..|ab| - 1] == a + init && ab[|ab| - 1] == last;
      var tail := if HourOf(last).value == h then [last] else [];
      assert WithHour(ab, h) == WithHour(a + init, h) + tail;
      assert WithHour(b, h) == WithHour(init, h) + tail;
      ConcatAssociative(WithHour(a, h), WithHour(init, h), tail);
    } else {
      assert a + b == a;
    }
  }

  lemma HourlyAppend(a: seq<ByteRecord>, b: seq<ByteRecord>)
    requires Hourly(a) && Hourly(b)
    ensures Hourly(a + b)
  {
    forall i | 0 <= i < |a + b| ensures HourOf((a + b)[i]).Ok? {
      if i < |a| {
        assert (a + b)[i] == a[i];
      } else {
        assert (a + b)[i] == b[i - |a|];
      }
    }
  }

  /**
   * `merge_groups`' result: every hour of either grouping, with the first
   * grouping's records before the second's.
   */
  function Merged(h1: Grouping, h2: Grouping): Grouping
  {
    map h | h in h1.Keys + h2.Keys :: Group(h1, h) + Group(h2, h)
  }

  /** The hours of `h2` outside `todo` have been merged into `h1`, giving `m`. */
  ghost predicate MergedSoFar(h1: Grouping, h2: Grouping, m: Grouping, todo: set<U8>)
  {
    m.Keys == h1.Keys + (h2.Keys - todo)
    && forall h :: h in m ==> m[h] == Group(h1, h) + (if h in todo then [] else Group(h2, h))
  }

  /** Merging one more hour of `h2`. */
  lemma MergeStep(h1: Grouping, h2: Grouping, m: Grouping, todo: set<U8>, hour: U8, m': Grouping)
    requires hour in todo && todo <= h2.Keys && MergedSoFar(h1, h2, m, todo)
    requires m' == m[hour := Group(m, hour) + h2[hour]]
    ensures MergedSoFar(h1, h2, m', todo - {hour})
  {
  }

  /** With every hour of `h2` merged, the result is the merge. */
  lemma MergeDone(h1: Grouping, h2: Grouping, m: Grouping)
    requires MergedSoFar(h1, h2, m, {})
    ensures m == Merged(h1, h2)
  {
    var r := Merged(h1, h2);
    assert m.Keys == r.Keys;
    forall h | h in m ensures m[h] == r[h] {
    }
  }

  /** `merge_groups`: each hour of `h2` extends the group `h1` has for it, or is inserted. */
  method MergeGroups(h1: Grouping, h2: Grouping) returns (m: Grouping)
    ensures m == Merged(h1, h2)
  {
    m := h1;
    var todo := h2.Keys;
    while todo != {}
      invariant todo <= h2.Keys
      invariant MergedSoFar(h1, h2, m, todo)
      decreases |todo|
    {
      var hour :| hour in todo;
      ghost var m0 := m;
      if hour in m {
        m := m[hour := m[hour] + h2[hour]];
      } else {
        assert Group(m, hour) + h2[hour] == h2[hour];
        m := m[hour := h2[hour]];
      }
      MergeStep(h1, h2, m0, todo, hour, m);
      todo := todo - {hour};
    }
    MergeDone(h1, h2, m);
  }

  /** The hours of a merge, and the group of each hour in it. */
  lemma MergedGroups(h1: Grouping, h2: Grouping)
    ensures Merged(h1, h2).Keys == h1.Keys + h2.Keys
    ensures forall h :: Group(Merged(h1, h2), h) == Group(h1, h) + Group(h2, h)
  {
  }

  /** Two groupings with the same hours and the same group for each hour are equal. */
  lemma SameGroups(x: Grouping, y: Grouping)
    requires x.Keys == y.Keys
    requires forall h :: Group(x, h) == Group(y, h)
    ensures x == y
  {
    forall h | h in x ensures x[h] == y[h] {
      assert Group(x, h) == Group(y, h);
    }
  }

  /**
   * Grouping two runs of records and merging the groupings is grouping the
   * runs one after the other, which is why the tool may group each file
   * separately and reduce the groupings.
   */
  lemma MergeGrouped(a: seq<ByteRecord>, b: seq<ByteRecord>)
    requires Hourly(a) && Hourly(b)
    ensures Hourly(a + b) && Grouped(a).Ok? && Grouped(b).Ok?
    ensures Grouped(a + b) == Ok(Merged(Grouped(a).value, Grouped(b).value))
  {
    forall h ensures Hourly(a + b) && WithHour(a + b, h) == WithHour(a, h) + WithHour(b, h) {
      WithHourAppend(a, b, h);
    }
    GroupedOk(a);
    GroupedOk(b);
    GroupedOk(a + b);
    var ga, gb, gab := Grouped(a).value, Grouped(b).value, Grouped(a + b).value;
    var mg := Merged(ga, gb);
    MergedGroups(ga, gb);
    forall h ensures Group(gab, h) == Group(mg, h) && (h in gab <==> h in mg) {
      GroupedByHour(a, h);
      GroupedByHour(b, h);
      GroupedByHour(a + b, h);
    }
    SameGroups(gab, mg);
  }

  /** Merging with an empty grouping changes nothing, on either side. */
  lemma MergedIdentity(m: Grouping)
    ensures Merged(map[], m) == m && Merged(m, map[]) == m
  {
    MergedGroups(map[], m);
    MergedGroups(m, map[]);
    forall h ensures Group(Merged(map[], m), h) == Group(m, h) && Group(Merged(m, map[]), h) == Group(m, h) {
      assert [] + Group(m, h) == Group(m, h) + [] == Group(m, h);
    }
    SameGroups(Merged(map[], m), m);
    SameGroups(Merged(m, map[]), m);
  }

  /** Merging is associative, so the shape of rayon's reduction tree does not matter. */
  lemma MergedAssociative(a: Grouping, b: Grouping, c: Grouping)
    ensures Merged(Merged(a, b), c) == Merged(a, Merged(b, c))
  {
    var ab, bc := Merged(a, b), Merged(b, c);
    var l, r := Merged(ab, c), Merged(a, bc);
    MergedGroups(a, b);
    MergedGroups(b, c);
    MergedGroups(ab, c);
    MergedGroups(a, bc);
    forall h ensures Group(l, h) == Group(r, h) {
      ConcatAssociative(Group(a, h), Group(b, h), Group(c, h));
    }
    SameGroups(l, r);
  }

  lemma ConcatAssociative(x: seq<ByteRecord>, y: seq<ByteRecord>, z: seq<ByteRecord>)
    ensures (x + y) + z == x + (y + z)
  {
  }

  // ---------------------------------------------------------------------
  // tukey_fences
  // ---------------------------------------------------------------------

  /** The quartile indices of `tukey_fences` for `len` items: `n >> 2`, `n >> 1` and `n - q1` with `n = len - 1`. */
  function Quartiles(len: nat): (q: (nat, nat, nat))
    requires len > 0
    ensures q.0 <= q.1 <= q.2 < len
  {
    var n := len - 1;
    (n / 4, n / 2, n - n / 4)
  }

  /**
   * The fences of the sorted items: the median key minus and plus `k` times
   * the distance between the quartile keys. Without items, `len() - 1`
   * underflows.
   */
  function Fences<T>(sorted: seq<T>, k: real, key: T -> real): (r: Result<(real, real)>)
    ensures r.Err? <==> sorted == []
  {
    if sorted == [] then Err("attempt to subtract with overflow")
    else
      var q := Quartiles(|sorted|);
      var iqr := key(sorted[q.2]) - key(sorted[q.0]);
      var median := key(sorted[q.1]);
      Ok((median - k * iqr, median + k * iqr))
  }

  /** On sorted items and a non-negative `k`, the median key lies within the fences. */
  lemma FencesHoldMedian<T>(sorted: seq<T>, k: real, key: T -> real)
    requires SortedBy(sorted, key) && sorted != [] && k >= 0.0
    ensures Fences(sorted, k, key).value.0 <= key(sorted[Quartiles(|sorted|).1]) <= Fences(sorted, k, key).value.1
  {
    var q := Quartiles(|sorted|);
    var iqr := key(sorted[q.2]) - key(sorted[q.0]);
    assert iqr >= 0.0;
    var spread := k * iqr;
    NonNegativeProduct(k, iqr, spread);
  }

  lemma NonNegativeProduct(x: real, y: real, p: real)
    requires x >= 0.0 && y >= 0.0 && p == x * y
    ensures p >= 0.0
  {
  }

  /** Whether a key lies before a fence: strictly below it, or at most at it when `inclusive`. */
  predicate Before(v: real, fence: real, inclusive: bool)
  {
    if inclusive then v <= fence else v < fence
  }

  /**
   * `binary_search_by(..).unwrap_err()` with a comparison that never answers
   * `Equal`: on sorted items, the index that splits the items before the
   * fence from the rest.
   */
  method PartitionPoint<T>(data: seq<T>, key: T -> real, fence: real, inclusive: bool) returns (idx: nat)
    requires SortedBy(data, key)
    ensures idx <= |data|
    ensures forall i :: 0 <= i < idx ==> Before(key(data[i]), fence, inclusive)
    ensures forall i :: idx <= i < |data| ==> !Before(key(data[i]), fence, inclusive)
  {
    var lo, hi := 0, |data|;
    while lo < hi
      invariant 0 <= lo <= hi <= |data|
      invariant forall i :: 0 <= i < lo ==> Before(key(data[i]), fence, inclusive)
      invariant forall i :: hi <= i < |data| ==> !Before(key(data[i]), fence, inclusive)
    {
      var mid := lo + (hi - lo) / 2;
      if Before(key(data[mid]), fence, inclusive) {
        lo := mid + 1;
      } else {
        hi := mid;
      }
    }
    idx := lo;
  }

  /** The two partition points of the fences bound exactly the items within them. */
  lemma FenceSlice<T>(sorted: seq<T>, key: T -> real, lo: nat, hi: nat, low: real, high: real)
    requires lo <= hi <= |sorted|
    requires forall i :: 0 <= i < lo ==> Before(key(sorted[i]), low, false)
    requires forall i :: lo <= i < |sorted| ==> !Before(key(sorted[i]), low, false)
    requires forall i :: lo <= i < hi ==> Before(key(sorted[i]), high, true)
    requires forall i :: hi <= i < |sorted| ==> !Before(key(sorted[i]), high, true)
    ensures forall i :: 0 <= i < |sorted| ==> (lo <= i < hi <==> low <= key(sorted[i]) <= high)
  {
  }

  /** The sorted items and the bounds of the slice `tukey_fences` returns. */
  datatype Trimmed<T> = Trimmed(sorted: seq<T>, lo: nat, hi: nat)

  /**
   * The slice is the run of sorted items whose keys lie within the fences,
   * ends included: an item is in the slice exactly when its key is.
   */
  ghost predicate FencedBy<T>(data: seq<T>, k: real, key: T -> real, t: Trimmed<T>)
  {
    t.sorted == SortBy(data, key) && t.lo <= t.hi <= |t.sorted| && Fences(t.sorted, k, key).Ok?
    && var low, high := Fences(t.sorted, k, key).value.0, Fences(t.sorted, k, key).value.1;
    forall i :: 0 <= i < |t.sorted| ==> (t.lo <= i < t.hi <==> low <= key(t.sorted[i]) <= high)
  }

  /**
   * `tukey_fences`: sorts the items by key, then returns the contiguous slice
   * of the items within the fences. It panics on no items; with `k >= 0` the
   * median item is always kept.
   */
  method TukeyFences<T>(data: seq<T>, k: real, key: T -> real) returns (r: Result<Trimmed<T>>)
    ensures r.Err? <==> data == []
    ensures r.Ok? ==> FencedBy(data, k, key, r.value)
    ensures r.Ok? ==> multiset(r.value.sorted) == multiset(data) && SortedBy(r.value.sorted, key)
    ensures r.Ok? && k >= 0.0 ==> r.value.lo <= (|data| - 1) / 2 < r.value.hi
  {
    if data == [] {
      return Err("attempt to subtract with overflow");
    }
    var sorted := SortBy(data, key);
    SortByCorrect(data, key);
    var fences := Fences(sorted, k, key);
    var low, high := fences.value.0, fences.value.1;
    var lo := PartitionPoint(sorted, key, low, false);
    var highRange := sorted[lo..];
    assert SortedBy(highRange, key) by {
      forall i, j | 0 <= i < j < |highRange| ensures key(highRange[i]) <= key(highRange[j]) {
        assert highRange[i] == sorted[lo + i] && highRange[j] == sorted[lo + j];
      }
    }
    var off := PartitionPoint(highRange, key, high, true);
    var hi := lo + off;
    forall i | lo <= i < |sorted|
      ensures !Before(key(sorted[i]), low, false)
      ensures i < hi ==> Before(key(sorted[i]), high, true)
      ensures i >= hi ==> !Before(key(sorted[i]), high, true)
    {
      assert sorted[i] == highRange[i - lo];
    }
    FenceSlice(sorted, key, lo, hi, low, high);
    var t := Trimmed(sorted, lo, hi);
    assert FencedBy(data, k, key, t);
    if k >= 0.0 {
      FencesHoldMedian(sorted, k, key);
    }
    r := Ok(t);
  }

  // ---------------------------------------------------------------------
  // count_by
  // ---------------------------------------------------------------------

  /** The number of items with key `x`. */
  function Count<T, K(==)>(data: seq<T>, key: T -> K, x: K): (c: nat)
    ensures c <= |data|
    ensures c > 0 <==> exists i :: 0 <= i < |data| && key(data[i]) == x
  {
    if data == [] then 0
    else
      var init := data[..|data| - 1];
      assert forall i :: 0 <= i < |init| ==> init[i] == data[i];
      Count(init, key, x) + (if key(data[|data| - 1]) == x then 1 else 0)
  }

  /** The table the fold of `count_by` builds: the entry of an item's key goes up by one, starting at one. */
  function Counted<T, K(==)>(data: seq<T>, key: T -> K): map<K, nat>
  {
    if data == [] then map[]
    else
      var m := Counted(data[..|data| - 1], key);
      var x := key(data[|data| - 1]);
      m[x := if x in m then m[x] + 1 else 1]
  }

  /** The table holds the keys of the items, each with the number of items that have it. */
  lemma {:induction false} CountedCounts<T, K>(data: seq<T>, key: T -> K)
    ensures Counted(data, key).Keys == set i | 0 <= i < |data| :: key(data[i])
    ensures forall x :: x in Counted(data, key) ==> Counted(data, key)[x] == Count(data, key, x)
  {
    if data != [] {
      var init := data[..|data| - 1];
      assert forall i :: 0 <= i < |init| ==> init[i] == data[i];
      CountedCounts(init, key);
      var keys := set i | 0 <= i < |data| :: key(data[i]);
      var initKeys := set i | 0 <= i < |init| :: key(init[i]);
      assert keys == initKeys + {key(data[|data| - 1])} by {
        forall x | x in keys ensures x in initKeys + {key(data[|data| - 1])} {
          var i :| 0 <= i < |data| && key(data[i]) == x;
          if i < |init| {
            assert key(init[i]) == x;
          }
        }
      }
    }
  }

  /**
   * `count_by`: every item's key is counted up in the table. (The parallel
   * fold and reduce run here as one loop; `CountedAppend` states why the
   * split does not change the table.)
   */
  method CountBy<T, K(==)>(data: seq<T>, key: T -> K) returns (m: map<K, nat>)
    ensures m == Counted(data, key)
    ensures m.Keys == set i | 0 <= i < |data| :: key(data[i])
    ensures forall x :: x in m ==> m[x] == Count(data, key, x)
  {
    m := map[];
    var i := 0;
    while i < |data|
      invariant 0 <= i <= |data|
      invariant m == Counted(data[..i], key)
    {
      assert data[..i + 1][..i] == data[..i];
      var x := key(data[i]);
      if x in m {
        m := m[x := m[x] + 1];
      } else {
        m := m[x := 1];
      }
      i := i + 1;
    }
    assert data[..i] == data;
    CountedCounts(data, key);
  }

  /** Counts over two runs of items add up. */
  lemma {:induction false} CountAppend<T, K>(a: seq<T>, b: seq<T>, key: T -> K, x: K)
    ensures Count(a + b, key, x) == Count(a, key, x) + Count(b, key, x)
  {
    if b != [] {
      var init := b[..|b| - 1];
      assert (a + b)[..|a + b| - 1] == a + init;
      assert (a + b)[|a + b| - 1] == b[|b| - 1];
      CountAppend(a, init, key, x);
    } else {
      assert a + b == a;
    }
  }

  /** The reduce step of `count_by`: the entries of both tables, added where both have a key. */
  function MergedCounts<K(==)>(a: map<K, nat>, b: map<K, nat>): map<K, nat>
  {
    map x | x in a.Keys + b.Keys :: (if x in a then a[x] else 0) + (if x in b then b[x] else 0)
  }

  /** Counting two runs separately and reducing the tables is counting them together. */
  lemma CountedAppend<T, K>(a: seq<T>, b: seq<T>, key: T -> K)
    ensures Counted(a + b, key) == MergedCounts(Counted(a, key), Counted(b, key))
  {
    var l, r := Counted(a + b, key), MergedCounts(Counted(a, key), Counted(b, key));
    CountedAgree(a, b, key);
    SameEntries(l, r);
  }

  /** Two tables with the same keys and the same entry under each key are equal. */
  lemma SameEntries<K>(l: map<K, nat>, r: map<K, nat>)
    requires forall x :: (x in l <==> x in r) && (x in l ==> l[x] == r[x])
    ensures l == r
  {
    assert l.Keys == r.Keys;
  }

  /** Key by key, the table of a + b and the reduced tables of a and b agree. */
  lemma CountedAgree<T, K>(a: seq<T>, b: seq<T>, key: T -> K)
    ensures forall x ::
      && (x in Counted(a + b, key) <==> x in MergedCounts(Counted(a, key), Counted(b, key)))
      && (x in Counted(a + b, key) ==> Counted(a + b, key)[x] == MergedCounts(Counted(a, key), Counted(b, key))[x])
  {
    forall x ensures (x in Counted(a + b, key) <==> x in MergedCounts(Counted(a, key), Counted(b, key)))
      && (x in Counted(a + b, key) ==> Counted(a + b, key)[x] == MergedCounts(Counted(a, key), Counted(b, key))[x])
    {
      CountAppend(a, b, key, x);
      CountedEntry(a, key, x);
      CountedEntry(b, key, x);
      CountedEntry(a + b, key, x);
    }
  }

  /** A key is in the table exactly when some item has it, and its entry is then its count. */
  lemma CountedEntry<T, K>(data: seq<T>, key: T -> K, x: K)
    ensures x in Counted(data, key) <==> Count(data, key, x) > 0
    ensures x in Counted(data, key) ==> Counted(data, key)[x] == Count(data, key, x)
  {
    CountedCounts(data, key);
    if Count(data, key, x) > 0 {
      var i :| 0 <= i < |data| && key(data[i]) == x;
    }
  }

  /** The total of the counts of the keys in `keys`. */
  function CountSum<T, K(==)>(data: seq<T>, key: T -> K, keys: seq<K>): nat
  {
    if keys == [] then 0 else Count(data, key, keys[0]) + CountSum(data, key, keys[1..])
  }

  /** One more item adds one to the total of every list of keys that holds its key exactly once. */
  lemma {:induction false} CountSumSnoc<T, K>(data: seq<T>, x: T, key: T -> K, keys: seq<K>)
    requires forall i, j :: 0 <= i < j < |keys| ==> keys[i] != keys[j]
    ensures CountSum(data + [x], key, keys) == CountSum(data, key, keys) + (if key(x) in keys then 1 else 0)
  {
    if keys != [] {
      CountSumSnoc(data, x, key, keys[1..]);
      assert (data + [x])[..|data|] == data;
      assert key(x) in keys <==> key(x) == keys[0] || key(x) in keys[1..];
      if key(x) == keys[0] {
        assert key(x) !in keys[1..];
      }
    }
  }

  /** The counts of a list of distinct keys that covers every item's key add up to the number of items. */
  lemma {:induction false} CountsSumToLength<T, K>(data: seq<T>, key: T -> K, keys: seq<K>)
    requires forall i, j :: 0 <= i < j < |keys| ==> keys[i] != keys[j]
    requires forall i :: 0 <= i < |data| ==> key(data[i]) in keys
    ensures CountSum(data, key, keys) == |data|
  {
    if data == [] {
      NoItemsSum(data, key, keys);
    } else {
      var init, last := data[..|data| - 1], data[|data| - 1];
      assert data == init + [last];
      CountSumSnoc(init, last, key, keys);
      CountsSumToLength(init, key, keys);
    }
  }

  /** Without items every count is zero. */
  lemma {:induction false} NoItemsSum<T, K>(data: seq<T>, key: T -> K, keys: seq<K>)
    requires data == []
    ensures CountSum(data, key, keys) == 0
  {
    if keys != [] {
      NoItemsSum(data, key, keys[1..]);
    }
  }

  // ---------------------------------------------------------------------
  // process_group
  // ---------------------------------------------------------------------

  /** `Intermediate`: a record, the building it was mapped to and the distance to that building. */
  datatype Intermediate = Intermediate(record: ByteRecord, bldg: Building, dist: real)

  function Dist(x: Intermediate): real
  {
    x.dist
  }

  function BuildingId(x: Intermediate): U32
  {
    x.bldg.id
  }

  /** Every record has the fields 11 and 12 the mapping step reads. */
  predicate Complete(data: seq<Intermediate>)
  {
    forall i :: 0 <= i < |data| ==> |data[i].record| >= 13
  }

  /**
   * The output row of a mapping: fields 0, 2, 11 and 12 of the record
   * (vehicle, link, x, y), the building id, the building centroid, the
   * distance and the count of the building, numbers written by `to_string`
   * (`show` for an `f64`).
   */
  function OutputRow(x: Intermediate, count: nat, show: real -> string): (row: seq<string>)
    requires |x.record| >= 13
    ensures |row| == 9
  {
    [x.record[0], x.record[2], x.record[11], x.record[12], IntDecimal(x.bldg.id),
     show(x.bldg.centroid.x), show(x.bldg.centroid.y), show(x.dist), IntDecimal(count)]
  }

  /**
   * The layout matches the reader of mapping files: when the record's fields
   * and the written reals read back as numbers, the row parses to the mapping
   * of that vehicle, link, position, building, distance and count.
   */
  lemma OutputRowParses(x: Intermediate, count: nat, show: real -> string, vid: int, lid: int, vx: real, vy: real)
    requires |x.record| >= 13
    requires PyInt(x.record[0]) == Some(vid) && PyInt(x.record[2]) == Some(lid)
    requires PyFloat(x.record[11]) == Some(vx) && PyFloat(x.record[12]) == Some(vy)
    requires PyFloat(show(x.bldg.centroid.x)) == Some(x.bldg.centroid.x)
    requires PyFloat(show(x.bldg.centroid.y)) == Some(x.bldg.centroid.y)
    requires PyFloat(show(x.dist)) == Some(x.dist)
    ensures Mappings.ParseCsv(OutputRow(x, count, show))
            == Some(Mappings.MappingEntry(vid, lid, (vx, vy), x.bldg.id as int, (x.bldg.centroid.x, x.bldg.centroid.y), x.dist, count))
  {
    PyIntDecimal(x.bldg.id);
    PyIntDecimal(count);
  }

  /** What `process_group` computes: the mappings kept, their output rows and the count per building. */
  datatype Processed = Processed(kept: seq<Intermediate>, rows: seq<seq<string>>, counts: map<U32, nat>)

  /** `counts.get(&id).copied().unwrap_or(0)`. */
  function CountOf(counts: map<U32, nat>, id: U32): nat
  {
    if id in counts then counts[id] else 0
  }

  /**
   * `process_group` after the mapping step: with `filter` the mappings are
   * trimmed to the Tukey fences (k = 1.5) of their distances, which panics
   * when there are none; the kept mappings are counted per building and each
   * becomes an output row carrying its building's count.
   */
  method ProcessGroup(mappings: seq<Intermediate>, filter: bool, show: real -> string) returns (r: Result<Processed>)
    requires Complete(mappings)
    ensures r.Err? <==> filter && mappings == []
    ensures r.Ok? && !filter ==> r.value.kept == mappings
    ensures r.Ok? && filter ==> exists t :: FencedBy(mappings, 1.5, Dist, t) && r.value.kept == t.sorted[t.lo..t.hi]
    ensures r.Ok? ==> multiset(r.value.kept) <= multiset(mappings)
    ensures r.Ok? ==> r.value.counts.Keys == set i | 0 <= i < |r.value.kept| :: r.value.kept[i].bldg.id
    ensures r.Ok? ==> forall id :: id in r.value.counts ==> r.value.counts[id] == Count(r.value.kept, BuildingId, id)
    ensures r.Ok? ==> Complete(r.value.kept) && |r.value.rows| == |r.value.kept|
    ensures r.Ok? ==> forall i :: 0 <= i < |r.value.rows| ==>
                        r.value.rows[i] == OutputRow(r.value.kept[i], Count(r.value.kept, BuildingId, r.value.kept[i].bldg.id), show)
  {
    var data: seq<Intermediate>;
    if filter {
      var trimmed := TukeyFences(mappings, 1.5, Dist);
      if trimmed.Err? {
        return Err(trimmed.error);
      }
      var t := trimmed.value;
      data := t.sorted[t.lo..t.hi];
      SliceOfPermutation(t.sorted, mappings, t.lo, t.hi);
    } else {
      data := mappings;
    }
    var counts := CountBy(data, BuildingId);
    forall i | 0 <= i < |data| ensures data[i].bldg.id in counts {
      assert BuildingId(data[i]) == data[i].bldg.id;
    }
    var rows := seq(|data|, i requires 0 <= i < |data| => OutputRow(data[i], CountOf(counts, data[i].bldg.id), show));
    r := Ok(Processed(data, rows, counts));
  }

  /** A slice of a permutation of complete mappings holds a sub-multiset of them, all complete. */
  lemma SliceOfPermutation(sorted: seq<Intermediate>, mappings: seq<Intermediate>, lo: nat, hi: nat)
    requires multiset(sorted) == multiset(mappings) && Complete(mappings) && lo <= hi <= |sorted|
    ensures multiset(sorted[lo..hi]) <= multiset(mappings)
    ensures Complete(sorted[lo..hi])
  {
    assert sorted == sorted[..lo] + sorted[lo..hi] + sorted[hi..];
    var data := sorted[lo..hi];
    forall i | 0 <= i < |data| ensures |data[i].record| >= 13 {
      assert data[i] in multiset(mappings);
    }
  }
}
