/**
 * Link volume tables: reading per-link volume rows, numbering the link
 * descriptions through the module-level description list, and the
 * per-day, per-hour volume snapshot.
 */
module LinkVolIo {
  import opened Wrappers
  import opened Text
  import opened Tables

  /** One link's volume record; `desc` is the number given to its description. */
  datatype LinkVolume = LinkVolume(linkId: int, countyId: int, zoneId: int, roadType: int, linkLen: real,
                                   linkVol: int, avgSpeed: real, desc: int, avgGrade: real)

  /** The fields of a row before its description is numbered. */
  datatype RawRow = RawRow(linkId: int, countyId: int, zoneId: int, roadType: int, linkLen: real,
                           linkVol: int, avgSpeed: real, desc: string, avgGrade: real)

  /** A row: integers in columns 0 to 3 and 5, floats in 4, 6 and 8, the description text in 7. */
  function ParseRaw(row: seq<string>): (r: Option<RawRow>)
    ensures r.Some? ==> |row| >= 9 && r.value.desc == row[7] && Some(r.value.linkId) == PyInt(row[0])
  {
    if |row| < 9 then None
    else match (PyInt(row[0]), PyInt(row[1]), PyInt(row[2]), PyInt(row[3]), PyFloat(row[4]),
                PyInt(row[5]), PyFloat(row[6]), PyFloat(row[8]))
      case (Some(lid), Some(cid), Some(zid), Some(rt), Some(len), Some(vol), Some(sp), Some(gr)) =>
        Some(RawRow(lid, cid, zid, rt, len, vol, sp, row[7], gr))
      case _ => None
  }

  /** An element of the description list, which holds whatever was appended to it. */
  datatype DescEntry = Text(s: string) | Number(n: int)

  /** `list.index`: the first position holding `e`. */
  function IndexOf(entries: seq<DescEntry>, e: DescEntry): (r: Option<nat>)
    ensures r.Some? <==> e in entries
    ensures r.Some? ==> r.value < |entries| && entries[r.value] == e
                        && forall i :: 0 <= i < r.value ==> entries[i] != e
  {
    if |entries| == 0 then None
    else if entries[0] == e then Some(0)
    else match IndexOf(entries[1..], e)
      case None => None
      case Some(k) => Some(k + 1)
  }

  lemma IndexOfPrefix(entries: seq<DescEntry>, more: seq<DescEntry>, e: DescEntry)
    requires e in entries
    ensures IndexOf(entries + more, e) == IndexOf(entries, e)
  {
    var k := IndexOf(entries, e).value;
    assert (entries + more)[k] == e;
  }

  /**
   * The numbering as written: the description string is looked up in a list
   * that only ever receives numbers, so it is never found, and the list's
   * length is both the number given and the element appended.
   */
  function NumberDescAsWritten(entries: seq<DescEntry>, desc: string): (r: (int, seq<DescEntry>))
  {
    if Text(desc) in entries then (IndexOf(entries, Text(desc)).value, entries)
    else (|entries|, entries + [Number(|entries|)])
  }

  /** While the list holds only numbers, every row gets the current length and the list grows by one. */
  lemma AsWrittenCounts(entries: seq<DescEntry>, desc: string)
    requires forall i :: 0 <= i < |entries| ==> entries[i].Number?
    ensures NumberDescAsWritten(entries, desc) == (|entries|, entries + [Number(|entries|)])
    ensures forall i :: 0 <= i < |entries| + 1 ==> NumberDescAsWritten(entries, desc).1[i].Number?
  {
    assert forall i :: 0 <= i < |entries| ==> entries[i] != Text(desc);
  }

  /** Two rows with the same description get different numbers as written, and the same number when interned. */
  lemma AsWrittenRepeatsDiffer()
    ensures var first := NumberDescAsWritten([], "ARTERIAL");
            NumberDescAsWritten(first.1, "ARTERIAL").0 == 1 && first.0 == 0
    ensures var first := InternDesc([], "ARTERIAL");
            InternDesc(first.1, "ARTERIAL").0 == 0 && first.0 == 0
  {
    var w := NumberDescAsWritten([], "ARTERIAL");
    assert w.1 == [Number(0)];
    assert Text("ARTERIAL") !in w.1;
    var c := InternDesc([], "ARTERIAL");
    assert c.1 == [Text("ARTERIAL")];
  }

  /**
   * The evidently intended numbering: the description text is appended the
   * first time it is seen, and its position in the list is its number.
   */
  function InternDesc(entries: seq<DescEntry>, desc: string): (r: (int, seq<DescEntry>))
    ensures 0 <= r.0 < |r.1| && r.1[r.0] == Text(desc)
    ensures |entries| <= |r.1| <= |entries| + 1 && r.1[..|entries|] == entries
    ensures IndexOf(r.1, Text(desc)) == Some(r.0)
  {
    match IndexOf(entries, Text(desc))
    case Some(k) => (k, entries)
    case None =>
      var grown := entries + [Text(desc)];
      assert grown[..|entries|] == entries;
      (|entries|, grown)
  }

  function WithDesc(raw: RawRow, desc: int): LinkVolume
  {
    LinkVolume(raw.linkId, raw.countyId, raw.zoneId, raw.roadType, raw.linkLen, raw.linkVol, raw.avgSpeed,
               desc, raw.avgGrade)
  }

  /**
   * The volumes of the rows in order, numbering descriptions through the list
   * as the loader does, and the list afterwards.
   */
  function Numbered(entries: seq<DescEntry>, raws: seq<RawRow>): (r: (seq<LinkVolume>, seq<DescEntry>))
    ensures |r.0| == |raws|
  {
    if |raws| == 0 then ([], entries)
    else
      var pre := Numbered(entries, raws[..|raws| - 1]);
      var d := NumberDescAsWritten(pre.1, raws[|raws| - 1].desc);
      (pre.0 + [WithDesc(raws[|raws| - 1], d.0)], d.1)
  }

  /** The numbers appended to a list of `n` entries by `count` rows. */
  function FreshNumbers(n: nat, count: nat): (r: seq<DescEntry>)
    ensures |r| == count && forall k :: 0 <= k < count ==> r[k] == Number(n + k)
  {
    seq(count, k requires 0 <= k < count => Number(n + k))
  }

  /**
   * While the list holds only numbers, as it does from its empty start, row i
   * gets the number `|entries| + i` whatever its description, and the list
   * grows by one number per row.
   */
  lemma {:induction false} NumberedFresh(entries: seq<DescEntry>, raws: seq<RawRow>)
    requires forall k :: 0 <= k < |entries| ==> entries[k].Number?
    ensures var r := Numbered(entries, raws);
            r.1 == entries + FreshNumbers(|entries|, |raws|)
            && forall i :: 0 <= i < |raws| ==> r.0[i] == WithDesc(raws[i], |entries| + i)
  {
    if |raws| > 0 {
      var init := raws[..|raws| - 1];
      var pre := Numbered(entries, init);
      NumberedFresh(entries, init);
      var grown := entries + FreshNumbers(|entries|, |init|);
      assert pre.1 == grown;
      AsWrittenCounts(grown, raws[|raws| - 1].desc);
      assert grown + [Number(|grown|)] == entries + FreshNumbers(|entries|, |raws|);
      forall i | 0 <= i < |raws| - 1 ensures Numbered(entries, raws).0[i] == WithDesc(raws[i], |entries| + i) {
        assert raws[i] == init[i];
      }
    }
  }

  /** The list only grows: the list before is a prefix of the list after. */
  lemma {:induction false} NumberedGrows(entries: seq<DescEntry>, raws: seq<RawRow>)
    ensures var r := Numbered(entries, raws); |entries| <= |r.1| && r.1[..|entries|] == entries
  {
    if |raws| > 0 {
      var pre := Numbered(entries, raws[..|raws| - 1]);
      NumberedGrows(entries, raws[..|raws| - 1]);
      var d := NumberDescAsWritten(pre.1, raws[|raws| - 1].desc);
      assert d.1[..|entries|] == pre.1[..|entries|];
    }
  }

  /** The evidently intended numbering of the rows, through `InternDesc`. */
  function Interned(entries: seq<DescEntry>, raws: seq<RawRow>): (r: (seq<LinkVolume>, seq<DescEntry>))
    ensures |r.0| == |raws|
  {
    if |raws| == 0 then ([], entries)
    else
      var pre := Interned(entries, raws[..|raws| - 1]);
      var d := InternDesc(pre.1, raws[|raws| - 1].desc);
      (pre.0 + [WithDesc(raws[|raws| - 1], d.0)], d.1)
  }

  /**
   * With interning, row i's number is the first position of its description
   * text in the final list, and the row's other fields are kept.
   */
  lemma {:induction false} InternedAt(entries: seq<DescEntry>, raws: seq<RawRow>, i: int)
    requires 0 <= i < |raws|
    ensures var r := Interned(entries, raws);
            r.0[i] == WithDesc(raws[i], r.0[i].desc) && IndexOf(r.1, Text(raws[i].desc)) == Some(r.0[i].desc)
  {
    var init := raws[..|raws| - 1];
    var pre := Interned(entries, init);
    var d := InternDesc(pre.1, raws[|raws| - 1].desc);
    var r := Interned(entries, raws);
    if i < |raws| - 1 {
      InternedAt(entries, init, i);
      assert raws[i] == init[i] && r.0[i] == pre.0[i];
      assert d.1 == pre.1 + d.1[|pre.1|..];
      IndexOfPrefix(pre.1, d.1[|pre.1|..], Text(raws[i].desc));
    }
  }

  /** With interning, rows with equal descriptions get equal numbers. */
  lemma SameDescSameNumber(entries: seq<DescEntry>, raws: seq<RawRow>, i: int, j: int)
    requires 0 <= i < |raws| && 0 <= j < |raws| && raws[i].desc == raws[j].desc
    ensures Interned(entries, raws).0[i].desc == Interned(entries, raws).0[j].desc
  {
    InternedAt(entries, raws, i);
    InternedAt(entries, raws, j);
  }

  function LinkIdOf(v: LinkVolume): int { v.linkId }

  /** The module-level description list, shared by every call. */
  class DescRegistry {
    var entries: seq<DescEntry>

    constructor ()
      ensures entries == []
    {
      entries := [];
    }
  }

  /**
   * `link_volumes`: skips the header, then numbers each row's description
   * as the code does (`NumberDescAsWritten`, so every row gets a new number)
   * and stores the row under its link id, a later row replacing an earlier
   * one. The description list is updated row by row and keeps its contents
   * across calls. A missing header or a row that does not parse raises
   * (`None`), after the rows before it have been numbered.
   */
  method LinkVolumes(reg: DescRegistry, lines: seq<seq<string>>)
    returns (result: Option<map<int, LinkVolume>>, ghost raws: seq<RawRow>)
    modifies reg
    ensures |lines| == 0 ==> raws == []
    ensures |lines| > 0 ==> |raws| < |lines|
    ensures forall i :: 0 <= i < |raws| ==> ParseRaw(lines[i + 1]) == Some(raws[i])
    ensures result.Some? <==> |lines| > 0 && |raws| == |lines| - 1
    ensures result.None? && |lines| > 0 ==> ParseRaw(lines[|raws| + 1]).None?
    ensures reg.entries == Numbered(old(reg.entries), raws).1
    ensures result.Some? ==> result.value == TableOf(Numbered(old(reg.entries), raws).0, LinkIdOf)
  {
    raws := [];
    if |lines| == 0 {
      return None, raws;
    }
    ghost var start := reg.entries;
    var table: map<int, LinkVolume> := map[];
    var i := 1;
    while i < |lines|
      invariant 1 <= i <= |lines| && |raws| == i - 1
      invariant forall k :: 0 <= k < |raws| ==> ParseRaw(lines[k + 1]) == Some(raws[k])
      invariant reg.entries == Numbered(start, raws).1
      invariant table == TableOf(Numbered(start, raws).0, LinkIdOf)
    {
      var raw := ParseRaw(lines[i]);
      if raw.None? {
        return None, raws;
      }
      var d := NumberDescAsWritten(reg.entries, raw.value.desc);
      reg.entries := d.1;
      var lv := WithDesc(raw.value, d.0);
      TableOfSnoc(Numbered(start, raws).0, LinkIdOf, lv);
      table := table[lv.linkId := lv];
      ghost var raws' := raws + [raw.value];
      assert raws'[..|raws'| - 1] == raws;
      forall k | 0 <= k < i ensures ParseRaw(lines[k + 1]) == Some(raws'[k]) {
        if k < i - 1 {
          assert raws'[k] == raws[k];
        }
      }
      raws := raws';
      i := i + 1;
    }
    return Some(table), raws;
  }

  const DAYS: seq<string> := ["MONDAY", "TUESDAY", "WEDNESDAY", "THURSDAY", "FRIDAY"]

  /** A Python list of volume slots; several hours may hold the same one. */
  class HourList {
    var items: seq<Option<LinkVolume>>

    constructor ()
      ensures items == []
    {
      items := [];
    }
  }

  /**
   * `lv_array[link_id] = lv` after padding with None up to `link_id`: a
   * non-negative index is padded to and written; a negative index counts
   * from the end and fails (IndexError) when it reaches before the start.
   */
  function Stored(items: seq<Option<LinkVolume>>, linkId: int, lv: LinkVolume): (r: Option<seq<Option<LinkVolume>>>)
    ensures linkId >= 0 ==> r.Some? && |r.value| == if |items| <= linkId then linkId + 1 else |items|
    ensures linkId >= 0 ==> r.value[linkId] == Some(lv)
                            && forall k :: 0 <= k < |r.value| && k != linkId ==>
                                 r.value[k] == if k < |items| then items[k] else None
    ensures linkId < 0 ==> (r.Some? <==> |items| + linkId >= 0)
    ensures linkId < 0 && r.Some? ==> r.value == items[|items| + linkId := Some(lv)]
  {
    if linkId >= 0 then
      var padded := if |items| <= linkId then items + seq(linkId + 1 - |items|, _ => None) else items;
      Some(padded[linkId := Some(lv)])
    else if |items| + linkId >= 0 then Some(items[|items| + linkId := Some(lv)])
    else None
  }

  /** Python's index of `hour` into a list of 24, negative hours counting from the end. */
  function HourIndex(hour: int): (r: Option<nat>)
    ensures r.Some? <==> -24 <= hour < 24
    ensures r.Some? ==> r.value < 24 && r.value % 24 == hour % 24
  {
    if 0 <= hour < 24 then Some(hour) else if -24 <= hour < 0 then Some(hour + 24) else None
  }

  /** The number of link slots appended as written: computed after `lv_array` has grown past `link_id`. */
  function LinksExtensionAsWritten(linkId: int, grownLen: int): int
  {
    linkId - grownLen + 1
  }

  /** Once the slot list has grown past `link_id`, the count as written is never positive. */
  lemma ExtensionNeverPositive(items: seq<Option<LinkVolume>>, lv: LinkVolume)
    requires lv.linkId >= 0
    ensures LinksExtensionAsWritten(lv.linkId, |Stored(items, lv.linkId, lv).value|) <= 0
  {
  }

  /** The evidently intended extension: enough slots for `link_id` to be a valid index. */
  function LinksExtension(linkId: int, linksLen: nat): (n: nat)
    ensures linksLen <= linkId ==> linksLen + n == linkId + 1
    ensures linksLen > linkId ==> n == 0
  {
    if linksLen <= linkId then linkId - linksLen + 1 else 0
  }

  class VolumeSnapshot {
    var volumes: map<string, seq<HourList>>
    /** The per-link slots; they are never added to. */
    var links: seq<map<string, seq<HourList>>>

    /**
     * Every weekday has 24 hour entries that are one and the same list
     * (`[[]] * 24`), a different list for each day.
     */
    ghost predicate Valid()
      reads this
    {
      (forall d :: d in volumes <==> d in DAYS)
      && (forall d :: d in volumes ==> |volumes[d]| == 24 && forall h :: 0 <= h < 24 ==> volumes[d][h] == volumes[d][0])
      && (forall d, e :: d in volumes && e in volumes && d != e ==> volumes[d][0] != volumes[e][0])
      && links == []
    }

    /** The one list per day. */
    function DayLists(): set<HourList>
      reads this
    {
      set d | d in volumes && |volumes[d]| > 0 :: volumes[d][0]
    }

    constructor ()
      ensures Valid()
      ensures forall d :: d in volumes ==> fresh(volumes[d][0]) && volumes[d][0].items == []
    {
      var v: map<string, seq<HourList>> := map[];
      var i := 0;
      while i < |DAYS|
        invariant 0 <= i <= |DAYS|
        invariant forall d :: d in v <==> d in DAYS[..i]
        invariant forall d :: d in v ==> |v[d]| == 24 && forall h :: 0 <= h < 24 ==> v[d][h] == v[d][0]
        invariant forall d :: d in v ==> fresh(v[d][0]) && v[d][0].items == []
        invariant forall d, e :: d in v && e in v && d != e ==> v[d][0] != v[e][0]
      {
        var shared := new HourList();
        v := v[DAYS[i] := seq(24, _ => shared)];
        i := i + 1;
      }
      assert DAYS[..i] == DAYS;
      volumes := v;
      links := [];
    }

    /**
     * `insert_volume(day, hour, lv)`. An unknown day (KeyError) or an hour
     * outside the list (IndexError) changes nothing. Otherwise the day's
     * single list is padded and written, so the volume appears at every
     * hour of that day; then the link slots are indexed without having
     * been extended, which always raises IndexError. The result is false
     * in every case.
     */
    method InsertVolume(day: string, hour: int, lv: LinkVolume) returns (ok: bool)
      requires Valid()
      modifies this, DayLists()
      ensures Valid() && volumes == old(volumes) && links == old(links)
      ensures !ok
      ensures forall d :: d in volumes && d != day ==> volumes[d][0].items == old(volumes[d][0].items)
      ensures day in volumes && HourIndex(hour).Some? && Stored(old(volumes[day][0].items), lv.linkId, lv).Some? ==>
                forall h :: 0 <= h < 24 ==>
                  volumes[day][h].items == Stored(old(volumes[day][0].items), lv.linkId, lv).value
      ensures day !in volumes || HourIndex(hour).None? || Stored(old(volumes[day][0].items), lv.linkId, lv).None? ==>
                forall d :: d in volumes ==> volumes[d][0].items == old(volumes[d][0].items)
    {
      if day !in volumes {
        return false;
      }
      var h := HourIndex(hour);
      if h.None? {
        return false;
      }
      var lvArray := volumes[day][h.value];
      var stored := Stored(lvArray.items, lv.linkId, lv);
      if stored.None? {
        return false;
      }
      lvArray.items := stored.value;
      if |links| <= lv.linkId {
        var count := LinksExtensionAsWritten(lv.linkId, |lvArray.items|);
        ExtensionNeverPositive(old(volumes[day][0].items), lv);
        links := links + seq(if count > 0 then count else 0, _ => map[]);
      }
      // `self.links[lv.link_id]` on the never-extended, empty slot list.
      return false;
    }
  }
}
