/**
 * Per-link heat emissions and their unit conversions, and the snapshot table
 * keyed by link id.
 */
module Emissions {
  import opened Wrappers
  import opened Text
  import opened Tables

  /** The emissions of one link: rate in kJ per vehicle per operating hour, quantity in MMBtu. */
  datatype LinkEmissions = LinkEmissions(link: int, rate: real, quantity: real)

  /** The emission rate in W per vehicle: kJ/h times 1000 J/kJ over 3600 s/h. */
  function EmissionRate(e: LinkEmissions): (w: real)
    ensures w * 3.6 == e.rate
  {
    e.rate * (1000.0 / 3600.0)
  }

  /** The emitted quantity in joules: MMBtu times 1,000,000 BTU times 1055.06 J. */
  function EmissionQuantity(e: LinkEmissions): (j: real)
    ensures j / 1055060000.0 == e.quantity
  {
    e.quantity * 1000000.0 * 1055.06
  }

  /**
   * The ambient temperature elevation over a link of the given area:
   * watts per square metre at 0.8 degrees per 100 W/m^2. A zero area is
   * Python's ZeroDivisionError.
   */
  function TemperatureElevation(e: LinkEmissions, linkArea: real): (t: Option<real>)
    ensures t.Some? <==> linkArea != 0.0
  {
    if linkArea == 0.0 then None
    else Some((EmissionQuantity(e) / 3600.0 / linkArea) * (0.8 / 100.0))
  }

  /** 100 W/m^2 raise the temperature by 0.8 degrees. */
  lemma HundredWattsPerSquareMetre(e: LinkEmissions, linkArea: real)
    requires linkArea != 0.0 && EmissionQuantity(e) / 3600.0 / linkArea == 100.0
    ensures TemperatureElevation(e, linkArea) == Some(0.8)
  {
  }

  /** The elevation is linear in the quantity. */
  lemma ElevationLinear(e1: LinkEmissions, e2: LinkEmissions, linkArea: real)
    requires linkArea != 0.0
    ensures var sum := LinkEmissions(e1.link, e1.rate, e1.quantity + e2.quantity);
            TemperatureElevation(sum, linkArea).value
            == TemperatureElevation(e1, linkArea).value + TemperatureElevation(e2, linkArea).value
  {
    var a := e1.quantity * 1000000.0 * 1055.06 / 3600.0;
    var b := e2.quantity * 1000000.0 * 1055.06 / 3600.0;
    assert (e1.quantity + e2.quantity) * 1000000.0 * 1055.06 / 3600.0 == a + b;
    assert (a + b) / linkArea == a / linkArea + b / linkArea;
  }

  /** A CSV row: link id in column 1, rate in column 3, quantity in column 4. */
  function ParseRow(row: seq<string>): Option<LinkEmissions>
  {
    if |row| < 5 then None
    else match (PyInt(row[1]), PyFloat(row[3]), PyFloat(row[4]))
      case (Some(id), Some(rate), Some(quantity)) => Some(LinkEmissions(id, rate, quantity))
      case _ => None
  }

  /** A row parses exactly when it has five columns and columns 1, 3 and 4 convert, and then to those values. */
  lemma ParseRowFields(row: seq<string>)
    ensures ParseRow(row).Some? <==> (|row| >= 5 && PyInt(row[1]).Some? && PyFloat(row[3]).Some? && PyFloat(row[4]).Some?)
    ensures ParseRow(row).Some? ==>
              PyInt(row[1]) == Some(ParseRow(row).value.link) && PyFloat(row[3]) == Some(ParseRow(row).value.rate)
              && PyFloat(row[4]) == Some(ParseRow(row).value.quantity)
  {
  }

  function LinkOf(e: LinkEmissions): int { e.link }

  class EmissionsSnapshot {
    var data: map<int, LinkEmissions>

    constructor ()
      ensures data == map[]
    {
      data := map[];
    }

    /**
     * `EmissionsSnapshot.load` after the header row: a new snapshot in which
     * every row is parsed and stored under its link id, a later row replacing
     * an earlier one. A row that does not parse raises, which is `null`;
     * `parsed` holds the rows read before it.
     */
    static method Load(rows: seq<seq<string>>) returns (snap: EmissionsSnapshot?, ghost parsed: seq<LinkEmissions>)
      ensures |parsed| <= |rows|
      ensures forall i :: 0 <= i < |parsed| ==> ParseRow(rows[i]) == Some(parsed[i])
      ensures snap != null <==> |parsed| == |rows|
      ensures snap == null ==> ParseRow(rows[|parsed|]).None?
      ensures snap != null ==> fresh(snap) && snap.data == TableOf(parsed, LinkOf)
    {
      var ret := new EmissionsSnapshot();
      parsed := [];
      var i := 0;
      while i < |rows|
        invariant 0 <= i <= |rows| && |parsed| == i
        invariant forall k :: 0 <= k < i ==> ParseRow(rows[k]) == Some(parsed[k])
        invariant ret.data == TableOf(parsed, LinkOf)
      {
        var e := ParseRow(rows[i]);
        if e.None? {
          return null, parsed;
        }
        ret.data := ret.data[e.value.link := e.value];
        TableOfSnoc(parsed, LinkOf, e.value);
        ghost var parsed' := parsed + [e.value];
        forall k | 0 <= k < i + 1 ensures ParseRow(rows[k]) == Some(parsed'[k]) {
          if k < i {
            assert parsed'[k] == parsed[k];
          }
        }
        parsed := parsed';
        i := i + 1;
      }
      return ret, parsed;
    }

    /** `len(snapshot)`: the number of distinct link ids stored. */
    function Len(): (n: nat)
      reads this
      ensures n == |data.Keys|
    {
      |data|
    }
  }

  /** A loaded snapshot has one entry per distinct link id read, holding the last row for that id. */
  lemma LoadedTable(parsed: seq<LinkEmissions>, i: nat)
    requires i < |parsed| && forall j :: i < j < |parsed| ==> parsed[j].link != parsed[i].link
    ensures parsed[i].link in TableOf(parsed, LinkOf)
    ensures |TableOf(parsed, LinkOf)| == |KeysOf(parsed, LinkOf)|
    ensures TableOf(parsed, LinkOf)[parsed[i].link] == parsed[i]
  {
    TableOfKeys(parsed, LinkOf);
    TableOfLastWins(parsed, LinkOf, i);
  }
}
