/**
 * The crate's fixed-point numbers in [0, 1]: a raw `u32` read as the fraction
 * raw / 4294967295, with the clamping conversion from reals.
 */
module UnitFixed {
  import opened Orderings
  import opened Wrappers
  import opened Float64
  import opened MachineInts

  datatype UnitFixedPoint = UnitFixedPoint(raw: U32)

  /**
   * `From<f64>`: a value at most 0 gives 0, a value at least 1 gives
   * `u32::MAX`, and a value in between is `x * 4294967295` cast to `u32`, which
   * truncates towards zero.
   */
  function FromReal(x: real): (p: UnitFixedPoint)
    ensures x <= 0.0 ==> p.raw == 0
    ensures x >= 1.0 ==> p.raw == U32_MAX
    ensures 0.0 < x < 1.0 ==> p.raw as real <= x * 4294967295.0 < p.raw as real + 1.0 && p.raw < U32_MAX
  {
    if x <= 0.0 then UnitFixedPoint(0)
    else if x >= 1.0 then UnitFixedPoint(U32_MAX)
    else
      var scaled := x * 4294967295.0;
      assert 0.0 < scaled < 4294967295.0;
      UnitFixedPoint(scaled.Floor)
  }

  /**
   * `From<f64>` on a double that may be infinite or NaN: NaN panics, the
   * infinities clamp to the ends, and a finite value converts as above.
   */
  function FromF64(x: F64): (r: Result<UnitFixedPoint>)
    ensures r.Err? <==> x.NaN?
    ensures x.Finite? ==> r == Ok(FromReal(x.v))
    ensures x.PosInf? ==> r == Ok(UnitFixedPoint(U32_MAX))
    ensures x.NegInf? ==> r == Ok(UnitFixedPoint(0))
  {
    match x
    case NaN => Err("cannot convert NaN to UnitFixedPoint")
    case PosInf => Ok(UnitFixedPoint(U32_MAX))
    case NegInf => Ok(UnitFixedPoint(0))
    case Finite(v) => Ok(FromReal(v))
  }

  /** `From<UnitFixedPoint> for f64`: the raw value over 4294967295. */
  function ToReal(p: UnitFixedPoint): (r: real)
    ensures 0.0 <= r <= 1.0
    ensures r * 4294967295.0 == p.raw as real
    ensures r == 0.0 <==> p.raw == 0
    ensures r == 1.0 <==> p.raw == U32_MAX
  {
    p.raw as real / 4294967295.0
  }

  /** `From<u32> for UnitFixedPoint`: the fraction v / 4294967295, undone by the conversion back. */
  function FromU32(v: U32): (p: UnitFixedPoint)
    ensures ToU32(p) == v
    ensures ToReal(p) * 4294967295.0 == v as real
  {
    UnitFixedPoint(v)
  }

  /** `From<UnitFixedPoint> for u32`: the raw value, from which the point is rebuilt unchanged. */
  function ToU32(p: UnitFixedPoint): (v: U32)
    ensures UnitFixedPoint(v) == p
  {
    p.raw
  }

  /** The conversion from reals keeps the order of its inputs, though distinct inputs may collide. */
  lemma FromRealMonotone(x1: real, x2: real)
    requires x1 <= x2
    ensures FromReal(x1).raw <= FromReal(x2).raw
  {
    var r1, r2 := FromReal(x1).raw, FromReal(x2).raw;
    if 0.0 < x1 < 1.0 && 0.0 < x2 < 1.0 {
      assert x1 * 4294967295.0 <= x2 * 4294967295.0;
      assert r1 as real < r2 as real + 1.0;
    }
  }

  /** A strictly smaller fixed-point value comes only from a strictly smaller real. */
  lemma FromRealReflectsOrder(x1: real, x2: real)
    requires FromReal(x1).raw < FromReal(x2).raw
    ensures x1 < x2
  {
    if x2 <= x1 {
      FromRealMonotone(x2, x1);
    }
  }

  /** Every fixed-point value survives the trip to a real and back. */
  lemma FromRealOfToReal(p: UnitFixedPoint)
    ensures FromReal(ToReal(p)) == p
  {
    var x := ToReal(p);
    if 0.0 < x < 1.0 {
      assert x * 4294967295.0 == p.raw as real;
      assert FromReal(x).raw as real <= p.raw as real < FromReal(x).raw as real + 1.0;
    }
  }

  /** A real in [0, 1] comes back from its fixed-point value rounded down by less than one step. */
  lemma ToRealOfFromReal(x: real)
    requires 0.0 <= x <= 1.0
    ensures ToReal(FromReal(x)) <= x
    ensures x < ToReal(FromReal(x)) + 1.0 / 4294967295.0 || x == 1.0
  {
    var p := FromReal(x);
    var r := ToReal(p);
    assert r * 4294967295.0 == p.raw as real;
    if 0.0 < x < 1.0 {
      assert r * 4294967295.0 <= x * 4294967295.0;
      assert x * 4294967295.0 < (r + 1.0 / 4294967295.0) * 4294967295.0;
    }
  }

  /**
   * `quickcheck_comparison` after its sort: the two inner values of four
   * sorted reals are rescaled into [0, 1), converted, and the test passes when
   * the ordering of the reals equals the ordering of the fixed-point values.
   */
  function ComparisonTest(d0: real, d1: real, d2: real, d3: real): (t: TestResult)
    requires d0 <= d1 <= d2 <= d3
  {
    var range := d3 - d0;
    if range == 0.0 then Discard
    else
      var f1 := (d1 - d0) / range;
      var f2 := (d2 - d0) / range;
      if f1 < 0.0 || f1 >= 1.0 || f2 < 0.0 || f2 >= 1.0 then Discard
      else if CompareReal(f1, f2) == CompareInt(FromReal(f1).raw, FromReal(f2).raw) then Pass
      else Fail
  }

  /** Two distinct reals below one step of the fixed-point grid convert to the same value. */
  lemma FromRealCollides()
    ensures FromReal(1.0 / 17179869180.0) == FromReal(2.0 / 17179869180.0)
  {
    assert (1.0 / 17179869180.0) * 4294967295.0 == 0.25;
    assert (2.0 / 17179869180.0) * 4294967295.0 == 0.5;
  }

  /** The test as written fails: 0, 1, 2 and 4·4294967295 give two inner values that collide. */
  lemma ComparisonTestFails()
    ensures ComparisonTest(0.0, 1.0, 2.0, 17179869180.0) == Fail
  {
    FromRealCollides();
    assert (1.0 / 17179869180.0) * 4294967295.0 == 0.25;
  }

  /**
   * The check the test evidently means: the ordering of the reals and that of
   * the fixed-point values never disagree, though strictly ordered reals may
   * give equal values.
   */
  predicate OrderAgrees(f1: real, f2: real)
  {
    (f1 < f2 ==> FromReal(f1).raw <= FromReal(f2).raw)
    && (f1 == f2 ==> FromReal(f1).raw == FromReal(f2).raw)
    && (FromReal(f1).raw < FromReal(f2).raw ==> f1 < f2)
  }

  /** `quickcheck_comparison` with the corrected check. */
  function CorrectedComparisonTest(d0: real, d1: real, d2: real, d3: real): (t: TestResult)
    requires d0 <= d1 <= d2 <= d3
  {
    var range := d3 - d0;
    if range == 0.0 then Discard
    else
      var f1 := (d1 - d0) / range;
      var f2 := (d2 - d0) / range;
      if f1 < 0.0 || f1 >= 1.0 || f2 < 0.0 || f2 >= 1.0 then Discard
      else if OrderAgrees(f1, f2) then Pass
      else Fail
  }

  /** The corrected test never fails. */
  lemma CorrectedComparisonPasses(d0: real, d1: real, d2: real, d3: real)
    requires d0 <= d1 <= d2 <= d3
    ensures CorrectedComparisonTest(d0, d1, d2, d3) != Fail
  {
    var range := d3 - d0;
    if range != 0.0 {
      var f1 := (d1 - d0) / range;
      var f2 := (d2 - d0) / range;
      if f1 <= f2 {
        FromRealMonotone(f1, f2);
      } else {
        FromRealMonotone(f2, f1);
      }
      if FromReal(f1).raw < FromReal(f2).raw {
        FromRealReflectsOrder(f1, f2);
      }
    }
  }
}
