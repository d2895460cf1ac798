/**
 * The mapper of the `quadtree_map_weighted` tool: among the candidate
 * buildings, the one with the smallest centroid distance divided by the
 * building's share of the candidates' total area, so that large buildings
 * attract vehicles from further away.
 */
module QuadtreeMapWeighted {
  import opened Numeric
  import opened Geo
  import opened AgentBuildings
  import opened VehicleSim
  import opened MinBy
  import opened Float64
  import opened Wrappers

  /** `buildings.iter().map(|&b| b.area()).sum()`. */
  function AreaSum(buildings: seq<Building>): real
  {
    if buildings == [] then 0.0 else AreaSum(buildings[..|buildings| - 1]) + buildings[|buildings| - 1].area
  }

  /** The buildings' areas divided by `total`, summed. */
  function ShareSum(buildings: seq<Building>, total: real): real
    requires total != 0.0
  {
    if buildings == [] then 0.0 else ShareSum(buildings[..|buildings| - 1], total) + buildings[|buildings| - 1].area / total
  }

  /** Areas that are all positive have a positive sum. */
  lemma {:induction false} AreaSumPositive(buildings: seq<Building>)
    requires |buildings| > 0 && forall b :: b in buildings ==> b.area > 0.0
    ensures AreaSum(buildings) > 0.0
  {
    var init := buildings[..|buildings| - 1];
    if init != [] {
      assert forall b :: b in init ==> b in buildings;
      AreaSumPositive(init);
    }
  }

  /** The relative areas of the candidates sum to 1 whenever their total area is not zero. */
  lemma {:induction false} SharesSumToOne(buildings: seq<Building>)
    requires AreaSum(buildings) != 0.0
    ensures ShareSum(buildings, AreaSum(buildings)) == 1.0
  {
    var total := AreaSum(buildings);
    ShareSumScaled(buildings, total);
    DivMul(total, total);
  }

  /** Summing shares is dividing the sum of areas. */
  lemma {:induction false} ShareSumScaled(buildings: seq<Building>, total: real)
    requires total != 0.0
    ensures ShareSum(buildings, total) == AreaSum(buildings) / total
  {
    if buildings != [] {
      var init := buildings[..|buildings| - 1];
      ShareSumScaled(init, total);
      var a, s := buildings[|buildings| - 1].area, AreaSum(init);
      assert s / total + a / total == (s + a) / total;
    }
  }

  /** The weighted distance of one building: its centroid distance over its share of the total area. */
  function WeightedDistance(hypot: (real, real) -> real, agent: Agent, b: Building, total: real): (w: real)
    requires IsHypot(hypot)
    requires b.area != 0.0 && total != 0.0
    ensures w == total * (Distance(hypot, b.centroid, agent.position) / b.area)
  {
    var relArea := b.area / total;
    var dist := Distance(hypot, b.centroid, agent.position);
    ScaledQuotient(dist, b.area, total);
    dist / relArea
  }

  /**
   * One building's score as the `f64` arithmetic of `map_weighted` computes
   * it: the relative area `area / area_sum`, then the centroid distance over
   * it. Nothing checks the areas, so a zero area scores +inf, or NaN with
   * the vehicle on the centroid, and a zero total makes every share
   * infinite or NaN.
   */
  function WeightedScore(hypot: (real, real) -> real, agent: Agent, b: Building, total: real): (s: F64)
    requires IsHypot(hypot)
    ensures b.area != 0.0 && total != 0.0 ==> s == Finite(WeightedDistance(hypot, agent, b, total))
    ensures b.area == 0.0 && total != 0.0 ==>
              (s.NaN? <==> b.centroid == agent.position) && (s.PosInf? <==> b.centroid != agent.position)
    ensures total == 0.0 ==> (s.NaN? <==> b.area == 0.0) && (b.area != 0.0 ==> s == Finite(0.0))
  {
    DivBy(Distance(hypot, b.centroid, agent.position), Quotient(b.area, total))
  }

  /** The scores of the slice against its own total area, in slice order. */
  function WeightedScores(hypot: (real, real) -> real, agent: Agent, buildings: seq<Building>): (d: seq<F64>)
    requires IsHypot(hypot)
    ensures |d| == |buildings|
    ensures forall i :: 0 <= i < |d| ==> d[i] == WeightedScore(hypot, agent, buildings[i], AreaSum(buildings))
  {
    var total := AreaSum(buildings);
    seq(|buildings|, i requires 0 <= i < |buildings| => WeightedScore(hypot, agent, buildings[i], total))
  }

  /**
   * `map_weighted`: the empty slice fails its assertion; otherwise `min_by`
   * keeps the first smallest score, and panics as soon as it has to compare
   * a NaN score, which needs at least two buildings.
   */
  function MapWeighted(hypot: (real, real) -> real, agent: Agent, buildings: seq<Building>): (r: Result<Building>)
    requires IsHypot(hypot)
    ensures |buildings| == 0 ==> r == Err("empty buildings slice")
    ensures |buildings| > 0 ==>
              (r.Err? <==> |buildings| > 1 && exists i :: 0 <= i < |buildings| && WeightedScores(hypot, agent, buildings)[i].NaN?)
    ensures |buildings| > 0 && r.Err? ==> r.error == "could not compare weighted distances"
    ensures r.Ok? ==> var d := WeightedScores(hypot, agent, buildings);
              exists k :: 0 <= k < |buildings| && buildings[k] == r.value
                && (forall i :: 0 <= i < |buildings| ==> !Lt(d[i], d[k]))
                && (forall i :: 0 <= i < k ==> Lt(d[k], d[i]))
  {
    if |buildings| == 0 then Err("empty buildings slice")
    else
      match ArgMinBy(WeightedScores(hypot, agent, buildings))
      case None => Err("could not compare weighted distances")
      case Some(k) => Ok(buildings[k])
  }

  /**
   * With positive areas nothing panics: the chosen building is in the slice,
   * no weighted distance is smaller, and every earlier building's is larger.
   */
  lemma MapWeightedPositive(hypot: (real, real) -> real, agent: Agent, buildings: seq<Building>)
    requires IsHypot(hypot)
    requires |buildings| > 0 && forall c :: c in buildings ==> c.area > 0.0
    ensures AreaSum(buildings) > 0.0
    ensures var r := MapWeighted(hypot, agent, buildings);
            r.Ok? && r.value in buildings
            && (forall c :: c in buildings ==>
                  WeightedDistance(hypot, agent, r.value, AreaSum(buildings)) <= WeightedDistance(hypot, agent, c, AreaSum(buildings)))
            && exists k :: 0 <= k < |buildings| && buildings[k] == r.value &&
                 forall i :: 0 <= i < k ==>
                   WeightedDistance(hypot, agent, r.value, AreaSum(buildings)) < WeightedDistance(hypot, agent, buildings[i], AreaSum(buildings))
  {
    AreaSumPositive(buildings);
    var total := AreaSum(buildings);
    var d := WeightedScores(hypot, agent, buildings);
    assert forall i :: 0 <= i < |d| ==> d[i] == Finite(WeightedDistance(hypot, agent, buildings[i], total)) by {
      forall i | 0 <= i < |d| ensures d[i] == Finite(WeightedDistance(hypot, agent, buildings[i], total)) {
        assert buildings[i] in buildings;
      }
    }
    var k := ArgMinBy(d).value;
    forall c | c in buildings
      ensures WeightedDistance(hypot, agent, buildings[k], total) <= WeightedDistance(hypot, agent, c, total)
    {
      var i :| 0 <= i < |buildings| && buildings[i] == c;
      assert !Lt(d[i], d[k]);
    }
    forall i | 0 <= i < k
      ensures WeightedDistance(hypot, agent, buildings[k], total) < WeightedDistance(hypot, agent, buildings[i], total)
    {
      assert Lt(d[k], d[i]);
    }
  }

  /** A single building is chosen without any comparison, whatever its area. */
  lemma MapWeightedSingle(hypot: (real, real) -> real, agent: Agent, b: Building)
    requires IsHypot(hypot)
    ensures MapWeighted(hypot, agent, [b]) == Ok(b)
  {
  }

  /**
   * With no negative area and some building of positive area, a building of
   * zero area is never chosen: its score is +inf or a NaN that panics.
   */
  lemma ZeroAreaNotChosen(hypot: (real, real) -> real, agent: Agent, buildings: seq<Building>, j: nat)
    requires IsHypot(hypot)
    requires (forall c :: c in buildings ==> c.area >= 0.0) && j < |buildings| && buildings[j].area > 0.0
    ensures var r := MapWeighted(hypot, agent, buildings); r.Ok? ==> r.value.area > 0.0
  {
    var r := MapWeighted(hypot, agent, buildings);
    if r.Ok? {
      AreaSumAtLeast(buildings, j);
      var d := WeightedScores(hypot, agent, buildings);
      var k :| 0 <= k < |buildings| && buildings[k] == r.value
                && (forall i :: 0 <= i < |buildings| ==> !Lt(d[i], d[k]));
      assert d[j].Finite? && !Lt(d[j], d[k]);
    }
  }

  /** With no negative area, the total is at least any one building's area. */
  lemma {:induction false} AreaSumAtLeast(buildings: seq<Building>, j: nat)
    requires (forall c :: c in buildings ==> c.area >= 0.0) && j < |buildings|
    ensures AreaSum(buildings) >= buildings[j].area
  {
    var init := buildings[..|buildings| - 1];
    assert forall c :: c in init ==> c in buildings;
    if j < |init| {
      AreaSumAtLeast(init, j);
      AreaSumNonNegative(init);
      assert buildings[|buildings| - 1] in buildings;
    } else {
      AreaSumNonNegative(init);
    }
  }

  /** With no negative area, the total is not negative. */
  lemma {:induction false} AreaSumNonNegative(buildings: seq<Building>)
    requires forall c :: c in buildings ==> c.area >= 0.0
    ensures AreaSum(buildings) >= 0.0
  {
    if buildings != [] {
      var init := buildings[..|buildings| - 1];
      assert forall c :: c in init ==> c in buildings;
      assert buildings[|buildings| - 1] in buildings;
      AreaSumNonNegative(init);
    }
  }

  /**
   * The panic the source can reach on its own data: among at least two
   * candidates, a zero-area building whose centroid is the vehicle's position
   * scores NaN, and `min_by` panics on comparing it.
   */
  lemma ZeroAreaOnCentroidPanics(hypot: (real, real) -> real, agent: Agent, buildings: seq<Building>, j: nat)
    requires IsHypot(hypot)
    requires |buildings| > 1 && j < |buildings| && buildings[j].area == 0.0 && buildings[j].centroid == agent.position
    ensures MapWeighted(hypot, agent, buildings) == Err("could not compare weighted distances")
  {
    var d := WeightedScores(hypot, agent, buildings);
    assert d[j].NaN?;
  }

  /** Zero areas sum to zero. */
  lemma {:induction false} AreaSumZero(buildings: seq<Building>)
    requires forall c :: c in buildings ==> c.area == 0.0
    ensures AreaSum(buildings) == 0.0
  {
    if buildings != [] {
      var init := buildings[..|buildings| - 1];
      assert forall c :: c in init ==> c in buildings;
      AreaSumZero(init);
    }
  }

  /** Two or more candidates that all have zero area make every share NaN, and `min_by` panics. */
  lemma AllZeroAreasPanic(hypot: (real, real) -> real, agent: Agent, buildings: seq<Building>)
    requires IsHypot(hypot)
    requires |buildings| > 1 && forall c :: c in buildings ==> c.area == 0.0
    ensures MapWeighted(hypot, agent, buildings) == Err("could not compare weighted distances")
  {
    AreaSumZero(buildings);
    var d := WeightedScores(hypot, agent, buildings);
    assert buildings[0] in buildings;
    assert d[0].NaN?;
  }

  /**
   * With a positive total area, weighted distances rank buildings exactly as
   * centroid distance divided by area does: the total only scales every
   * score by the same positive factor.
   */
  lemma WeightedRanking(hypot: (real, real) -> real, agent: Agent, b1: Building, b2: Building, total: real)
    requires IsHypot(hypot)
    requires b1.area > 0.0 && b2.area > 0.0 && total > 0.0
    ensures WeightedDistance(hypot, agent, b1, total) <= WeightedDistance(hypot, agent, b2, total)
            <==> Distance(hypot, b1.centroid, agent.position) / b1.area <= Distance(hypot, b2.centroid, agent.position) / b2.area
  {
    var d1, d2 := Distance(hypot, b1.centroid, agent.position), Distance(hypot, b2.centroid, agent.position);
    ScaledQuotient(d1, b1.area, total);
    ScaledQuotient(d2, b2.area, total);
    var q1, q2 := d1 / b1.area, d2 / b2.area;
    if q1 < q2 {
      ProductPositive(total, q2 - q1, total * q2 - total * q1);
    } else if q1 > q2 {
      ProductPositive(total, q1 - q2, total * q1 - total * q2);
    }
  }

  /** Dividing by a share of the total is multiplying the plain quotient by the total. */
  lemma ScaledQuotient(d: real, a: real, total: real)
    requires a != 0.0 && total != 0.0
    ensures d / (a / total) == total * (d / a)
  {
  }
}
