/**
 * The mapper of the `quadtree_map_closest` tool: among the candidate
 * buildings the quadtree hands it, the one whose centroid is nearest to the
 * vehicle.
 */
module QuadtreeMapClosest {
  import opened Geo
  import opened AgentBuildings
  import opened VehicleSim
  import opened MinBy

  /** The squared distances from each building's centroid to the vehicle, in slice order. */
  function CentroidDistances(agent: Agent, buildings: seq<Building>): (d: seq<real>)
    ensures |d| == |buildings|
    ensures forall i :: 0 <= i < |d| ==> d[i] == SquaredDist(buildings[i].centroid, agent.position)
  {
    seq(|buildings|, i requires 0 <= i < |buildings| => SquaredDist(buildings[i].centroid, agent.position))
  }

  /**
   * `map_to_closest`: a building of the slice whose centroid is at least as
   * near as every other one's, the first such on a tie. An empty slice
   * panics in the source and is excluded here.
   */
  function MapToClosest(agent: Agent, buildings: seq<Building>): (b: Building)
    requires |buildings| > 0
    ensures b in buildings
    ensures forall c :: c in buildings ==>
              SquaredDist(b.centroid, agent.position) <= SquaredDist(c.centroid, agent.position)
    ensures exists k :: 0 <= k < |buildings| && buildings[k] == b &&
              forall i :: 0 <= i < k ==> SquaredDist(b.centroid, agent.position) < SquaredDist(buildings[i].centroid, agent.position)
  {
    var d := CentroidDistances(agent, buildings);
    var k := ArgMin(d);
    assert forall c :: c in buildings ==> exists i :: 0 <= i < |buildings| && buildings[i] == c;
    buildings[k]
  }

  /** A building at distance zero from the vehicle is nearest, so it is chosen unless an earlier one is also at zero. */
  lemma ClosestAtZero(agent: Agent, buildings: seq<Building>, k: nat)
    requires k < |buildings| && buildings[k].centroid == agent.position
    requires forall i :: 0 <= i < k ==> buildings[i].centroid != agent.position
    ensures MapToClosest(agent, buildings) == buildings[k]
  {
    var d := CentroidDistances(agent, buildings);
    ArgMinUnique(d, k);
  }
}
