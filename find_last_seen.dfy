/**
 * The `find_last_seen` tool: folds every snapshot record into a table that
 * keeps, per vehicle, the record with the latest time, and lists the kept
 * records by ascending vehicle id. The parallel fold and reduce of the tool
 * run here as one sequential fold over the concatenated records.
 */
module FindLastSeen {
  import opened MachineInts
  import opened VehicleSim

  /**
   * `update`: the record is stored under its vehicle when the vehicle has no
   * record yet or the stored one is strictly earlier; a stored record of the
   * same or a later time stays. No other vehicle's entry changes.
   */
  function Updated(m: map<U32, AgentRecord>, item: AgentRecord): (r: map<U32, AgentRecord>)
    ensures r.Keys == m.Keys + {item.vehicle}
    ensures item.vehicle in m && item.time <= m[item.vehicle].time ==> r[item.vehicle] == m[item.vehicle]
    ensures item.vehicle !in m || m[item.vehicle].time < item.time ==> r[item.vehicle] == item
    ensures forall v :: v in m && v != item.vehicle ==> r[v] == m[v]
  {
    if item.vehicle in m then
      var curBestTime := m[item.vehicle].time;
      if curBestTime < item.time then m[item.vehicle := item] else m
    else
      m[item.vehicle := item]
  }

  /** The table after updating with every record in order, starting empty. */
  function Folded(records: seq<AgentRecord>): map<U32, AgentRecord>
  {
    if records == [] then map[] else Updated(Folded(records[..|records| - 1]), records[|records| - 1])
  }

  /** The table the tool folds into, which `update` changes in place. */
  class LastSeen {
    var seen: map<U32, AgentRecord>

    constructor ()
      ensures seen == map[]
    {
      seen := map[];
    }

    /** `update(&mut m, item)`. */
    method Update(item: AgentRecord)
      modifies this
      ensures seen == Updated(old(seen), item)
    {
      if item.vehicle in seen {
        var curBestTime := seen[item.vehicle].time;
        if curBestTime < item.time {
          seen := seen[item.vehicle := item];
        }
      } else {
        seen := seen[item.vehicle := item];
      }
    }
  }

  /** The fold of `main`: every record is passed to `update`, in order. */
  method CollectLastSeen(records: seq<AgentRecord>) returns (m: map<U32, AgentRecord>)
    ensures m.Keys == set i | 0 <= i < |records| :: records[i].vehicle
    ensures forall v :: v in m ==> m[v].vehicle == v && m[v] in records
    ensures forall i :: 0 <= i < |records| ==> records[i].time <= m[records[i].vehicle].time
  {
    var table := new LastSeen();
    var i := 0;
    while i < |records|
      invariant 0 <= i <= |records|
      invariant table.seen == Folded(records[..i])
    {
      assert records[..i + 1][..i] == records[..i];
      table.Update(records[i]);
      i := i + 1;
    }
    assert records[..i] == records;
    m := table.seen;
    forall i | 0 <= i < |records| ensures records[i].vehicle in m && records[i].time <= m[records[i].vehicle].time {
      var _ := FoldedLatest(records, records[i].vehicle);
    }
    FoldedKeys(records);
  }

  /** The vehicles with a record in the table are exactly the vehicles of the records. */
  lemma FoldedKeys(records: seq<AgentRecord>)
    ensures Folded(records).Keys == set i | 0 <= i < |records| :: records[i].vehicle
    ensures forall v :: v in Folded(records) ==> Folded(records)[v].vehicle == v && Folded(records)[v] in records
  {
    FoldedKeySet(records);
    FoldedEntries(records);
  }

  lemma {:induction false} FoldedKeySet(records: seq<AgentRecord>)
    ensures Folded(records).Keys == set i | 0 <= i < |records| :: records[i].vehicle
  {
    if records != [] {
      var init := records[..|records| - 1];
      FoldedKeySet(init);
      var last := records[|records| - 1];
      var r := Folded(records);
      forall v | v in (set i | 0 <= i < |records| :: records[i].vehicle) ensures v in r {
        var i :| 0 <= i < |records| && records[i].vehicle == v;
        if i < |init| {
          assert init[i].vehicle == v;
        }
      }
      forall v | v in r ensures v in (set i | 0 <= i < |records| :: records[i].vehicle) {
        if v == last.vehicle {
          assert records[|records| - 1].vehicle == v;
        } else {
          var i :| 0 <= i < |init| && init[i].vehicle == v;
          assert records[i].vehicle == v;
        }
      }
    }
  }

  lemma {:induction false} FoldedEntries(records: seq<AgentRecord>)
    ensures forall v :: v in Folded(records) ==> Folded(records)[v].vehicle == v && Folded(records)[v] in records
  {
    if records != [] {
      var init := records[..|records| - 1];
      FoldedEntries(init);
      var last := records[|records| - 1];
      var m, r := Folded(init), Folded(records);
      forall v | v in r ensures r[v].vehicle == v && r[v] in records {
        if r[v] != last {
          assert r[v] == m[v];
          var j :| 0 <= j < |init| && init[j] == m[v];
          assert records[j] == r[v];
        }
      }
    }
  }

  /**
   * For each vehicle, the kept record is the earliest of its records with
   * the latest time: no record of the vehicle is later, and every record of
   * the vehicle before the kept one is strictly earlier.
   */
  lemma {:induction false} FoldedLatest(records: seq<AgentRecord>, v: U32) returns (k: nat)
    requires exists i :: 0 <= i < |records| && records[i].vehicle == v
    ensures v in Folded(records)
    ensures k < |records| && records[k] == Folded(records)[v] && records[k].vehicle == v
    ensures forall i :: 0 <= i < |records| && records[i].vehicle == v ==> records[i].time <= records[k].time
    ensures forall i :: 0 <= i < k && records[i].vehicle == v ==> records[i].time < records[k].time
  {
    var init := records[..|records| - 1];
    if exists i :: 0 <= i < |init| && init[i].vehicle == v {
      var k0 := FoldedLatest(init, v);
      forall i | 0 <= i < |init| ensures init[i] == records[i] { }
      k := FoldedLatestExtend(records, v, k0);
    } else {
      k := |records| - 1;
      FoldedKeySet(init);
      forall i | 0 <= i < |records| - 1 ensures records[i].vehicle != v {
        assert init[i] == records[i];
      }
    }
  }

  /** One more record after the vehicle's kept record in the earlier records. */
  lemma FoldedLatestExtend(records: seq<AgentRecord>, v: U32, k0: nat) returns (k: nat)
    requires k0 < |records| - 1 && records[k0].vehicle == v
    requires v in Folded(records[..|records| - 1]) && Folded(records[..|records| - 1])[v] == records[k0]
    requires forall i :: 0 <= i < |records| - 1 && records[i].vehicle == v ==> records[i].time <= records[k0].time
    requires forall i :: 0 <= i < k0 && records[i].vehicle == v ==> records[i].time < records[k0].time
    ensures v in Folded(records)
    ensures k < |records| && records[k] == Folded(records)[v] && records[k].vehicle == v
    ensures forall i :: 0 <= i < |records| && records[i].vehicle == v ==> records[i].time <= records[k].time
    ensures forall i :: 0 <= i < k && records[i].vehicle == v ==> records[i].time < records[k].time
  {
    var last := records[|records| - 1];
    k := if last.vehicle == v && records[k0].time < last.time then |records| - 1 else k0;
  }

  /** Every stored record sits under its own vehicle id, as the fold leaves it. */
  ghost predicate Keyed(m: map<U32, AgentRecord>)
  {
    forall v :: v in m ==> m[v].vehicle == v
  }

  /** `main`'s output: the kept records, collected and sorted by vehicle id. */
  ghost function ByVehicle(m: map<U32, AgentRecord>): (s: seq<AgentRecord>)
    ensures |s| == |m|
    decreases |m|
  {
    if m == map[] then []
    else
      var v := MinKey(m.Keys);
      var rest := m - {v};
      assert rest.Keys == m.Keys - {v};
      [m[v]] + ByVehicle(rest)
  }

  /** The output lists each stored record under strictly ascending vehicle ids. */
  lemma {:induction false} ByVehicleAscending(m: map<U32, AgentRecord>, s: seq<AgentRecord>)
    requires Keyed(m) && s == ByVehicle(m)
    ensures forall i :: 0 <= i < |s| ==> s[i].vehicle in m && s[i] == m[s[i].vehicle]
    ensures forall i, j :: 0 <= i < j < |s| ==> s[i].vehicle < s[j].vehicle
    decreases |m|
  {
    if m != map[] {
      var v := MinKey(m.Keys);
      var rest := m - {v};
      assert rest.Keys == m.Keys - {v};
      var tail := ByVehicle(rest);
      assert Keyed(rest);
      ByVehicleAscending(rest, tail);
      assert s == [m[v]] + tail;
      forall i | 1 <= i < |s|
        ensures s[i] == tail[i - 1] && s[i].vehicle in rest && v < s[i].vehicle && s[i] == m[s[i].vehicle]
      {
      }
    }
  }

  /** Every stored record appears in the output. */
  lemma {:induction false} ByVehicleComplete(m: map<U32, AgentRecord>, s: seq<AgentRecord>, w: U32)
    requires s == ByVehicle(m) && w in m
    ensures m[w] in s
    decreases |m|
  {
    var v := MinKey(m.Keys);
    var rest := m - {v};
    assert rest.Keys == m.Keys - {v};
    var tail := ByVehicle(rest);
    assert s == [m[v]] + tail;
    if w != v {
      ByVehicleComplete(rest, tail, w);
    }
  }

  /** The smallest of a non-empty set of ids. */
  ghost function MinKey(keys: set<U32>): (v: U32)
    requires keys != {}
    ensures v in keys && forall w :: w in keys ==> v <= w
    decreases |keys|
  {
    var x :| x in keys;
    if keys == {x} then x
    else
      var rest := keys - {x};
      var y := MinKey(rest);
      assert forall w :: w in keys ==> w == x || w in rest;
      if x < y then x else y
  }
}
