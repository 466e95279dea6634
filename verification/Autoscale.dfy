/**
 The decision layer of the autoscaler: the view of the cluster, the deficit, and one cycle's plan.
 Times are in ticks; `MINUTE` is the number of ticks in a minute.
 */
module Autoscale {
  import opened Common

  type Fqdn = string
  type Time = int

  const MINUTE: int := 60_000_000

  datatype Tier = Tier(name: string, capacity: int)

  datatype Config = Config(headroom: int, maxAdd: int, maxRemove: int, cooldownMin: int, minWorkers: int,
                           tiers: seq<Tier>)

  ghost predicate GoodTiers(cfg: Config) {
    cfg.tiers != [] && forall t :: t in cfg.tiers ==> t.capacity > 0
  }

  datatype NodeView = NodeView(fqdn: Fqdn, capacity: int, runningHosts: nat, isManager: bool, isLeader: bool,
                               serial: Option<nat>)

  // ---- Cluster state ----

  /** Worker capacity only. */
  function TotalCapacity(nodes: seq<NodeView>): int {
    if nodes == [] then 0
    else (if nodes[0].isManager then 0 else nodes[0].capacity) + TotalCapacity(nodes[1..])
  }

  /** Running hosts on all nodes, managers included. */
  function TotalLoad(nodes: seq<NodeView>): nat {
    if nodes == [] then 0 else nodes[0].runningHosts + TotalLoad(nodes[1..])
  }

  function Workers(nodes: seq<NodeView>): nat {
    if nodes == [] then 0 else (if nodes[0].isManager then 0 else 1) + Workers(nodes[1..])
  }

  function ExcessCapacity(nodes: seq<NodeView>): int {
    TotalCapacity(nodes) - TotalLoad(nodes)
  }

  function Deficit(nodes: seq<NodeView>, demand: int): nat {
    Max(0, demand - TotalCapacity(nodes))
  }

  // ---- Scale-up ----

  /** Some configured tier has this capacity. */
  ghost predicate IsTier(cfg: Config, c: int) {
    exists t :: t in cfg.tiers && t.capacity == c
  }

  /** The last tier in order of capacity. */
  function LargestCapacity(cfg: Config): (c: int)
    requires GoodTiers(cfg)
    ensures c > 0 && IsTier(cfg, c) && forall t :: t in cfg.tiers ==> t.capacity <= c
  {
    var s := SortedBy(cfg.tiers, (t: Tier) => t.capacity);
    assert s[|s| - 1] in s;
    assert forall t :: t in cfg.tiers ==> t in s;
    s[|s| - 1].capacity
  }

  /** The first tier in order of capacity. */
  function SmallestCapacity(cfg: Config): (c: int)
    requires GoodTiers(cfg)
    ensures 0 < c <= LargestCapacity(cfg) && IsTier(cfg, c) && forall t :: t in cfg.tiers ==> c <= t.capacity
  {
    var s := SortedBy(cfg.tiers, (t: Tier) => t.capacity);
    assert s[0] in s;
    assert forall t :: t in cfg.tiers ==> t in s;
    s[0].capacity
  }

  /** Large and small nodes to add for a deficit, tiers of capacity `large` and `small`. */
  datatype Adds = Adds(large: nat, small: nat) {
    function Count(): nat { large + small }
    function Capacity(l: int, s: int): int { large * l + small * s }
  }

  /**
   The plan in closed form: as many nodes as large ones would be needed, the last of them small if
   a small one covers the remainder; only large ones, up to the cap, if that is more than allowed.
   */
  function ScaleUp(deficit: int, large: int, small: int, maxAdd: int): Adds
    requires 0 < small <= large
  {
    if deficit <= 0 then Adds(0, 0)
    else if CeilDiv(deficit, large) > maxAdd then Adds(Max(maxAdd, 0), 0)
    else if 0 < deficit % large <= small then Adds(deficit / large, 1)
    else Adds(CeilDiv(deficit, large), 0)
  }

  method PlanScaleUp(deficit: int, cfg: Config) returns (adds: Adds)
    requires GoodTiers(cfg)
    ensures adds == ScaleUp(deficit, LargestCapacity(cfg), SmallestCapacity(cfg), cfg.maxAdd)
    ensures deficit <= 0 ==> adds == Adds(0, 0)
    ensures adds.large + adds.small <= Max(cfg.maxAdd, 0)
  {
    if deficit <= 0 {
      return Adds(0, 0);
    }
    var capLarge, capSmall := LargestCapacity(cfg), SmallestCapacity(cfg);
    var addLarge: int := deficit / capLarge;
    var rem := deficit % capLarge;
    var addSmall: int;
    CeilDivByParts(deficit, capLarge);
    if rem == 0 {
      addSmall := 0;
    } else if rem <= capSmall {
      addSmall := 1;
    } else {
      addLarge := addLarge + 1;
      addSmall := 0;
    }
    var total := addLarge + addSmall;
    if total > cfg.maxAdd {
      var excess := total - cfg.maxAdd;
      var reduceSmall := Min(addSmall, excess);
      addSmall := addSmall - reduceSmall;
      excess := excess - reduceSmall;
      addLarge := Max(0, addLarge - excess);
    }
    adds := Adds(addLarge, addSmall);
  }

  lemma CeilDivByParts(a: nat, b: int)
    requires b > 0
    ensures a / b >= 0 && a == (a / b) * b + a % b && 0 <= a % b < b
    ensures CeilDiv(a, b) == a / b + (if a % b == 0 then 0 else 1)
  {
    var q, r := a / b, a % b;
    assert a + b - 1 == q * b + (r + b - 1);
    if r == 0 {
      QuotientIs(a + b - 1, b, q, b - 1);
    } else {
      assert (q + 1) * b == q * b + b;
      QuotientIs(a + b - 1, b, q + 1, r - 1);
    }
  }

  lemma QuotientIs(a: int, b: int, q: int, r: int)
    requires b > 0 && a == q * b + r && 0 <= r < b
    ensures a / b == q
  {
    var d := a / b - q;
    assert a == (a / b) * b + a % b;
    assert d * b == r - a % b by { assert (a / b) * b - q * b == d * b; }
    MultipleSize(d, b);
  }

  lemma MultipleSize(d: int, b: int)
    requires b > 0
    ensures d >= 1 ==> d * b >= b
    ensures d <= -1 ==> d * b <= -b
  {
  }

  // ---- Scale-down ----

  /** What one scale-down decision depends on besides the nodes. */
  datatype Rules = Rules(cfg: Config, now: Time, emptySince: map<Fqdn, Time>, protected: set<Fqdn>)

  predicate CooledDown(node: NodeView, r: Rules) {
    node.fqdn in r.emptySince && r.now - r.emptySince[node.fqdn] >= r.cfg.cooldownMin * MINUTE
  }

  predicate Candidate(node: NodeView) {
    !node.isManager && !node.isLeader && node.runningHosts == 0
  }

  /** The guards that do not depend on what was selected before. */
  predicate Open(node: NodeView, r: Rules) {
    node.fqdn !in r.protected && CooledDown(node, r)
  }

  /** The guards on what removal leaves: the dead band and the minimum number of workers. */
  predicate Spare(node: NodeView, r: Rules, excess: int, workers: int) {
    excess > node.capacity + r.cfg.headroom && workers - 1 >= r.cfg.minWorkers
  }

  function SerialOf(node: NodeView): int {
    if node.serial.Some? then node.serial.value else -1
  }

  /** Empty plain workers, the highest serial first. */
  function Candidates(nodes: seq<NodeView>): seq<NodeView> {
    SortedBy(Filter(nodes, Candidate), (n: NodeView) => -SerialOf(n))
  }

  /** Goes through the candidates in order and takes each that passes all guards at that point. */
  function Select(cands: seq<NodeView>, room: int, excess: int, workers: int, r: Rules): seq<NodeView> {
    if cands == [] || room <= 0 then []
    else if Open(cands[0], r) && Spare(cands[0], r, excess, workers) then
      [cands[0]] + Select(cands[1..], room - 1, excess - cands[0].capacity, workers - 1, r)
    else Select(cands[1..], room, excess, workers, r)
  }

  function ScaleDown(nodes: seq<NodeView>, r: Rules): seq<NodeView> {
    Select(Candidates(nodes), r.cfg.maxRemove, ExcessCapacity(nodes), Workers(nodes), r)
  }

  method PlanScaleDown(nodes: seq<NodeView>, r: Rules) returns (selected: seq<NodeView>)
    ensures selected == ScaleDown(nodes, r)
  {
    hide Candidates, TotalCapacity, TotalLoad, Workers;
    var candidates := Candidates(nodes);
    selected := [];
    var remainingExcess, workersLeft := ExcessCapacity(nodes), Workers(nodes);
    for i := 0 to |candidates|
      invariant ScaleDown(nodes, r) == selected
             + Select(candidates[i..], r.cfg.maxRemove - |selected|, remainingExcess, workersLeft, r)
    {
      var node := candidates[i];
      assert candidates[i..][1..] == candidates[i + 1..];
      if |selected| >= r.cfg.maxRemove {
        return;
      }
      if node.fqdn in r.protected {
        continue;
      }
      if node.fqdn !in r.emptySince {
        continue;
      }
      if r.now - r.emptySince[node.fqdn] < r.cfg.cooldownMin * MINUTE {
        continue;
      }
      if remainingExcess <= node.capacity + r.cfg.headroom {
        continue;
      }
      if workersLeft - 1 < r.cfg.minWorkers {
        continue;
      }
      selected := selected + [node];
      remainingExcess := remainingExcess - node.capacity;
      workersLeft := workersLeft - 1;
    }
  }

  // ---- The plan of one cycle ----

  datatype ScalePlan = ScalePlan(adds: Adds, removeNodes: seq<Fqdn>, purgeFirst: bool)

  function Fqdns(nodes: seq<NodeView>): (r: seq<Fqdn>)
    ensures |r| == |nodes| && forall i :: 0 <= i < |r| ==> r[i] == nodes[i].fqdn
  {
    seq(|nodes|, i requires 0 <= i < |nodes| => nodes[i].fqdn)
  }

  /** Adds when capacity falls short of demand, else removes what can be spared, else holds. */
  function BuildPlan(nodes: seq<NodeView>, demand: int, r: Rules): ScalePlan
    requires GoodTiers(r.cfg)
  {
    if Deficit(nodes, demand) > 0 then
      ScalePlan(ScaleUp(Deficit(nodes, demand), LargestCapacity(r.cfg), SmallestCapacity(r.cfg), r.cfg.maxAdd), [], false)
    else
      var removals := ScaleDown(nodes, r);
      ScalePlan(Adds(0, 0), Fqdns(removals), removals != [])
  }
}
