/** What a scale-down plan may take, what it leaves, and that it takes as much as its guards allow. */
module ScaleDownTheory {
  import opened Common
  import opened Autoscale
  import Sums

  // ---- What the cluster's totals are ----

  /** The places of the cluster's workers, and of all its nodes, in the listing. */
  ghost function WorkerPlaces(nodes: seq<NodeView>): set<int> {
    set i | 0 <= i < |nodes| && !nodes[i].isManager
  }

  ghost function Places(nodes: seq<NodeView>): set<int> {
    set i {:trigger nodes[i]} | 0 <= i < |nodes|
  }

  ghost function SlotsAt(nodes: seq<NodeView>): int -> int {
    i => if 0 <= i < |nodes| then nodes[i].capacity else 0
  }

  ghost function HostsAt(nodes: seq<NodeView>): int -> int {
    i => if 0 <= i < |nodes| then nodes[i].runningHosts else 0
  }

  /** Host slots on workers; hosts on all nodes. */
  ghost function Slots(nodes: seq<NodeView>): int {
    Sums.Sum(WorkerPlaces(nodes), SlotsAt(nodes))
  }

  ghost function HostsOn(nodes: seq<NodeView>): int {
    Sums.Sum(Places(nodes), HostsAt(nodes))
  }

  /** A node adds its hosts to the load in any case, its capacity and itself only as a worker. */
  lemma {:induction false} TotalsAppend(nodes: seq<NodeView>, n: NodeView)
    ensures TotalLoad(nodes + [n]) == TotalLoad(nodes) + n.runningHosts
    ensures TotalCapacity(nodes + [n]) == TotalCapacity(nodes) + (if n.isManager then 0 else n.capacity)
    ensures Workers(nodes + [n]) == Workers(nodes) + (if n.isManager then 0 else 1)
  {
    if nodes == [] {
      assert nodes + [n] == [n] && [n][1..] == [];
    } else {
      TotalsAppend(nodes[1..], n);
      assert (nodes + [n])[1..] == nodes[1..] + [n];
    }
  }

  /** The totals are the sums they are named after. */
  lemma {:induction false} TotalsAre(nodes: seq<NodeView>)
    ensures TotalCapacity(nodes) == Slots(nodes)
    ensures TotalLoad(nodes) == HostsOn(nodes)
    ensures Workers(nodes) == |WorkerPlaces(nodes)|
  {
    if nodes == [] {
      assert WorkerPlaces(nodes) == {} && Places(nodes) == {};
    } else {
      var init, last := nodes[..|nodes| - 1], nodes[|nodes| - 1];
      assert nodes == init + [last];
      TotalsAre(init);
      TotalsAppend(init, last);
      SumsAppend(init, last);
    }
  }

  lemma SumsAppend(nodes: seq<NodeView>, n: NodeView)
    ensures HostsOn(nodes + [n]) == HostsOn(nodes) + n.runningHosts
    ensures Slots(nodes + [n]) == Slots(nodes) + (if n.isManager then 0 else n.capacity)
    ensures |WorkerPlaces(nodes + [n])| == |WorkerPlaces(nodes)| + (if n.isManager then 0 else 1)
  {
    PlacesAppend(nodes, n);
    var all, k := nodes + [n], |nodes|;
    assert HostsAt(all)(k) == n.runningHosts && SlotsAt(all)(k) == n.capacity;
    Sums.SumPick(Places(all), HostsAt(all), k);
    Sums.SumSame(Places(nodes), HostsAt(all), HostsAt(nodes));
    if !n.isManager {
      Sums.SumPick(WorkerPlaces(all), SlotsAt(all), k);
    }
    Sums.SumSame(WorkerPlaces(nodes), SlotsAt(all), SlotsAt(nodes));
  }

  lemma PlacesAppend(nodes: seq<NodeView>, n: NodeView)
    ensures |nodes| in Places(nodes + [n]) && Places(nodes + [n]) - {|nodes|} == Places(nodes)
    ensures n.isManager ==> WorkerPlaces(nodes + [n]) == WorkerPlaces(nodes)
    ensures !n.isManager ==> WorkerPlaces(nodes + [n]) == WorkerPlaces(nodes) + {|nodes|}
    ensures !n.isManager ==> WorkerPlaces(nodes + [n]) - {|nodes|} == WorkerPlaces(nodes)
    ensures forall i :: i in WorkerPlaces(nodes) ==> SlotsAt(nodes + [n])(i) == SlotsAt(nodes)(i)
    ensures forall i :: i in Places(nodes) ==> HostsAt(nodes + [n])(i) == HostsAt(nodes)(i)
    ensures |nodes| !in WorkerPlaces(nodes)
  {
  }

  // ---- The plan as a whole ----

  function CapacityOf(nodes: seq<NodeView>): int {
    if nodes == [] then 0 else nodes[0].capacity + CapacityOf(nodes[1..])
  }

  // ---- Each selected node passed its guards; the last one's guards speak for all ----

  lemma {:induction false} SelectedAreOpen(cands: seq<NodeView>, room: int, excess: int, workers: int, r: Rules)
    ensures var sel := Select(cands, room, excess, workers, r);
      |sel| <= Max(room, 0) && forall i :: 0 <= i < |sel| ==> Open(sel[i], r)
  {
    if cands != [] && room > 0 {
      if Open(cands[0], r) && Spare(cands[0], r, excess, workers) {
        SelectedAreOpen(cands[1..], room - 1, excess - cands[0].capacity, workers - 1, r);
      } else {
        SelectedAreOpen(cands[1..], room, excess, workers, r);
      }
    }
  }

  /** The selection keeps the order of the candidates. */
  lemma {:induction false} SelectionIsSubsequence(cands: seq<NodeView>, room: int, excess: int, workers: int, r: Rules)
    ensures IsSubsequence(Select(cands, room, excess, workers, r), cands)
  {
    if cands != [] && room > 0 {
      if Open(cands[0], r) && Spare(cands[0], r, excess, workers) {
        SelectionIsSubsequence(cands[1..], room - 1, excess - cands[0].capacity, workers - 1, r);
      } else {
        SelectionIsSubsequence(cands[1..], room, excess, workers, r);
      }
    }
  }

  lemma SelectedAreCandidates(cands: seq<NodeView>, room: int, excess: int, workers: int, r: Rules)
    ensures var sel := Select(cands, room, excess, workers, r);
      multiset(sel) <= multiset(cands) && forall n :: n in sel ==> n in cands
  {
    hide Select;
    var sel := Select(cands, room, excess, workers, r);
    SelectionIsSubsequence(cands, room, excess, workers, r);
    SubsequenceTakes(sel, cands);
    forall n | n in sel ensures n in cands {
      assert n in multiset(sel);
    }
  }

  /** Candidates are taken in order: what comes later has no say in what is taken before. */
  lemma {:induction false} SelectionGoesInOrder(a: seq<NodeView>, b: seq<NodeView>, room: int, excess: int, workers: int, r: Rules)
    ensures var first := Select(a, room, excess, workers, r);
      Select(a + b, room, excess, workers, r)
        == first + Select(b, room - |first|, excess - CapacityOf(first), workers - |first|, r)
  {
    if a == [] {
      assert a + b == b;
    } else if room > 0 {
      assert (a + b)[1..] == a[1..] + b;
      if Open(a[0], r) && Spare(a[0], r, excess, workers) {
        SelectionGoesInOrder(a[1..], b, room - 1, excess - a[0].capacity, workers - 1, r);
        var tail := Select(a[1..], room - 1, excess - a[0].capacity, workers - 1, r);
        assert ([a[0]] + tail)[1..] == tail;
      } else {
        SelectionGoesInOrder(a[1..], b, room, excess, workers, r);
      }
    }
  }

  lemma {:induction false} SelectionLeavesHeadroom(cands: seq<NodeView>, room: int, excess: int, workers: int, r: Rules)
    ensures var sel := Select(cands, room, excess, workers, r);
      sel != [] ==> excess - CapacityOf(sel) > r.cfg.headroom && workers - |sel| >= r.cfg.minWorkers
  {
    if cands != [] && room > 0 {
      if Open(cands[0], r) && Spare(cands[0], r, excess, workers) {
        SelectionLeavesHeadroom(cands[1..], room - 1, excess - cands[0].capacity, workers - 1, r);
      } else {
        SelectionLeavesHeadroom(cands[1..], room, excess, workers, r);
      }
    }
  }

  // ---- Order and maximality ----

  ghost predicate Descending(nodes: seq<NodeView>) {
    forall i, j :: 0 <= i < j < |nodes| ==> SerialOf(nodes[i]) >= SerialOf(nodes[j])
  }

  /** Leaving nodes out keeps the order. */
  lemma {:induction false} SubsequenceDescends(a: seq<NodeView>, b: seq<NodeView>)
    requires IsSubsequence(a, b) && Descending(b)
    ensures Descending(a)
  {
    if a != [] {
      TailDescends(b);
      hide Descending, SerialOf;
      if a[0] == b[0] && IsSubsequence(a[1..], b[1..]) {
        SubsequenceDescends(a[1..], b[1..]);
        SubsequenceTakes(a[1..], b[1..]);
        forall n | n in a[1..] ensures SerialOf(n) <= SerialOf(a[0]) {
          assert n in multiset(a[1..]);
        }
        HeadDescends(a);
      } else {
        SubsequenceDescends(a, b[1..]);
      }
    } else {
      assert Descending([]);
    }
  }

  lemma TailDescends(nodes: seq<NodeView>)
    requires nodes != [] && Descending(nodes)
    ensures Descending(nodes[1..]) && forall n :: n in nodes[1..] ==> SerialOf(n) <= SerialOf(nodes[0])
  {
  }

  lemma HeadDescends(nodes: seq<NodeView>)
    requires nodes != [] && Descending(nodes[1..]) && forall n :: n in nodes[1..] ==> SerialOf(n) <= SerialOf(nodes[0])
    ensures Descending(nodes)
  {
    forall i, j | 0 <= i < j < |nodes| ensures SerialOf(nodes[i]) >= SerialOf(nodes[j]) {
      assert nodes[1..][j - 1] == nodes[j];
      if i > 0 { assert nodes[1..][i - 1] == nodes[i]; }
    }
  }

  lemma {:induction false} CapacityNotNegative(nodes: seq<NodeView>)
    requires forall n :: n in nodes ==> n.capacity >= 0
    ensures CapacityOf(nodes) >= 0
  {
    if nodes != [] {
      CapacityNotNegative(nodes[1..]);
    }
  }

  /** Some guard keeps the node in the cluster when this much excess and this many workers are left. */
  predicate Blocked(node: NodeView, r: Rules, excess: int, workers: int) {
    !Open(node, r) || !Spare(node, r, excess, workers)
  }

  /** A selection that stops short of the maximum leaves only candidates blocked by what is left in the end. */
  lemma {:induction false} SelectionIsMaximal(cands: seq<NodeView>, room: int, excess: int, workers: int, r: Rules, n: NodeView)
    requires forall c :: c in cands ==> c.capacity >= 0
    requires |Select(cands, room, excess, workers, r)| < room
    requires multiset(cands)[n] > multiset(Select(cands, room, excess, workers, r))[n]
    ensures var sel := Select(cands, room, excess, workers, r);
      Blocked(n, r, excess - CapacityOf(sel), workers - |sel|)
  {
    hide Open, Spare, Select, CapacityOf, Blocked;
    var sel := Select(cands, room, excess, workers, r);
    assert cands != [];
    SelectUnfolds(cands, room, excess, workers, r);
    var c, rest := cands[0], cands[1..];
    assert multiset(cands) == multiset{c} + multiset(rest) by { assert cands == [c] + rest; }
    if Open(c, r) && Spare(c, r, excess, workers) {
      var tail := Select(rest, room - 1, excess - c.capacity, workers - 1, r);
      assert multiset(sel) == multiset{c} + multiset(tail);
      SelectionIsMaximal(rest, room - 1, excess - c.capacity, workers - 1, r, n);
    } else if multiset(rest)[n] > multiset(sel)[n] {
      SelectionIsMaximal(rest, room, excess, workers, r, n);
    } else {
      assert n == c;
      SelectedAreCandidates(rest, room, excess, workers, r);
      CapacityNotNegative(sel);
      StaysBlocked(n, r, excess, workers, excess - CapacityOf(sel), workers - |sel|);
    }
  }

  lemma SelectUnfolds(cands: seq<NodeView>, room: int, excess: int, workers: int, r: Rules)
    requires room > 0 && cands != []
    ensures var sel := Select(cands, room, excess, workers, r);
      if Open(cands[0], r) && Spare(cands[0], r, excess, workers) then
        var tail := Select(cands[1..], room - 1, excess - cands[0].capacity, workers - 1, r);
        sel == [cands[0]] + tail && CapacityOf(sel) == cands[0].capacity + CapacityOf(tail)
      else
        sel == Select(cands[1..], room, excess, workers, r) && Blocked(cands[0], r, excess, workers)
  {
  }

  lemma StaysBlocked(n: NodeView, r: Rules, excess: int, workers: int, excess': int, workers': int)
    requires Blocked(n, r, excess, workers) && excess' <= excess && workers' <= workers
    ensures Blocked(n, r, excess', workers')
  {
  }

  /** The nodes of one serial, in their order. */
  function WithSerial(nodes: seq<NodeView>, serial: int): seq<NodeView> {
    Filter(nodes, (n: NodeView) => SerialOf(n) == serial)
  }

  /** Sorting leaves candidates of equal serial in the order of the listing. */
  lemma EqualSerialsKeepOrder(nodes: seq<NodeView>, serial: int)
    ensures WithSerial(Candidates(nodes), serial) == WithSerial(Filter(nodes, Candidate), serial)
  {
    hide SortedBy, Filter;
    SortedByIsStable(Filter(nodes, Candidate), (n: NodeView) => -SerialOf(n), -serial, (n: NodeView) => SerialOf(n) == serial);
  }

  /**
   Removals are distinct nodes of the cluster and no more than the maximum; the highest serials go
   first, and among equal serials (or nodes without one) those listed first.
   */
  lemma RemovalsAreOrdered(nodes: seq<NodeView>, r: Rules)
    ensures var sel := ScaleDown(nodes, r);
      && multiset(sel) <= multiset(nodes)
      && Descending(sel)
      && |sel| <= Max(r.cfg.maxRemove, 0)
      && (forall i, j :: 0 <= i < j < |sel| && sel[j].serial.Some? ==>
            sel[i].serial.Some? && sel[i].serial.value >= sel[j].serial.value)
    ensures forall serial :: IsSubsequence(WithSerial(ScaleDown(nodes, r), serial), WithSerial(Filter(nodes, Candidate), serial))
  {
    hide Select, SortedBy, Filter, IsSubsequence, ExcessCapacity, Workers;
    FilterKeeps(nodes, Candidate);
    SortedByPermutes(Filter(nodes, Candidate), (n: NodeView) => -SerialOf(n));
    var cands := Candidates(nodes);
    SelectedAreOpen(cands, r.cfg.maxRemove, ExcessCapacity(nodes), Workers(nodes), r);
    SelectedAreCandidates(cands, r.cfg.maxRemove, ExcessCapacity(nodes), Workers(nodes), r);
    forall i, j | 0 <= i < j < |cands| ensures SerialOf(cands[i]) >= SerialOf(cands[j]) {
      assert ((n: NodeView) => -SerialOf(n))(cands[i]) <= ((n: NodeView) => -SerialOf(n))(cands[j]);
    }
    SelectionIsSubsequence(cands, r.cfg.maxRemove, ExcessCapacity(nodes), Workers(nodes), r);
    SubsequenceDescends(ScaleDown(nodes, r), cands);
    forall serial ensures IsSubsequence(WithSerial(ScaleDown(nodes, r), serial), WithSerial(Filter(nodes, Candidate), serial)) {
      SubsequenceFilter(ScaleDown(nodes, r), cands, (n: NodeView) => SerialOf(n) == serial);
      EqualSerialsKeepOrder(nodes, serial);
    }
  }

  /**
   If fewer nodes than the maximum are removed, every empty plain worker left over is protected, not
   known to be empty, not cooled down, or not to be spared at the excess and worker count that are
   left in the end.
   */
  lemma RemovalsAreMaximal(nodes: seq<NodeView>, r: Rules, n: NodeView)
    requires forall c :: c in nodes ==> c.capacity >= 0
    requires |ScaleDown(nodes, r)| < r.cfg.maxRemove
    requires !n.isManager && !n.isLeader && n.runningHosts == 0
    requires multiset(nodes)[n] > multiset(ScaleDown(nodes, r))[n]
    ensures var sel := ScaleDown(nodes, r);
      || n.fqdn in r.protected
      || n.fqdn !in r.emptySince
      || r.now - r.emptySince[n.fqdn] < r.cfg.cooldownMin * 60_000_000
      || Slots(nodes) - HostsOn(nodes) - CapacityOf(sel) <= n.capacity + r.cfg.headroom
      || |WorkerPlaces(nodes)| - |sel| - 1 < r.cfg.minWorkers
  {
    hide Select, SortedBy, Filter, CapacityOf, TotalCapacity, TotalLoad, Workers;
    TotalsAre(nodes);
    FilterCounts(nodes, Candidate, n);
    SortedByPermutes(Filter(nodes, Candidate), (c: NodeView) => -SerialOf(c));
    SelectionIsMaximal(Candidates(nodes), r.cfg.maxRemove, ExcessCapacity(nodes), Workers(nodes), r, n);
  }

  // ---- The cluster after the removals, which name nodes by hostname ----

  ghost predicate DistinctFqdns(nodes: seq<NodeView>) {
    forall i, j :: 0 <= i < j < |nodes| ==> nodes[i].fqdn != nodes[j].fqdn
  }

  function Without(nodes: seq<NodeView>, gone: seq<Fqdn>): seq<NodeView> {
    Filter(nodes, (n: NodeView) => n.fqdn !in gone)
  }

  /** Taking out one idle worker. */
  lemma {:induction false} WithoutOne(nodes: seq<NodeView>, n: NodeView)
    requires DistinctFqdns(nodes) && n in nodes && Candidate(n)
    ensures var rest := Without(nodes, [n.fqdn]);
      && TotalCapacity(rest) == TotalCapacity(nodes) - n.capacity
      && TotalLoad(rest) == TotalLoad(nodes)
      && Workers(rest) == Workers(nodes) - 1
  {
    if nodes[0] == n {
      FilterAll(nodes[1..], (x: NodeView) => x.fqdn !in [n.fqdn]);
    } else {
      var i :| 0 <= i < |nodes| && nodes[i] == n;
      assert nodes[0].fqdn != nodes[i].fqdn;
      assert n == nodes[1..][i - 1];
      WithoutOne(nodes[1..], n);
    }
  }

  lemma {:induction false} WithoutTwice(nodes: seq<NodeView>, f: Fqdn, gone: seq<Fqdn>)
    ensures Without(Without(nodes, [f]), gone) == Without(nodes, [f] + gone)
  {
    if nodes != [] {
      WithoutTwice(nodes[1..], f, gone);
    }
  }

  lemma {:induction false} WithoutStaysDistinct(nodes: seq<NodeView>, gone: seq<Fqdn>)
    requires DistinctFqdns(nodes)
    ensures DistinctFqdns(Without(nodes, gone))
  {
    if nodes != [] {
      WithoutStaysDistinct(nodes[1..], gone);
      var rest := Without(nodes[1..], gone);
      forall i | 0 <= i < |rest| ensures rest[i].fqdn != nodes[0].fqdn {
        assert rest[i] in rest;
        var k :| 0 <= k < |nodes[1..]| && nodes[1..][k] == rest[i];
        assert nodes[k + 1].fqdn != nodes[0].fqdn;
      }
    }
  }

  lemma {:induction false} WithoutMany(nodes: seq<NodeView>, sel: seq<NodeView>)
    requires DistinctFqdns(nodes) && multiset(sel) <= multiset(nodes)
    requires forall n :: n in sel ==> Candidate(n)
    ensures var rest := Without(nodes, Fqdns(sel));
      && TotalCapacity(rest) == TotalCapacity(nodes) - CapacityOf(sel)
      && TotalLoad(rest) == TotalLoad(nodes)
      && Workers(rest) == Workers(nodes) - |sel|
    decreases |sel|
  {
    if sel == [] {
      FilterAll(nodes, (n: NodeView) => n.fqdn !in []);
      assert Fqdns(sel) == [];
    } else {
      WithoutFirst(nodes, sel);
      hide Without, DistinctFqdns, TotalCapacity, TotalLoad, Workers, Candidate, Fqdns;
      WithoutMany(Without(nodes, [sel[0].fqdn]), sel[1..]);
    }
  }

  /** Removing the first of the selected nodes leaves a cluster that has all the others. */
  lemma WithoutFirst(nodes: seq<NodeView>, sel: seq<NodeView>)
    requires DistinctFqdns(nodes) && multiset(sel) <= multiset(nodes)
    requires sel != [] && Candidate(sel[0])
    ensures var rest := Without(nodes, [sel[0].fqdn]);
      && DistinctFqdns(rest) && multiset(sel[1..]) <= multiset(rest)
      && TotalCapacity(rest) == TotalCapacity(nodes) - sel[0].capacity
      && TotalLoad(rest) == TotalLoad(nodes)
      && Workers(rest) == Workers(nodes) - 1
      && Without(nodes, Fqdns(sel)) == Without(rest, Fqdns(sel[1..]))
  {
    hide Without, DistinctFqdns, TotalCapacity, TotalLoad, Workers, Candidate;
    var n := sel[0];
    assert n in sel && n in multiset(sel) && n in nodes;
    WithoutOne(nodes, n);
    WithoutStaysDistinct(nodes, [n.fqdn]);
    ChosenOnce(nodes, sel);
    assert Fqdns(sel) == [n.fqdn] + Fqdns(sel[1..]);
    WithoutTwice(nodes, n.fqdn, Fqdns(sel[1..]));
  }

  lemma {:induction false} Multiplicity(nodes: seq<NodeView>, n: NodeView, f: Fqdn)
    requires DistinctFqdns(nodes)
    ensures multiset(nodes)[n] <= 1
    ensures n.fqdn != f ==> multiset(Without(nodes, [f]))[n] == multiset(nodes)[n]
  {
    if nodes != [] {
      assert nodes == [nodes[0]] + nodes[1..];
      forall k | 0 <= k < |nodes[1..]| ensures nodes[1..][k] != nodes[0] {
        assert nodes[k + 1].fqdn != nodes[0].fqdn;
      }
      Multiplicity(nodes[1..], n, f);
    }
  }

  /** Hosts names being distinct, the rest of the selection is still there once its head is gone. */
  lemma ChosenOnce(nodes: seq<NodeView>, sel: seq<NodeView>)
    requires DistinctFqdns(nodes) && sel != [] && multiset(sel) <= multiset(nodes)
    ensures multiset(sel[1..]) <= multiset(Without(nodes, [sel[0].fqdn]))
  {
    var f := sel[0].fqdn;
    assert sel == [sel[0]] + sel[1..];
    forall n ensures multiset(sel[1..])[n] <= multiset(Without(nodes, [f]))[n] {
      Multiplicity(nodes, n, f);
      if n.fqdn == f {
        if n in nodes {
          assert sel[0] in multiset(nodes);
          SameFqdnSameNode(nodes, n, sel[0]);
        }
        assert multiset(sel)[n] <= multiset(nodes)[n];
      }
    }
  }

  lemma SameFqdnSameNode(nodes: seq<NodeView>, a: NodeView, b: NodeView)
    requires DistinctFqdns(nodes) && a in nodes && b in nodes && a.fqdn == b.fqdn
    ensures a == b
  {
    var i :| 0 <= i < |nodes| && nodes[i] == a;
    var j :| 0 <= j < |nodes| && nodes[j] == b;
    assert i == j;
  }

  // ---- Safety of the plan ----

  /**
   After a scale-down plan has been carried out: spare capacity still exceeds the headroom, the
   minimum number of workers remains, and no host was on a removed node.
   */
  lemma ScaleDownIsSafe(nodes: seq<NodeView>, demand: int, r: Rules)
    requires GoodTiers(r.cfg) && DistinctFqdns(nodes)
    requires BuildPlan(nodes, demand, r).removeNodes != []
    ensures var rest := Without(nodes, BuildPlan(nodes, demand, r).removeNodes);
      && Slots(rest) - HostsOn(rest) > r.cfg.headroom
      && |WorkerPlaces(rest)| >= r.cfg.minWorkers
      && HostsOn(rest) == HostsOn(nodes)
      && ExcessCapacity(rest) > r.cfg.headroom
      && Workers(rest) >= r.cfg.minWorkers
      && TotalLoad(rest) == TotalLoad(nodes)
    ensures demand <= Slots(nodes)
    ensures Deficit(nodes, demand) == 0 && BuildPlan(nodes, demand, r).adds == Adds(0, 0)
  {
    TotalsAre(nodes);
    TotalsAre(Without(nodes, BuildPlan(nodes, demand, r).removeNodes));
    var sel := ScaleDown(nodes, r);
    RemovalsAreOrdered(nodes, r);
    SelectedAreCandidates(Candidates(nodes), r.cfg.maxRemove, ExcessCapacity(nodes), Workers(nodes), r);
    SelectionLeavesHeadroom(Candidates(nodes), r.cfg.maxRemove, ExcessCapacity(nodes), Workers(nodes), r);
    WithoutMany(nodes, sel);
  }

  /** Only an idle, unprotected plain worker that has been empty for the cooldown is ever removed. */
  lemma RemovedNodesQualify(nodes: seq<NodeView>, demand: int, r: Rules, n: NodeView)
    requires GoodTiers(r.cfg) && DistinctFqdns(nodes)
    requires n in nodes && n.fqdn in BuildPlan(nodes, demand, r).removeNodes
    ensures !n.isManager && !n.isLeader && n.runningHosts == 0
    ensures n.fqdn !in r.protected
    ensures n.fqdn in r.emptySince && r.now - r.emptySince[n.fqdn] >= r.cfg.cooldownMin * 60_000_000
  {
    var sel := ScaleDown(nodes, r);
    SelectedAreOpen(Candidates(nodes), r.cfg.maxRemove, ExcessCapacity(nodes), Workers(nodes), r);
    SelectedAreCandidates(Candidates(nodes), r.cfg.maxRemove, ExcessCapacity(nodes), Workers(nodes), r);
    var k :| 0 <= k < |sel| && sel[k].fqdn == n.fqdn;
    assert sel[k] in sel;
    assert sel[k] in Candidates(nodes);
    SameFqdnSameNode(nodes, n, sel[k]);
  }

  /**
   A plan goes one way: it adds nodes exactly as the demand exceeds the workers' slots, and only
   otherwise removes any; it asks for a purge exactly when it removes.
   */
  lemma PlanGoesOneWay(nodes: seq<NodeView>, demand: int, r: Rules)
    requires GoodTiers(r.cfg)
    ensures var plan, missing := BuildPlan(nodes, demand, r), demand - Slots(nodes);
      && Deficit(nodes, demand) == (if missing > 0 then missing else 0)
      && (missing > 0 ==> plan.removeNodes == [])
      && (missing > 0 ==> plan.adds == ScaleUp(missing, LargestCapacity(r.cfg), SmallestCapacity(r.cfg), r.cfg.maxAdd))
      && (missing <= 0 ==> plan.adds == Adds(0, 0) && plan.removeNodes == Fqdns(ScaleDown(nodes, r)))
      && (plan.purgeFirst <==> plan.removeNodes != [])
  {
    hide ScaleDown, ScaleUp, LargestCapacity, SmallestCapacity, TotalCapacity, Slots;
    TotalsAre(nodes);
  }

  // ---- The dead band uses the load, not the demand ----

  /** Carrying out any scale-down plan at this load and headroom leaves the demand covered. */
  ghost predicate NeverUncovers(load: nat, headroom: int, demand: int) {
    forall nodes, r: Rules | DistinctFqdns(nodes) && TotalLoad(nodes) == load && r.cfg.headroom == headroom
                             && GoodTiers(r.cfg) && BuildPlan(nodes, demand, r).removeNodes != [] ::
      Deficit(Without(nodes, BuildPlan(nodes, demand, r).removeNodes), demand) == 0
  }

  /** Two workers: one just large enough to keep the dead band open, one idle that covers the demand. */
  lemma LargeIdleNodeGoes(load: nat, headroom: nat, demand: int) returns (nodes: seq<NodeView>, r: Rules)
    requires demand > load + headroom + 1
    ensures DistinctFqdns(nodes) && TotalLoad(nodes) == load && r.cfg.headroom == headroom && GoodTiers(r.cfg)
    ensures BuildPlan(nodes, demand, r).removeNodes != []
    ensures Deficit(Without(nodes, BuildPlan(nodes, demand, r).removeNodes), demand) > 0
  {
    var kept := NodeView("swarm1", load + headroom + 1, load, false, false, Some(1));
    var idle := NodeView("swarm2", demand, 0, false, false, Some(2));
    nodes := [kept, idle];
    r := Rules(Config(headroom, 2, 1, 30, 1, [Tier("default", 6)]), 30 * MINUTE, map["swarm2" := 0], {});
    TwoNodes(kept, idle);
    OnlyIdleCandidate(kept, idle, load, r, ExcessCapacity(nodes));
    assert ScaleDown(nodes, r) == [idle];
    assert Fqdns([idle]) == ["swarm2"];
    TwoLessLast(kept, idle);
  }

  lemma TwoNodes(a: NodeView, b: NodeView)
    requires !a.isManager && !b.isManager
    ensures TotalCapacity([a, b]) == a.capacity + b.capacity
    ensures TotalLoad([a, b]) == a.runningHosts + b.runningHosts
    ensures Workers([a, b]) == 2
  {
    assert [a, b][1..] == [b] && [b][1..] == [];
    assert TotalCapacity([b]) == b.capacity && TotalLoad([b]) == b.runningHosts && Workers([b]) == 1;
  }

  lemma TwoLessLast(a: NodeView, b: NodeView)
    requires a.fqdn != b.fqdn && !a.isManager
    ensures Without([a, b], [b.fqdn]) == [a] && TotalCapacity([a]) == a.capacity
  {
    assert [a, b][1..] == [b];
    FilterNone([b], (n: NodeView) => n.fqdn !in [b.fqdn]);
  }

  lemma OnlyIdleCandidate(kept: NodeView, idle: NodeView, load: nat, r: Rules, excess: int)
    requires Candidate(idle) && Open(idle, r) && Spare(idle, r, excess, 2)
    requires idle.serial.Some? && kept.serial.Some? && idle.serial.value > kept.serial.value
    requires r.cfg.maxRemove == 1
    ensures Select(Candidates([kept, idle]), 1, excess, 2, r) == [idle]
  {
    var key := (n: NodeView) => -SerialOf(n);
    assert [kept, idle][1..] == [idle];
    assert Filter([idle], Candidate) == [idle];
    assert SortedBy([idle], key) == [idle];
    if Candidate(kept) {
      assert Filter([kept, idle], Candidate) == [kept, idle];
      assert SortedBy([kept, idle], key) == InsertBy(kept, [idle], key);
    }
    assert Candidates([kept, idle])[0] == idle;
  }

  /**
   At load L and headroom H, scale-down keeps every demand up to L + H + 1 covered, in every cluster,
   and no larger one.
   */
  lemma DeadBandCoversExactly(load: nat, headroom: nat, demand: int)
    ensures NeverUncovers(load, headroom, demand) <==> demand <= load + headroom + 1
  {
    if demand <= load + headroom + 1 {
      forall nodes, r: Rules | DistinctFqdns(nodes) && TotalLoad(nodes) == load && r.cfg.headroom == headroom
                               && GoodTiers(r.cfg) && BuildPlan(nodes, demand, r).removeNodes != []
        ensures Deficit(Without(nodes, BuildPlan(nodes, demand, r).removeNodes), demand) == 0
      {
        ScaleDownIsSafe(nodes, demand, r);
      }
    } else {
      var nodes, r := LargeIdleNodeGoes(load, headroom, demand);
    }
  }

  /**
   The dead band at work on a demand it does not see: workers of 14, 6 and 6, the largest with the
   highest serial, nothing running, headroom 2, demand 22. The 14 goes and a deficit of 10 appears.
   */
  lemma DeadBandCounterexample() returns (nodes: seq<NodeView>, r: Rules)
    ensures nodes == [NodeView("swarm1", 6, 0, false, false, Some(1)), NodeView("swarm2", 6, 0, false, false, Some(2)),
                      NodeView("swarm3", 14, 0, false, false, Some(3))]
    ensures r.cfg == Config(2, 2, 1, 30, 1, [Tier("default", 6)])
    ensures Deficit(nodes, 22) == 0
    ensures BuildPlan(nodes, 22, r).removeNodes == ["swarm3"]
    ensures Deficit(Without(nodes, ["swarm3"]), 22) == 10
  {
    hide Select, Candidates, TotalCapacity, TotalLoad, Workers, Without;
    var a := NodeView("swarm1", 6, 0, false, false, Some(1));
    var b := NodeView("swarm2", 6, 0, false, false, Some(2));
    var c := NodeView("swarm3", 14, 0, false, false, Some(3));
    nodes := [a, b, c];
    r := Rules(Config(2, 2, 1, 30, 1, [Tier("default", 6)]), 30 * MINUTE, map["swarm3" := 0], {});
    ThreeNodes(a, b, c);
    ThreeSorted(a, b, c);
    FirstOnly([c, b, a], 26, 3, r);
    assert ScaleDown(nodes, r) == [c];
    assert Fqdns([c]) == ["swarm3"];
    TwoNodes(a, b);
  }

  lemma ThreeNodes(a: NodeView, b: NodeView, c: NodeView)
    requires !a.isManager && !b.isManager && !c.isManager
    ensures TotalCapacity([a, b, c]) == a.capacity + b.capacity + c.capacity
    ensures TotalLoad([a, b, c]) == a.runningHosts + b.runningHosts + c.runningHosts
    ensures Workers([a, b, c]) == 3
    ensures a.fqdn != c.fqdn && b.fqdn != c.fqdn ==> Without([a, b, c], [c.fqdn]) == [a, b]
  {
    assert [a, b, c][1..] == [b, c];
    TwoNodes(b, c);
    if a.fqdn != c.fqdn && b.fqdn != c.fqdn {
      TwoLessLast(b, c);
      assert [a] + [b] == [a, b];
    }
  }

  lemma FirstOnly(cands: seq<NodeView>, excess: int, workers: int, r: Rules)
    requires cands != [] && Open(cands[0], r) && Spare(cands[0], r, excess, workers)
    ensures Select(cands, 1, excess, workers, r) == [cands[0]]
  {
  }

  lemma ThreeSorted(a: NodeView, b: NodeView, c: NodeView)
    requires Candidate(a) && Candidate(b) && Candidate(c) && SerialOf(a) < SerialOf(b) < SerialOf(c)
    ensures Candidates([a, b, c]) == [c, b, a]
  {
    hide SortedBy, InsertBy;
    assert [a, b, c][1..] == [b, c] && [b, c][1..] == [c];
    assert Filter([c], Candidate) == [c];
    assert Filter([b, c], Candidate) == [b] + [c];
    assert Filter([a, b, c], Candidate) == [a, b, c];
    var key := (n: NodeView) => -SerialOf(n);
    OnlyOneOrder(SortedBy([a, b, c], key), a, b, c);
  }

  lemma OnlyOneOrder(s: seq<NodeView>, a: NodeView, b: NodeView, c: NodeView)
    requires |s| == 3 && a in s && b in s && c in s
    requires SerialOf(a) < SerialOf(b) < SerialOf(c)
    requires forall i, j :: 0 <= i < j < |s| ==> -SerialOf(s[i]) <= -SerialOf(s[j])
    ensures s == [c, b, a]
  {
    var i :| 0 <= i < 3 && s[i] == a;
    var j :| 0 <= j < 3 && s[j] == b;
    var k :| 0 <= k < 3 && s[k] == c;
    assert k < j < i;
  }
}
