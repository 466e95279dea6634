/**
 What the autoscaler remembers from cycle to cycle: since when each node has been seen empty. The
 memory is a sidecar file, read at the start of a cycle and written back at its end; a cycle that
 fails before that leaves the old file in place.
 */
module Cooldown {
  import opened Common
  import opened Autoscale
  import opened ScaleDownTheory
  import opened Demand

  /** What one cycle sees: the hostnames of the swarm, the hosts running per short name, the clock. */
  datatype Observation = Observation(hostnames: seq<Fqdn>, counts: map<string, nat>, now: Time, saved: bool)

  type Sidecar = map<Fqdn, Time>

  /** Later nodes override earlier ones with the same short name; nodes without a hostname are skipped. */
  function ShortToFqdn(hostnames: seq<Fqdn>): (m: map<string, Fqdn>)
    ensures forall s :: s in m ==> Short(m[s]) == s && m[s] in hostnames && m[s] != ""
    ensures forall f :: f in hostnames && f != "" ==> Short(f) in m
  {
    if hostnames == [] then map[] else
      var m, last := ShortToFqdn(hostnames[..|hostnames| - 1]), hostnames[|hostnames| - 1];
      assert hostnames == hostnames[..|hostnames| - 1] + [last];
      if last == "" then m else m[Short(last) := last]
  }

  /** The hostname is listed, and no other one with the same short name is listed after it. */
  ghost predicate ListedLast(hostnames: seq<Fqdn>, f: Fqdn) {
    f != "" && exists i :: 0 <= i < |hostnames| && hostnames[i] == f && NoneAfter(hostnames, f, i)
  }

  ghost predicate NoneAfter(hostnames: seq<Fqdn>, f: Fqdn, i: nat) {
    forall j :: i < j < |hostnames| && hostnames[j] != "" && Short(hostnames[j]) == Short(f) ==> hostnames[j] == f
  }

  lemma ShortToFqdnSnoc(init: seq<Fqdn>, last: Fqdn)
    ensures ShortToFqdn(init + [last]) == if last == "" then ShortToFqdn(init) else ShortToFqdn(init)[Short(last) := last]
  {
    assert (init + [last])[..|init|] == init;
  }

  lemma {:induction false} LastIsFound(hostnames: seq<Fqdn>, f: Fqdn, i: nat)
    requires f != "" && i < |hostnames| && hostnames[i] == f && NoneAfter(hostnames, f, i)
    ensures Short(f) in ShortToFqdn(hostnames) && ShortToFqdn(hostnames)[Short(f)] == f
  {
    hide Short, ShortToFqdn;
    var init, last := hostnames[..|hostnames| - 1], hostnames[|hostnames| - 1];
    assert hostnames == init + [last];
    ShortToFqdnSnoc(init, last);
    if last != f {
      assert NoneAfter(init, f, i);
      LastIsFound(init, f, i);
    }
  }

  lemma {:induction false} FoundIsLast(hostnames: seq<Fqdn>, f: Fqdn) returns (i: nat)
    requires Short(f) in ShortToFqdn(hostnames) && ShortToFqdn(hostnames)[Short(f)] == f
    ensures f != "" && i < |hostnames| && hostnames[i] == f && NoneAfter(hostnames, f, i)
  {
    assert f != "" && hostnames != [];
    hide Short, ShortToFqdn;
    var init, last := hostnames[..|hostnames| - 1], hostnames[|hostnames| - 1];
    assert hostnames == init + [last];
    ShortToFqdnSnoc(init, last);
    if last == f {
      i := |init|;
    } else {
      i := FoundIsLast(init, f);
      assert NoneAfter(hostnames, f, i);
    }
  }

  /** The last node of each short name is the one that is known under it. */
  lemma KnownIsListedLast(hostnames: seq<Fqdn>, f: Fqdn)
    ensures Short(f) in ShortToFqdn(hostnames) && ShortToFqdn(hostnames)[Short(f)] == f <==> ListedLast(hostnames, f)
  {
    hide Short, ShortToFqdn, NoneAfter;
    if Short(f) in ShortToFqdn(hostnames) && ShortToFqdn(hostnames)[Short(f)] == f {
      var i := FoundIsLast(hostnames, f);
    }
    if ListedLast(hostnames, f) {
      var i :| 0 <= i < |hostnames| && hostnames[i] == f && NoneAfter(hostnames, f, i);
      LastIsFound(hostnames, f, i);
    }
  }

  function CountOf(counts: map<string, nat>, short: string): nat {
    if short in counts then counts[short] else 0
  }

  /** The node is in the cluster and runs nothing. */
  predicate SeenEmpty(obs: Observation, f: Fqdn) {
    var m := ShortToFqdn(obs.hostnames);
    Short(f) in m && m[Short(f)] == f && CountOf(obs.counts, Short(f)) == 0
  }

  /** A node is seen empty when the cluster lists it and no host is counted under its short name. */
  lemma SeenEmptyMeans(obs: Observation, f: Fqdn)
    ensures SeenEmpty(obs, f) <==> ListedLast(obs.hostnames, f) && (Short(f) in obs.counts ==> obs.counts[Short(f)] == 0)
    ensures SeenEmpty(obs, f) ==> f in obs.hostnames
  {
    KnownIsListedLast(obs.hostnames, f);
  }

  function EmptyNodes(obs: Observation): (r: set<Fqdn>)
    ensures forall f :: f in r <==> SeenEmpty(obs, f)
  {
    var m := ShortToFqdn(obs.hostnames);
    set s | s in m && CountOf(obs.counts, s) == 0 :: m[s]
  }

  /** The memory after an observation: exactly the nodes now seen empty, with the time they were first so. */
  function Updated(es: Sidecar, obs: Observation): Sidecar {
    map f | f in EmptyNodes(obs) :: if f in es then es[f] else obs.now
  }

  method UpdateEmptySince(loaded: Sidecar, obs: Observation) returns (emptySince: Sidecar)
    ensures emptySince == Updated(loaded, obs)
    ensures forall f :: f in emptySince <==>
      ListedLast(obs.hostnames, f) && (Short(f) in obs.counts ==> obs.counts[Short(f)] == 0)
    ensures forall f :: f in emptySince ==> f in obs.hostnames && emptySince[f] == if f in loaded then loaded[f] else obs.now
  {
    hide *;
    var shortToFqdn := ShortToFqdn(obs.hostnames);
    var recorded := Record(loaded, shortToFqdn, obs.counts, obs.now);
    var known := set s | s in shortToFqdn :: shortToFqdn[s];
    emptySince := recorded - (recorded.Keys - known);
    KnownOnly(loaded, obs, shortToFqdn, recorded, known);
    UpdatedMeans(loaded, obs);
  }

  /** Dropping what is not known from the recorded times leaves the updated memory. */
  lemma KnownOnly(loaded: Sidecar, obs: Observation, shortToFqdn: map<string, Fqdn>, recorded: Sidecar, known: set<Fqdn>)
    requires shortToFqdn == ShortToFqdn(obs.hostnames) && known == set s | s in shortToFqdn :: shortToFqdn[s]
    requires forall f :: f in recorded <==>
      if Short(f) in shortToFqdn && shortToFqdn[Short(f)] == f then CountOf(obs.counts, Short(f)) == 0 else f in loaded
    requires forall f :: f in recorded ==> recorded[f] == if f in loaded then loaded[f] else obs.now
    ensures recorded - (recorded.Keys - known) == Updated(loaded, obs)
  {
    hide ShortToFqdn, Short;
    var kept := recorded - (recorded.Keys - known);
    forall f ensures f in kept <==> f in Updated(loaded, obs) {
      assert f in known <==> Short(f) in shortToFqdn && shortToFqdn[Short(f)] == f;
    }
  }

  /** The updated memory: the listed nodes without a counted host, remembered times kept. */
  lemma UpdatedMeans(es: Sidecar, obs: Observation)
    ensures forall f :: f in Updated(es, obs) <==>
      ListedLast(obs.hostnames, f) && (Short(f) in obs.counts ==> obs.counts[Short(f)] == 0)
    ensures forall f :: f in Updated(es, obs) ==> f in obs.hostnames && Updated(es, obs)[f] == if f in es then es[f] else obs.now
  {
    hide SeenEmpty, ListedLast, Short;
    forall f ensures f in Updated(es, obs) <==>
      ListedLast(obs.hostnames, f) && (Short(f) in obs.counts ==> obs.counts[Short(f)] == 0)
    {
      SeenEmptyMeans(obs, f);
    }
    forall f | f in Updated(es, obs) ensures f in obs.hostnames {
      SeenEmptyMeans(obs, f);
    }
  }

  /** Newly empty nodes are recorded and nodes that run something again are forgotten. */
  method Record(loaded: Sidecar, shortToFqdn: map<string, Fqdn>, counts: map<string, nat>, now: Time)
      returns (emptySince: Sidecar)
    requires forall s :: s in shortToFqdn ==> Short(shortToFqdn[s]) == s
    ensures forall f :: f in emptySince <==>
      if Short(f) in shortToFqdn && shortToFqdn[Short(f)] == f then CountOf(counts, Short(f)) == 0 else f in loaded
    ensures forall f :: f in emptySince ==> emptySince[f] == if f in loaded then loaded[f] else now
  {
    emptySince := loaded;
    var todo := shortToFqdn.Keys;
    while todo != {}
      invariant todo <= shortToFqdn.Keys
      invariant forall f :: f in emptySince <==>
        if Short(f) in shortToFqdn && Short(f) !in todo && shortToFqdn[Short(f)] == f then CountOf(counts, Short(f)) == 0
        else f in loaded
      invariant forall f :: f in emptySince ==> emptySince[f] == if f in loaded then loaded[f] else now
      decreases |todo|
    {
      var short :| short in todo;
      var fqdn := shortToFqdn[short];
      if CountOf(counts, short) == 0 {
        if fqdn !in emptySince {
          emptySince := emptySince[fqdn := now];
        }
      } else {
        emptySince := emptySince - {fqdn};
      }
      todo := todo - {short};
    }
  }

  // ---- Histories ----

  /** The file after a run of cycles, starting from none. */
  function SidecarAfter(trace: seq<Observation>): Sidecar {
    if trace == [] then map[] else
      var before, last := SidecarAfter(trace[..|trace| - 1]), trace[|trace| - 1];
      if last.saved then Updated(before, last) else before
  }

  /** The cycles that got as far as writing the file. */
  function Completed(trace: seq<Observation>): (r: seq<Observation>)
    ensures forall o :: o in r ==> o.saved && o in trace
  {
    if trace == [] then [] else
      var before, last := Completed(trace[..|trace| - 1]), trace[|trace| - 1];
      if last.saved then before + [last] else before
  }

  /** Where the current unbroken run of "present and empty" observations began; |cs| if there is none. */
  function RunStart(cs: seq<Observation>, f: Fqdn): (r: nat)
    ensures r <= |cs|
  {
    if cs == [] then 0
    else if !SeenEmpty(cs[|cs| - 1], f) then |cs|
    else RunStart(cs[..|cs| - 1], f)
  }

  lemma {:induction false} RunIsUnbroken(cs: seq<Observation>, f: Fqdn)
    ensures var r := RunStart(cs, f);
      && (forall j :: r <= j < |cs| ==> SeenEmpty(cs[j], f))
      && (r > 0 ==> !SeenEmpty(cs[r - 1], f))
  {
    hide SeenEmpty;
    if cs != [] && SeenEmpty(cs[|cs| - 1], f) {
      var init := cs[..|cs| - 1];
      RunIsUnbroken(init, f);
      assert forall j :: 0 <= j < |init| ==> init[j] == cs[j];
    }
  }

  /**
   The file holds exactly the nodes that the last completed cycle saw empty, each with the time of
   the first cycle of its current unbroken run.
   */
  lemma {:induction false} SidecarIsHistory(trace: seq<Observation>, f: Fqdn)
    ensures var cs, es := Completed(trace), SidecarAfter(trace);
      && (f in es <==> RunStart(cs, f) < |cs|)
      && (f in es ==> es[f] == cs[RunStart(cs, f)].now)
  {
    if trace != [] {
      var before, last := trace[..|trace| - 1], trace[|trace| - 1];
      SidecarIsHistory(before, f);
      if last.saved {
        var cs := Completed(before);
        assert (cs + [last])[..|cs|] == cs;
      }
    }
  }

  ghost predicate Monotone(cs: seq<Observation>) {
    forall i, j :: 0 <= i <= j < |cs| ==> cs[i].now <= cs[j].now
  }

  // ---- What a cycle decides ----

  /** The empty timestamps a forced run plans with; the persisted ones are not touched. */
  function Forced(es: Sidecar, cfg: Config, now: Time): Sidecar {
    map f | f in es :: Min(es[f], now - (cfg.cooldownMin + 1) * MINUTE)
  }

  /** Hosts of classes that are still protected, by the short name of the node they are recorded on. */
  function ProtectedNodes(classes: seq<ClassRow>, hosts: seq<HostRow>, hostnames: seq<Fqdn>, now: Time): (r: set<Fqdn>)
    ensures forall f :: f in r <==>
      exists h, c :: h in hosts && c in classes && h.classId == Some(c.id) && now < c.purgeAfter
        && h.nodeName == Some(Short(f)) && Short(f) in ShortToFqdn(hostnames) && ShortToFqdn(hostnames)[Short(f)] == f
  {
    var m := ShortToFqdn(hostnames);
    var protectedIds := set c | c in classes && now < c.purgeAfter :: c.id;
    set h | h in hosts && h.classId.Some? && h.classId.value in protectedIds && h.nodeName.Some? && h.nodeName.value in m
      :: m[h.nodeName.value]
  }

  class Autoscaler {
    var sidecar: Sidecar
    ghost var history: seq<Observation>

    ghost predicate Valid()
      reads this
    {
      sidecar == SidecarAfter(history)
    }

    constructor ()
      ensures Valid() && history == []
    {
      sidecar := map[];
      history := [];
    }

    /** One cycle; `obs.saved` tells whether it reaches the point where the file is written. */
    method RunCycle(obs: Observation, nodes: seq<NodeView>, demand: int, cfg: Config, planNow: Time,
                    protected: set<Fqdn>, force: bool, upOnly: Option<bool>) returns (plan: ScalePlan)
      requires Valid() && GoodTiers(cfg)
      modifies this
      ensures Valid() && history == old(history) + [obs]
      ensures var es := Updated(old(sidecar), obs);
        var full := BuildPlan(nodes, demand, Rules(cfg, planNow, if force then Forced(es, cfg, planNow) else es, protected));
        plan == match upOnly
          case None => full
          case Some(true) => full.(removeNodes := [], purgeFirst := false)
          case Some(false) => full.(adds := Adds(0, 0))
      ensures sidecar == if obs.saved then Updated(old(sidecar), obs) else old(sidecar)
    {
      var emptySince := UpdateEmptySince(sidecar, obs);
      var effective := emptySince;
      if force {
        effective := Forced(emptySince, cfg, planNow);
      }
      plan := BuildPlan(nodes, demand, Rules(cfg, planNow, effective, protected));
      if upOnly == Some(true) {
        plan := plan.(removeNodes := [], purgeFirst := false);
      } else if upOnly == Some(false) {
        plan := plan.(adds := Adds(0, 0));
      }
      assert (history + [obs])[..|history|] == history;
      history := history + [obs];
      if obs.saved {
        sidecar := emptySince;
      }
    }
  }

  // ---- Cooldown over whole runs ----

  /** The completed cycles and the one in progress. */
  function Seen(trace: seq<Observation>, obs: Observation): seq<Observation> {
    Completed(trace) + [obs]
  }

  lemma CurrentSince(trace: seq<Observation>, obs: Observation, f: Fqdn)
    ensures var es, cs := Updated(SidecarAfter(trace), obs), Seen(trace, obs);
      && (f in es <==> SeenEmpty(obs, f))
      && (f in es ==> RunStart(cs, f) < |cs| && es[f] == cs[RunStart(cs, f)].now)
  {
    SidecarIsHistory(trace, f);
    var cs := Completed(trace);
    assert (cs + [obs])[..|cs|] == cs;
  }

  /**
   An unforced plan removes only nodes that are empty now, were first seen so at least the cooldown
   ago, and have been seen empty by every completed cycle since.
   */
  lemma RemovedWasEmptyThroughout(trace: seq<Observation>, obs: Observation, nodes: seq<NodeView>, demand: int, cfg: Config,
                                  planNow: Time, protected: set<Fqdn>, n: NodeView)
    requires GoodTiers(cfg) && DistinctFqdns(nodes) && n in nodes
    requires Monotone(Seen(trace, obs))
    requires n.fqdn in BuildPlan(nodes, demand, Rules(cfg, planNow, Updated(SidecarAfter(trace), obs), protected)).removeNodes
    ensures var cs, limit := Seen(trace, obs), planNow - cfg.cooldownMin * MINUTE;
      && (exists i :: 0 <= i < |cs| && cs[i].now <= limit && SeenEmpty(cs[i], n.fqdn))
      && (forall j :: 0 <= j < |cs| && cs[j].now > limit ==> SeenEmpty(cs[j], n.fqdn))
      && SeenEmpty(obs, n.fqdn)
    ensures var cs, limit, short := Seen(trace, obs), planNow - cfg.cooldownMin * MINUTE, Short(n.fqdn);
      forall j :: 0 <= j < |cs| && cs[j].now > limit
        ==> n.fqdn in cs[j].hostnames && (short in cs[j].counts ==> cs[j].counts[short] == 0)
  {
    hide SeenEmpty, BuildPlan, RunStart, Completed, SidecarAfter;
    forall o ensures SeenEmpty(o, n.fqdn) ==>
      n.fqdn in o.hostnames && (Short(n.fqdn) in o.counts ==> o.counts[Short(n.fqdn)] == 0)
    {
      SeenEmptyMeans(o, n.fqdn);
    }
    var r := Rules(cfg, planNow, Updated(SidecarAfter(trace), obs), protected);
    RemovedNodesQualify(nodes, demand, r, n);
    CurrentSince(trace, obs, n.fqdn);
    var cs, limit := Seen(trace, obs), planNow - cfg.cooldownMin * MINUTE;
    var start := RunStart(cs, n.fqdn);
    RunIsUnbroken(cs, n.fqdn);
    assert cs[start].now <= limit && SeenEmpty(cs[start], n.fqdn);
    assert forall j :: 0 <= j < start ==> cs[j].now <= cs[start].now;
  }

  /** A node on which a host of a protected class is recorded by its short name is never removed. */
  lemma ProtectedNodeStays(classes: seq<ClassRow>, hosts: seq<HostRow>, hostnames: seq<Fqdn>, nodes: seq<NodeView>,
                           demand: int, r: Rules, n: NodeView, h: HostRow, c: ClassRow)
    requires GoodTiers(r.cfg) && DistinctFqdns(nodes) && n in nodes
    requires r.protected == ProtectedNodes(classes, hosts, hostnames, r.now)
    requires h in hosts && c in classes && h.classId == Some(c.id) && ZoneOf(c.purgeAfter, c.purgeBy, r.now) == Protected
    requires h.nodeName == Some(Short(n.fqdn))
    requires Short(n.fqdn) in ShortToFqdn(hostnames) && ShortToFqdn(hostnames)[Short(n.fqdn)] == n.fqdn
    ensures n.fqdn !in BuildPlan(nodes, demand, r).removeNodes
  {
    assert n.fqdn in r.protected;
    if n.fqdn in BuildPlan(nodes, demand, r).removeNodes {
      RemovedNodesQualify(nodes, demand, r, n);
      assert false;
    }
  }

  // ---- What the protected-node lookup finds ----

  /** The cluster knows the hostname: no later node has the same short name. */
  predicate Known(hostnames: seq<Fqdn>, f: Fqdn) {
    Short(f) in ShortToFqdn(hostnames) && ShortToFqdn(hostnames)[Short(f)] == f
  }

  /** A host of a class that is still protected is recorded under this node name. */
  ghost predicate Recorded(classes: seq<ClassRow>, hosts: seq<HostRow>, now: Time, nodeName: string) {
    exists h, c :: h in hosts && c in classes && h.classId == Some(c.id) && now < c.purgeAfter && h.nodeName == Some(nodeName)
  }

  /** The node `f` is in the cluster and a protected class's host is recorded under `nodeName`. */
  ghost predicate Carries(classes: seq<ClassRow>, hosts: seq<HostRow>, nodes: seq<NodeView>, r: Rules, f: Fqdn, nodeName: string) {
    && GoodTiers(r.cfg) && DistinctFqdns(nodes) && Known(Fqdns(nodes), f)
    && r.protected == ProtectedNodes(classes, hosts, Fqdns(nodes), r.now)
    && Recorded(classes, hosts, r.now, nodeName)
  }

  /** Such a record keeps the node, in every cluster and under every plan. */
  ghost predicate NeverRemoved(f: Fqdn, nodeName: string) {
    forall classes, hosts, nodes, demand, r: Rules | Carries(classes, hosts, nodes, r, f, nodeName) ::
      f !in BuildPlan(nodes, demand, r).removeNodes
  }

  /** A record keeps the node exactly if it names it by its short name. */
  lemma GuardHoldsIffShort(f: Fqdn, nodeName: string)
    requires f != ""
    ensures NeverRemoved(f, nodeName) <==> nodeName == Short(f)
  {
    if nodeName == Short(f) {
      forall classes, hosts, nodes, demand, r: Rules | Carries(classes, hosts, nodes, r, f, nodeName)
        ensures f !in BuildPlan(nodes, demand, r).removeNodes
      {
        assert f in r.protected;
        if f in BuildPlan(nodes, demand, r).removeNodes {
          var k :| 0 <= k < |nodes| && Fqdns(nodes)[k] == f;
          RemovedNodesQualify(nodes, demand, r, nodes[k]);
          assert false;
        }
      }
    } else {
      ShortHasNoDot(f);
      ShortIs("m" + Short(f), "m" + Short(f));
      var classes, hosts, nodes, r := RemovedDespiteHost("m" + Short(f), f, nodeName);
      assert Carries(classes, hosts, nodes, r, f, nodeName);
    }
  }

  /** Two idle workers, the second of them `f`, and a host of a protected class recorded under any other name than f's short one. */
  lemma RemovedDespiteHost(a: Fqdn, f: Fqdn, nodeName: string)
    returns (classes: seq<ClassRow>, hosts: seq<HostRow>, nodes: seq<NodeView>, r: Rules)
    requires f != "" && nodeName != Short(f) && Short(a) != Short(f)
    ensures hosts == [HostRow(false, false, Some("starting"), Some(nodeName), Some(1))]
    ensures classes == [ClassRow(1, 31 * MINUTE, 60 * MINUTE, 20)] && r.now == 30 * MINUTE
    ensures nodes == [NodeView(a, 6, 0, false, false, Some(1)), NodeView(f, 6, 0, false, false, Some(2))]
    ensures Carries(classes, hosts, nodes, r, f, nodeName)
    ensures BuildPlan(nodes, 0, r).removeNodes == [f]
  {
    hide ProtectedNodes, BuildPlan, DistinctFqdns, Known;
    var kept := NodeView(a, 6, 0, false, false, Some(1));
    var idle := NodeView(f, 6, 0, false, false, Some(2));
    var h := HostRow(false, false, Some("starting"), Some(nodeName), Some(1));
    var c := ClassRow(1, 31 * MINUTE, 60 * MINUTE, 20);
    classes, hosts, nodes := [c], [h], [kept, idle];
    r := Rules(Config(2, 2, 1, 30, 1, [Tier("default", 6)]), 30 * MINUTE, map[f := 0],
               ProtectedNodes(classes, hosts, Fqdns(nodes), 30 * MINUTE));
    assert h in hosts && c in classes;
    assert f !in r.protected;
    assert Fqdns(nodes) == [a] + [f];
    LastIsKnown([a], f);
    RemovesIdle(kept, idle, r);
  }

  lemma LastIsKnown(hostnames: seq<Fqdn>, f: Fqdn)
    requires f != ""
    ensures Known(hostnames + [f], f)
  {
    assert (hostnames + [f])[..|hostnames|] == hostnames;
  }

  lemma RemovesIdle(kept: NodeView, idle: NodeView, r: Rules)
    requires kept.fqdn != idle.fqdn && kept == NodeView(kept.fqdn, 6, 0, false, false, Some(1))
    requires idle == NodeView(idle.fqdn, 6, 0, false, false, Some(2))
    requires r.cfg == Config(2, 2, 1, 30, 1, [Tier("default", 6)]) && r.now == 30 * MINUTE && r.emptySince == map[idle.fqdn := 0]
    requires idle.fqdn !in r.protected
    ensures GoodTiers(r.cfg) && DistinctFqdns([kept, idle]) && BuildPlan([kept, idle], 0, r).removeNodes == [idle.fqdn]
  {
    hide Select, Candidates;
    TwoNodes(kept, idle);
    OnlyIdleCandidate(kept, idle, 0, r, 12);
    assert ScaleDown([kept, idle], r) == [idle];
    assert Fqdns([idle]) == [idle.fqdn];
  }

  /**
   The manager records hosts under the full hostname (to_model and new_cs): such a record keeps its
   node exactly if the hostname has no dot.
   */
  lemma FullNameGuardsIffUndotted(f: Fqdn)
    requires f != ""
    ensures NeverRemoved(f, f) <==> '.' !in f
  {
    GuardHoldsIffShort(f, f);
    ShortHasNoDot(f);
    if '.' !in f {
      ShortIs(f, f);
    }
  }

  /** Where all hosts are recorded under dotted names, no node is protected at all. */
  lemma DottedNamesProtectNothing(classes: seq<ClassRow>, hosts: seq<HostRow>, hostnames: seq<Fqdn>, now: Time)
    requires forall h :: h in hosts && h.nodeName.Some? ==> '.' in h.nodeName.value
    ensures ProtectedNodes(classes, hosts, hostnames, now) == {}
  {
    forall f ensures f !in ProtectedNodes(classes, hosts, hostnames, now) {
      ShortHasNoDot(f);
    }
  }

  /** A worker whose only host, of a class protected for another minute, is recorded by the full hostname: the worker goes. */
  lemma FullNameCounterexample() returns (classes: seq<ClassRow>, hosts: seq<HostRow>, nodes: seq<NodeView>, r: Rules)
    ensures classes == [ClassRow(1, 31 * MINUTE, 60 * MINUTE, 20)] && r.now == 30 * MINUTE && GoodTiers(r.cfg)
    ensures hosts == [HostRow(false, false, Some("starting"), Some("swarm2.jtl.org"), Some(1))]
    ensures Fqdns(nodes) == ["swarm1.jtl.org", "swarm2.jtl.org"] && r.protected == ProtectedNodes(classes, hosts, Fqdns(nodes), r.now)
    ensures BuildPlan(nodes, 0, r).removeNodes == ["swarm2.jtl.org"]
  {
    hide BuildPlan, ProtectedNodes;
    ShortIs("swarm1.jtl.org", "swarm1");
    ShortIs("swarm2.jtl.org", "swarm2");
    classes, hosts, nodes, r := RemovedDespiteHost("swarm1.jtl.org", "swarm2.jtl.org", "swarm2.jtl.org");
  }

  // ---- Forced runs ----

  /** A forced run treats every node known to be empty, and no other, as cooled down. */
  lemma ForcedCoolsAll(es: Sidecar, cfg: Config, now: Time, f: Fqdn)
    ensures f in Forced(es, cfg, now) <==> f in es
    ensures f in es ==> now - Forced(es, cfg, now)[f] >= cfg.cooldownMin * 60_000_000 && Forced(es, cfg, now)[f] <= es[f]
  {
  }

  lemma {:induction false} ForcedSelection(cands: seq<NodeView>, room: int, excess: int, workers: int, r: Rules)
    requires forall f :: f in r.emptySince ==> r.emptySince[f] <= r.now
    ensures Select(cands, room, excess, workers, r.(emptySince := Forced(r.emptySince, r.cfg, r.now)))
         == Select(cands, room, excess, workers, r.(cfg := r.cfg.(cooldownMin := 0)))
  {
    if cands != [] && room > 0 {
      var n := cands[0];
      ForcedSelection(cands[1..], room - 1, excess - n.capacity, workers - 1, r);
      ForcedSelection(cands[1..], room, excess, workers, r);
    }
  }

  /** A forced run selects what a cooldown of zero would. */
  lemma ForcedIsNoCooldown(nodes: seq<NodeView>, r: Rules)
    requires forall f :: f in r.emptySince ==> r.emptySince[f] <= r.now
    ensures ScaleDown(nodes, r.(emptySince := Forced(r.emptySince, r.cfg, r.now)))
         == ScaleDown(nodes, r.(cfg := r.cfg.(cooldownMin := 0)))
  {
    ForcedSelection(Candidates(nodes), r.cfg.maxRemove, ExcessCapacity(nodes), Workers(nodes), r);
  }

  /** On a clock that never runs backwards the remembered times are never in the future. */
  lemma RememberedTimesArePast(trace: seq<Observation>, obs: Observation, now: Time, f: Fqdn)
    requires Monotone(Seen(trace, obs)) && obs.now <= now
    requires f in Updated(SidecarAfter(trace), obs)
    ensures Updated(SidecarAfter(trace), obs)[f] <= now
  {
    CurrentSince(trace, obs, f);
    var cs := Seen(trace, obs);
    assert cs[RunStart(cs, f)].now <= cs[|cs| - 1].now;
  }
}
