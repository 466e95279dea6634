/** What a scale-up plan achieves, against every other way of adding nodes, and over successive cycles. */
module ScaleUpTheory {
  import opened Common
  import opened Autoscale

  // ---- Rival plans: any list of node capacities ----

  ghost function CapacitySum(p: seq<int>): int {
    if p == [] then 0 else p[0] + CapacitySum(p[1..])
  }

  ghost predicate NodesUpTo(p: seq<int>, large: int) {
    forall i :: 0 <= i < |p| ==> p[i] <= large
  }

  lemma {:induction false} SumBound(p: seq<int>, large: int)
    requires NodesUpTo(p, large)
    ensures CapacitySum(p) <= large * |p|
  {
    if p != [] {
      SumBound(p[1..], large);
      Distribute(large, |p| - 1, 1);
    }
  }

  lemma Distribute(c: int, a: int, b: int)
    ensures c * (a + b) == c * a + c * b
  {
  }

  lemma MulMono(c: int, a: int, b: int)
    requires c >= 0 && a <= b
    ensures c * a <= c * b
  {
  }

  /** The number of nodes is the least that large nodes could do it with. */
  lemma NodeCount(deficit: int, large: int)
    requires deficit > 0 && large > 0
    ensures large * (CeilDiv(deficit, large) - 1) < deficit <= large * CeilDiv(deficit, large)
  {
    CeilDivByParts(deficit, large);
    var q := deficit / large;
    Distribute(large, q, 1);
    Distribute(large, q - 1, 1);
  }

  lemma NodeCountIs(deficit: nat, large: int, n: nat)
    requires large > 0 && large * (n - 1) < deficit <= large * n
    ensures CeilDiv(deficit, large) == n
  {
    Distribute(large, n - 1, 1);
    QuotientIs(deficit + large - 1, large, n, deficit - 1 - large * (n - 1));
  }

  lemma NoNodes(large: int)
    requires large > 0
    ensures CeilDiv(0, large) == 0
  {
    NodeCountIs(0, large, 0);
  }

  /**
   A plan that the per-cycle maximum lets through covers the deficit, and no list of nodes, of
   whatever tiers, covers it with fewer.
   */
  lemma FewestNodes(deficit: int, large: int, small: int, maxAdd: int)
    requires deficit > 0 && 0 < small <= large && CeilDiv(deficit, large) <= maxAdd
    ensures var adds := ScaleUp(deficit, large, small, maxAdd);
      && adds.Capacity(large, small) >= deficit
      && adds.Count() == CeilDiv(deficit, large)
      && forall p: seq<int> :: NodesUpTo(p, large) && CapacitySum(p) >= deficit ==> |p| >= adds.Count()
  {
    CeilDivByParts(deficit, large);
    NodeCount(deficit, large);
    var n := CeilDiv(deficit, large);
    forall p: seq<int> | NodesUpTo(p, large) && CapacitySum(p) >= deficit ensures |p| >= n {
      SumBound(p, large);
      if |p| <= n - 1 {
        MulMono(large, |p|, n - 1);
      }
    }
  }

  /** At most one node is small, and one is exactly when the last node may be small and a large one would leave room. */
  lemma SmallIffItFits(deficit: int, large: int, small: int, maxAdd: int)
    requires deficit > 0 && 0 < small <= large && CeilDiv(deficit, large) <= maxAdd
    ensures var adds, n := ScaleUp(deficit, large, small, maxAdd), CeilDiv(deficit, large);
      && adds.large + adds.small == n && adds.small <= 1
      && (adds.small == 1 <==> deficit < large * n && deficit <= large * (n - 1) + small)
  {
    CeilDivByParts(deficit, large);
    var q := deficit / large;
    Distribute(large, q, 1);
    Distribute(large, q - 1, 1);
  }

  ghost predicate OfTiers(p: seq<int>, cfg: Config) {
    forall i :: 0 <= i < |p| ==> IsTier(cfg, p[i])
  }

  /** The plan adds no more capacity than any list of as many nodes, of configured tiers, that covers the deficit. */
  ghost predicate LeastCapacity(cfg: Config, deficit: int, maxAdd: int)
    requires GoodTiers(cfg)
  {
    var large, small := LargestCapacity(cfg), SmallestCapacity(cfg);
    var adds := ScaleUp(deficit, large, small, maxAdd);
    forall p: seq<int> | OfTiers(p, cfg) && |p| == adds.Count() && CapacitySum(p) >= deficit ::
      adds.Capacity(large, small) <= CapacitySum(p)
  }

  /** Every tier is as large as the largest or as small as the smallest. */
  ghost predicate OnlyExtremes(cfg: Config)
    requires GoodTiers(cfg)
  {
    forall c :: IsTier(cfg, c) ==> c == LargestCapacity(cfg) || c == SmallestCapacity(cfg)
  }

  lemma SmallIsHalf(deficit: int, large: int, small: int, n: nat, l: nat, s: nat)
    requires 0 < 2 * small <= large && large * (n - 1) < deficit
    requires l + s == n && large * l + small * s >= deficit
    ensures s <= 1
  {
    // Two small nodes together hold no more than one large node, so with s >= 2, n - 1 large ones would do.
    var gap := large - small;
    Distribute(large, l, s);
    Distribute(large, n - 1, 1);
    assert large * s == small * s + gap * s;
    assert gap * s < large;
    if s >= 2 {
      MulMono(gap, 2, s);
      assert false;
    }
  }

  lemma HalfGivesLeast(deficit: int, large: int, small: int, maxAdd: int, l: nat, s: nat)
    requires deficit > 0 && 0 < small <= large && CeilDiv(deficit, large) <= maxAdd
    requires 2 * small <= large || small == large
    requires l + s == CeilDiv(deficit, large) && large * l + small * s >= deficit
    ensures ScaleUp(deficit, large, small, maxAdd).Capacity(large, small) <= large * l + small * s
  {
    var n := CeilDiv(deficit, large);
    NodeCount(deficit, large);
    if small == large {
      Distribute(large, l, s);
      SameTier(deficit, large, maxAdd);
    } else {
      SmallIsHalf(deficit, large, small, n, l, s);
      assert large * n == large * (n - 1) + large by { Distribute(large, n - 1, 1); }
      if s == 1 {
        OneSmallDoes(deficit, large, small, l);
      } else {
        assert small * s == 0;
        NoMoreThanLarge(deficit, large, small, maxAdd);
      }
    }
  }

  lemma NoMoreThanLarge(deficit: int, large: int, small: int, maxAdd: int)
    requires deficit > 0 && 0 < small <= large && CeilDiv(deficit, large) <= maxAdd
    ensures ScaleUp(deficit, large, small, maxAdd).Capacity(large, small) <= large * CeilDiv(deficit, large)
  {
    CeilDivByParts(deficit, large);
    Distribute(large, deficit / large, 1);
  }

  lemma SameTier(deficit: int, large: int, maxAdd: int)
    requires deficit > 0 && 0 < large && CeilDiv(deficit, large) <= maxAdd
    ensures ScaleUp(deficit, large, large, maxAdd).Capacity(large, large) == large * CeilDiv(deficit, large)
  {
    CeilDivByParts(deficit, large);
    Distribute(large, deficit / large, 1);
  }

  lemma OneSmallDoes(deficit: int, large: int, small: int, l: nat)
    requires deficit > 0 && 0 < small < large && l + 1 == CeilDiv(deficit, large)
    requires large * l + small >= deficit
    ensures 0 < deficit % large <= small && deficit / large == l
  {
    NodeCount(deficit, large);
    QuotientIs(deficit, large, l, deficit - large * l);
    assert deficit == (deficit / large) * large + deficit % large;
  }

  /** A list of extreme tiers is a number of large and a number of small nodes. */
  lemma {:induction false} Mixed(p: seq<int>, large: int, small: int) returns (l: nat, s: nat)
    requires forall i :: 0 <= i < |p| ==> p[i] == large || p[i] == small
    ensures l + s == |p| && CapacitySum(p) == large * l + small * s
  {
    if p == [] {
      l, s := 0, 0;
    } else {
      l, s := Mixed(p[1..], large, small);
      Distribute(large, l, 1);
      Distribute(small, s, 1);
      if p[0] == large { l := l + 1; } else { s := s + 1; }
    }
  }

  /**
   Every unclamped plan adds the least capacity exactly when there are no tiers between the largest
   and the smallest, and the smallest is at most half the largest or the same size.
   */
  lemma LeastCapacityExactly(cfg: Config)
    requires GoodTiers(cfg)
    ensures (forall deficit, maxAdd | deficit > 0 && CeilDiv(deficit, LargestCapacity(cfg)) <= maxAdd :: LeastCapacity(cfg, deficit, maxAdd))
       <==> (OnlyExtremes(cfg) && (2 * SmallestCapacity(cfg) <= LargestCapacity(cfg) || SmallestCapacity(cfg) == LargestCapacity(cfg)))
  {
    hide LargestCapacity, SmallestCapacity;
    var large, small := LargestCapacity(cfg), SmallestCapacity(cfg);
    if !OnlyExtremes(cfg) {
      var c :| IsTier(cfg, c) && c != large && c != small;
      MiddleTierBeats(cfg, c);
    } else if 2 * small <= large || small == large {
      forall deficit, maxAdd | deficit > 0 && CeilDiv(deficit, large) <= maxAdd ensures LeastCapacity(cfg, deficit, maxAdd) {
        ExtremesGiveLeast(cfg, deficit, maxAdd);
      }
    } else {
      TwoSmallBeat(cfg);
    }
  }

  lemma ExtremesGiveLeast(cfg: Config, deficit: int, maxAdd: int)
    requires GoodTiers(cfg) && OnlyExtremes(cfg) && deficit > 0 && CeilDiv(deficit, LargestCapacity(cfg)) <= maxAdd
    requires 2 * SmallestCapacity(cfg) <= LargestCapacity(cfg) || SmallestCapacity(cfg) == LargestCapacity(cfg)
    ensures LeastCapacity(cfg, deficit, maxAdd)
  {
    hide LargestCapacity, SmallestCapacity;
    var large, small := LargestCapacity(cfg), SmallestCapacity(cfg);
    FewestNodes(deficit, large, small, maxAdd);
    forall p: seq<int> | OfTiers(p, cfg) && |p| == CeilDiv(deficit, large) && CapacitySum(p) >= deficit
      ensures ScaleUp(deficit, large, small, maxAdd).Capacity(large, small) <= CapacitySum(p)
    {
      var l, s := Mixed(p, large, small);
      HalfGivesLeast(deficit, large, small, maxAdd, l, s);
    }
  }

  /** A tier between the extremes suits a deficit of its own capacity, and the plan takes a large node. */
  lemma MiddleTierBeats(cfg: Config, c: int)
    requires GoodTiers(cfg) && IsTier(cfg, c) && SmallestCapacity(cfg) != c && c != LargestCapacity(cfg)
    ensures 0 < c && CeilDiv(c, LargestCapacity(cfg)) == 1 && !LeastCapacity(cfg, c, 1)
  {
    hide LargestCapacity, SmallestCapacity;
    var large, small := LargestCapacity(cfg), SmallestCapacity(cfg);
    assert small < c < large;
    NodeCountIs(c, large, 1);
    QuotientIs(c, large, 0, c);
    assert ScaleUp(c, large, small, 1) == Adds(1, 0);
    assert OfTiers([c], cfg) && CapacitySum([c]) == c;
  }

  /** Two small nodes of more than half a large one suit a deficit of twice theirs, and the plan takes a large and a small one. */
  lemma TwoSmallBeat(cfg: Config)
    requires GoodTiers(cfg) && SmallestCapacity(cfg) < LargestCapacity(cfg) < 2 * SmallestCapacity(cfg)
    ensures CeilDiv(2 * SmallestCapacity(cfg), LargestCapacity(cfg)) == 2 && !LeastCapacity(cfg, 2 * SmallestCapacity(cfg), 2)
  {
    hide LargestCapacity, SmallestCapacity;
    var large, small := LargestCapacity(cfg), SmallestCapacity(cfg);
    QuotientIs(2 * small, large, 1, 2 * small - large);
    CeilDivByParts(2 * small, large);
    assert ScaleUp(2 * small, large, small, 2) == Adds(1, 1);
    var p := [small, small];
    assert p[1..] == [small] && CapacitySum([small]) == small;
    assert OfTiers(p, cfg) && CapacitySum(p) == 2 * small;
  }

  /** Tiers of 6, 10 and 14 and a deficit of 10: the plan is one node of 14 where one of 10 would do. */
  lemma MiddleTierCounterexample() returns (cfg: Config)
    ensures cfg.tiers == [Tier("small", 6), Tier("medium", 10), Tier("large", 14)] && GoodTiers(cfg)
    ensures LargestCapacity(cfg) == 14 && SmallestCapacity(cfg) == 6
    ensures ScaleUp(10, 14, 6, 2) == Adds(1, 0) && OfTiers([10], cfg) && !LeastCapacity(cfg, 10, 2)
  {
    hide LargestCapacity, SmallestCapacity;
    var a, b, c := Tier("small", 6), Tier("medium", 10), Tier("large", 14);
    cfg := Config(2, 2, 1, 30, 1, [a, b, c]);
    assert a in cfg.tiers && b in cfg.tiers && c in cfg.tiers;
    assert IsTier(cfg, 10);
    assert CapacitySum([10]) == 10;
  }

  /** No plan of at most `maxAdd` nodes covers more of the deficit than the planned one. */
  lemma ClampedIsBest(deficit: int, large: int, small: int, maxAdd: int, p: seq<int>)
    requires deficit > 0 && 0 < small <= large && maxAdd >= 0
    requires NodesUpTo(p, large) && |p| <= maxAdd
    ensures var adds := ScaleUp(deficit, large, small, maxAdd);
      && adds.Count() <= maxAdd
      && Min(deficit, CapacitySum(p)) <= Min(deficit, adds.Capacity(large, small))
  {
    if CeilDiv(deficit, large) <= maxAdd {
      FewestNodes(deficit, large, small, maxAdd);
    } else {
      SumBound(p, large);
      MulMono(large, |p|, maxAdd);
    }
  }

  // ---- Successive cycles ----

  /** A completed scale-up cycle: the cluster gains the planned nodes; loads may change freely. */
  ghost predicate Grows(before: seq<NodeView>, after: seq<NodeView>, adds: Adds, large: int, small: int) {
    && |after| == |before| + adds.Count()
    && (forall i :: 0 <= i < |before| ==>
          after[i].capacity == before[i].capacity && after[i].isManager == before[i].isManager)
    && (forall i :: |before| <= i < |after| ==>
          !after[i].isManager && after[i].capacity == if i < |before| + adds.large then large else small)
  }

  lemma {:induction false} CapacityAppend(a: seq<NodeView>, b: seq<NodeView>)
    ensures TotalCapacity(a + b) == TotalCapacity(a) + TotalCapacity(b)
  {
    if a == [] {
      assert a + b == b;
    } else {
      assert (a + b)[1..] == a[1..] + b;
      CapacityAppend(a[1..], b);
    }
  }

  lemma {:induction false} SameCapacity(a: seq<NodeView>, b: seq<NodeView>)
    requires |a| == |b|
    requires forall i :: 0 <= i < |a| ==> a[i].capacity == b[i].capacity && a[i].isManager == b[i].isManager
    ensures TotalCapacity(a) == TotalCapacity(b)
  {
    if a != [] {
      SameCapacity(a[1..], b[1..]);
    }
  }

  lemma {:induction false} UniformCapacity(a: seq<NodeView>, c: int)
    requires forall i :: 0 <= i < |a| ==> !a[i].isManager && a[i].capacity == c
    ensures TotalCapacity(a) == c * |a|
  {
    if a != [] {
      UniformCapacity(a[1..], c);
      Distribute(c, |a| - 1, 1);
    }
  }

  lemma GrowthAddsCapacity(before: seq<NodeView>, after: seq<NodeView>, adds: Adds, large: int, small: int)
    requires Grows(before, after, adds, large, small)
    ensures TotalCapacity(after) == TotalCapacity(before) + adds.Capacity(large, small)
  {
    var n := |before|;
    var kept, added := after[..n], after[n..];
    var larges, smalls := added[..adds.large], added[adds.large..];
    assert after == kept + added && added == larges + smalls;
    CapacityAppend(kept, added);
    CapacityAppend(larges, smalls);
    assert TotalCapacity(kept) == TotalCapacity(before) by { SameCapacity(kept, before); }
    assert TotalCapacity(larges) == large * adds.large by { UniformCapacity(larges, large); }
    assert TotalCapacity(smalls) == small * adds.small by { UniformCapacity(smalls, small); }
  }

  /** Every cycle plans for the state it finds and all its adds succeed. */
  ghost predicate ScaleUpRun(states: seq<seq<NodeView>>, rules: seq<Rules>, cfg: Config, demand: int)
    requires GoodTiers(cfg)
  {
    && |states| == |rules| + 1
    && (forall i :: 0 <= i < |rules| ==> rules[i].cfg == cfg)
    && (forall i :: 0 <= i < |rules| ==>
          Grows(states[i], states[i + 1], BuildPlan(states[i], demand, rules[i]).adds, LargestCapacity(cfg), SmallestCapacity(cfg)))
  }

  /** The nodes still missing after one cycle. */
  lemma OneCycle(deficit: int, large: int, small: int, maxAdd: int)
    requires deficit > 0 && 0 < small <= large && maxAdd >= 1
    ensures var adds := ScaleUp(deficit, large, small, maxAdd);
      var left := Max(0, deficit - adds.Capacity(large, small));
      var n := CeilDiv(deficit, large);
      && adds.Count() == Min(n, maxAdd)
      && CeilDiv(left, large) == Max(0, n - maxAdd)
      && (left == 0 <==> n <= maxAdd)
  {
    hide CeilDiv;
    var n := CeilDiv(deficit, large);
    if n <= maxAdd {
      FewestNodes(deficit, large, small, maxAdd);
      NoNodes(large);
    } else {
      Shortfall(deficit, large, maxAdd, n);
      assert small * 0 == 0;
    }
  }

  lemma Shortfall(deficit: int, large: int, m: nat, n: nat)
    requires deficit > 0 && large > 0 && m < n == CeilDiv(deficit, large)
    ensures deficit - large * m > 0 && CeilDiv(deficit - large * m, large) == n - m
  {
    hide CeilDiv;
    NodeCount(deficit, large);
    MulMono(large, m, n - 1);
    Distribute(large, n - m, m);
    Distribute(large, n - 1 - m, m);
    NodeCountIs(deficit - large * m, large, n - m);
  }

  lemma CyclesLeft(n: nat, m: nat)
    requires m > 0 && n > 0
    ensures CeilDiv(n, m) == CeilDiv(Max(0, n - m), m) + 1
  {
    hide CeilDiv;
    if n <= m {
      NodeCountIs(n, m, 1);
      NoNodes(m);
    } else {
      Shortfall(n, m, 1, CeilDiv(n, m)) by { NodeCount(n, m); MoreThanOne(n, m); }
    }
  }

  lemma MoreThanOne(n: nat, m: nat)
    requires 0 < m < n
    ensures CeilDiv(n, m) > 1
  {
    NodeCount(n, m);
    if CeilDiv(n, m) <= 1 {
      MulMono(m, CeilDiv(n, m), 1);
    }
  }

  lemma DeficitAfter(before: seq<NodeView>, after: seq<NodeView>, adds: Adds, large: int, small: int, demand: int)
    requires Grows(before, after, adds, large, small) && Deficit(before, demand) > 0
    ensures Deficit(after, demand) == Max(0, Deficit(before, demand) - adds.Capacity(large, small))
  {
    hide Adds.Capacity, Grows;
    GrowthAddsCapacity(before, after, adds, large, small);
  }

  /** One completed cycle, in terms of the state: the count of nodes still needed falls by the maximum. */
  lemma CycleProgress(before: seq<NodeView>, after: seq<NodeView>, large: int, small: int, maxAdd: int, demand: int)
    requires maxAdd >= 1 && Deficit(before, demand) > 0 && 0 < small <= large
    requires Grows(before, after, ScaleUp(Deficit(before, demand), large, small, maxAdd), large, small)
    ensures var n := CeilDiv(Deficit(before, demand), large);
      && |after| == |before| + Min(n, maxAdd)
      && CeilDiv(Deficit(after, demand), large) == Max(0, n - maxAdd)
  {
    hide CeilDiv, ScaleUp, Adds.Capacity, Deficit;
    var d := Deficit(before, demand);
    OneCycle(d, large, small, maxAdd);
    DeficitAfter(before, after, ScaleUp(d, large, small, maxAdd), large, small, demand);
  }

  lemma PlannedAdds(nodes: seq<NodeView>, demand: int, r: Rules)
    requires GoodTiers(r.cfg) && Deficit(nodes, demand) > 0
    ensures BuildPlan(nodes, demand, r).adds
         == ScaleUp(Deficit(nodes, demand), LargestCapacity(r.cfg), SmallestCapacity(r.cfg), r.cfg.maxAdd)
  {
  }

  lemma NoneNeeded(d: nat, large: int)
    requires large > 0 && CeilDiv(d, large) == 0
    ensures d == 0
  {
    if d > 0 { NodeCount(d, large); }
  }

  /**
   From a deficit of d, with L the largest capacity and m the per-cycle maximum, the deficit is gone
   after exactly ceil(ceil(d / L) / m) cycles, not earlier, and ceil(d / L) nodes have been added.
   */
  lemma {:induction false} ScaleUpConverges(states: seq<seq<NodeView>>, rules: seq<Rules>, cfg: Config, demand: int)
    requires GoodTiers(cfg) && cfg.maxAdd >= 1
    requires ScaleUpRun(states, rules, cfg, demand)
    requires |rules| == CeilDiv(CeilDiv(Deficit(states[0], demand), LargestCapacity(cfg)), cfg.maxAdd)
    ensures forall i :: 0 <= i < |rules| ==> Deficit(states[i], demand) > 0
    ensures Deficit(states[|rules|], demand) == 0
    ensures |states[|rules|]| == |states[0]| + CeilDiv(Deficit(states[0], demand), LargestCapacity(cfg))
    decreases |rules|
  {
    hide CeilDiv, SmallestCapacity, LargestCapacity, BuildPlan, ScaleUp, Grows, Deficit;
    var large := LargestCapacity(cfg);
    var n := CeilDiv(Deficit(states[0], demand), large);
    if n == 0 {
      NoneNeeded(Deficit(states[0], demand), large);
      NoNodes(cfg.maxAdd);
    } else {
      CyclesLeft(n, cfg.maxAdd);
      if Deficit(states[0], demand) == 0 { NoNodes(large); }
      PlannedAdds(states[0], demand, rules[0]);
      CycleProgress(states[0], states[1], large, SmallestCapacity(cfg), cfg.maxAdd, demand);
      ScaleUpConverges(states[1..], rules[1..], cfg, demand);
      forall i | 0 <= i < |rules| ensures Deficit(states[i], demand) > 0 {
        if i > 0 { assert states[i] == states[1..][i - 1]; }
      }
    }
  }
}
