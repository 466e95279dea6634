/**
 The rebalance planner: a two-phase greedy that first empties every node that may not
 receive hosts and then levels the nodes that may.

 `Plan` is the whole (uncapped) plan as a function of the placement and of the way ties are
 broken; `PlanRebalance` is the planner's loop, proved to return a prefix of it.
 */
module Rebalance {
  import opened Common
  import opened Sums

  type Node = string
  type Host = string
  type Members = map<Node, seq<Host>>

  datatype Move = Move(host: Host, src: Node, tgt: Node)

  function Load(m: Members, n: Node): nat {
    if n in m then |m[n]| else 0
  }

  /**
   How the planner's free choices fall: the order in which the dictionary lists its nodes, and
   which of several equally loaded eligible nodes `min` and `max` pick. The last two may depend
   on the whole placement.
   */
  datatype TieBreak = TieBreak(order: seq<Node>, least: Members -> Node, most: Members -> Node)

  ghost predicate IsLeast(m: Members, elig: set<Node>, n: Node) {
    n in elig && forall e :: e in elig ==> Load(m, n) <= Load(m, e)
  }

  ghost predicate IsMost(m: Members, elig: set<Node>, n: Node) {
    n in elig && forall e :: e in elig ==> Load(m, e) <= Load(m, n)
  }

  ghost predicate Breaks(tb: TieBreak, nodes: set<Node>, elig: set<Node>) {
    && (forall n :: n in tb.order <==> n in nodes)
    && (forall m: Members {:trigger tb.least(m)} :: IsLeast(m, elig, tb.least(m)))
    && (forall m: Members {:trigger tb.most(m)} :: IsMost(m, elig, tb.most(m)))
  }

  /** A placement the planner works on: every eligible node has an entry. */
  ghost predicate Ready(m: Members, elig: set<Node>, tb: TieBreak) {
    elig != {} && elig <= m.Keys && Breaks(tb, m.Keys, elig)
  }

  function Names(nodes: seq<Node>): (r: set<Node>)
    ensures nodes != [] ==> nodes[0] in r
    ensures forall n :: n in r <==> n in nodes
  {
    set n | n in nodes
  }

  /** Python's `min` and `max` over a set: the first extreme node in the set's iteration order. */
  function FirstLeast(targets: seq<Node>, m: Members): (r: Node)
    requires targets != []
    ensures IsLeast(m, Names(targets), r)
  {
    var last := |targets| - 1;
    if last == 0 then targets[0] else
      var r := FirstLeast(targets[..last], m);
      assert forall n :: n in Names(targets) ==> n in Names(targets[..last]) || n == targets[last];
      if Load(m, targets[last]) < Load(m, r) then targets[last] else r
  }

  function FirstMost(targets: seq<Node>, m: Members): (r: Node)
    requires targets != []
    ensures IsMost(m, Names(targets), r)
  {
    var last := |targets| - 1;
    if last == 0 then targets[0] else
      var r := FirstMost(targets[..last], m);
      assert forall n :: n in Names(targets) ==> n in Names(targets[..last]) || n == targets[last];
      if Load(m, targets[last]) > Load(m, r) then targets[last] else r
  }

  /** Whatever orders Python iterates the dictionary and the set in, the choices are covered. */
  lemma PythonOrderBreaksTies(order: seq<Node>, targets: seq<Node>)
    requires targets != []
    ensures Breaks(TieBreak(order, m => FirstLeast(targets, m), m => FirstMost(targets, m)), Names(order), Names(targets))
  {
  }

  // ---- Moves ----

  function RemoveHost(s: seq<Host>, h: Host): (r: seq<Host>)
    requires h in s
    ensures |r| == |s| - 1
  {
    var last := |s| - 1;
    if s[last] == h then s[..last] else
      assert s == s[..last] + [s[last]];
      RemoveHost(s[..last], h) + [s[last]]
  }

  lemma {:induction false} RemoveHostTakesOne(s: seq<Host>, h: Host)
    requires h in s
    ensures multiset(s) == multiset(RemoveHost(s, h)) + multiset{h}
  {
    var last := |s| - 1;
    assert s == s[..last] + [s[last]];
    if s[last] != h {
      RemoveHostTakesOne(s[..last], h);
    }
  }

  /** A move that can be carried out: the host is on the source, and the target is another node. */
  predicate Legal(m: Members, mv: Move) {
    mv.src in m && mv.tgt in m && mv.src != mv.tgt && mv.host in m[mv.src]
  }

  function ApplyMove(m: Members, mv: Move): (r: Members)
    requires Legal(m, mv)
    ensures r.Keys == m.Keys
  {
    var without := m[mv.src := RemoveHost(m[mv.src], mv.host)];
    without[mv.tgt := without[mv.tgt] + [mv.host]]
  }

  predicate LegalRun(m: Members, moves: seq<Move>) {
    moves == [] || (Legal(m, moves[0]) && LegalRun(ApplyMove(m, moves[0]), moves[1..]))
  }

  function Replay(m: Members, moves: seq<Move>): (r: Members)
    requires LegalRun(m, moves)
    ensures r.Keys == m.Keys
  {
    if moves == [] then m else Replay(ApplyMove(m, moves[0]), moves[1..])
  }

  // ---- The greedy choice ----

  function FirstStray(order: seq<Node>, m: Members, elig: set<Node>): (r: Option<Node>)
    ensures r.None? <==> forall n :: n in order && n in m ==> n in elig || m[n] == []
    ensures r.Some? ==> r.value in order && r.value in m && r.value !in elig && m[r.value] != []
  {
    if order == [] then None
    else if order[0] in m && order[0] !in elig && m[order[0]] != [] then Some(order[0])
    else FirstStray(order[1..], m, elig)
  }

  function MoveLast(m: Members, src: Node, tgt: Node): Move
    requires src in m && m[src] != []
  {
    Move(m[src][|m[src]| - 1], src, tgt)
  }

  function NextMove(m: Members, elig: set<Node>, tb: TieBreak): Option<Move>
    requires Ready(m, elig, tb)
  {
    match FirstStray(tb.order, m, elig)
    case Some(src) => Some(MoveLast(m, src, tb.least(m)))
    case None =>
      var src, tgt := tb.most(m), tb.least(m);
      if Load(m, src) - Load(m, tgt) <= 1 then None else Some(MoveLast(m, src, tgt))
  }

  /** The state the planner is after. */
  ghost predicate Balanced(m: Members, elig: set<Node>) {
    && (forall n :: n in m && n !in elig ==> m[n] == [])
    && (forall a, b :: a in elig && b in elig ==> Load(m, a) - Load(m, b) <= 1)
  }

  lemma NoMoveIsBalanced(m: Members, elig: set<Node>, tb: TieBreak)
    requires Ready(m, elig, tb)
    ensures NextMove(m, elig, tb).None? <==> Balanced(m, elig)
  {
    assert IsMost(m, elig, tb.most(m)) && IsLeast(m, elig, tb.least(m));
  }

  // ---- The distance to balance ----

  ghost function LoadOf(m: Members): Node -> int { n => Load(m, n) }

  ghost function OverOf(m: Members, q: int): Node -> int { n => Max(0, Load(m, n) - (q + 1)) }

  ghost function UnderOf(m: Members, q: int): Node -> int { n => Max(0, q - Load(m, n)) }

  ghost function Total(m: Members): int { Sum(m.Keys, LoadOf(m)) }

  /** Hosts on nodes that may not keep them. */
  ghost function Stray(m: Members, elig: set<Node>): int { Sum(m.Keys - elig, LoadOf(m)) }

  ghost function Quota(m: Members, elig: set<Node>): int
    requires elig != {}
  {
    Total(m) / |elig|
  }

  /** Hosts that have to leave: all strays, and what exceeds quota + 1 on an eligible node. */
  ghost function ToShed(m: Members, elig: set<Node>, q: int): int {
    Stray(m, elig) + Sum(elig, OverOf(m, q))
  }

  /** Hosts that have to arrive: what eligible nodes lack up to the quota. */
  ghost function ToFill(m: Members, elig: set<Node>, q: int): int {
    Sum(elig, UnderOf(m, q))
  }

  ghost function NeedAt(m: Members, elig: set<Node>, q: int): int {
    Max(ToShed(m, elig, q), ToFill(m, elig, q))
  }

  ghost function Need(m: Members, elig: set<Node>): int
    requires elig != {}
  {
    NeedAt(m, elig, Quota(m, elig))
  }

  lemma MoveLoads(m: Members, mv: Move)
    requires Legal(m, mv)
    ensures forall n :: Load(ApplyMove(m, mv), n)
                     == Load(m, n) - (if n == mv.src then 1 else 0) + (if n == mv.tgt then 1 else 0)
  {
  }

  lemma MoveKeepsTotal(m: Members, mv: Move)
    requires Legal(m, mv)
    ensures Total(ApplyMove(m, mv)) == Total(m)
  {
    MoveLoads(m, mv);
    SumShift(m.Keys, LoadOf(m), LoadOf(ApplyMove(m, mv)), mv.src, mv.tgt);
  }

  lemma MoveStray(m: Members, elig: set<Node>, mv: Move)
    requires Legal(m, mv) && elig <= m.Keys
    ensures Stray(ApplyMove(m, mv), elig)
         == Stray(m, elig) - (if mv.src in elig then 0 else 1) + (if mv.tgt in elig then 0 else 1)
  {
    MoveLoads(m, mv);
    SumShift(m.Keys - elig, LoadOf(m), LoadOf(ApplyMove(m, mv)), mv.src, mv.tgt);
  }

  lemma MoveOver(m: Members, elig: set<Node>, mv: Move, q: int)
    requires Legal(m, mv)
    ensures Sum(elig, OverOf(ApplyMove(m, mv), q)) == Sum(elig, OverOf(m, q))
           - (if mv.src in elig && Load(m, mv.src) > q + 1 then 1 else 0)
           + (if mv.tgt in elig && Load(m, mv.tgt) >= q + 1 then 1 else 0)
  {
    MoveLoads(m, mv);
    SumShift(elig, OverOf(m, q), OverOf(ApplyMove(m, mv), q), mv.src, mv.tgt);
  }

  lemma MoveFill(m: Members, elig: set<Node>, mv: Move, q: int)
    requires Legal(m, mv)
    ensures ToFill(ApplyMove(m, mv), elig, q) == ToFill(m, elig, q)
           + (if mv.src in elig && Load(m, mv.src) <= q then 1 else 0)
           - (if mv.tgt in elig && Load(m, mv.tgt) < q then 1 else 0)
  {
    MoveLoads(m, mv);
    SumShift(elig, UnderOf(m, q), UnderOf(ApplyMove(m, mv), q), mv.src, mv.tgt);
  }

  /** What any legal move does to the two distances, for any quota. */
  lemma MoveSums(m: Members, elig: set<Node>, mv: Move, q: int)
    requires Legal(m, mv) && elig <= m.Keys
    ensures var m' := ApplyMove(m, mv);
      && ToShed(m', elig, q) == ToShed(m, elig, q)
           - (if mv.src !in elig || Load(m, mv.src) > q + 1 then 1 else 0)
           + (if mv.tgt !in elig || Load(m, mv.tgt) >= q + 1 then 1 else 0)
      && ToFill(m', elig, q) == ToFill(m, elig, q)
           + (if mv.src in elig && Load(m, mv.src) <= q then 1 else 0)
           - (if mv.tgt in elig && Load(m, mv.tgt) < q then 1 else 0)
  {
    MoveStray(m, elig, mv);
    MoveOver(m, elig, mv, q);
    MoveFill(m, elig, mv, q);
  }

  /** No move of one host brings the placement more than one step closer. */
  lemma AnyMoveGainsAtMostOne(m: Members, elig: set<Node>, mv: Move)
    requires Legal(m, mv) && elig != {} && elig <= m.Keys
    ensures Need(ApplyMove(m, mv), elig) >= Need(m, elig) - 1
  {
    MoveKeepsTotal(m, mv);
    MoveSums(m, elig, mv, Quota(m, elig));
  }

  lemma QuotaBounds(total: int, n: int)
    requires n > 0
    ensures (total / n) * n <= total < (total / n + 1) * n
  {
  }

  /** The lightest eligible node is at or below quota, strictly within it while strays remain. */
  lemma LeastWithinQuota(m: Members, elig: set<Node>, n: Node)
    requires elig != {} && elig <= m.Keys && IsLeast(m, elig, n)
    ensures Load(m, n) <= Quota(m, elig)
  {
    var q := Quota(m, elig);
    SumSplit(m.Keys, elig, LoadOf(m));
    SumZero(m.Keys - elig, LoadOf(m));
    QuotaBounds(Total(m), |elig|);
    if Load(m, n) > q {
      SumAtLeast(elig, LoadOf(m), q + 1);
      assert false;
    }
  }

  /** Without strays the heaviest eligible node reaches the quota, and exceeds it unless all equal it. */
  lemma MostReachesQuota(m: Members, elig: set<Node>, n: Node)
    requires elig != {} && elig <= m.Keys && IsMost(m, elig, n) && Stray(m, elig) == 0
    ensures Load(m, n) >= Quota(m, elig)
    ensures Load(m, n) == Quota(m, elig) ==> forall e :: e in elig ==> Load(m, e) == Quota(m, elig)
  {
    var q := Quota(m, elig);
    SumSplit(m.Keys, elig, LoadOf(m));
    QuotaBounds(Total(m), |elig|);
    if e :| e in elig && Load(m, e) < q && Load(m, n) <= q {
      SumBelow(elig, LoadOf(m), q, e);
      assert false;
    }
  }

  ghost function SomeLeast(m: Members, elig: set<Node>): (r: Node)
    requires elig != {}
    ensures IsLeast(m, elig, r)
    decreases elig
  {
    var x :| x in elig;
    if elig == {x} then x else
      var y := SomeLeast(m, elig - {x});
      assert forall e :: e in elig ==> e == x || e in elig - {x};
      if Load(m, x) <= Load(m, y) then x else y
  }

  ghost function SomeMost(m: Members, elig: set<Node>): (r: Node)
    requires elig != {}
    ensures IsMost(m, elig, r)
    decreases elig
  {
    var x :| x in elig;
    if elig == {x} then x else
      var y := SomeMost(m, elig - {x});
      assert forall e :: e in elig ==> e == x || e in elig - {x};
      if Load(m, x) >= Load(m, y) then x else y
  }

  /** Nothing to fill when all loads reach the quota; something when one does not. */
  lemma FillSign(m: Members, elig: set<Node>, q: int)
    ensures ToFill(m, elig, q) >= 0
    ensures ToFill(m, elig, q) == 0 <==> forall e :: e in elig ==> Load(m, e) >= q
  {
    SumZero(elig, UnderOf(m, q));
  }

  /** Nothing to shed when there are no strays and no load is above quota + 1; otherwise something. */
  lemma ShedSign(m: Members, elig: set<Node>, q: int)
    ensures ToShed(m, elig, q) >= Stray(m, elig) >= 0
    ensures ToShed(m, elig, q) == 0
       <==> Stray(m, elig) == 0 && forall e :: e in elig ==> Load(m, e) <= q + 1
  {
    SumZero(m.Keys - elig, LoadOf(m));
    SumZero(elig, OverOf(m, q));
  }

  lemma StrayShows(m: Members, elig: set<Node>, src: Node)
    requires src in m && src !in elig && m[src] != []
    ensures Stray(m, elig) > 0
  {
    SumZero(m.Keys - elig, LoadOf(m));
    assert LoadOf(m)(src) > 0;
  }

  lemma NoNeedMeansBalanced(m: Members, elig: set<Node>)
    requires elig != {} && Need(m, elig) == 0
    ensures Balanced(m, elig)
  {
    ShedSign(m, elig, Quota(m, elig));
    FillSign(m, elig, Quota(m, elig));
    forall n | n in m && n !in elig ensures m[n] == [] {
      if m[n] != [] { StrayShows(m, elig, n); }
    }
  }

  lemma BalancedHasNoNeed(m: Members, elig: set<Node>)
    requires elig != {} && elig <= m.Keys && Balanced(m, elig)
    ensures Need(m, elig) == 0
  {
    hide ToShed, ToFill;
    SumZero(m.Keys - elig, LoadOf(m));
    var lo, hi := SomeLeast(m, elig), SomeMost(m, elig);
    LeastWithinQuota(m, elig, lo);
    MostReachesQuota(m, elig, hi);
    ShedSign(m, elig, Quota(m, elig));
    FillSign(m, elig, Quota(m, elig));
  }

  /** Nothing is missing and nothing is in excess exactly in a balanced placement. */
  lemma NeedZeroIsBalanced(m: Members, elig: set<Node>)
    requires elig != {} && elig <= m.Keys
    ensures Need(m, elig) >= 0
    ensures Need(m, elig) == 0 <==> Balanced(m, elig)
  {
    FillSign(m, elig, Quota(m, elig));
    if Need(m, elig) == 0 {
      NoNeedMeansBalanced(m, elig);
    }
    if Balanced(m, elig) {
      BalancedHasNoNeed(m, elig);
    }
  }

  lemma EvacuationGainsOne(m: Members, elig: set<Node>, mv: Move, q: int)
    requires Legal(m, mv) && elig <= m.Keys
    requires mv.src !in elig && IsLeast(m, elig, mv.tgt) && Load(m, mv.tgt) <= q
    ensures NeedAt(ApplyMove(m, mv), elig, q) == NeedAt(m, elig, q) - 1
  {
    hide ToShed, ToFill, ApplyMove;
    MoveSums(m, elig, mv, q);
    StrayShows(m, elig, mv.src);
    ShedSign(m, elig, q);
    FillSign(m, elig, q);
  }

  lemma LevellingGainsOne(m: Members, elig: set<Node>, mv: Move, q: int)
    requires Legal(m, mv) && elig <= m.Keys && Stray(m, elig) == 0
    requires IsMost(m, elig, mv.src) && IsLeast(m, elig, mv.tgt)
    requires Load(m, mv.tgt) <= q < Load(m, mv.src) && Load(m, mv.src) - Load(m, mv.tgt) >= 2
    ensures NeedAt(ApplyMove(m, mv), elig, q) == NeedAt(m, elig, q) - 1
  {
    hide ToShed, ToFill, ApplyMove;
    MoveSums(m, elig, mv, q);
    ShedSign(m, elig, q);
    FillSign(m, elig, q);
  }

  /** Every greedy move can be carried out and brings the placement exactly one step closer. */
  lemma GreedyMoveGainsOne(m: Members, elig: set<Node>, tb: TieBreak)
    requires Ready(m, elig, tb) && NextMove(m, elig, tb).Some?
    ensures var mv := NextMove(m, elig, tb).value;
      && Legal(m, mv)
      && Ready(ApplyMove(m, mv), elig, tb)
      && Need(ApplyMove(m, mv), elig) == Need(m, elig) - 1
  {
    var mv := NextMove(m, elig, tb).value;
    assert IsLeast(m, elig, tb.least(m)) && IsMost(m, elig, tb.most(m));
    var q := Quota(m, elig);
    MoveKeepsTotal(m, mv);
    LeastWithinQuota(m, elig, mv.tgt);
    if mv.src in elig {
      assert Stray(m, elig) == 0 by {
        SumZero(m.Keys - elig, LoadOf(m));
      }
      MostReachesQuota(m, elig, mv.src);
      LevellingGainsOne(m, elig, mv, q);
    } else {
      EvacuationGainsOne(m, elig, mv, q);
    }
  }

  ghost function SquareOf(m: Members): Node -> int { n => Load(m, n) * Load(m, n) }

  /** A levelling move strictly lowers the sum of squared loads. */
  lemma LevellingLowersSquares(m: Members, elig: set<Node>, tb: TieBreak)
    requires Ready(m, elig, tb) && NextMove(m, elig, tb).Some? && NextMove(m, elig, tb).value.src in elig
    ensures var m' := ApplyMove(m, NextMove(m, elig, tb).value); Sum(elig, SquareOf(m')) < Sum(elig, SquareOf(m))
  {
    var mv := NextMove(m, elig, tb).value;
    assert IsLeast(m, elig, tb.least(m)) && IsMost(m, elig, tb.most(m));
    MoveLoads(m, mv);
    SquaresFall(m, ApplyMove(m, mv), elig, mv.src, mv.tgt);
  }

  lemma SquaresFall(m: Members, m': Members, elig: set<Node>, src: Node, tgt: Node)
    requires src in elig && tgt in elig && Load(m, src) - Load(m, tgt) >= 2
    requires forall n :: Load(m', n) == Load(m, n) - (if n == src then 1 else 0) + (if n == tgt then 1 else 0)
    ensures Sum(elig, SquareOf(m')) < Sum(elig, SquareOf(m))
  {
    hide Load;
    SumShift(elig, SquareOf(m), SquareOf(m'), src, tgt);
    TransferLowersSquares(Load(m, src), Load(m, tgt));
  }

  lemma TransferLowersSquares(a: int, b: int)
    requires a - b >= 2
    ensures (a - 1) * (a - 1) + (b + 1) * (b + 1) < a * a + b * b
  {
  }

  // ---- The plan ----

  /** All the moves of the uncapped planner. */
  function Plan(m: Members, elig: set<Node>, tb: TieBreak): seq<Move>
    requires Ready(m, elig, tb)
    decreases Need(m, elig)
  {
    NeedZeroIsBalanced(m, elig);
    match NextMove(m, elig, tb)
    case None => []
    case Some(mv) =>
      GreedyMoveGainsOne(m, elig, tb);
      NeedZeroIsBalanced(ApplyMove(m, mv), elig);
      [mv] + Plan(ApplyMove(m, mv), elig, tb)
  }

  // ---- Correctness and optimality ----

  /** The plan can be replayed move by move and ends with strays gone and loads level. */
  lemma {:induction false} PlanBalances(m: Members, elig: set<Node>, tb: TieBreak)
    requires Ready(m, elig, tb)
    ensures LegalRun(m, Plan(m, elig, tb))
    ensures Balanced(Replay(m, Plan(m, elig, tb)), elig)
    decreases |Plan(m, elig, tb)|
  {
    NoMoveIsBalanced(m, elig, tb);
    var next := NextMove(m, elig, tb);
    if next.Some? {
      GreedyMoveGainsOne(m, elig, tb);
      PlanBalances(ApplyMove(m, next.value), elig, tb);
    }
  }

  /**
   The plan's length is max(E + S1, S2): the strays and the hosts above quota + 1, or the hosts
   missing up to the quota, whichever are more.
   */
  lemma {:induction false} PlanLength(m: Members, elig: set<Node>, tb: TieBreak)
    requires Ready(m, elig, tb)
    ensures |Plan(m, elig, tb)| == Need(m, elig)
    decreases |Plan(m, elig, tb)|
  {
    NeedZeroIsBalanced(m, elig);
    NoMoveIsBalanced(m, elig, tb);
    var next := NextMove(m, elig, tb);
    if next.Some? {
      GreedyMoveGainsOne(m, elig, tb);
      PlanLength(ApplyMove(m, next.value), elig, tb);
    }
  }

  lemma {:induction false} AnyRunNeeds(m: Members, elig: set<Node>, run: seq<Move>)
    requires elig != {} && elig <= m.Keys
    requires LegalRun(m, run) && Balanced(Replay(m, run), elig)
    ensures |run| >= Need(m, elig)
  {
    if run == [] {
      NeedZeroIsBalanced(m, elig);
    } else {
      AnyMoveGainsAtMostOne(m, elig, run[0]);
      AnyRunNeeds(ApplyMove(m, run[0]), elig, run[1..]);
    }
  }

  /** Some sequence of `k` single-host moves empties the ineligible nodes and levels the eligible ones. */
  ghost predicate CanBalanceIn(m: Members, elig: set<Node>, k: nat) {
    exists run :: |run| == k && LegalRun(m, run) && Balanced(Replay(m, run), elig)
  }

  /** However ties were broken, no sequence of single-host moves balances in fewer moves than the plan. */
  lemma PlanIsShortest(m: Members, elig: set<Node>, tb: TieBreak)
    requires Ready(m, elig, tb)
    ensures forall k: nat :: CanBalanceIn(m, elig, k) ==> |Plan(m, elig, tb)| <= k
  {
    PlanLength(m, elig, tb);
    forall k: nat | CanBalanceIn(m, elig, k) ensures |Plan(m, elig, tb)| <= k {
      var run :| |run| == k && LegalRun(m, run) && Balanced(Replay(m, run), elig);
      AnyRunNeeds(m, elig, run);
    }
  }

  // ---- Conservation of hosts ----

  /** How often `h` occurs in the placement, over all nodes. */
  ghost function Copies(m: Members, h: Host): int { Sum(m.Keys, CopiesOn(m, h)) }

  ghost function CopiesOn(m: Members, h: Host): Node -> int {
    n => if n in m then multiset(m[n])[h] else 0
  }

  lemma MoveKeepsHosts(m: Members, mv: Move, h: Host)
    requires Legal(m, mv)
    ensures Copies(ApplyMove(m, mv), h) == Copies(m, h)
  {
    var m' := ApplyMove(m, mv);
    RemoveHostTakesOne(m[mv.src], mv.host);
    assert multiset(m'[mv.tgt]) == multiset(m[mv.tgt]) + multiset{mv.host};
    assert multiset(m[mv.src]) == multiset(m'[mv.src]) + multiset{mv.host};
    SumShift(m.Keys, CopiesOn(m, h), CopiesOn(m', h), mv.src, mv.tgt);
  }

  /** Any replayed run, the plan among them, preserves the multiset of hosts. */
  lemma {:induction false} ReplayKeepsHosts(m: Members, run: seq<Move>, h: Host)
    requires LegalRun(m, run)
    ensures Copies(Replay(m, run), h) == Copies(m, h)
  {
    if run != [] {
      MoveKeepsHosts(m, run[0], h);
      ReplayKeepsHosts(ApplyMove(m, run[0]), run[1..], h);
    }
  }

  // ---- No host is moved twice ----

  ghost predicate DistinctHosts(m: Members) {
    forall h :: Copies(m, h) <= 1
  }

  lemma HostIsInOnePlace(m: Members, h: Host, a: Node, b: Node)
    requires DistinctHosts(m) && a in m && b in m && h in m[a] && h in m[b]
    ensures a == b
  {
    assert Copies(m, h) <= 1;
    assert CopiesOn(m, h)(a) >= 1 && CopiesOn(m, h)(b) >= 1;
    if a != b {
      SumPair(m.Keys, CopiesOn(m, h), a, b);
      assert false;
    }
  }

  lemma MoveKeepsDistinct(m: Members, mv: Move)
    requires Legal(m, mv) && DistinctHosts(m)
    ensures DistinctHosts(ApplyMove(m, mv))
  {
    forall h ensures Copies(ApplyMove(m, mv), h) <= 1 {
      MoveKeepsHosts(m, mv, h);
    }
  }

  /** Nodes that have received a host: none is more than one above the lightest eligible node. */
  ghost predicate Received(m: Members, elig: set<Node>, got: set<Node>) {
    got <= elig && forall r, e :: r in got && e in elig ==> Load(m, r) <= Load(m, e) + 1
  }

  /** A greedy move never takes from a node that has received, and keeps the bound on those nodes. */
  lemma GreedyMoveSparesReceivers(m: Members, elig: set<Node>, tb: TieBreak, got: set<Node>)
    requires Ready(m, elig, tb) && NextMove(m, elig, tb).Some? && Received(m, elig, got)
    ensures var mv := NextMove(m, elig, tb).value;
      && mv.src !in got
      && Legal(m, mv)
      && Received(ApplyMove(m, mv), elig, got + {mv.tgt})
  {
    var mv := NextMove(m, elig, tb).value;
    assert IsLeast(m, elig, tb.least(m)) && IsMost(m, elig, tb.most(m));
    MoveLoads(m, mv);
  }

  /** No node that has received by now is the source of a planned move. */
  lemma {:induction false} ReceiversSendNothing(m: Members, elig: set<Node>, tb: TieBreak, got: set<Node>)
    requires Ready(m, elig, tb) && Received(m, elig, got)
    ensures forall mv :: mv in Plan(m, elig, tb) ==> mv.src !in got
    decreases |Plan(m, elig, tb)|
  {
    if NextMove(m, elig, tb).Some? {
      var mv := NextMove(m, elig, tb).value;
      GreedyMoveGainsOne(m, elig, tb);
      GreedyMoveSparesReceivers(m, elig, tb, got);
      ReceiversSendNothing(ApplyMove(m, mv), elig, tb, got + {mv.tgt});
    }
  }

  ghost predicate NoneSendsAfterReceiving(moves: seq<Move>) {
    forall i, j :: 0 <= i < j < |moves| ==> moves[j].src != moves[i].tgt
  }

  /** In the whole plan, a node that receives a host is the source of no later move, in either phase. */
  lemma {:induction false} ReceiversNeverSend(m: Members, elig: set<Node>, tb: TieBreak)
    requires Ready(m, elig, tb)
    ensures NoneSendsAfterReceiving(Plan(m, elig, tb))
    decreases |Plan(m, elig, tb)|
  {
    if NextMove(m, elig, tb).Some? {
      var mv := NextMove(m, elig, tb).value;
      var m' := ApplyMove(m, mv);
      GreedyMoveGainsOne(m, elig, tb);
      GreedyMoveSparesReceivers(m, elig, tb, {});
      ReceiversSendNothing(m', elig, tb, {mv.tgt});
      ReceiversNeverSend(m', elig, tb);
      SendsCons(mv, Plan(m', elig, tb));
    }
  }

  lemma SendsCons(mv: Move, rest: seq<Move>)
    requires NoneSendsAfterReceiving(rest) && forall x :: x in rest ==> x.src != mv.tgt
    ensures NoneSendsAfterReceiving([mv] + rest)
  {
  }

  lemma OtherHostsStay(m: Members, mv: Move, n: Node, h: Host)
    requires Legal(m, mv) && n in m && n != mv.src && h in m[n]
    ensures h in ApplyMove(m, mv)[n]
  {
  }

  /** A host sitting on a node that has received stays there for the rest of the plan. */
  lemma {:induction false} ReceivedHostStays(m: Members, elig: set<Node>, tb: TieBreak, got: set<Node>, r: Node, h: Host)
    requires Ready(m, elig, tb) && DistinctHosts(m) && Received(m, elig, got)
    requires r in got && h in m[r]
    ensures forall mv :: mv in Plan(m, elig, tb) ==> mv.host != h
    decreases |Plan(m, elig, tb)|
  {
    var next := NextMove(m, elig, tb);
    if next.Some? {
      var mv := next.value;
      var m' := ApplyMove(m, mv);
      GreedyMoveGainsOne(m, elig, tb);
      GreedyMoveSparesReceivers(m, elig, tb, got);
      assert mv.host != h by {
        if mv.host == h { HostIsInOnePlace(m, h, mv.src, r); }
      }
      MoveKeepsDistinct(m, mv);
      OtherHostsStay(m, mv, r, h);
      hide ApplyMove, NextMove, DistinctHosts, Received;
      ReceivedHostStays(m', elig, tb, got + {mv.tgt}, r, h);
    }
  }

  ghost predicate HostsDiffer(moves: seq<Move>) {
    forall i, j :: 0 <= i < j < |moves| ==> moves[i].host != moves[j].host
  }

  lemma HostsDifferCons(mv: Move, rest: seq<Move>)
    requires HostsDiffer(rest) && forall x :: x in rest ==> x.host != mv.host
    ensures HostsDiffer([mv] + rest)
  {
  }

  lemma {:induction false} ReceiversAreFinal(m: Members, elig: set<Node>, tb: TieBreak, got: set<Node>)
    requires Ready(m, elig, tb) && DistinctHosts(m) && Received(m, elig, got)
    ensures HostsDiffer(Plan(m, elig, tb))
    decreases |Plan(m, elig, tb)|
  {
    var next := NextMove(m, elig, tb);
    if next.Some? {
      var mv := next.value;
      var m' := ApplyMove(m, mv);
      GreedyMoveGainsOne(m, elig, tb);
      GreedyMoveSparesReceivers(m, elig, tb, got);
      MoveKeepsDistinct(m, mv);
      ReceiversAreFinal(m', elig, tb, got + {mv.tgt});
      ReceivedHostStays(m', elig, tb, got + {mv.tgt}, mv.tgt, mv.host);
      HostsDifferCons(mv, Plan(m', elig, tb));
    }
  }

  /** With distinct hosts, each host occurs at most once in the plan. */
  lemma NoHostMovesTwice(m: Members, elig: set<Node>, tb: TieBreak)
    requires Ready(m, elig, tb) && DistinctHosts(m)
    ensures HostsDiffer(Plan(m, elig, tb))
  {
    ReceiversAreFinal(m, elig, tb, {});
  }

  // ---- The planner's loops ----

  function WithEligible(perNode: Members, elig: set<Node>): (r: Members)
    ensures r.Keys == perNode.Keys + elig
    ensures forall n :: n in perNode ==> r[n] == perNode[n]
    ensures forall n :: n in elig && n !in perNode ==> r[n] == []
  {
    map n | n in perNode.Keys + elig :: if n in perNode then perNode[n] else []
  }

  /** The live placement with an empty list for every eligible node it does not mention, and `elig` the eligible nodes. */
  ghost predicate StartsFrom(m: Members, elig: set<Node>, perNode: Members, eligible: seq<Node>) {
    && (forall n :: n in elig <==> n in eligible)
    && (forall n :: n in m <==> n in perNode || n in eligible)
    && (forall n :: n in perNode ==> n in m && m[n] == perNode[n])
    && (forall n :: n in eligible && n !in perNode ==> n in m && m[n] == [])
  }

  /**
   What one move must be: the last host of its source goes to the least loaded eligible node. The
   source is the first listed ineligible node that still has hosts; when there is none, it is the
   most loaded eligible node, with at least two hosts more than the target.
   */
  ghost predicate GreedyChoice(m: Members, elig: set<Node>, tb: TieBreak, mv: Move) {
    && mv.src in m && m[mv.src] != [] && mv.host == m[mv.src][|m[mv.src]| - 1]
    && mv.tgt == tb.least(m)
    && if exists n :: n in m && n !in elig && m[n] != []
       then exists k :: 0 <= k < |tb.order| && tb.order[k] == mv.src && mv.src !in elig && Emptied(tb.order, k, m, elig)
       else mv.src == tb.most(m) && Load(m, mv.src) >= Load(m, mv.tgt) + 2
  }

  ghost predicate GreedyRun(m: Members, elig: set<Node>, tb: TieBreak, moves: seq<Move>)
    decreases |moves|
  {
    moves == [] || (GreedyChoice(m, elig, tb, moves[0]) && Legal(m, moves[0])
                    && GreedyRun(ApplyMove(m, moves[0]), elig, tb, moves[1..]))
  }

  lemma {:induction false} StrayIsFirst(order: seq<Node>, m: Members, elig: set<Node>) returns (k: nat)
    requires FirstStray(order, m, elig).Some?
    ensures k < |order| && order[k] == FirstStray(order, m, elig).value && Emptied(order, k, m, elig)
  {
    if order[0] in m && order[0] !in elig && m[order[0]] != [] {
      k := 0;
    } else {
      var j := StrayIsFirst(order[1..], m, elig);
      k := j + 1;
      forall i | 0 <= i < k ensures order[i] in elig || Load(m, order[i]) == 0 {
        if i > 0 { assert order[i] == order[1..][i - 1]; }
      }
    }
  }

  lemma NextMoveIsGreedy(m: Members, elig: set<Node>, tb: TieBreak)
    requires Ready(m, elig, tb) && NextMove(m, elig, tb).Some?
    ensures GreedyChoice(m, elig, tb, NextMove(m, elig, tb).value)
  {
    assert IsLeast(m, elig, tb.least(m)) && IsMost(m, elig, tb.most(m));
    if FirstStray(tb.order, m, elig).Some? {
      var k := StrayIsFirst(tb.order, m, elig);
    }
  }

  /** The plan consists of greedy choices, legal one after the other. */
  lemma {:induction false} PlanIsGreedy(m: Members, elig: set<Node>, tb: TieBreak)
    requires Ready(m, elig, tb)
    ensures GreedyRun(m, elig, tb, Plan(m, elig, tb)) && LegalRun(m, Plan(m, elig, tb))
    decreases |Plan(m, elig, tb)|
  {
    PlanBalances(m, elig, tb);
    if NextMove(m, elig, tb).Some? {
      GreedyMoveGainsOne(m, elig, tb);
      NextMoveIsGreedy(m, elig, tb);
      hide GreedyChoice, Ready, Legal, ApplyMove, NextMove;
      PlanIsGreedy(ApplyMove(m, NextMove(m, elig, tb).value), elig, tb);
      GreedyCons(m, elig, tb, NextMove(m, elig, tb).value, Plan(ApplyMove(m, NextMove(m, elig, tb).value), elig, tb));
    }
  }

  /** And so does every beginning of such a run. */
  lemma {:induction false} GreedyPrefix(m: Members, elig: set<Node>, tb: TieBreak, moves: seq<Move>, k: nat)
    requires GreedyRun(m, elig, tb, moves) && k <= |moves|
    ensures GreedyRun(m, elig, tb, moves[..k]) && LegalRun(m, moves[..k])
    decreases k
  {
    if k > 0 {
      var mv, rest := moves[0], moves[1..];
      GreedyPrefix(ApplyMove(m, mv), elig, tb, rest, k - 1);
      GreedyCons(m, elig, tb, mv, rest[..k - 1]);
      assert moves[..k] == [mv] + rest[..k - 1];
    }
  }

  lemma GreedyCons(m: Members, elig: set<Node>, tb: TieBreak, mv: Move, rest: seq<Move>)
    requires Legal(m, mv) && GreedyChoice(m, elig, tb, mv)
    requires GreedyRun(ApplyMove(m, mv), elig, tb, rest) && LegalRun(ApplyMove(m, mv), rest)
    ensures GreedyRun(m, elig, tb, [mv] + rest) && LegalRun(m, [mv] + rest)
  {
    hide Legal, GreedyChoice, ApplyMove;
    assert ([mv] + rest)[1..] == rest;
  }

  /** What the planner's result means on the placement it starts from. */
  ghost predicate IsRebalance(m: Members, elig: set<Node>, tb: TieBreak, maxMoves: Option<int>, moves: seq<Move>) {
    && LegalRun(m, moves) && GreedyRun(m, elig, tb, moves)
    && (forall h :: Copies(Replay(m, moves), h) == Copies(m, h))
    && (maxMoves.Some? ==> |moves| <= Max(maxMoves.value, 0))
    && (maxMoves.None? || |moves| < maxMoves.value ==>
          Balanced(Replay(m, moves), elig) && forall k: nat :: CanBalanceIn(m, elig, k) ==> |moves| <= k)
  }

  lemma PlanIsRebalance(m: Members, elig: set<Node>, tb: TieBreak, maxMoves: Option<int>)
    requires Ready(m, elig, tb)
    ensures var full := Plan(m, elig, tb); IsRebalance(m, elig, tb, maxMoves, full[..Allowed(maxMoves, |full|)])
  {
    hide Plan, Balanced, GreedyRun, Copies, CanBalanceIn, LegalRun, Replay, Ready;
    var full := Plan(m, elig, tb);
    var moves := full[..Allowed(maxMoves, |full|)];
    PlanIsGreedy(m, elig, tb);
    GreedyPrefix(m, elig, tb, full, |moves|);
    forall h ensures Copies(Replay(m, moves), h) == Copies(m, h) {
      ReplayKeepsHosts(m, moves, h);
    }
    if maxMoves.None? || |moves| < maxMoves.value {
      assert moves == full;
      PlanBalances(m, elig, tb);
      PlanIsShortest(m, elig, tb);
    }
  }

  /** How many moves a cap lets through. */
  function Allowed(cap: Option<int>, length: nat): nat {
    if cap.None? then length else Min(Max(cap.value, 0), length)
  }

  predicate Capped(cap: Option<int>, taken: nat) {
    cap.Some? && taken >= cap.value
  }

  lemma LevellingMove(m: Members, elig: set<Node>, tb: TieBreak)
    requires Ready(m, elig, tb) && Emptied(tb.order, |tb.order|, m, elig)
    ensures var src, tgt := tb.most(m), tb.least(m);
      NextMove(m, elig, tb)
        == if src == tgt || Load(m, src) - Load(m, tgt) <= 1 then None else Some(MoveLast(m, src, tgt))
    ensures NextMove(m, elig, tb).None? ==> Plan(m, elig, tb) == []
  {
    var src, tgt := tb.most(m), tb.least(m);
    assert IsLeast(m, elig, tgt) && IsMost(m, elig, src);
    assert FirstStray(tb.order, m, elig).None?;
  }

  /** The nodes listed before position `i` are eligible or empty. */
  ghost predicate Emptied(order: seq<Node>, i: nat, m: Members, elig: set<Node>)
    requires i <= |order|
  {
    forall k :: 0 <= k < i ==> order[k] in elig || Load(m, order[k]) == 0
  }

  lemma {:induction false} FirstStrayIs(order: seq<Node>, m: Members, elig: set<Node>, i: nat)
    requires i < |order| && order[i] in m && order[i] !in elig && m[order[i]] != []
    requires Emptied(order, i, m, elig)
    ensures FirstStray(order, m, elig) == Some(order[i])
  {
    if i > 0 {
      FirstStrayIs(order[1..], m, elig, i - 1);
    }
  }

  /** The moves made so far and the plan of what is left make up the whole plan. */
  ghost predicate OnPlan(full: seq<Move>, moves: seq<Move>, m: Members, elig: set<Node>, tb: TieBreak, cap: Option<int>) {
    && Ready(m, elig, tb)
    && full == moves + Plan(m, elig, tb)
    && (cap.Some? ==> |moves| <= Max(cap.value, 0))
  }

  /** The list operations of the planner: the source's last host is popped and appended to the target. */
  function PopAppend(m: Members, src: Node, tgt: Node): Members
    requires src in m && tgt in m && m[src] != []
  {
    var popped := m[src := m[src][..|m[src]| - 1]];
    popped[tgt := popped[tgt] + [m[src][|m[src]| - 1]]]
  }

  lemma PopAppendIsMove(m: Members, src: Node, tgt: Node)
    requires src in m && tgt in m && src != tgt && m[src] != []
    ensures Legal(m, MoveLast(m, src, tgt))
    ensures PopAppend(m, src, tgt) == ApplyMove(m, MoveLast(m, src, tgt))
  {
    assert RemoveHost(m[src], m[src][|m[src]| - 1]) == m[src][..|m[src]| - 1];
  }

  lemma PlanUnfolds(m: Members, elig: set<Node>, tb: TieBreak, src: Node, tgt: Node)
    requires Ready(m, elig, tb)
    requires src in m && tgt in m && m[src] != [] && NextMove(m, elig, tb) == Some(MoveLast(m, src, tgt))
    ensures src != tgt && Ready(PopAppend(m, src, tgt), elig, tb)
    ensures Plan(m, elig, tb) == [MoveLast(m, src, tgt)] + Plan(PopAppend(m, src, tgt), elig, tb)
  {
    GreedyMoveGainsOne(m, elig, tb);
    PopAppendIsMove(m, src, tgt);
  }

  lemma ShiftHead(full: seq<Move>, moves: seq<Move>, mv: Move, rest: seq<Move>)
    requires full == moves + ([mv] + rest)
    ensures full == (moves + [mv]) + rest && |moves| < |full|
  {
  }

  /** The planner's step performs the next greedy move. */
  lemma StaysOnPlan(full: seq<Move>, moves: seq<Move>, m: Members, elig: set<Node>, tb: TieBreak, cap: Option<int>,
                    src: Node, tgt: Node)
    requires OnPlan(full, moves, m, elig, tb, cap) && !Capped(cap, |moves|)
    requires src in m && tgt in m && m[src] != [] && NextMove(m, elig, tb) == Some(MoveLast(m, src, tgt))
    ensures src != tgt && |moves| < |full|
    ensures OnPlan(full, moves + [MoveLast(m, src, tgt)], PopAppend(m, src, tgt), elig, tb, cap)
  {
    var mv, m' := MoveLast(m, src, tgt), PopAppend(m, src, tgt);
    assert Ready(m', elig, tb) && full == moves + ([mv] + Plan(m', elig, tb)) by {
      PlanUnfolds(m, elig, tb, src, tgt);
    }
    ShiftHead(full, moves, mv, Plan(m', elig, tb));
  }

  lemma CapReached(full: seq<Move>, moves: seq<Move>, m: Members, elig: set<Node>, tb: TieBreak, cap: Option<int>)
    requires OnPlan(full, moves, m, elig, tb, cap)
    requires Capped(cap, |moves|) || Plan(m, elig, tb) == []
    ensures moves == full[..Allowed(cap, |full|)]
  {
  }

  /**
   Uncapped, the planner returns the whole plan; capped, exactly its first moves. Both for the
   same way of breaking ties.
   */
  method PlanRebalance(perNode: Members, eligible: seq<Node>, maxMoves: Option<int>, tb: TieBreak)
      returns (moves: seq<Move>)
    requires eligible != []
    requires Breaks(tb, perNode.Keys + Names(eligible), Names(eligible))
    ensures var full := Plan(WithEligible(perNode, Names(eligible)), Names(eligible), tb);
      moves == full[..Allowed(maxMoves, |full|)]
    ensures forall m, elig :: StartsFrom(m, elig, perNode, eligible) ==> IsRebalance(m, elig, tb, maxMoves, moves)
  {
    var members := AddMissing(perNode, eligible);
    moves := Greedy(members, Names(eligible), maxMoves, tb);
    PlanIsRebalance(members, Names(eligible), tb, maxMoves);
    forall m, elig | StartsFrom(m, elig, perNode, eligible) ensures IsRebalance(m, elig, tb, maxMoves, moves) {
      SameStart(m, elig, members, perNode, eligible);
    }
  }

  lemma SameStart(m: Members, elig: set<Node>, members: Members, perNode: Members, eligible: seq<Node>)
    requires StartsFrom(m, elig, perNode, eligible) && StartsFrom(members, Names(eligible), perNode, eligible)
    ensures m == members && elig == Names(eligible)
  {
    assert m.Keys == members.Keys;
    forall n | n in m ensures m[n] == members[n] {
      if n !in perNode { assert n in eligible; }
    }
  }

  /** The two phases, on a placement that lists every eligible node. */
  method Greedy(start: Members, elig: set<Node>, maxMoves: Option<int>, tb: TieBreak) returns (moves: seq<Move>)
    requires Ready(start, elig, tb)
    ensures var full := Plan(start, elig, tb); moves == full[..Allowed(maxMoves, |full|)]
  {
    hide Plan, NextMove, FirstStray;
    var members := start;
    ghost var full := Plan(members, elig, tb);
    moves := [];
    for i := 0 to |tb.order|
      invariant OnPlan(full, moves, members, elig, tb, maxMoves)
      invariant Emptied(tb.order, i, members, elig)
    {
      if tb.order[i] !in elig {
        members, moves := Evacuate(full, members, moves, elig, tb, maxMoves, i);
        if members[tb.order[i]] != [] {
          CapReached(full, moves, members, elig, tb, maxMoves);
          return;
        }
      }
    }
    moves := Level(full, members, moves, elig, tb, maxMoves);
  }

  /** Phase 1 for one node: its hosts leave one at a time, unless the cap is reached first. */
  method Evacuate(ghost full: seq<Move>, start: Members, made: seq<Move>, elig: set<Node>, tb: TieBreak,
                  maxMoves: Option<int>, i: nat) returns (members: Members, moves: seq<Move>)
    requires OnPlan(full, made, start, elig, tb, maxMoves)
    requires i < |tb.order| && tb.order[i] !in elig
    requires Emptied(tb.order, i, start, elig)
    ensures OnPlan(full, moves, members, elig, tb, maxMoves)
    ensures Emptied(tb.order, i, members, elig)
    ensures members[tb.order[i]] == [] || Capped(maxMoves, |moves|)
  {
    hide Plan, FirstStray;
    members, moves := start, made;
    var src := tb.order[i];
    while members[src] != []
      invariant OnPlan(full, moves, members, elig, tb, maxMoves)
      invariant Emptied(tb.order, i, members, elig)
      decreases |members[src]|
    {
      if Capped(maxMoves, |moves|) {
        return;
      }
      var tgt := tb.least(members);
      assert IsLeast(members, elig, tgt);
      FirstStrayIs(tb.order, members, elig, i);
      StaysOnPlan(full, moves, members, elig, tb, maxMoves, src, tgt);
      var user := members[src][|members[src]| - 1];
      members := members[src := members[src][..|members[src]| - 1]];
      members := members[tgt := members[tgt] + [user]];
      moves := moves + [Move(user, src, tgt)];
    }
  }

  /** Phase 2: the eligible nodes are levelled. */
  method Level(ghost full: seq<Move>, start: Members, made: seq<Move>, elig: set<Node>, tb: TieBreak,
               maxMoves: Option<int>) returns (moves: seq<Move>)
    requires OnPlan(full, made, start, elig, tb, maxMoves)
    requires Emptied(tb.order, |tb.order|, start, elig)
    ensures moves == full[..Allowed(maxMoves, |full|)]
  {
    hide Plan, NextMove, FirstStray;
    var members := start;
    moves := made;
    while !Capped(maxMoves, |moves|)
      invariant OnPlan(full, moves, members, elig, tb, maxMoves)
      invariant Emptied(tb.order, |tb.order|, members, elig)
      decreases |full| - |moves|
    {
      var src, tgt := tb.most(members), tb.least(members);
      assert IsLeast(members, elig, tgt) && IsMost(members, elig, src);
      LevellingMove(members, elig, tb);
      if src == tgt {
        break;
      }
      if |members[src]| - |members[tgt]| <= 1 {
        break;
      }
      StaysOnPlan(full, moves, members, elig, tb, maxMoves, src, tgt);
      var user := members[src][|members[src]| - 1];
      members := members[src := members[src][..|members[src]| - 1]];
      members := members[tgt := members[tgt] + [user]];
      moves := moves + [Move(user, src, tgt)];
    }
    CapReached(full, moves, members, elig, tb, maxMoves);
  }

  /** Gives every eligible node an entry, empty when it had none. */
  method AddMissing(perNode: Members, eligible: seq<Node>) returns (members: Members)
    ensures members == WithEligible(perNode, Names(eligible))
    ensures StartsFrom(members, Names(eligible), perNode, eligible)
    ensures forall n :: n in members <==> n in perNode || n in eligible
    ensures forall n :: n in perNode ==> n in members && members[n] == perNode[n]
    ensures forall n :: n in eligible && n !in perNode ==> n in members && members[n] == []
  {
    members := perNode;
    for i := 0 to |eligible|
      invariant members == WithEligible(perNode, Names(eligible[..i]))
    {
      assert Names(eligible[..i + 1]) == Names(eligible[..i]) + {eligible[i]};
      if eligible[i] !in members {
        members := members[eligible[i] := []];
      }
    }
    assert eligible[..|eligible|] == eligible;
  }
}
