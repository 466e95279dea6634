/**
 Placement pins: a service is pinned to a node by a constraint on the hostname among its placement
 constraints. Pinning replaces any earlier pin; unpinning a node clears the pins that name it, by
 its full or its short name, from every service.
 */
module Pins {
  import opened Common

  type Constraint = string

  const PREFIX := "node.hostname=="

  /** `c.replace(" ", "")`. */
  function Strip(c: string): string {
    if c == "" then "" else (if c[0] == ' ' then "" else [c[0]]) + Strip(c[1..])
  }

  lemma {:induction false} StripLeavesNoBlank(c: string)
    ensures ' ' !in Strip(c)
  {
    if c != "" {
      StripLeavesNoBlank(c[1..]);
    }
  }

  predicate IsPin(c: Constraint) {
    PREFIX <= Strip(c)
  }

  function PinOf(node: string): Constraint {
    PREFIX + node
  }

  /** The stripped pins by which a node is recognised. */
  function Targets(node: string): set<string> {
    {Strip(PinOf(node)), Strip(PinOf(Short(node)))}
  }

  predicate PinnedTo(c: Constraint, node: string) {
    Strip(c) in Targets(node)
  }

  lemma {:induction false} StripConcat(a: string, b: string)
    ensures Strip(a + b) == Strip(a) + Strip(b)
  {
    if a == "" {
      assert a + b == b;
    } else {
      assert (a + b)[1..] == a[1..] + b;
      StripConcat(a[1..], b);
    }
  }

  lemma {:induction false} StripBlankFree(a: string)
    requires ' ' !in a
    ensures Strip(a) == a
  {
    if a != "" {
      StripBlankFree(a[1..]);
    }
  }

  lemma StripPrefix(prefix: string, s: string)
    requires ' ' !in prefix
    ensures Strip(prefix + s) == prefix + Strip(s)
    ensures prefix <= Strip(prefix + s)
  {
    StripConcat(prefix, s);
    StripBlankFree(prefix);
  }

  lemma PinIsPin(node: string)
    ensures Strip(PinOf(node)) == PREFIX + Strip(node) && IsPin(PinOf(node)) && PinnedTo(PinOf(node), node)
  {
    StripPrefix(PREFIX, node);
  }

  /** Whatever is pinned to a node is a pin. */
  lemma PinnedToIsPin(c: Constraint, node: string)
    requires PinnedTo(c, node)
    ensures IsPin(c)
  {
    PinIsPin(node);
    PinIsPin(Short(node));
  }

  // ---- One service ----

  function Others(cs: seq<Constraint>): seq<Constraint> {
    Filter(cs, (c: Constraint) => !IsPin(c))
  }

  function Pin(cs: seq<Constraint>, node: string): seq<Constraint> {
    Others(cs) + [PinOf(node)]
  }

  function Unpin(cs: seq<Constraint>, node: string): seq<Constraint> {
    Filter(cs, (c: Constraint) => !PinnedTo(c, node))
  }

  /** A service whose only pin, if any, stands last: its other constraints, then the pin. */
  function WithPin(others: seq<Constraint>, pin: Option<string>): seq<Constraint> {
    others + (if pin.Some? then [PinOf(pin.value)] else [])
  }

  /** Pinning leaves exactly one pin, the last constraint, and all other constraints in order. */
  lemma PinReplaces(cs: seq<Constraint>, node: string)
    ensures Pin(cs, node) == WithPin(Others(cs), Some(node))
    ensures Others(Pin(cs, node)) == Others(cs)
    ensures Filter(Pin(cs, node), IsPin) == [PinOf(node)]
  {
    var p := (c: Constraint) => !IsPin(c);
    PinIsPin(node);
    FilterConcat(Others(cs), [PinOf(node)], p);
    FilterAll(Others(cs), p);
    FilterOne(PinOf(node), p);
    FilterConcat(Others(cs), [PinOf(node)], IsPin);
    FilterNone(Others(cs), IsPin);
    FilterOne(PinOf(node), IsPin);
  }

  /** Unpinning clears the pin exactly when it names the node, and never another constraint. */
  lemma UnpinClears(others: seq<Constraint>, pin: Option<string>, node: string)
    requires forall c :: c in others ==> !IsPin(c)
    ensures Unpin(WithPin(others, pin), node)
         == WithPin(others, if pin.Some? && PinnedTo(PinOf(pin.value), node) then None else pin)
  {
    var p := (c: Constraint) => !PinnedTo(c, node);
    forall c | c in others ensures p(c) {
      if PinnedTo(c, node) { PinnedToIsPin(c, node); }
    }
    FilterAll(others, p);
    if pin.Some? {
      FilterConcat(others, [PinOf(pin.value)], p);
      FilterOne(PinOf(pin.value), p);
    } else {
      assert WithPin(others, pin) == others;
    }
  }

  /** Unpinning the node a service was just pinned to leaves exactly its constraints without pins. */
  lemma UnpinUndoesPin(cs: seq<Constraint>, node: string)
    ensures Unpin(Pin(cs, node), node) == Others(cs)
  {
    PinReplaces(cs, node);
    PinIsPin(node);
    UnpinClears(Others(cs), Some(node), node);
    assert WithPin(Others(cs), None) == Others(cs);
  }

  /** Unpinning is the identity exactly on services not pinned to the node. */
  lemma {:induction false} UnpinIdentity(cs: seq<Constraint>, node: string)
    ensures Unpin(cs, node) == cs <==> forall c :: c in cs ==> !PinnedTo(c, node)
  {
    if forall c :: c in cs ==> !PinnedTo(c, node) {
      FilterAll(cs, (c: Constraint) => !PinnedTo(c, node));
    }
    if Unpin(cs, node) == cs {
      assert forall c :: c in Unpin(cs, node) ==> !PinnedTo(c, node);
    }
  }

  // ---- Any run of pins and unpins on a service ----

  /** What pinning and unpinning do, spelled out. */
  lemma PinMeans(cs: seq<Constraint>, node: string)
    ensures Pin(cs, node) == Filter(cs, (c: Constraint) => !("node.hostname==" <= Strip(c))) + ["node.hostname==" + node]
    ensures Others(cs) == Filter(cs, (c: Constraint) => !("node.hostname==" <= Strip(c)))
  {
    FilterSame(cs, (c: Constraint) => !IsPin(c), (c: Constraint) => !("node.hostname==" <= Strip(c)));
  }

  lemma UnpinMeans(cs: seq<Constraint>, node: string)
    ensures Unpin(cs, node) == Filter(cs, (c: Constraint) =>
      Strip(c) != "node.hostname==" + Strip(node) && Strip(c) != "node.hostname==" + Strip(Short(node)))
  {
    PinIsPin(node);
    PinIsPin(Short(node));
    FilterSame(cs, (c: Constraint) => !PinnedTo(c, node), (c: Constraint) =>
      Strip(c) != "node.hostname==" + Strip(node) && Strip(c) != "node.hostname==" + Strip(Short(node)));
  }

  datatype Op = PinTo(node: string) | UnpinFrom(node: string)

  function Perform(cs: seq<Constraint>, op: Op): seq<Constraint> {
    match op case PinTo(node) => Pin(cs, node) case UnpinFrom(node) => Unpin(cs, node)
  }

  function PerformAll(cs: seq<Constraint>, ops: seq<Op>): seq<Constraint> {
    if ops == [] then cs else Perform(PerformAll(cs, ops[..|ops| - 1]), ops[|ops| - 1])
  }

  /** What the pin should be: the last node pinned to, unless a later unpin named it. */
  function CurrentPin(ops: seq<Op>): Option<string> {
    if ops == [] then None else
      match ops[|ops| - 1]
      case PinTo(node) => Some(node)
      case UnpinFrom(node) =>
        var before := CurrentPin(ops[..|ops| - 1]);
        if before.Some? && PinnedTo(PinOf(before.value), node) then None else before
  }

  predicate EverPinned(ops: seq<Op>) {
    exists i :: 0 <= i < |ops| && ops[i].PinTo?
  }

  /** Constraints other than pins keep their number and order over any run. */
  lemma {:induction false} OthersAreKept(cs: seq<Constraint>, ops: seq<Op>)
    ensures Others(PerformAll(cs, ops)) == Others(cs)
  {
    if ops != [] {
      var before := PerformAll(cs, ops[..|ops| - 1]);
      OthersAreKept(cs, ops[..|ops| - 1]);
      match ops[|ops| - 1]
      case PinTo(node) => PinReplaces(before, node);
      case UnpinFrom(node) => UnpinKeepsOthers(before, node);
    }
  }

  lemma {:induction false} UnpinKeepsOthers(cs: seq<Constraint>, node: string)
    ensures Others(Unpin(cs, node)) == Others(cs)
  {
    if cs != [] {
      if PinnedTo(cs[0], node) { PinnedToIsPin(cs[0], node); }
      UnpinKeepsOthers(cs[1..], node);
    }
  }

  /** From the first pin on, the service has its original other constraints and the current pin, nothing else. */
  lemma {:induction false} RunsArePins(cs: seq<Constraint>, ops: seq<Op>)
    requires EverPinned(ops)
    ensures PerformAll(cs, ops) == WithPin(Others(cs), CurrentPin(ops))
  {
    var init, last := ops[..|ops| - 1], ops[|ops| - 1];
    match last
    case PinTo(node) =>
      OthersAreKept(cs, init);
      PinReplaces(PerformAll(cs, init), node);
    case UnpinFrom(node) =>
      var i :| 0 <= i < |ops| && ops[i].PinTo?;
      assert init[i].PinTo?;
      RunsArePins(cs, init);
      UnpinClears(Others(cs), CurrentPin(init), node);
  }

  // ---- All services ----

  class Services {
    var constraints: seq<seq<Constraint>>

    /** Clears a node's pins from every service; `refused` are the services whose update fails. */
    method UnpinServicesFromNode(node: string, refused: set<nat>, dryRun: bool) returns (unpinned: nat)
      modifies this
      ensures |constraints| == |old(constraints)|
      ensures forall i: nat :: i < |constraints| ==>
        constraints[i] == if dryRun || i in refused then old(constraints)[i] else Unpin(old(constraints)[i], node)
      ensures unpinned == CountPinned(old(constraints), node, if dryRun then {} else refused)
      ensures unpinned == |Cleared(old(constraints), node, if dryRun then {} else refused)|
    {
      hide Filter, PinnedTo, Unpin, HasPinTo, Cleared;
      ghost var skipped := if dryRun then {} else refused;
      unpinned := 0;
      for i := 0 to |constraints|
        invariant |constraints| == |old(constraints)|
        invariant forall k: nat :: k < |constraints| ==>
          constraints[k] == if k >= i || dryRun || k in refused then old(constraints)[k] else Unpin(old(constraints)[k], node)
        invariant unpinned == CountPinned(old(constraints)[..i], node, skipped)
      {
        var cs := constraints[i];
        CountOneMore(old(constraints), i, node, skipped);
        var matching := Filter(cs, (c: Constraint) => PinnedTo(c, node));
        Matching(cs, node, matching);
        if matching == [] {
          continue;
        }
        if dryRun {
          unpinned := unpinned + 1;
          continue;
        }
        var kept := Filter(cs, (c: Constraint) => c !in matching);
        if i !in refused {
          constraints := constraints[i := kept];
          unpinned := unpinned + 1;
        }
      }
      assert old(constraints)[..|old(constraints)|] == old(constraints);
      CountIs(old(constraints), node, skipped);
    }
  }

  lemma CountOneMore(services: seq<seq<Constraint>>, i: nat, node: string, refused: set<nat>)
    requires i < |services|
    ensures CountPinned(services[..i + 1], node, refused)
         == CountPinned(services[..i], node, refused) + if HasPinTo(services[i], node) && i !in refused then 1 else 0
  {
    assert services[..i + 1][..i] == services[..i];
  }

  predicate HasPinTo(cs: seq<Constraint>, node: string) {
    exists c :: c in cs && PinnedTo(c, node)
  }

  function CountPinned(services: seq<seq<Constraint>>, node: string, refused: set<nat>): nat {
    if services == [] then 0
    else
      var last := |services| - 1;
      CountPinned(services[..last], node, refused) + if HasPinTo(services[last], node) && last !in refused then 1 else 0
  }

  /** The services that unpinning changes, other than the refused ones. */
  function Cleared(services: seq<seq<Constraint>>, node: string, refused: set<nat>): set<int> {
    set i | 0 <= i < |services| && Unpin(services[i], node) != services[i] && i !in refused
  }

  lemma {:induction false} CountIs(services: seq<seq<Constraint>>, node: string, refused: set<nat>)
    ensures CountPinned(services, node, refused) == |Cleared(services, node, refused)|
  {
    hide Unpin, Cleared, HasPinTo;
    if services != [] {
      var last := |services| - 1;
      var init := services[..last];
      CountIs(init, node, refused);
      HasPinMeans(services[last], node);
      ClearedSnoc(services, node, refused);
    } else {
      NoneCleared(node, refused);
    }
  }

  lemma NoneCleared(node: string, refused: set<nat>)
    ensures Cleared([], node, refused) == {}
  {
  }

  lemma ClearedSnoc(services: seq<seq<Constraint>>, node: string, refused: set<nat>)
    requires services != []
    ensures var last := |services| - 1;
      |Cleared(services, node, refused)| == |Cleared(services[..last], node, refused)|
        + if Unpin(services[last], node) != services[last] && last !in refused then 1 else 0
  {
    hide Unpin;
    var last := |services| - 1;
    var before := Cleared(services[..last], node, refused);
    assert last !in before;
    assert Cleared(services, node, refused)
        == before + (if Unpin(services[last], node) != services[last] && last !in refused then {last} else {});
  }

  lemma HasPinMeans(cs: seq<Constraint>, node: string)
    ensures HasPinTo(cs, node) <==> Unpin(cs, node) != cs
  {
    UnpinIdentity(cs, node);
  }

  /** The matching constraints are what unpinning drops; without any, it drops nothing. */
  lemma Matching(cs: seq<Constraint>, node: string, matching: seq<Constraint>)
    requires matching == Filter(cs, (c: Constraint) => PinnedTo(c, node))
    ensures matching == [] <==> !HasPinTo(cs, node)
    ensures matching == [] ==> Unpin(cs, node) == cs
    ensures Filter(cs, (c: Constraint) => c !in matching) == Unpin(cs, node)
  {
    hide PinnedTo;
    FilterSame(cs, (c: Constraint) => c !in matching, (c: Constraint) => !PinnedTo(c, node));
    if !HasPinTo(cs, node) {
      FilterNone(cs, (c: Constraint) => PinnedTo(c, node));
      FilterAll(cs, (c: Constraint) => !PinnedTo(c, node));
    } else {
      var c :| c in cs && PinnedTo(c, node);
      assert c in matching;
    }
  }

  /** If every update succeeds, no service is pinned to the node afterwards, in either form of its name. */
  lemma NoneLeft(cs: seq<Constraint>, node: string)
    ensures !HasPinTo(Unpin(cs, node), node)
    ensures forall c :: c in Unpin(cs, node) ==> Strip(c) != "node.hostname==" + Strip(node) && Strip(c) != "node.hostname==" + Strip(Short(node))
  {
    PinIsPin(node);
    PinIsPin(Short(node));
  }
}
