/**
 Synchronisation of DNS A records with the swarm: names of the numbered pattern that are in the
 swarm get exactly one A record each, the others lose theirs. Which API calls fail is decided
 outside; a failed call leaves the server's record as it was.
 */
module DnsSync {
  import opened Common
  import Serials

  type Name = string
  type Ip = string

  datatype RecId = RecId(key: nat)

  datatype Rec = Rec(kind: string, name: Name, data: Ip, ttl: int)

  type Zone = map<RecId, Rec>

  const TTL := 60

  /** The pattern names now in the swarm, the public addresses known by short name, and the pattern's prefix. */
  datatype Request = Request(desired: set<Name>, ips: map<Name, Ip>, prefix: string)

  /** Names whose creation fails, records whose update or deletion fails. */
  datatype Faults = Faults(creates: set<Name>, saves: set<RecId>, destroys: set<RecId>)

  /** `^prefix(\d+)$`. */
  predicate Numbered(prefix: string, name: Name) {
    Serials.Between(name, prefix, "").Some?
  }

  /** A name has the pattern when it is the prefix and a numeral. */
  lemma NumberedMeans(prefix: string, name: Name)
    ensures Numbered(prefix, name) <==> exists d :: d != "" && Serials.AllDigits(d) && name == prefix + d
  {
    if Numbered(prefix, name) {
      Serials.BetweenOnly(name, prefix, "");
      var d := Serials.Between(name, prefix, "").value;
      assert name == prefix + d;
    }
    if d :| d != "" && Serials.AllDigits(d) && name == prefix + d {
      Serials.BetweenFinds(prefix, d, "");
      assert prefix + d + "" == name;
    }
  }

  function DesiredNames(hostnames: seq<string>, prefix: string): (r: set<Name>)
    ensures forall n :: n in r ==> Numbered(prefix, n)
    ensures forall n :: n in r <==> Numbered(prefix, n) && exists h :: h in hostnames && h != "" && Short(h) == n
  {
    set h | h in hostnames && h != "" && Numbered(prefix, Short(h)) :: Short(h)
  }

  ghost predicate Proper(q: Request) {
    forall n :: n in q.desired ==> Numbered(q.prefix, n)
  }

  predicate InPattern(r: Rec, prefix: string) {
    r.kind == "A" && Numbered(prefix, r.name)
  }

  function RecOf(z: Zone, id: RecId): Option<Rec> {
    if id in z then Some(z[id]) else None
  }

  /** The A records of a name, in the order in which the server lists records. */
  function Listed(order: seq<RecId>, z: Zone, n: Name): seq<RecId> {
    Filter(order, (id: RecId) => id in z && z[id].kind == "A" && z[id].name == n)
  }

  /** The order lists every record once. */
  ghost predicate Lists(order: seq<RecId>, z: Zone) {
    && (forall id :: id in order <==> id in z)
    && (forall i, j :: 0 <= i < j < |order| ==> order[i] != order[j])
  }

  /** The pattern's A records by name. */
  ghost predicate Groups(current: map<Name, seq<RecId>>, order: seq<RecId>, z: Zone, prefix: string) {
    && (forall n :: n in current <==> Numbered(prefix, n) && Listed(order, z, n) != [])
    && (forall n :: n in current ==> current[n] == Listed(order, z, n))
  }

  lemma GroupOf(current: map<Name, seq<RecId>>, order: seq<RecId>, z: Zone, prefix: string, n: Name)
    requires Groups(current, order, z, prefix) && n in current
    ensures Numbered(prefix, n) && current[n] == Listed(order, z, n) != []
  {
  }

  // ---- What becomes of each record ----

  /** A record of a desired name with an address: the first is brought up to date, the others go. */
  function Kept(r: Rec, id: RecId, first: RecId, ip: Ip, f: Faults): Option<Rec> {
    if id == first then Some(if id in f.saves then r else r.(data := ip, ttl := TTL))
    else if id in f.destroys then Some(r) else None
  }

  function Fate(order: seq<RecId>, z: Zone, q: Request, f: Faults, id: RecId): Option<Rec>
    requires id in z
  {
    var r := z[id];
    if !InPattern(r, q.prefix) then Some(r)
    else if r.name in q.desired then
      if r.name !in q.ips || Listed(order, z, r.name) == [] then Some(r)
      else Kept(r, id, Listed(order, z, r.name)[0], q.ips[r.name], f)
    else if id in f.destroys then Some(r) else None
  }

  /** A desired name with an address but without a record. */
  predicate Lacking(order: seq<RecId>, z: Zone, q: Request, n: Name) {
    n in q.desired && n in q.ips && Listed(order, z, n) == []
  }

  /** What a sync does to the zone. */
  ghost predicate SyncResult(before: Zone, after: Zone, order: seq<RecId>, q: Request, f: Faults) {
    && (forall id :: id in before ==> RecOf(after, id) == Fate(order, before, q, f, id))
    && (forall id :: id in after && id !in before ==> IsCreated(before, after, order, q, f, id))
    && (forall n :: Lacking(order, before, q, n) && n !in f.creates ==> exists id :: id in after && id !in before && after[id].name == n)
    && (forall a, b :: a in after && b in after && a !in before && b !in before && after[a].name == after[b].name ==> a == b)
  }

  ghost predicate IsCreated(before: Zone, after: Zone, order: seq<RecId>, q: Request, f: Faults, id: RecId)
    requires id in after
  {
    var n := after[id].name;
    Lacking(order, before, q, n) && n !in f.creates && after[id] == Rec("A", n, q.ips[n], TTL)
  }

  ghost function Changed(before: Zone, after: Zone): set<RecId> {
    set id | id in before && id in after && before[id] != after[id]
  }

  // ---- The aim ----

  /** Every desired name with an address has exactly one A record, right; no other pattern name has any. */
  ghost predicate InSync(z: Zone, q: Request) {
    && (forall n :: n in q.desired && n in q.ips ==> ExactlyOne(z, n, q.ips[n]))
    && (forall id :: id in z && InPattern(z[id], q.prefix) ==> z[id].name in q.desired)
  }

  ghost predicate ExactlyOne(z: Zone, n: Name, ip: Ip) {
    exists id :: IsOnly(z, id, n) && z[id].data == ip && z[id].ttl == 60
  }

  ghost predicate IsOnly(z: Zone, id: RecId, n: Name) {
    && id in z && z[id].kind == "A" && z[id].name == n
    && forall x :: x in z && z[x].kind == "A" && z[x].name == n ==> x == id
  }

  const NoFaults := Faults({}, {}, {})

  lemma ListedIsA(order: seq<RecId>, z: Zone, n: Name, id: RecId)
    requires Lists(order, z)
    ensures id in Listed(order, z, n) <==> id in z && z[id].kind == "A" && z[id].name == n
  {
  }

  lemma ListedInNone(z: Zone, n: Name)
    ensures Listed([], z, n) == []
  {
  }

  lemma ListedSnoc(order: seq<RecId>, z: Zone, id: RecId, n: Name)
    requires id in z
    ensures Listed(order + [id], z, n) == Listed(order, z, n) + (if z[id].kind == "A" && z[id].name == n then [id] else [])
  {
    var p := (x: RecId) => x in z && z[x].kind == "A" && z[x].name == n;
    FilterConcat(order, [id], p);
    FilterOne(id, p);
  }

  /** If all calls succeed, the zone is in sync afterwards. */
  lemma SyncReaches(before: Zone, after: Zone, order: seq<RecId>, q: Request)
    requires Proper(q) && Lists(order, before) && SyncResult(before, after, order, q, NoFaults)
    ensures InSync(after, q)
  {
    forall id | id in after && InPattern(after[id], q.prefix) ensures after[id].name in q.desired {
      if id in before {
        assert RecOf(after, id) == Fate(order, before, q, NoFaults, id);
      } else {
        assert IsCreated(before, after, order, q, NoFaults, id);
      }
    }
    forall n | n in q.desired && n in q.ips ensures ExactlyOne(after, n, q.ips[n]) {
      var recs := Listed(order, before, n);
      if recs == [] {
        NewRecord(before, after, order, q, n);
      } else {
        FirstRecord(before, after, order, q, n);
      }
    }
  }

  lemma CreatedWereLacking(before: Zone, after: Zone, order: seq<RecId>, q: Request, f: Faults)
    requires SyncResult(before, after, order, q, f)
    ensures forall x :: x in after && x !in before ==> Lacking(order, before, q, after[x].name)
  {
    forall x | x in after && x !in before ensures Lacking(order, before, q, after[x].name) {
      assert IsCreated(before, after, order, q, f, x);
    }
  }

  lemma NewRecord(before: Zone, after: Zone, order: seq<RecId>, q: Request, n: Name)
    requires Proper(q) && Lists(order, before) && SyncResult(before, after, order, q, NoFaults)
    requires Lacking(order, before, q, n)
    ensures ExactlyOne(after, n, q.ips[n])
  {
    var id :| id in after && id !in before && after[id].name == n;
    assert IsCreated(before, after, order, q, NoFaults, id);
    forall x | x in before ensures before[x].kind != "A" || before[x].name != n {
      ListedIsA(order, before, n, x);
    }
    forall x | x in before && x in after ensures after[x].kind != "A" || after[x].name != n {
      assert RecOf(after, x) == Fate(order, before, q, NoFaults, x);
    }
    assert IsOnly(after, id, n);
  }

  lemma FirstRecord(before: Zone, after: Zone, order: seq<RecId>, q: Request, n: Name)
    requires Proper(q) && Lists(order, before) && SyncResult(before, after, order, q, NoFaults)
    requires n in q.desired && n in q.ips && Listed(order, before, n) != []
    ensures ExactlyOne(after, n, q.ips[n])
  {
    hide Fate, Listed, Lacking, IsCreated, InPattern, Numbered;
    var id := Listed(order, before, n)[0];
    assert id in Listed(order, before, n);
    ListedIsA(order, before, n, id);
    FateOfDesired(before, order, q, NoFaults, n, id);
    assert RecOf(after, id) == Fate(order, before, q, NoFaults, id);
    forall x | x in after && after[x].kind == "A" && after[x].name == n ensures x == id {
      if x in before {
        assert RecOf(after, x) == Fate(order, before, q, NoFaults, x);
        FateKeepsName(before, order, q, NoFaults, x);
        ListedIsA(order, before, n, x);
        FateOfDesired(before, order, q, NoFaults, n, x);
      } else {
        CreatedWasLacking(before, after, order, q, NoFaults, x);
      }
    }
    assert IsOnly(after, id, n);
  }

  lemma CreatedWasLacking(before: Zone, after: Zone, order: seq<RecId>, q: Request, f: Faults, id: RecId)
    requires SyncResult(before, after, order, q, f) && id in after && id !in before
    ensures Lacking(order, before, q, after[id].name) && Listed(order, before, after[id].name) == []
  {
    hide Listed, Fate;
    assert IsCreated(before, after, order, q, f, id);
  }

  lemma FateKeepsName(z: Zone, order: seq<RecId>, q: Request, f: Faults, id: RecId)
    requires id in z
    ensures var r := Fate(order, z, q, f, id); r.Some? ==> r.value.kind == z[id].kind && r.value.name == z[id].name
  {
    hide Listed, InPattern;
  }

  /** Records outside the pattern, and those of desired names without an address, are never touched, whatever fails. */
  lemma OthersUntouched(before: Zone, after: Zone, order: seq<RecId>, q: Request, f: Faults, id: RecId)
    requires SyncResult(before, after, order, q, f) && id in before
    requires before[id].kind != "A" || !Numbered(q.prefix, before[id].name) || (before[id].name in q.desired && before[id].name !in q.ips)
    ensures id in after && after[id] == before[id]
  {
    assert RecOf(after, id) == Fate(order, before, q, f, id);
  }

  /** A new record belongs to a desired name with an address that had no record, and has that address and 60 seconds to live. */
  lemma CreatedOnlyIfLacking(before: Zone, after: Zone, order: seq<RecId>, q: Request, f: Faults, id: RecId)
    requires Lists(order, before) && SyncResult(before, after, order, q, f) && id in after && id !in before
    ensures var n := after[id].name;
      && n in q.desired && n in q.ips && n !in f.creates && after[id] == Rec("A", n, q.ips[n], 60)
      && forall x :: x in before ==> before[x].kind != "A" || before[x].name != n
  {
    hide Fate, Listed;
    assert IsCreated(before, after, order, q, f, id);
    forall x | x in before ensures before[x].kind != "A" || before[x].name != after[id].name {
      ListedIsA(order, before, after[id].name, x);
    }
  }

  /** No A record of the same name is listed before this one. */
  ghost predicate FirstOfName(order: seq<RecId>, z: Zone, id: RecId)
    requires Lists(order, z) && id in z
  {
    exists i :: 0 <= i < |order| && order[i] == id
      && forall j :: 0 <= j < i ==> z[order[j]].kind != "A" || z[order[j]].name != z[id].name
  }

  lemma {:induction false} FirstMatch(order: seq<RecId>, p: RecId -> bool, i: nat)
    requires i < |order| && p(order[i]) && forall j :: 0 <= j < i ==> !p(order[j])
    ensures Filter(order, p) != [] && Filter(order, p)[0] == order[i]
  {
    if i > 0 {
      assert order[1..][i - 1] == order[i];
      FirstMatch(order[1..], p, i - 1);
    }
  }

  lemma {:induction false} MatchIsFirst(order: seq<RecId>, p: RecId -> bool) returns (i: nat)
    requires Filter(order, p) != []
    ensures i < |order| && p(order[i]) && order[i] == Filter(order, p)[0] && forall j :: 0 <= j < i ==> !p(order[j])
  {
    if p(order[0]) {
      i := 0;
    } else {
      var k := MatchIsFirst(order[1..], p);
      i := k + 1;
      forall j | 0 <= j < i ensures !p(order[j]) {
        if j > 0 { assert order[j] == order[1..][j - 1]; }
      }
    }
  }

  lemma FirstOfNameIs(order: seq<RecId>, z: Zone, id: RecId)
    requires Lists(order, z) && id in z && z[id].kind == "A"
    ensures Listed(order, z, z[id].name) != []
    ensures FirstOfName(order, z, id) <==> Listed(order, z, z[id].name)[0] == id
  {
    var p := (x: RecId) => x in z && z[x].kind == "A" && z[x].name == z[id].name;
    ListedIsA(order, z, z[id].name, id);
    var k := MatchIsFirst(order, p);
    if FirstOfName(order, z, id) {
      var i :| 0 <= i < |order| && order[i] == id
        && forall j :: 0 <= j < i ==> z[order[j]].kind != "A" || z[order[j]].name != z[id].name;
      FirstMatch(order, p, i);
    }
  }

  /**
   Call by call, failures included: a record of a name that is not desired goes unless its deletion
   fails; of a desired name with an address, the first listed record gets address and 60 seconds
   unless its save fails, and the others go unless their deletion fails.
   */
  lemma EachCallDecides(before: Zone, after: Zone, order: seq<RecId>, q: Request, f: Faults, id: RecId)
    requires Lists(order, before) && SyncResult(before, after, order, q, f)
    requires id in before && before[id].kind == "A" && Numbered(q.prefix, before[id].name)
    ensures var r := before[id];
      if r.name !in q.desired || (r.name in q.ips && !FirstOfName(order, before, id)) then
        if id in f.destroys then id in after && after[id] == r else id !in after
      else if r.name in q.ips && id !in f.saves then id in after && after[id] == Rec("A", r.name, q.ips[r.name], 60)
      else id in after && after[id] == r
  {
    hide Listed, Numbered, FirstOfName;
    assert RecOf(after, id) == Fate(order, before, q, f, id);
    FirstOfNameIs(order, before, id);
  }

  /** A desired name with an address and no record gets exactly one new record, unless its creation fails. */
  lemma CreationDecides(before: Zone, after: Zone, order: seq<RecId>, q: Request, f: Faults, n: Name)
    requires Lists(order, before) && SyncResult(before, after, order, q, f)
    requires n in q.desired && n in q.ips && forall x :: x in before ==> before[x].kind != "A" || before[x].name != n
    ensures n in f.creates <==> forall x :: x in after && x !in before ==> after[x].name != n
    ensures forall a, b :: a in after && b in after && a !in before && b !in before && after[a].name == n == after[b].name ==> a == b
  {
    FilterNone(order, (id: RecId) => id in before && before[id].kind == "A" && before[id].name == n);
    assert Lacking(order, before, q, n);
    hide Listed, Fate;
    forall x | x in after && x !in before ensures after[x].name !in f.creates {
      assert IsCreated(before, after, order, q, f, x);
    }
  }

  /** A sync of a zone that is in sync changes nothing, so all its counts are zero. */
  lemma SyncIsIdempotent(before: Zone, after: Zone, order: seq<RecId>, q: Request, f: Faults)
    requires Proper(q) && Lists(order, before) && InSync(before, q) && SyncResult(before, after, order, q, f)
    ensures after == before && Changed(before, after) == {}
  {
    forall id | id in before ensures RecOf(after, id) == Some(before[id]) {
      assert RecOf(after, id) == Fate(order, before, q, f, id);
      var n := before[id].name;
      if InPattern(before[id], q.prefix) && n in q.ips {
        assert ExactlyOne(before, n, q.ips[n]);
        ListedIsA(order, before, n, id);
        if Listed(order, before, n) != [] {
          var first := Listed(order, before, n)[0];
          assert first in Listed(order, before, n);
          ListedIsA(order, before, n, first);
        }
      }
    }
    CreatedWereLacking(before, after, order, q, f);
    forall n ensures !Lacking(order, before, q, n) {
      InSyncLacksNone(order, before, q, n);
    }
    forall id ensures RecOf(after, id) == RecOf(before, id) {
    }
    SameZone(before, after);
  }

  lemma InSyncLacksNone(order: seq<RecId>, z: Zone, q: Request, n: Name)
    requires Lists(order, z) && InSync(z, q)
    ensures !Lacking(order, z, q, n)
  {
    if n in q.desired && n in q.ips {
      assert ExactlyOne(z, n, q.ips[n]);
      var x :| IsOnly(z, x, n);
      ListedIsA(order, z, n, x);
    }
  }

  lemma SameZone(a: Zone, b: Zone)
    requires forall id :: RecOf(b, id) == RecOf(a, id)
    ensures a == b
  {
    forall id ensures id in a <==> id in b {
      assert RecOf(b, id) == RecOf(a, id);
    }
    forall id | id in a ensures a[id] == b[id] {
      assert RecOf(b, id) == RecOf(a, id);
    }
  }

  // ---- Counting ----

  ghost function Created(before: Zone, after: Zone): set<RecId> {
    after.Keys - before.Keys
  }

  ghost function Vanished(before: Zone, after: Zone): set<RecId> {
    before.Keys - after.Keys
  }

  /** The three counts of a run, relative to the zone it started from. */
  ghost predicate Counts(start: Zone, now: Zone, created: nat, updated: nat, removed: nat) {
    && created == |Created(start, now)|
    && updated == |Changed(start, now)|
    && removed == |Vanished(start, now)|
  }

  lemma CardUnion(x: set<RecId>, y: set<RecId>)
    requires x !! y
    ensures |x + y| == |x| + |y|
  {
  }

  /** A step that creates nothing and touches only records still as they were at the start. */
  ghost predicate Touches(start: Zone, a: Zone, b: Zone, touched: set<RecId>) {
    && b.Keys <= a.Keys
    && (forall id :: id in touched ==> id in start && id in a && a[id] == start[id])
    && (forall id :: id in a && id !in touched ==> id in b && b[id] == a[id])
  }

  lemma VanishedStep(start: Zone, a: Zone, b: Zone, touched: set<RecId>)
    requires Touches(start, a, b, touched)
    ensures Vanished(start, b) == Vanished(start, a) + Vanished(a, b) && Vanished(start, a) !! Vanished(a, b)
    ensures Created(start, b) == Created(start, a)
  {
  }

  lemma ChangedStep(start: Zone, a: Zone, b: Zone, touched: set<RecId>)
    requires Touches(start, a, b, touched)
    ensures Changed(start, b) == Changed(start, a) + Changed(a, b) && Changed(start, a) !! Changed(a, b)
  {
    forall id | id in Changed(start, a) ensures id !in touched && id in Changed(start, b) {
    }
    forall id | id in Changed(a, b) ensures id in touched && id in Changed(start, b) {
    }
  }

  lemma CountStep(start: Zone, a: Zone, b: Zone, touched: set<RecId>, created: nat, updated: nat, removed: nat, u: nat, r: nat)
    requires Counts(start, a, created, updated, removed) && Counts(a, b, 0, u, r)
    requires Touches(start, a, b, touched)
    ensures Counts(start, b, created, updated + u, removed + r)
  {
    hide Vanished, Created, Changed, Touches;
    VanishedStep(start, a, b, touched);
    ChangedStep(start, a, b, touched);
    CardUnion(Vanished(start, a), Vanished(a, b));
    CardUnion(Changed(start, a), Changed(a, b));
  }

  lemma CreatedStep(start: Zone, a: Zone, b: Zone, id: RecId)
    requires id !in a && id !in start && b.Keys == a.Keys + {id} && forall x :: x in a ==> b[x] == a[x]
    ensures Created(start, b) == Created(start, a) + {id} && id !in Created(start, a)
    ensures Vanished(start, b) == Vanished(start, a)
    ensures Changed(start, b) == Changed(start, a)
  {
  }

  lemma CountCreate(start: Zone, a: Zone, b: Zone, id: RecId, created: nat, updated: nat, removed: nat)
    requires Counts(start, a, created, updated, removed)
    requires id !in a && id !in start && b.Keys == a.Keys + {id} && forall x :: x in a ==> b[x] == a[x]
    ensures Counts(start, b, created + 1, updated, removed)
  {
    CreatedStep(start, a, b, id);
    hide Vanished, Created, Changed;
    CardUnion(Created(start, a), {id});
  }

  lemma NoCounts(z: Zone)
    ensures Counts(z, z, 0, 0, 0)
  {
    assert Changed(z, z) == {} && Created(z, z) == {} && Vanished(z, z) == {};
  }

  /** After a run in which all calls succeeded, a second run reports nothing created, updated or removed. */
  lemma SecondRunReportsNothing(z0: Zone, z1: Zone, z2: Zone, order0: seq<RecId>, order1: seq<RecId>, q: Request, f: Faults,
                                created: nat, updated: nat, removed: nat)
    requires Proper(q) && Lists(order0, z0) && SyncResult(z0, z1, order0, q, NoFaults)
    requires Lists(order1, z1) && SyncResult(z1, z2, order1, q, f) && Counts(z1, z2, created, updated, removed)
    ensures z2 == z1 && created == updated == removed == 0
  {
    SyncReaches(z0, z1, order0, q);
    SyncIsIdempotent(z1, z2, order1, q, f);
    NoCounts(z1);
  }

  ghost function Ids(recs: seq<RecId>): set<RecId> {
    set id | id in recs
  }

  lemma IdsGrow(recs: seq<RecId>, i: nat)
    requires i < |recs| && forall a, b :: 0 <= a < b < |recs| ==> recs[a] != recs[b]
    ensures Ids(recs[..i + 1]) == Ids(recs[..i]) + {recs[i]} && recs[i] !in Ids(recs[..i])
  {
    assert recs[..i + 1] == recs[..i] + [recs[i]];
  }

  /** The given records are gone, as far as their deletion succeeds, and the others as they were. */
  ghost predicate Deleted(start: Zone, now: Zone, ids: set<RecId>, f: Faults) {
    forall id :: RecOf(now, id) == if id in ids && id !in f.destroys then None else RecOf(start, id)
  }

  lemma NoneDeleted(z: Zone, f: Faults)
    ensures Ids([]) == {} && Deleted(z, z, {}, f)
  {
  }

  lemma DeleteNext(start: Zone, now: Zone, ids: set<RecId>, f: Faults, id: RecId)
    requires Deleted(start, now, ids, f) && id !in ids && id in start
    ensures id in now && now[id] == start[id]
    ensures Deleted(start, if id in f.destroys then now else now - {id}, ids + {id}, f)
  {
    assert RecOf(now, id) == RecOf(start, id);
    forall x | x != id ensures RecOf(now - {id}, x) == RecOf(now, x) {
    }
  }

  lemma DeletedOnly(start: Zone, now: Zone, ids: set<RecId>, f: Faults)
    requires Deleted(start, now, ids, f) && forall id :: id in ids ==> id in start
    ensures Touches(start, start, now, ids)
  {
    Untouched(start, now, ids);
  }

  lemma DestroyedStep(start: Zone, a: Zone, id: RecId)
    requires id in start && id in a && a[id] == start[id]
    ensures Vanished(start, a - {id}) == Vanished(start, a) + {id} && id !in Vanished(start, a)
    ensures Created(start, a - {id}) == Created(start, a)
    ensures Changed(start, a - {id}) == Changed(start, a)
  {
  }

  lemma CountDestroy(start: Zone, a: Zone, id: RecId, created: nat, updated: nat, removed: nat)
    requires Counts(start, a, created, updated, removed)
    requires id in start && id in a && a[id] == start[id]
    ensures Counts(start, a - {id}, created, updated, removed + 1)
  {
    DestroyedStep(start, a, id);
    hide Vanished, Created, Changed;
    CardUnion(Vanished(start, a), {id});
  }

  lemma Untouched(a: Zone, b: Zone, touched: set<RecId>)
    requires forall id :: id in touched ==> id in a
    requires forall id :: id !in touched ==> RecOf(b, id) == RecOf(a, id)
    ensures Touches(a, a, b, touched)
  {
    forall id | id in b ensures id in a {
      if id !in touched { assert RecOf(b, id) == RecOf(a, id); }
    }
    forall id | id in a && id !in touched ensures id in b && b[id] == a[id] {
      assert RecOf(b, id) == RecOf(a, id);
    }
  }

  /** Half-way, a step on the untouched records of one name. */
  lemma TouchesFromStart(start: Zone, a: Zone, b: Zone, touched: set<RecId>)
    requires Touches(a, a, b, touched)
    requires forall id :: id in touched ==> id in start && id in a && a[id] == start[id]
    ensures Touches(start, a, b, touched)
  {
  }

  // ---- Half-way through ----

  /** The names in `done` have been dealt with, and nothing else has been touched. */
  ghost predicate HalfWay(start: Zone, now: Zone, order: seq<RecId>, q: Request, f: Faults, done: set<Name>) {
    && (forall id :: id in start ==>
          RecOf(now, id) == if InPattern(start[id], q.prefix) && start[id].name in done then Fate(order, start, q, f, id) else Some(start[id]))
    && (forall id :: id in now && id !in start ==> IsCreated(start, now, order, q, f, id) && now[id].name in done)
    && (forall n :: n in done && Lacking(order, start, q, n) && n !in f.creates ==> exists id :: id in now && id !in start && now[id].name == n)
    && (forall a, b :: a in now && b in now && a !in start && b !in start && now[a].name == now[b].name ==> a == b)
  }

  /** A name that is passed over: without an address, or without a record and with a failing creation. */
  lemma SkipName(start: Zone, now: Zone, order: seq<RecId>, q: Request, f: Faults, done: set<Name>, n: Name)
    requires Lists(order, start) && HalfWay(start, now, order, q, f, done)
    requires n in q.desired && (n !in q.ips || (Listed(order, start, n) == [] && n in f.creates))
    ensures HalfWay(start, now, order, q, f, done + {n})
  {
    hide Listed;
  }

  /** A name without a record gets one. */
  lemma CreateName(start: Zone, was: Zone, now: Zone, order: seq<RecId>, q: Request, f: Faults, done: set<Name>, n: Name, id: RecId)
    requires Lists(order, start) && HalfWay(start, was, order, q, f, done)
    requires n !in done && Lacking(order, start, q, n) && n !in f.creates
    requires id !in was && id !in start && now == was[id := Rec("A", n, q.ips[n], TTL)]
    ensures HalfWay(start, now, order, q, f, done + {n})
  {
    OldOnesStay(start, was, now, order, q, f, done, n);
    NewOneIsDue(start, was, now, order, q, f, done, n, id);
    ProvidedWith(start, was, now, order, q, f, done, n, id);
    hide Listed, Fate, InPattern, Lacking, IsCreated, RecOf, Lists;
  }

  /** Without records of that name there is nothing old to deal with. */
  lemma OldOnesStay(start: Zone, was: Zone, now: Zone, order: seq<RecId>, q: Request, f: Faults, done: set<Name>, n: Name)
    requires Lists(order, start) && HalfWay(start, was, order, q, f, done) && Lacking(order, start, q, n)
    requires forall x :: x in start ==> RecOf(now, x) == RecOf(was, x)
    ensures forall id :: id in start ==>
      RecOf(now, id) == if InPattern(start[id], q.prefix) && start[id].name in done + {n} then Fate(order, start, q, f, id) else Some(start[id])
  {
    NoneListed(order, start, q, n);
    hide Listed, Fate, InPattern, Lacking, IsCreated, RecOf;
  }

  lemma NewOneIsDue(start: Zone, was: Zone, now: Zone, order: seq<RecId>, q: Request, f: Faults, done: set<Name>, n: Name, id: RecId)
    requires HalfWay(start, was, order, q, f, done) && n !in done && Lacking(order, start, q, n) && n !in f.creates
    requires id !in was && id !in start && now == was[id := Rec("A", n, q.ips[n], TTL)]
    ensures forall x :: x in now && x !in start ==> IsCreated(start, now, order, q, f, x) && now[x].name in done + {n}
    ensures forall a, b :: a in now && b in now && a !in start && b !in start && now[a].name == now[b].name ==> a == b
  {
    hide Listed, Fate, InPattern, Lacking;
    forall x | x in now && x !in start ensures IsCreated(start, now, order, q, f, x) && now[x].name in done + {n} {
      if x != id { assert IsCreated(start, was, order, q, f, x); }
    }
  }

  lemma NoneListed(order: seq<RecId>, z: Zone, q: Request, n: Name)
    requires Lists(order, z) && Lacking(order, z, q, n)
    ensures forall id :: id in z && InPattern(z[id], q.prefix) ==> z[id].name != n
  {
    forall id | id in z && InPattern(z[id], q.prefix) ensures z[id].name != n {
      ListedIsA(order, z, n, id);
    }
  }

  lemma ProvidedWith(start: Zone, was: Zone, now: Zone, order: seq<RecId>, q: Request, f: Faults, done: set<Name>, n: Name, id: RecId)
    requires HalfWay(start, was, order, q, f, done) && id !in was && id !in start && id in now && now[id].name == n
    requires forall x :: x in was ==> x in now && now[x] == was[x]
    ensures forall m | m in done + {n} && Lacking(order, start, q, m) && m !in f.creates ::
      exists x :: x in now && x !in start && now[x].name == m
  {
    hide Listed, Fate, InPattern, Lacking, IsCreated;
    forall m | m in done + {n} && Lacking(order, start, q, m) && m !in f.creates
      ensures exists x :: x in now && x !in start && now[x].name == m
    {
      if m == n {
        assert id in now;
      } else {
        var x :| x in was && x !in start && was[x].name == m;
        assert x in now;
      }
    }
  }

  lemma NothingDone(z: Zone, order: seq<RecId>, q: Request, f: Faults)
    ensures HalfWay(z, z, order, q, f, {})
  {
  }

  ghost predicate KeysBelow(z: Zone, key: nat) {
    forall id :: id in z ==> id.key < key
  }

  lemma FateOfUndesired(start: Zone, order: seq<RecId>, q: Request, f: Faults, n: Name, id: RecId)
    requires Lists(order, start) && n !in q.desired && Numbered(q.prefix, n) && id in Listed(order, start, n)
    ensures id in start && Fate(order, start, q, f, id) == if id in f.destroys then Some(start[id]) else None
  {
    ListedIsA(order, start, n, id);
  }

  lemma FateOfDesired(start: Zone, order: seq<RecId>, q: Request, f: Faults, n: Name, id: RecId)
    requires Lists(order, start) && n in q.desired && n in q.ips && Numbered(q.prefix, n) && id in Listed(order, start, n)
    ensures id in start && Fate(order, start, q, f, id) == Kept(start[id], id, Listed(order, start, n)[0], q.ips[n], f)
  {
    ListedIsA(order, start, n, id);
  }

  /** The records of a name not dealt with yet are as they were. */
  lemma StillListed(start: Zone, now: Zone, order: seq<RecId>, q: Request, f: Faults, done: set<Name>, n: Name)
    requires Lists(order, start) && HalfWay(start, now, order, q, f, done)
    requires n !in done
    ensures var recs := Listed(order, start, n);
      && (forall i, j :: 0 <= i < j < |recs| ==> recs[i] != recs[j])
      && (forall id :: id in recs ==> id in start && id in now && now[id] == start[id])
      && (forall id :: id in recs <==> id in start && start[id].kind == "A" && start[id].name == n)
  {
    FilterDistinct(order, (id: RecId) => id in start && start[id].kind == "A" && start[id].name == n);
    forall id | id in Listed(order, start, n) ensures id in now && now[id] == start[id] {
      assert RecOf(now, id) == Some(start[id]);
    }
  }

  /** A name whose records have met their fate. */
  lemma NameDone(start: Zone, was: Zone, now: Zone, order: seq<RecId>, q: Request, f: Faults, done: set<Name>, n: Name)
    requires Lists(order, start) && HalfWay(start, was, order, q, f, done)
    requires n !in done && Numbered(q.prefix, n) && Listed(order, start, n) != []
    requires forall id :: RecOf(now, id) == if id in Listed(order, start, n) then Fate(order, start, q, f, id) else RecOf(was, id)
    ensures HalfWay(start, now, order, q, f, done + {n})
  {
    StillListed(start, was, order, q, f, done, n);
    NewOnesStay(start, was, now, order, q, f, done, n);
    hide Listed, Numbered, Fate, Lacking, IsCreated;
    forall id | id in start
      ensures RecOf(now, id) == if InPattern(start[id], q.prefix) && start[id].name in done + {n} then Fate(order, start, q, f, id) else Some(start[id])
    {
      assert RecOf(now, id) == if id in Listed(order, start, n) then Fate(order, start, q, f, id) else RecOf(was, id);
    }
  }

  /** Dealing with records that were there at the start changes nothing about the new ones. */
  lemma NewOnesStay(start: Zone, was: Zone, now: Zone, order: seq<RecId>, q: Request, f: Faults, done: set<Name>, n: Name)
    requires HalfWay(start, was, order, q, f, done) && Listed(order, start, n) != []
    requires forall id :: id !in start ==> RecOf(now, id) == RecOf(was, id)
    ensures forall id :: id in now && id !in start ==> IsCreated(start, now, order, q, f, id) && now[id].name in done
    ensures forall m | m in done + {n} && Lacking(order, start, q, m) && m !in f.creates ::
      exists x :: x in now && x !in start && now[x].name == m
    ensures forall a, b :: a in now && b in now && a !in start && b !in start && now[a].name == now[b].name ==> a == b
  {
    hide Fate, InPattern, Listed;
    forall id | id !in start ensures id in now <==> id in was {
      assert RecOf(now, id) == RecOf(was, id);
    }
    forall id | id in now && id !in start ensures now[id] == was[id] && IsCreated(start, now, order, q, f, id) {
      assert RecOf(now, id) == RecOf(was, id);
      assert IsCreated(start, was, order, q, f, id);
    }
    forall m | m in done + {n} && Lacking(order, start, q, m) && m !in f.creates
      ensures exists x :: x in now && x !in start && now[x].name == m
    {
      var x :| x in was && x !in start && was[x].name == m;
      assert x in now;
    }
  }

  lemma AllCovered(z: Zone, order: seq<RecId>, prefix: string, current: map<Name, seq<RecId>>, done: set<Name>)
    requires Lists(order, z) && Groups(current, order, z, prefix) && forall n :: n in current ==> n in done
    ensures forall id :: id in z && InPattern(z[id], prefix) ==> z[id].name in done
  {
    forall id | id in z && InPattern(z[id], prefix) ensures z[id].name in done {
      ListedIsA(order, z, z[id].name, id);
      assert id in Listed(order, z, z[id].name);
    }
  }

  lemma AllDone(start: Zone, now: Zone, order: seq<RecId>, q: Request, f: Faults, done: set<Name>)
    requires Lists(order, start) && HalfWay(start, now, order, q, f, done)
    requires q.desired <= done && forall id :: id in start && InPattern(start[id], q.prefix) ==> start[id].name in done
    ensures SyncResult(start, now, order, q, f)
  {
    forall id | id in start ensures RecOf(now, id) == Fate(order, start, q, f, id) {
    }
    forall id | id in now && id !in start ensures IsCreated(start, now, order, q, f, id) {
    }
  }

  // ---- The code ----

  class Domain {
    var records: Zone
    var nextKey: nat

    ghost predicate Valid()
      reads this
    {
      forall id :: id in records ==> id.key < nextKey
    }

    /** The server gives a new record an identity of its own. */
    method Create(r: Rec) returns (id: RecId)
      requires Valid()
      modifies this
      ensures Valid() && id !in old(records) && records == old(records)[id := r]
      ensures id.key == old(nextKey) < nextKey
    {
      id := RecId(nextKey);
      records := records[id := r];
      nextKey := nextKey + 1;
    }

    /** Deletes the given records, as far as the calls succeed. */
    method DestroyAll(recs: seq<RecId>, f: Faults) returns (removed: nat)
      requires Valid() && forall i, j :: 0 <= i < j < |recs| ==> recs[i] != recs[j]
      requires forall id :: id in recs ==> id in records
      modifies this`records
      ensures Valid()
      ensures Deleted(old(records), records, Ids(recs), f)
      ensures Counts(old(records), records, 0, 0, removed)
    {
      hide Counts, Deleted, Ids, RecOf;
      removed := 0;
      ghost var start, done := records, {};
      NoCounts(start);
      NoneDeleted(start, f);
      assert recs[..0] == [];
      for i := 0 to |recs|
        invariant Valid()
        invariant done == Ids(recs[..i])
        invariant Deleted(start, records, done, f)
        invariant Counts(start, records, 0, 0, removed)
      {
        var id := recs[i];
        IdsGrow(recs, i);
        DeleteNext(start, records, done, f, id);
        if id !in f.destroys {
          CountDestroy(start, records, id, 0, 0, removed);
          records := records - {id};
          removed := removed + 1;
        }
        done := done + {id};
      }
      assert recs[..|recs|] == recs;
    }

    /** Brings the first record up to date and deletes the others. */
    method UpdateName(recs: seq<RecId>, ip: Ip, f: Faults) returns (updated: nat, removed: nat)
      requires Valid() && recs != [] && forall i, j :: 0 <= i < j < |recs| ==> recs[i] != recs[j]
      requires forall id :: id in recs ==> id in records
      modifies this`records
      ensures Valid()
      ensures forall id ::
        RecOf(records, id) == (if id in recs then Kept(old(records)[id], id, recs[0], ip, f) else RecOf(old(records), id))
      ensures Counts(old(records), records, 0, updated, removed)
      ensures Touches(old(records), old(records), records, Ids(recs))
    {
      hide Counts;
      ghost var start := records;
      var primary := recs[0];
      updated := SavePrimary(primary, ip, f);
      ghost var saved := records;
      var dups := recs[1..];
      assert forall id :: id in recs <==> id == primary || id in dups;
      assert forall i :: 0 <= i < |dups| ==> dups[i] == recs[i + 1];
      removed := DestroyAll(dups, f);
      DeletedOnly(saved, records, Ids(dups), f);
      forall id ensures RecOf(records, id) == (if id in recs then Kept(start[id], id, recs[0], ip, f) else RecOf(start, id)) {
        assert RecOf(records, id) == if id in Ids(dups) && id !in f.destroys then None else RecOf(saved, id);
      }
      Untouched(start, records, Ids(recs));
      assert Touches(start, saved, records, Ids(dups));
      CountStep(start, saved, records, Ids(dups), 0, updated, 0, 0, removed);
    }

    /** Sets address and time to live, and saves the record if that changed anything. */
    method SavePrimary(primary: RecId, ip: Ip, f: Faults) returns (updated: nat)
      requires Valid() && primary in records
      modifies this`records
      ensures Valid() && records.Keys == old(records).Keys
      ensures records == old(records)[primary := if primary in f.saves then old(records)[primary] else old(records)[primary].(data := ip, ttl := TTL)]
      ensures Counts(old(records), records, 0, updated, 0)
    {
      var r := records[primary];
      var changed := false;
      if r.data != ip {
        r := r.(data := ip);
        changed := true;
      }
      if r.ttl != TTL {
        r := r.(ttl := TTL);
        changed := true;
      }
      updated := 0;
      if changed && primary !in f.saves {
        records := records[primary := r];
        updated := 1;
      }
      assert Changed(old(records), records) == if updated == 1 then {primary} else {};
      assert Created(old(records), records) == {} && Vanished(old(records), records) == {};
    }

    /** The whole command, given the swarm's hostnames and the addresses of the droplets. */
    method SyncDomainRecords(order: seq<RecId>, hostnames: seq<string>, ips: map<Name, Ip>, prefix: string, f: Faults)
        returns (created: nat, updated: nat, removed: nat)
      requires Valid() && Lists(order, records)
      modifies this
      ensures Valid()
      ensures SyncResult(old(records), records, order, Request(DesiredNames(hostnames, prefix), ips, prefix), f)
      ensures Counts(old(records), records, created, updated, removed)
      ensures created == |records.Keys - old(records).Keys| && removed == |old(records).Keys - records.Keys|
      ensures updated == |Changed(old(records), records)|
    {
      hide SyncResult, Lists, DesiredNames, Changed;
      created, updated, removed := SyncDomain(order, Request(DesiredNames(hostnames, prefix), ips, prefix), f);
    }

    /**
     Each desired name, then each listed name that is no longer desired. The counts are those of the
     records created, changed and deleted on the server.
     */
    method SyncDomain(order: seq<RecId>, q: Request, f: Faults) returns (created: nat, updated: nat, removed: nat)
      requires Valid() && Proper(q) && Lists(order, records)
      modifies this
      ensures Valid()
      ensures SyncResult(old(records), records, order, q, f)
      ensures Counts(old(records), records, created, updated, removed)
    {
      var current := CurrentA(order, records, q.prefix);
      ghost var start := records;
      created, updated, removed := UpdateDesired(order, q, f, current);
      var r;
      ghost var done;
      r, done := RemoveUndesired(start, order, q, f, current, created, updated, removed);
      removed := removed + r;
      hide HalfWay, Lists, Groups, Counts;
      AllCovered(start, order, q.prefix, current, done);
      AllDone(start, records, order, q, f, done);
    }

    /** Creates or updates the desired names' records. */
    method UpdateDesired(ghost order: seq<RecId>, q: Request, f: Faults, current: map<Name, seq<RecId>>)
        returns (created: nat, updated: nat, removed: nat)
      requires Valid() && Proper(q) && Lists(order, records)
      requires Groups(current, order, records, q.prefix)
      modifies this
      ensures Valid()
      ensures HalfWay(old(records), records, order, q, f, q.desired)
      ensures Counts(old(records), records, created, updated, removed)
    {
      hide Listed, Numbered, Counts, HalfWay, Lists, Groups;
      ghost var start, done := records, {};
      NoCounts(start);
      NothingDone(start, order, q, f);
      created, updated, removed := 0, 0, 0;
      var todo := q.desired;
      while todo != {}
        invariant Valid() && KeysBelow(start, nextKey)
        invariant forall n :: n in q.desired <==> n in todo || n in done
        invariant forall n :: n in todo ==> n !in done
        invariant HalfWay(start, records, order, q, f, done)
        invariant Counts(start, records, created, updated, removed)
        decreases |todo|
      {
        assert |todo| > 0;
        var short :| short in todo;
        todo := todo - {short};
        var c, u, r := SyncName(start, order, q, f, done, current, short, created, updated, removed);
        created, updated, removed := created + c, updated + u, removed + r;
        done := done + {short};
      }
      assert done == q.desired;
    }

    /** One desired name. */
    method SyncName(ghost start: Zone, ghost order: seq<RecId>, q: Request, f: Faults, ghost done: set<Name>,
                    current: map<Name, seq<RecId>>, short: Name,
                    ghost created: nat, ghost updated: nat, ghost removed: nat)
        returns (c: nat, u: nat, r: nat)
      requires Valid() && Lists(order, start) && HalfWay(start, records, order, q, f, done)
      requires KeysBelow(start, nextKey) && Groups(current, order, start, q.prefix)
      requires Counts(start, records, created, updated, removed)
      requires short !in done && short in q.desired && Numbered(q.prefix, short)
      modifies this
      ensures Valid() && KeysBelow(start, nextKey)
      ensures HalfWay(start, records, order, q, f, done + {short})
      ensures Counts(start, records, created + c, updated + u, removed + r)
    {
      hide Listed, Numbered, HalfWay, Counts, Touches, Fate, SyncResult, Lists;
      ghost var was := records;
      c, u, r := 0, 0, 0;
      if short !in q.ips {
        SkipName(start, was, order, q, f, done, short);
      } else if short !in current {
        if short !in f.creates {
          var id := Create(Rec("A", short, q.ips[short], TTL));
          c := 1;
          CreateName(start, was, records, order, q, f, done, short, id);
          CountCreate(start, was, records, id, created, updated, removed);
        } else {
          SkipName(start, was, order, q, f, done, short);
        }
      } else {
        StillListed(start, was, order, q, f, done, short);
        u, r := UpdateName(current[short], q.ips[short], f);
        TouchesFromStart(start, was, records, Ids(current[short]));
        CountStep(start, was, records, Ids(current[short]), created, updated, removed, u, r);
        forall id ensures RecOf(records, id) == if id in Listed(order, start, short) then Fate(order, start, q, f, id) else RecOf(was, id) {
          if id in Listed(order, start, short) { FateOfDesired(start, order, q, f, short, id); }
        }
        NameDone(start, was, records, order, q, f, done, short);
      }
    }

    /** The listed names that are not desired lose all their records. */
    method RemoveUndesired(ghost start: Zone, ghost order: seq<RecId>, q: Request, f: Faults, current: map<Name, seq<RecId>>,
                           ghost created: nat, ghost updated: nat, ghost removed: nat)
        returns (r: nat, ghost done: set<Name>)
      requires Valid() && Lists(order, start) && HalfWay(start, records, order, q, f, q.desired)
      requires Counts(start, records, created, updated, removed)
      requires Groups(current, order, start, q.prefix)
      modifies this`records
      ensures Valid()
      ensures q.desired <= done && forall n :: n in current ==> n in done
      ensures HalfWay(start, records, order, q, f, done)
      ensures Counts(start, records, created, updated, removed + r)
    {
      hide *;
      var undesired := current.Keys - q.desired;
      r := RemoveAll(start, order, q, f, current, undesired, created, updated, removed);
      done := q.desired + undesired;
    }

    method RemoveAll(ghost start: Zone, ghost order: seq<RecId>, ghost q: Request, f: Faults, current: map<Name, seq<RecId>>,
                     names: set<Name>, ghost created: nat, ghost updated: nat, ghost removed: nat)
        returns (r: nat)
      requires Valid() && Lists(order, start) && HalfWay(start, records, order, q, f, q.desired)
      requires Counts(start, records, created, updated, removed)
      requires Groups(current, order, start, q.prefix)
      requires forall n :: n in names ==> n in current && n !in q.desired
      modifies this`records
      ensures Valid()
      ensures HalfWay(start, records, order, q, f, q.desired + names)
      ensures Counts(start, records, created, updated, removed + r)
    {
      hide *;
      r := 0;
      var todo := names;
      ghost var done := q.desired;
      while todo != {}
        invariant Valid()
        invariant forall n :: n in q.desired + names <==> n in todo || n in done
        invariant forall n :: n in todo ==> n !in done && n in current && n !in q.desired
        invariant HalfWay(start, records, order, q, f, done)
        invariant Counts(start, records, created, updated, removed + r)
        decreases |todo|
      {
        assert |todo| > 0;
        var short :| short in todo;
        todo := todo - {short};
        var n := RemoveName(start, order, q, f, done, current, short, created, updated, removed + r);
        r := r + n;
        done := done + {short};
      }
      assert done == q.desired + names;
    }

    /** One listed name that is not desired. */
    method RemoveName(ghost start: Zone, ghost order: seq<RecId>, ghost q: Request, f: Faults, ghost done: set<Name>,
                      current: map<Name, seq<RecId>>, short: Name, ghost created: nat, ghost updated: nat, ghost removed: nat)
        returns (n: nat)
      requires Valid() && Lists(order, start) && HalfWay(start, records, order, q, f, done)
      requires Counts(start, records, created, updated, removed)
      requires short !in done && short !in q.desired
      requires Groups(current, order, start, q.prefix) && short in current
      modifies this`records
      ensures Valid() && HalfWay(start, records, order, q, f, done + {short})
      ensures Counts(start, records, created, updated, removed + n)
    {
      hide Listed, Numbered, HalfWay, Counts, Touches, Fate, Lists, Groups;
      ghost var was := records;
      var recs := current[short];
      GroupOf(current, order, start, q.prefix, short);
      StillListed(start, was, order, q, f, done, short);
      n := DestroyAll(recs, f);
      DeletedOnly(was, records, Ids(recs), f);
      TouchesFromStart(start, was, records, Ids(recs));
      CountStep(start, was, records, Ids(recs), created, updated, removed, 0, n);
      forall id ensures RecOf(records, id) == if id in Listed(order, start, short) then Fate(order, start, q, f, id) else RecOf(was, id) {
        assert RecOf(records, id) == if id in Ids(recs) && id !in f.destroys then None else RecOf(was, id);
        if id in Listed(order, start, short) { FateOfUndesired(start, order, q, f, short, id); }
      }
      NameDone(start, was, records, order, q, f, done, short);
    }
  }

  /** Groups the pattern's A records by name, keeping the listing order. */
  method CurrentA(order: seq<RecId>, z: Zone, prefix: string) returns (current: map<Name, seq<RecId>>)
    requires Lists(order, z)
    ensures Groups(current, order, z, prefix)
  {
    hide Numbered, Listed;
    current := map[];
    forall n ensures Listed([], z, n) == [] {
      ListedInNone(z, n);
    }
    assert order[..0] == [];
    for i := 0 to |order|
      invariant forall n :: n in current <==> Numbered(prefix, n) && Listed(order[..i], z, n) != []
      invariant forall n :: n in current ==> current[n] == Listed(order[..i], z, n)
    {
      var id := order[i];
      assert order[..i + 1] == order[..i] + [id];
      var r := z[id];
      forall n ensures Listed(order[..i + 1], z, n)
                    == Listed(order[..i], z, n) + (if r.kind == "A" && r.name == n then [id] else []) {
        ListedSnoc(order[..i], z, id, n);
      }
      if r.kind == "A" && Numbered(prefix, r.name) {
        current := current[r.name := (if r.name in current then current[r.name] else []) + [id]];
      }
    }
    assert order[..|order|] == order;
  }
}
