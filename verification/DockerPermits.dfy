/**
 The semaphore discipline of the code-server manager: every public method takes one of N permits
 around its Docker calls, helpers called inside such a block never do, and starting a host takes a
 per-upstream fork lock (found under a global mutex) while it holds its permit.

 A method call is the sequence of lock operations and calls it performs, given how its outside
 calls turn out; an exception only cuts the middle short, since permits and locks are given back
 on the way out.
 */
module DockerPermits {
  import opened Common

  type Url = string

  datatype Action =
    | Acquire
    | Release
    | Docker            // a call to the swarm manager made under a permit
    | Outside           // anything that needs neither permit nor lock
    | AcquireMutex
    | ReleaseMutex
    | AcquireFork(url: Url)
    | ReleaseFork(url: Url)
    | CreateFork
    | Sleep(seconds: nat)

  // ---- The manager's methods ----

  /** How forking the class repository goes: not needed, or made after some retryable refusals, or given up. */
  datatype Forking = AlreadyForked | Fork(url: Url, refusals: nat, raises: bool)

  datatype Call =
    | Get
    | List
    | GetByUsername
    | NewCs(forking: Forking, dockerCalls: nat)
    | StopCs(found: bool)
    | StopHost(push: bool, found: bool)
    | Sync(hosts: nat)
    | SyncConverge(passes: seq<nat>)

  const MAX_FORK_ATTEMPTS: nat := 8
  const BACKOFF_START: nat := 2
  const BACKOFF_CAP: nat := 30

  /** The attempts made under the fork lock, with a doubling, capped pause after each refusal. */
  function Attempts(refusals: nat, backoff: nat): seq<Action> {
    if refusals == 0 then [CreateFork]
    else [CreateFork, Sleep(backoff)] + Attempts(refusals - 1, Min(backoff * 2, BACKOFF_CAP))
  }

  function ForkProgram(f: Forking): seq<Action> {
    match f
    case AlreadyForked => [Outside]
    case Fork(url, refusals, _) =>
      [Outside, AcquireMutex, ReleaseMutex, AcquireFork(url)] + Attempts(refusals, BACKOFF_START) + [ReleaseFork(url), Outside]
  }

  function Repeat(body: seq<Action>, n: nat): seq<Action> {
    if n == 0 then [] else body + Repeat(body, n - 1)
  }

  function ListRaw(): seq<Action> { [Docker] }

  function GetProgram(): seq<Action> { [Acquire, Docker, Release] }

  function ListProgram(): seq<Action> { [Acquire] + ListRaw() + [Release] }

  /** Uses the raw listing: it is already inside its own permit. */
  function GetByUsernameProgram(): seq<Action> { [Acquire] + ListRaw() + [Release] }

  /** new_cs around _new_cs_inner, whose Docker calls are all raw ones, the 409 lookup included. */
  function NewCsProgram(f: Forking, dockerCalls: nat): seq<Action> {
    [Acquire] + ForkProgram(f) + (if f.Fork? && f.raises then [] else Repeat(ListRaw(), dockerCalls)) + [Release]
  }

  function SyncProgram(hosts: nat): seq<Action> {
    ListProgram() + Repeat(GetProgram() + [Outside], hosts)
  }

  function ConvergeProgram(passes: seq<nat>): seq<Action> {
    if passes == [] then [] else SyncProgram(passes[0]) + [Sleep(0)] + ConvergeProgram(passes[1..])
  }

  function Program(c: Call): seq<Action> {
    match c
    case Get => GetProgram()
    case List => ListProgram()
    case GetByUsername => GetByUsernameProgram()
    case NewCs(f, n) => NewCsProgram(f, n)
    case StopCs(found) => GetByUsernameProgram() + if found then [Outside] else []
    case StopHost(push, found) =>
      (if push then GetProgram() + [Outside] else []) + GetProgram() + (if found then [Outside] else [])
    case Sync(hosts) => SyncProgram(hosts)
    case SyncConverge(passes) => ConvergeProgram(passes)
  }

  function Task(calls: seq<Call>): seq<Action> {
    if calls == [] then [] else Program(calls[0]) + Task(calls[1..])
  }

  // ---- The discipline ----

  datatype Held = Held(permit: bool, mutex: bool, fork: Option<Url>)

  const Nothing := Held(false, false, None)

  /** What is held after an action, or None if the action breaks the locking order. */
  function Next(h: Held, a: Action): Option<Held> {
    var innermost := !h.mutex && h.fork.None?;
    match a
    case Acquire => if innermost && !h.permit then Some(h.(permit := true)) else None
    case Release => if innermost && h.permit then Some(h.(permit := false)) else None
    case Docker => if innermost && h.permit then Some(h) else None
    case Outside => if innermost then Some(h) else None
    case AcquireMutex => if innermost then Some(h.(mutex := true)) else None
    case ReleaseMutex => if h.mutex then Some(h.(mutex := false)) else None
    case AcquireFork(url) => if innermost then Some(h.(fork := Some(url))) else None
    case ReleaseFork(url) => if h.fork == Some(url) then Some(h.(fork := None)) else None
    case CreateFork => if h.fork.Some? && !h.mutex then Some(h) else None
    case Sleep(_) => if !h.mutex then Some(h) else None
  }

  function HeldAfter(actions: seq<Action>, h: Held): Option<Held> {
    if actions == [] then Some(h) else
      match Next(h, actions[0])
      case None => None
      case Some(h') => HeldAfter(actions[1..], h')
  }

  lemma {:induction false} Compose(a: seq<Action>, b: seq<Action>, h: Held)
    ensures HeldAfter(a + b, h) == match HeldAfter(a, h) case None => None case Some(m) => HeldAfter(b, m)
    decreases |a|
  {
    if a == [] {
      assert a + b == b;
    } else {
      assert (a + b)[1..] == a[1..] + b;
      if Next(h, a[0]).Some? {
        Compose(a[1..], b, Next(h, a[0]).value);
      }
    }
  }

  /** A piece of program that ends holding what it held at its start. */
  ghost predicate Neutral(a: seq<Action>, h: Held) {
    HeldAfter(a, h) == Some(h)
  }

  lemma ThenNeutral(a: seq<Action>, b: seq<Action>, h: Held)
    requires Neutral(a, h) && Neutral(b, h)
    ensures Neutral(a + b, h)
  {
    Compose(a, b, h);
  }

  lemma {:induction false} RepeatNeutral(a: seq<Action>, n: nat, h: Held)
    requires Neutral(a, h)
    ensures Neutral(Repeat(a, n), h)
  {
    if n > 0 {
      RepeatNeutral(a, n - 1, h);
      ThenNeutral(a, Repeat(a, n - 1), h);
    }
  }

  lemma {:induction false} AttemptsNeutral(refusals: nat, backoff: nat, h: Held)
    requires h.fork.Some? && !h.mutex
    ensures Neutral(Attempts(refusals, backoff), h)
  {
    if refusals == 0 {
      assert [CreateFork][1..] == [];
    } else {
      AttemptsNeutral(refusals - 1, Min(backoff * 2, BACKOFF_CAP), h);
      assert [CreateFork, Sleep(backoff)][1..] == [Sleep(backoff)];
      assert [Sleep(backoff)][1..] == [];
      assert HeldAfter([Sleep(backoff)], h) == Some(h);
      assert HeldAfter([CreateFork, Sleep(backoff)], h) == Some(h);
      ThenNeutral([CreateFork, Sleep(backoff)], Attempts(refusals - 1, Min(backoff * 2, BACKOFF_CAP)), h);
    }
  }

  lemma ForkNeutral(f: Forking, h: Held)
    requires h.permit && !h.mutex && h.fork.None?
    ensures Neutral(ForkProgram(f), h)
  {
    match f
    case AlreadyForked =>
      assert [Outside][1..] == [];
    case Fork(url, refusals, _) =>
      var inside := h.(fork := Some(url));
      var before, tries, after := [Outside, AcquireMutex, ReleaseMutex, AcquireFork(url)], Attempts(refusals, BACKOFF_START), [ReleaseFork(url), Outside];
      assert before[1..] == [AcquireMutex, ReleaseMutex, AcquireFork(url)] && before[1..][1..] == [ReleaseMutex, AcquireFork(url)]
        && before[1..][1..][1..] == [AcquireFork(url)] && before[1..][1..][1..][1..] == [];
      assert HeldAfter([AcquireFork(url)], h) == Some(inside);
      assert HeldAfter([ReleaseMutex, AcquireFork(url)], h.(mutex := true)) == Some(inside);
      assert HeldAfter(before, h) == Some(inside);
      AttemptsNeutral(refusals, BACKOFF_START, inside);
      Compose(before, tries, h);
      assert after[1..] == [Outside] && after[1..][1..] == [];
      assert HeldAfter([Outside], h) == Some(h);
      assert Next(inside, ReleaseFork(url)) == Some(h);
      assert HeldAfter(after, inside) == Some(h);
      Compose(before + tries, after, h);
  }

  /** A block that takes the permit, does something neutral and gives it back. */
  lemma GuardedNeutral(body: seq<Action>)
    requires Neutral(body, Nothing.(permit := true))
    ensures Neutral([Acquire] + body + [Release], Nothing)
  {
    var inside := Nothing.(permit := true);
    assert [Acquire][1..] == [] && [Release][1..] == [];
    assert HeldAfter([Acquire], Nothing) == Some(inside) && HeldAfter([Release], inside) == Some(Nothing);
    Compose([Acquire], body, Nothing);
    Compose([Acquire] + body, [Release], Nothing);
  }

  lemma DockerNeutral(h: Held)
    requires h.permit && !h.mutex && h.fork.None?
    ensures Neutral(ListRaw(), h)
  {
    assert ListRaw()[1..] == [];
  }

  lemma BasicsNeutral()
    ensures Neutral(GetProgram(), Nothing) && Neutral(ListProgram(), Nothing) && Neutral(GetByUsernameProgram(), Nothing)
    ensures Neutral([Outside], Nothing) && Neutral([], Nothing) && Neutral([Sleep(0)], Nothing)
  {
    DockerNeutral(Nothing.(permit := true));
    GuardedNeutral(ListRaw());
    assert GetProgram() == [Acquire] + ListRaw() + [Release];
    assert [Outside][1..] == [] && [Sleep(0)][1..] == [];
  }

  lemma NoActionsNeutral(h: Held)
    ensures Neutral([], h)
  {
  }

  lemma NewCsNeutral(f: Forking, n: nat)
    ensures Neutral(NewCsProgram(f, n), Nothing)
  {
    hide HeldAfter, ForkProgram, Repeat;
    var inside := Nothing.(permit := true);
    ForkNeutral(f, inside);
    DockerNeutral(inside);
    RepeatNeutral(ListRaw(), n, inside);
    NoActionsNeutral(inside);
    var rest := if f.Fork? && f.raises then [] else Repeat(ListRaw(), n);
    assert Neutral(rest, inside);
    ThenNeutral(ForkProgram(f), rest, inside);
    GuardedNeutral(ForkProgram(f) + rest);
    assert [Acquire] + (ForkProgram(f) + rest) + [Release] == NewCsProgram(f, n);
  }

  lemma SyncNeutral(hosts: nat)
    ensures Neutral(SyncProgram(hosts), Nothing)
  {
    BasicsNeutral();
    ThenNeutral(GetProgram(), [Outside], Nothing);
    RepeatNeutral(GetProgram() + [Outside], hosts, Nothing);
    ThenNeutral(ListProgram(), Repeat(GetProgram() + [Outside], hosts), Nothing);
  }

  lemma {:induction false} ConvergeNeutral(passes: seq<nat>)
    ensures Neutral(ConvergeProgram(passes), Nothing)
  {
    if passes != [] {
      SyncNeutral(passes[0]);
      BasicsNeutral();
      ConvergeNeutral(passes[1..]);
      ThenNeutral(SyncProgram(passes[0]), [Sleep(0)], Nothing);
      ThenNeutral(SyncProgram(passes[0]) + [Sleep(0)], ConvergeProgram(passes[1..]), Nothing);
    }
  }

  /**
   Every public method keeps the order permit, then mutex or fork lock, never asks for a permit it
   already has, and ends holding nothing.
   */
  lemma MethodsAreDisciplined(c: Call)
    ensures HeldAfter(Program(c), Nothing) == Some(Nothing)
  {
    BasicsNeutral();
    match c
    case Get =>
    case List =>
    case GetByUsername =>
    case NewCs(f, n) => NewCsNeutral(f, n);
    case StopCs(found) => ThenNeutral(GetByUsernameProgram(), if found then [Outside] else [], Nothing);
    case StopHost(push, found) =>
      ThenNeutral(GetProgram(), [Outside], Nothing);
      var first := if push then GetProgram() + [Outside] else [];
      ThenNeutral(first, GetProgram(), Nothing);
      ThenNeutral(first + GetProgram(), if found then [Outside] else [], Nothing);
    case Sync(hosts) => SyncNeutral(hosts);
    case SyncConverge(passes) => ConvergeNeutral(passes);
  }

  lemma {:induction false} TasksAreDisciplined(calls: seq<Call>)
    ensures HeldAfter(Task(calls), Nothing) == Some(Nothing)
  {
    if calls != [] {
      MethodsAreDisciplined(calls[0]);
      TasksAreDisciplined(calls[1..]);
      Compose(Program(calls[0]), Task(calls[1..]), Nothing);
    }
  }

  // ---- What the methods do ----

  function Count(actions: seq<Action>, a: Action): nat {
    if actions == [] then 0 else (if actions[0] == a then 1 else 0) + Count(actions[1..], a)
  }

  lemma {:induction false} CountConcat(a: seq<Action>, b: seq<Action>, x: Action)
    ensures Count(a + b, x) == Count(a, x) + Count(b, x)
  {
    if a == [] {
      assert a + b == b;
    } else {
      assert (a + b)[1..] == a[1..] + b;
      CountConcat(a[1..], b, x);
    }
  }

  lemma {:induction false} CountRepeat(body: seq<Action>, n: nat, x: Action)
    ensures Count(Repeat(body, n), x) == n * Count(body, x)
  {
    if n > 0 {
      CountConcat(body, Repeat(body, n - 1), x);
      CountRepeat(body, n - 1, x);
      assert n * Count(body, x) == Count(body, x) + (n - 1) * Count(body, x);
    }
  }

  lemma {:induction false} CountAttempts(refusals: nat, backoff: nat)
    ensures Count(Attempts(refusals, backoff), Docker) == 0 && Count(Attempts(refusals, backoff), Acquire) == 0
  {
    if refusals > 0 {
      var rest := Attempts(refusals - 1, Min(backoff * 2, BACKOFF_CAP));
      CountAttempts(refusals - 1, Min(backoff * 2, BACKOFF_CAP));
      CountConcat([CreateFork, Sleep(backoff)], rest, Docker);
      CountConcat([CreateFork, Sleep(backoff)], rest, Acquire);
      assert [CreateFork, Sleep(backoff)][1..] == [Sleep(backoff)];
    }
  }

  /** Forking itself neither calls Docker nor takes a permit. */
  lemma CountFork(f: Forking, x: Action)
    requires x == Docker || x == Acquire
    ensures Count(ForkProgram(f), x) == 0
  {
    CountSingles(x);
    if f.Fork? {
      CountAttempts(f.refusals, BACKOFF_START);
      hide Count, Attempts;
      var before, after := [Outside, AcquireMutex, ReleaseMutex, AcquireFork(f.url)], [ReleaseFork(f.url), Outside];
      assert before == [Outside] + [AcquireMutex] + [ReleaseMutex] + [AcquireFork(f.url)];
      assert after == [ReleaseFork(f.url)] + [Outside];
      CountConcat([Outside] + [AcquireMutex] + [ReleaseMutex], [AcquireFork(f.url)], x);
      CountConcat([Outside] + [AcquireMutex], [ReleaseMutex], x);
      CountConcat([Outside], [AcquireMutex], x);
      CountConcat([ReleaseFork(f.url)], [Outside], x);
      CountConcat(before + Attempts(f.refusals, BACKOFF_START), after, x);
      CountConcat(before, Attempts(f.refusals, BACKOFF_START), x);
    }
  }

  lemma CountSingles(x: Action)
    ensures forall a :: Count([a], x) == if a == x then 1 else 0
  {
  }

  lemma CountSimple()
    ensures Count(GetProgram(), Docker) == 1 && Count(GetProgram(), Acquire) == 1
    ensures Count(ListProgram(), Docker) == 1 && Count(ListProgram(), Acquire) == 1
    ensures Count(GetByUsernameProgram(), Docker) == 1 && Count(GetByUsernameProgram(), Acquire) == 1
    ensures Count(ListRaw(), Docker) == 1 && Count(ListRaw(), Acquire) == 0
    ensures forall x :: Count([], x) == 0 && Count([x], x) == 1
    ensures Count([Outside], Docker) == 0 && Count([Outside], Acquire) == 0
  {
    assert GetProgram()[1..] == [Docker, Release] && [Docker, Release][1..] == [Release];
    assert ListProgram() == GetProgram() && GetByUsernameProgram() == GetProgram();
  }

  /** The simple methods take one permit for one Docker call each; new_cs takes one permit for all it does. */
  lemma PermitsTaken(f: Forking, dockerCalls: nat)
    ensures forall c :: c in {Get, List, GetByUsername} ==> Count(Program(c), Docker) == 1 && Count(Program(c), Acquire) == 1
    ensures Count(Program(NewCs(f, dockerCalls)), Acquire) == 1
    ensures Count(Program(NewCs(f, dockerCalls)), Docker) == if f.Fork? && f.raises then 0 else dockerCalls
  {
    CountSimple();
    var calls := if f.Fork? && f.raises then [] else Repeat(ListRaw(), dockerCalls);
    CountRepeat(ListRaw(), dockerCalls, Docker);
    CountRepeat(ListRaw(), dockerCalls, Acquire);
    CountFork(f, Docker);
    CountFork(f, Acquire);
    forall x | x == Docker || x == Acquire
      ensures Count(NewCsProgram(f, dockerCalls), x) == (if x == Acquire then 1 else 0) + Count(calls, x)
    {
      CountConcat([Acquire] + ForkProgram(f) + calls, [Release], x);
      CountConcat([Acquire] + ForkProgram(f), calls, x);
      CountConcat([Acquire], ForkProgram(f), x);
    }
  }

  /** A sync lists once and looks at each of its hosts under a permit of its own. */
  lemma SyncTakes(hosts: nat)
    ensures Count(Program(Sync(hosts)), Docker) == 1 + hosts && Count(Program(Sync(hosts)), Acquire) == 1 + hosts
  {
    CountSimple();
    var one := GetProgram() + [Outside];
    forall x | x == Docker || x == Acquire ensures Count(Program(Sync(hosts)), x) == 1 + hosts {
      CountConcat(ListProgram(), Repeat(one, hosts), x);
      CountRepeat(one, hosts, x);
      CountConcat(GetProgram(), [Outside], x);
    }
  }

  /** Stopping looks a service up once, and once more if the push needs it. */
  lemma StopsTake(push: bool, found: bool)
    ensures forall x :: x == Docker || x == Acquire ==> Count(Program(StopCs(found)), x) == 1
    ensures forall x :: x == Docker || x == Acquire ==> Count(Program(StopHost(push, found)), x) == if push then 2 else 1
  {
    CountSimple();
    var last := if found then [Outside] else [];
    var first := if push then GetProgram() + [Outside] else [];
    forall x | x == Docker || x == Acquire
      ensures Count(Program(StopCs(found)), x) == 1 && Count(Program(StopHost(push, found)), x) == if push then 2 else 1
    {
      CountConcat(GetByUsernameProgram(), last, x);
      CountConcat(first + GetProgram(), last, x);
      CountConcat(first, GetProgram(), x);
      CountConcat(GetProgram(), [Outside], x);
    }
  }

  /** Forking takes the upstream's lock once and makes one more attempt than it is refused. */
  lemma ForkTakes(url: Url, refusals: nat, raises: bool)
    ensures Count(ForkProgram(Fork(url, refusals, raises)), AcquireFork(url)) == 1
    ensures Count(ForkProgram(Fork(url, refusals, raises)), CreateFork) == refusals + 1
  {
    forall x | x == AcquireFork(url) || x == CreateFork
      ensures Count(ForkProgram(Fork(url, refusals, raises)), x) == if x == CreateFork then refusals + 1 else 1
    {
      CountSingles(x);
      CountTries(refusals, BACKOFF_START, url);
      hide Count, Attempts;
      var before, after := [Outside, AcquireMutex, ReleaseMutex, AcquireFork(url)], [ReleaseFork(url), Outside];
      assert before == [Outside] + [AcquireMutex] + [ReleaseMutex] + [AcquireFork(url)];
      assert after == [ReleaseFork(url)] + [Outside];
      CountConcat([Outside] + [AcquireMutex] + [ReleaseMutex], [AcquireFork(url)], x);
      CountConcat([Outside] + [AcquireMutex], [ReleaseMutex], x);
      CountConcat([Outside], [AcquireMutex], x);
      CountConcat([ReleaseFork(url)], [Outside], x);
      CountConcat(before + Attempts(refusals, BACKOFF_START), after, x);
      CountConcat(before, Attempts(refusals, BACKOFF_START), x);
    }
  }

  lemma {:induction false} CountTries(refusals: nat, backoff: nat, url: Url)
    ensures Count(Attempts(refusals, backoff), CreateFork) == refusals + 1
    ensures Count(Attempts(refusals, backoff), AcquireFork(url)) == 0
  {
    if refusals > 0 {
      var rest := Attempts(refusals - 1, Min(backoff * 2, BACKOFF_CAP));
      CountTries(refusals - 1, Min(backoff * 2, BACKOFF_CAP), url);
      CountConcat([CreateFork, Sleep(backoff)], rest, CreateFork);
      CountConcat([CreateFork, Sleep(backoff)], rest, AcquireFork(url));
      assert [CreateFork, Sleep(backoff)][1..] == [Sleep(backoff)];
    }
  }

  // ---- Threads sharing the locks ----

  datatype Thread = Thread(todo: seq<Action>, held: Held)

  datatype System = System(permits: int, mutex: Option<nat>, forks: map<Url, nat>, threads: seq<Thread>)

  function Start(n: nat, tasks: seq<seq<Call>>): System {
    System(n, None, map[], seq(|tasks|, i requires 0 <= i < |tasks| => Thread(Task(tasks[i]), Nothing)))
  }

  predicate Unfinished(s: System, i: nat) {
    i < |s.threads| && s.threads[i].todo != []
  }

  /** Only taking a permit or a lock can make a thread wait. */
  predicate Enabled(s: System, i: nat) {
    Unfinished(s, i) && match s.threads[i].todo[0]
      case Acquire => s.permits > 0
      case AcquireMutex => s.mutex.None?
      case AcquireFork(url) => url !in s.forks
      case _ => true
  }

  function HeldBy(h: Held, a: Action): Held {
    match Next(h, a) case Some(h') => h' case None => h
  }

  function Step(s: System, i: nat): System
    requires Enabled(s, i)
  {
    var t := s.threads[i];
    var a := t.todo[0];
    System(
      match a case Acquire => s.permits - 1 case Release => s.permits + 1 case _ => s.permits,
      match a case AcquireMutex => Some(i) case ReleaseMutex => None case _ => s.mutex,
      match a case AcquireFork(url) => s.forks[url := i] case ReleaseFork(url) => s.forks - {url} case _ => s.forks,
      s.threads[i := Thread(t.todo[1..], HeldBy(t.held, a))])
  }

  function Holders(threads: seq<Thread>): nat {
    if threads == [] then 0
    else Holders(threads[..|threads| - 1]) + (if threads[|threads| - 1].held.permit then 1 else 0)
  }

  lemma {:induction false} HoldersUpdate(threads: seq<Thread>, i: nat, t: Thread)
    requires i < |threads|
    ensures Holders(threads[i := t])
         == Holders(threads) - (if threads[i].held.permit then 1 else 0) + (if t.held.permit then 1 else 0)
  {
    var last := |threads| - 1;
    if i == last {
      assert threads[i := t][..last] == threads[..last];
    } else {
      assert threads[i := t][..last] == threads[..last][i := t];
      HoldersUpdate(threads[..last], i, t);
    }
  }

  lemma {:induction false} NoHolders(threads: seq<Thread>)
    requires forall i :: 0 <= i < |threads| ==> !threads[i].held.permit
    ensures Holders(threads) == 0
  {
    if threads != [] {
      NoHolders(threads[..|threads| - 1]);
    }
  }

  ghost predicate ThreadOk(s: System, i: nat)
    requires i < |s.threads|
  {
    var h := s.threads[i].held;
    && HeldAfter(s.threads[i].todo, h) == Some(Nothing)
    && (h.mutex <==> s.mutex == Some(i))
    && (forall u :: h.fork == Some(u) <==> u in s.forks && s.forks[u] == i)
  }

  ghost predicate Inv(s: System, n: nat) {
    && s.permits >= 0
    && s.permits + Holders(s.threads) == n
    && (s.mutex.Some? ==> s.mutex.value < |s.threads|)
    && (forall u :: u in s.forks ==> s.forks[u] < |s.threads|)
    && (forall i: nat :: i < |s.threads| ==> ThreadOk(s, i))
  }

  lemma InvInitially(n: nat, tasks: seq<seq<Call>>)
    ensures Inv(Start(n, tasks), n)
  {
    var s := Start(n, tasks);
    NoHolders(s.threads);
    forall i: nat | i < |s.threads| ensures ThreadOk(s, i) {
      TasksAreDisciplined(tasks[i]);
    }
  }

  lemma ThreadOkStep(s: System, n: nat, i: nat, j: nat)
    requires Inv(s, n) && Enabled(s, i) && j < |s.threads|
    ensures ThreadOk(Step(s, i), j)
  {
    assert ThreadOk(s, i) && ThreadOk(s, j);
    hide Holders;
    if i != j {
      assert Step(s, i).threads[j] == s.threads[j];
    }
  }

  lemma InvStep(s: System, n: nat, i: nat)
    requires Inv(s, n) && Enabled(s, i)
    ensures Inv(Step(s, i), n)
  {
    assert ThreadOk(s, i);
    var t := s.threads[i];
    HoldersUpdate(s.threads, i, Thread(t.todo[1..], HeldBy(t.held, t.todo[0])));
    forall j: nat | j < |s.threads| ensures ThreadOk(Step(s, i), j) {
      ThreadOkStep(s, n, i, j);
    }
  }

  // ---- Safety ----

  /** Any schedule: the threads that take a step, in order. */
  predicate IsSchedule(s: System, run: seq<nat>)
    decreases |run|
  {
    run == [] || (Enabled(s, run[0]) && IsSchedule(Step(s, run[0]), run[1..]))
  }

  function After(s: System, run: seq<nat>): System
    requires IsSchedule(s, run)
    decreases |run|
  {
    if run == [] then s else After(Step(s, run[0]), run[1..])
  }

  lemma {:induction false} InvAlong(s: System, n: nat, run: seq<nat>)
    requires Inv(s, n) && IsSchedule(s, run)
    ensures Inv(After(s, run), n)
    decreases |run|
  {
    if run != [] {
      InvStep(s, n, run[0]);
      InvAlong(Step(s, run[0]), n, run[1..]);
    }
  }

  ghost predicate Reachable(s: System, n: nat) {
    exists tasks, run :: IsSchedule(Start(n, tasks), run) && After(Start(n, tasks), run) == s
  }

  lemma ReachableInv(s: System, n: nat)
    requires Reachable(s, n)
    ensures Inv(s, n)
  {
    var tasks, run :| IsSchedule(Start(n, tasks), run) && After(Start(n, tasks), run) == s;
    InvInitially(n, tasks);
    InvAlong(Start(n, tasks), n, run);
  }

  predicate InDocker(t: Thread) {
    t.todo != [] && t.todo[0] == Docker
  }

  function DockerCalls(threads: seq<Thread>): nat {
    if threads == [] then 0
    else DockerCalls(threads[..|threads| - 1]) + (if InDocker(threads[|threads| - 1]) then 1 else 0)
  }

  lemma {:induction false} CallersHold(threads: seq<Thread>)
    requires forall i :: 0 <= i < |threads| && InDocker(threads[i]) ==> threads[i].held.permit
    ensures DockerCalls(threads) <= Holders(threads)
  {
    if threads != [] {
      CallersHold(threads[..|threads| - 1]);
    }
  }

  /** Permits and holders always add up to N, so at most N guarded Docker calls are under way. */
  lemma PermitsBoundDockerCalls(s: System, n: nat)
    requires Reachable(s, n)
    ensures s.permits + Holders(s.threads) == n
    ensures DockerCalls(s.threads) <= n
  {
    ReachableInv(s, n);
    forall i | 0 <= i < |s.threads| && InDocker(s.threads[i]) ensures s.threads[i].held.permit {
      assert ThreadOk(s, i);
    }
    CallersHold(s.threads);
  }

  /** No thread asks for a permit while it holds one, and none gives back more than was taken. */
  lemma NoReentry(s: System, n: nat, i: nat)
    requires Reachable(s, n) && Unfinished(s, i)
    ensures s.threads[i].todo[0] == Acquire ==> !s.threads[i].held.permit
    ensures s.threads[i].todo[0] == Release ==> s.permits < n
  {
    ReachableInv(s, n);
    assert ThreadOk(s, i);
    if s.threads[i].todo[0] == Release {
      HoldersUpdate(s.threads, i, s.threads[i].(held := Nothing));
    }
  }

  // ---- Progress ----

  /** A thread inside the mutex or a fork lock never waits. */
  lemma InnermostRuns(s: System, n: nat, i: nat)
    requires Inv(s, n) && i < |s.threads| && (s.threads[i].held.mutex || s.threads[i].held.fork.Some?)
    ensures Enabled(s, i)
  {
    assert ThreadOk(s, i);
  }

  /** With at least one permit, a state with an unfinished thread always has a thread that can step. */
  lemma NoDeadlock(s: System, n: nat, i: nat) returns (j: nat)
    requires Reachable(s, n) && n >= 1 && Unfinished(s, i)
    ensures Enabled(s, j)
  {
    ReachableInv(s, n);
    j := i;
    if !Enabled(s, i) {
      assert ThreadOk(s, i);
      match s.threads[i].todo[0]
      case AcquireMutex =>
        j := s.mutex.value;
        assert ThreadOk(s, j);
        InnermostRuns(s, n, j);
      case AcquireFork(url) =>
        j := s.forks[url];
        assert ThreadOk(s, j);
        InnermostRuns(s, n, j);
      case Acquire =>
        // All permits are out: some thread holds one.
        if k: nat :| k < |s.threads| && s.threads[k].held.permit {
          j := HolderRuns(s, n, k);
        } else {
          NoHolders(s.threads);
          assert false;
        }
    }
  }

  /** A permit holder can step, or waits for a thread that can. */
  lemma HolderRuns(s: System, n: nat, k: nat) returns (j: nat)
    requires Inv(s, n) && k < |s.threads| && s.threads[k].held.permit
    ensures Enabled(s, j)
  {
    assert ThreadOk(s, k);
    j := k;
    if !Enabled(s, k) {
      match s.threads[k].todo[0]
      case AcquireMutex =>
        j := s.mutex.value;
        assert ThreadOk(s, j);
        InnermostRuns(s, n, j);
      case AcquireFork(url) =>
        j := s.forks[url];
        assert ThreadOk(s, j);
        InnermostRuns(s, n, j);
    }
  }

  function Remaining(threads: seq<Thread>): nat {
    if threads == [] then 0
    else Remaining(threads[..|threads| - 1]) + |threads[|threads| - 1].todo|
  }

  lemma {:induction false} RemainingUpdate(threads: seq<Thread>, i: nat, t: Thread)
    requires i < |threads|
    ensures Remaining(threads[i := t]) == Remaining(threads) - |threads[i].todo| + |t.todo|
  {
    var last := |threads| - 1;
    if i == last {
      assert threads[i := t][..last] == threads[..last];
    } else {
      assert threads[i := t][..last] == threads[..last][i := t];
      RemainingUpdate(threads[..last], i, t);
    }
  }

  /** Every schedule is finite: it has exactly as many steps as there was work, less what is left. */
  lemma {:induction false} StepsAreWork(s: System, run: seq<nat>)
    requires IsSchedule(s, run)
    ensures |run| + Remaining(After(s, run).threads) == Remaining(s.threads)
    decreases |run|
  {
    if run != [] {
      var i := run[0];
      var t := s.threads[i];
      RemainingUpdate(s.threads, i, Thread(t.todo[1..], HeldBy(t.held, t.todo[0])));
      StepsAreWork(Step(s, i), run[1..]);
    }
  }

  /** A schedule that cannot be extended has finished every thread. */
  lemma MaximalSchedulesFinish(s: System, n: nat)
    requires Reachable(s, n) && n >= 1 && forall j :: !Enabled(s, j)
    ensures forall i :: 0 <= i < |s.threads| ==> s.threads[i].todo == []
  {
    if i: nat :| Unfinished(s, i) {
      var j := NoDeadlock(s, n, i);
      assert false;
    }
    forall i | 0 <= i < |s.threads| ensures s.threads[i].todo == [] {
      assert !Unfinished(s, i);
    }
  }

  /** Why the helpers must be raw: with one permit, a guarded call inside a guarded block stops everything. */
  lemma NestedGuardDeadlocks()
    ensures var nested := [Acquire] + GetProgram() + [Release];
      && HeldAfter(nested, Nothing) == None
      && var s := System(1, None, map[], [Thread(nested, Nothing)]);
         Enabled(s, 0) && Unfinished(Step(s, 0), 0) && forall j :: !Enabled(Step(s, 0), j)
  {
    var nested := [Acquire] + GetProgram() + [Release];
    assert nested == [Acquire, Acquire, Docker, Release, Release];
    assert nested[1..] == [Acquire, Docker, Release, Release];
  }

  // ---- The retry loop under the fork lock ----

  datatype Answer = Created | Retryable | Fatal

  /** The attempt the loop ends with, counted from 0: the first that is not refused, or the last one allowed. */
  function LastAttempt(answer: nat -> Answer, k: nat): (r: nat)
    requires k < MAX_FORK_ATTEMPTS
    ensures k <= r < 8
    ensures forall i :: k <= i < r ==> answer(i) == Retryable
    ensures r < 7 ==> answer(r) != Retryable
    decreases MAX_FORK_ATTEMPTS - k
  {
    if answer(k) != Retryable || k == MAX_FORK_ATTEMPTS - 1 then k else LastAttempt(answer, k + 1)
  }

  /** Eight attempts with pauses of 2, 4, 8, 16 and then 30 seconds in between. */
  function FullRetry(): (r: seq<Action>)
    ensures |r| == 15
  {
    [CreateFork, Sleep(2), CreateFork, Sleep(4), CreateFork, Sleep(8), CreateFork, Sleep(16), CreateFork,
     Sleep(30), CreateFork, Sleep(30), CreateFork, Sleep(30), CreateFork]
  }

  /** Fewer refusals are a beginning of that. */
  lemma RetriesArePrefix(refusals: nat)
    requires refusals < 8
    ensures Attempts(refusals, BACKOFF_START) == FullRetry()[..2 * refusals + 1]
  {
    if refusals >= 1 { AttemptsUnfold(refusals, 2); }
    if refusals >= 2 { AttemptsUnfold(refusals - 1, 4); }
    if refusals >= 3 { AttemptsUnfold(refusals - 2, 8); }
    if refusals >= 4 { AttemptsUnfold(refusals - 3, 16); AttemptsFromCap(refusals - 4); }
  }

  lemma LastUnfolds(answer: nat -> Answer, k: nat)
    requires k < MAX_FORK_ATTEMPTS
    ensures LastAttempt(answer, k) == if answer(k) != Retryable || k == MAX_FORK_ATTEMPTS - 1 then k else LastAttempt(answer, k + 1)
  {
  }

  /** The loop succeeds exactly if one of the eight answers is success and all before it are retryable. */
  lemma RetryOutcome(answer: nat -> Answer)
    ensures answer(LastAttempt(answer, 0)) == Created
       <==> exists k :: 0 <= k < 8 && answer(k) == Created && forall i :: 0 <= i < k ==> answer(i) == Retryable
  {
    var last := LastAttempt(answer, 0);
    if k :| 0 <= k < 8 && answer(k) == Created && forall i :: 0 <= i < k ==> answer(i) == Retryable {
      assert last == k;
    }
  }

  lemma AttemptsEnd()
    ensures forall backoff :: Attempts(0, backoff) == [CreateFork]
  {
  }

  lemma AttemptsUnfold(refusals: nat, backoff: nat)
    requires refusals >= 1
    ensures Attempts(refusals, backoff) == [CreateFork, Sleep(backoff)] + Attempts(refusals - 1, Min(backoff * 2, 30))
  {
  }

  lemma AttemptsFromCap(refusals: nat)
    requires refusals < 4
    ensures Attempts(refusals, 30)
         == [CreateFork, Sleep(30), CreateFork, Sleep(30), CreateFork, Sleep(30), CreateFork][..2 * refusals + 1]
  {
    if refusals >= 1 { AttemptsUnfold(refusals, 30); }
    if refusals >= 2 { AttemptsUnfold(refusals - 1, 30); }
    if refusals >= 3 { AttemptsUnfold(refusals - 2, 30); }
  }

  method CreateWithRetry(answer: nat -> Answer) returns (created: bool, trace: seq<Action>)
    ensures var last := LastAttempt(answer, 0);
      trace == Attempts(last, BACKOFF_START) && created == (answer(last) == Created)
    ensures created <==> exists k :: 0 <= k < 8 && answer(k) == Created && forall i :: 0 <= i < k ==> answer(i) == Retryable
    ensures trace == FullRetry()[..2 * LastAttempt(answer, 0) + 1]
  {
    hide FullRetry, Attempts, LastAttempt;
    RetryOutcome(answer);
    var backoff: nat := BACKOFF_START;
    var attempt := 0;
    ghost var last := LastAttempt(answer, 0);
    RetriesArePrefix(last);
    AttemptsEnd();
    trace := [];
    while true
      invariant attempt < MAX_FORK_ATTEMPTS && attempt <= last == LastAttempt(answer, attempt)
      invariant Attempts(last, BACKOFF_START) == trace + Attempts(last - attempt, backoff)
      decreases MAX_FORK_ATTEMPTS - attempt
    {
      LastUnfolds(answer, attempt);
      if answer(attempt) == Created {
        trace := trace + [CreateFork];
        return true, trace;
      }
      if answer(attempt) == Fatal || attempt == MAX_FORK_ATTEMPTS - 1 {
        trace := trace + [CreateFork];
        return false, trace;
      }
      AttemptsUnfold(last - attempt, backoff);
      assert trace + ([CreateFork, Sleep(backoff)] + Attempts(last - attempt - 1, Min(backoff * 2, BACKOFF_CAP)))
          == trace + [CreateFork, Sleep(backoff)] + Attempts(last - attempt - 1, Min(backoff * 2, BACKOFF_CAP));
      trace := trace + [CreateFork, Sleep(backoff)];
      backoff := Min(backoff * 2, BACKOFF_CAP);
      attempt := attempt + 1;
    }
  }

  function SleepTotal(actions: seq<Action>): nat {
    if actions == [] then 0
    else (if actions[0].Sleep? then actions[0].seconds else 0) + SleepTotal(actions[1..])
  }

  lemma {:induction false} SleepAppend(a: seq<Action>, b: seq<Action>)
    ensures SleepTotal(a + b) == SleepTotal(a) + SleepTotal(b)
  {
    if a == [] {
      assert a + b == b;
    } else {
      assert (a + b)[1..] == a[1..] + b;
      SleepAppend(a[1..], b);
    }
  }

  /** The pauses of a retry loop that starts at a given backoff. */
  lemma {:induction false} SleepOfAttempts(refusals: nat, backoff: nat)
    ensures SleepTotal(Attempts(refusals, backoff))
         == if refusals == 0 then 0 else backoff + SleepTotal(Attempts(refusals - 1, Min(backoff * 2, BACKOFF_CAP)))
  {
    if refusals == 0 {
      assert [CreateFork][1..] == [];
    } else {
      assert [CreateFork, Sleep(backoff)][1..] == [Sleep(backoff)] && [Sleep(backoff)][1..] == [];
      SleepAppend([CreateFork, Sleep(backoff)], Attempts(refusals - 1, Min(backoff * 2, BACKOFF_CAP)));
    }
  }

  /** A permit and a fork lock are slept on for at most two minutes. */
  lemma BackoffBound(answer: nat -> Answer)
    ensures SleepTotal(Attempts(LastAttempt(answer, 0), BACKOFF_START)) <= 120
  {
    SleepFrom(LastAttempt(answer, 0));
  }

  lemma SleepFrom(refusals: nat)
    requires refusals < MAX_FORK_ATTEMPTS
    ensures SleepTotal(Attempts(refusals, BACKOFF_START)) <= 120
  {
    SleepOfAttempts(refusals, 2);
    if refusals >= 1 { SleepOfAttempts(refusals - 1, 4); }
    if refusals >= 2 { SleepOfAttempts(refusals - 2, 8); }
    if refusals >= 3 { SleepOfAttempts(refusals - 3, 16); }
    if refusals >= 4 { SleepOfAttempts(refusals - 4, 30); }
    if refusals >= 5 { SleepOfAttempts(refusals - 5, 30); }
    if refusals >= 6 { SleepOfAttempts(refusals - 6, 30); }
    if refusals >= 7 { SleepOfAttempts(refusals - 7, 30); }
  }

  // ---- The dictionary of fork locks ----

  class ForkLocks {
    var locks: map<Url, nat>
    var created: nat

    ghost predicate Valid()
      reads this
    {
      && (forall u :: u in locks ==> locks[u] < created)
      && (forall u, v :: u in locks && v in locks && u != v ==> locks[u] != locks[v])
    }

    /** One lock per upstream, the same on every call, different for different upstreams. */
    method GetForkLock(url: Url) returns (lock: nat)
      requires Valid()
      modifies this
      ensures Valid()
      ensures locks.Keys == old(locks.Keys) + {url} && locks[url] == lock
      ensures forall u :: u in old(locks) ==> locks[u] == old(locks)[u]
    {
      if url !in locks {
        locks := locks[url := created];
        created := created + 1;
      }
      lock := locks[url];
    }
  }
}
