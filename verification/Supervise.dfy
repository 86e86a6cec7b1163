/** PID 1's supervisor: crates/plexos-init/src/supervise.rs.

    One service's history is a list of the things that happened to it; the table's bookkeeping
    is a function of that history, and the bound on restarts is a statement about histories.
    `Supervisor` is the table itself, changed in place by `Tick`. */
module Supervise {
  import opened Wrappers

  const U64_MAX: nat := 0xFFFF_FFFF_FFFF_FFFF
  const STABLE_MS: nat := 60_000
  const BACKOFF_MS: seq<nat> := [0, 1_000, 2_000, 5_000, 10_000, 30_000]

  function SaturatingAdd(a: nat, b: nat): nat {
    if a + b <= U64_MAX then a + b else U64_MAX
  }

  function SaturatingSub(a: nat, b: nat): nat {
    if a >= b then a - b else 0
  }

  function Backoff(failures: nat): nat {
    BACKOFF_MS[if failures < |BACKOFF_MS| - 1 then failures else |BACKOFF_MS| - 1]
  }

  // ----- One service -----

  datatype State = State(pid: Option<nat>, failures: nat, startedAt: nat, nextAttempt: nat)

  const FRESH: State := State(None, 0, 0, 0)

  function OnExit(s: State, now: nat): State {
    var failures := if SaturatingSub(now, s.startedAt) >= STABLE_MS then 0 else s.failures;
    State(None, failures + 1, s.startedAt, SaturatingAdd(now, Backoff(failures)))
  }

  function OnStarted(s: State, now: nat, pid: nat): State {
    s.(pid := Some(pid), startedAt := now)
  }

  function OnRefused(s: State, now: nat): State {
    s.(failures := s.failures + 1, nextAttempt := SaturatingAdd(now, Backoff(s.failures)))
  }

  /** What can happen to a service: it starts, it exits, or it cannot be started. The last two
      carry the delay that is announced before the next attempt. */
  datatype Happening =
    | Start(at: nat, pid: nat)
    | Exit(at: nat, pid: nat, delay: nat)
    | Refusal(at: nat, delay: nat)

  function Apply(s: State, h: Happening): State {
    match h
    case Start(at, pid) => OnStarted(s, at, pid)
    case Exit(at, _, _) => OnExit(s, at)
    case Refusal(at, _) => OnRefused(s, at)
  }

  function Replay(history: seq<Happening>): State {
    if history == [] then FRESH
    else Apply(Replay(history[..|history| - 1]), history[|history| - 1])
  }

  /** The latest time a history mentions. */
  function Latest(history: seq<Happening>): nat {
    if history == [] then 0 else history[|history| - 1].at
  }

  /** A service is only started when it is down and due, only exits as the process it is, and
      the announced delay is the one that will be waited. */
  ghost predicate Allowed(s: State, h: Happening) {
    match h
    case Start(at, _) => s.pid.None? && at >= s.nextAttempt
    case Refusal(at, delay) => s.pid.None? && at >= s.nextAttempt && OnRefused(s, at).nextAttempt == at + delay
    case Exit(at, pid, delay) => s.pid == Some(pid) && OnExit(s, at).nextAttempt == at + delay
  }

  /** A history the supervisor can produce, with its clock never within a backoff of the end
      of its range. */
  ghost predicate Legal(history: seq<Happening>) {
    history == [] ||
    var before, last := history[..|history| - 1], history[|history| - 1];
    && Legal(before)
    && Latest(before) <= last.at && last.at + 30_000 <= U64_MAX
    && Allowed(Replay(before), last)
  }

  // ----- How often a service may be started -----

  predicate IsAttempt(h: Happening) {
    !h.Exit?
  }

  /** Attempts, in order, by the time they were made. */
  function Attempts(history: seq<Happening>): seq<nat> {
    if history == [] then []
    else
      var before, last := Attempts(history[..|history| - 1]), history[|history| - 1];
      if IsAttempt(last) then before + [last.at] else before
  }

  /** How many milliseconds of restarts a failure count still has in hand. */
  function Potential(failures: nat): nat {
    if failures == 0 then 54_000
    else if failures == 1 then 42_000
    else if failures == 2 then 31_000
    else if failures == 3 then 21_000
    else if failures == 4 then 14_000
    else 12_000
  }

  lemma PotentialPays(failures: nat)
    ensures 12_000 <= Potential(failures) <= 54_000
    ensures 12_000 + Potential(failures + 1) <= Potential(failures) + Backoff(failures)
    ensures 12_000 + Potential(1) <= Potential(failures) + STABLE_MS
  {
  }

  /** The account of one window of attempts, from attempt `i` on: what has been spent never
      exceeds what time has brought in. */
  ghost predicate InCredit(s: State, attempts: seq<nat>, i: nat)
    requires i < |attempts|
  {
    if s.pid.Some? then
      12_000 * (|attempts| - 1 - i) + Potential(s.failures) + attempts[i] <= s.startedAt + 54_000
    else
      12_000 * (|attempts| - i) + Potential(s.failures) + attempts[i] <= s.nextAttempt + 54_000
  }

  lemma {:induction false} StateIsTimely(history: seq<Happening>)
    requires Legal(history)
    ensures Replay(history).pid.Some? ==> Replay(history).startedAt <= Latest(history)
    ensures Replay(history).pid.Some? ==> Attempts(history) != []
    ensures forall i :: 0 <= i < |Attempts(history)| ==> Attempts(history)[i] <= Latest(history)
  {
    if history != [] {
      StateIsTimely(history[..|history| - 1]);
    }
  }

  lemma {:induction false} AlwaysInCredit(history: seq<Happening>, i: nat)
    requires Legal(history) && i < |Attempts(history)|
    ensures InCredit(Replay(history), Attempts(history), i)
  {
    var before, last := history[..|history| - 1], history[|history| - 1];
    StateIsTimely(before);
    if i < |Attempts(before)| {
      AlwaysInCredit(before, i);
    }
    CreditAfter(Replay(before), last, Attempts(before), Attempts(history), i);
  }

  /** What one more happening does to the account. */
  lemma CreditAfter(s: State, h: Happening, before: seq<nat>, after: seq<nat>, i: nat)
    requires Allowed(s, h) && (s.pid.Some? ==> s.startedAt <= h.at)
    requires h.at + 30_000 <= U64_MAX && forall j :: 0 <= j < |before| ==> before[j] <= h.at
    requires after == if IsAttempt(h) then before + [h.at] else before
    requires i < |after| && (i < |before| ==> InCredit(s, before, i))
    ensures InCredit(Apply(s, h), after, i)
  {
    PotentialPays(s.failures);
    PotentialPays(0);
  }

  /** The amortised bound, for every window: `n` consecutive attempts to start a service take
      at least 12 seconds each, less an allowance of 54 seconds, however it exits, fails to
      start and is forgiven in between. */
  lemma {:induction false} RestartsAreBounded(history: seq<Happening>, i: nat, j: nat)
    requires Legal(history) && i <= j < |Attempts(history)|
    ensures 12_000 * (j - i + 1) + Attempts(history)[i] <= Attempts(history)[j] + 54_000
  {
    var before, last := history[..|history| - 1], history[|history| - 1];
    if j < |Attempts(before)| {
      RestartsAreBounded(before, i, j);
    } else if i < |Attempts(before)| {
      AlwaysInCredit(before, i);
      PotentialPays(Replay(before).failures);
    }
  }

  /** The allowance cannot be smaller: six refusals as early as possible reach the bound. */
  lemma TheBoundIsReached() returns (history: seq<Happening>)
    ensures Legal(history) && |Attempts(history)| == 6
    ensures 12_000 * 6 + Attempts(history)[0] == Attempts(history)[5] + 54_000
  {
    history := [];
    history := Extend(history, Refusal(0, 0));
    history := Extend(history, Refusal(0, 1_000));
    history := Extend(history, Refusal(1_000, 2_000));
    history := Extend(history, Refusal(3_000, 5_000));
    history := Extend(history, Refusal(8_000, 10_000));
    history := Extend(history, Refusal(18_000, 30_000));
  }

  lemma Extend(history: seq<Happening>, h: Happening) returns (longer: seq<Happening>)
    requires Legal(history) && Latest(history) <= h.at && h.at + 30_000 <= U64_MAX
    requires Allowed(Replay(history), h)
    ensures longer == history + [h] && Legal(longer) && Latest(longer) == h.at
    ensures Replay(longer) == Apply(Replay(history), h)
    ensures Attempts(longer) == if IsAttempt(h) then Attempts(history) + [h.at] else Attempts(history)
  {
    longer := history + [h];
    assert longer[..|longer| - 1] == history;
  }

  // ----- Starts and exits alternate -----

  /** The starts and exits of a history, refusals left out. */
  function Lifetimes(history: seq<Happening>): seq<Happening> {
    if history == [] then []
    else
      var before, last := Lifetimes(history[..|history| - 1]), history[|history| - 1];
      if last.Refusal? then before else before + [last]
  }

  /** Every second one is an exit, and it is the exit of the process started just before. */
  lemma {:induction false} StartsAndExitsAlternate(history: seq<Happening>)
    requires Legal(history)
    ensures forall k :: 0 <= k < |Lifetimes(history)| ==> Lifetimes(history)[k].Start? == (k % 2 == 0)
    ensures forall k :: 0 < k < |Lifetimes(history)| && k % 2 == 1 ==>
              Lifetimes(history)[k].Exit? && Lifetimes(history)[k].pid == Lifetimes(history)[k - 1].pid
    ensures Replay(history).pid.Some? <==> |Lifetimes(history)| % 2 == 1
    ensures Replay(history).pid.Some? ==>
              Replay(history).pid.value == Lifetimes(history)[|Lifetimes(history)| - 1].pid
  {
    if history != [] {
      StartsAndExitsAlternate(history[..|history| - 1]);
    }
  }

  // ----- What a history says of the service -----

  /** A service runs exactly when the last thing that happened was its start; otherwise it may next be
      tried when the last delay is over, or at once when nothing has happened. */
  lemma {:induction false} StandsAs(history: seq<Happening>)
    requires Legal(history)
    ensures Replay(history).pid
         == if history != [] && history[|history| - 1].Start? then Some(history[|history| - 1].pid) else None
    ensures Replay(history).pid.None? ==>
              Replay(history).nextAttempt
              == if history == [] then 0 else history[|history| - 1].at + history[|history| - 1].delay
    ensures Replay(history).pid.Some? ==> Replay(history).startedAt == history[|history| - 1].at
  {
    if history != [] {
      StandsAs(history[..|history| - 1]);
    }
  }

  lemma {:induction false} PrefixIsLegal(history: seq<Happening>, i: nat)
    requires Legal(history) && i <= |history|
    ensures Legal(history[..i])
  {
    if i < |history| {
      PrefixIsLegal(history[..|history| - 1], i);
      assert history[..|history| - 1][..i] == history[..i];
    } else {
      assert history[..i] == history;
    }
  }

  lemma LegalStep(history: seq<Happening>, i: nat)
    requires Legal(history) && i < |history|
    ensures Legal(history[..i]) && Allowed(Replay(history[..i]), history[i])
    ensures Replay(history[..i + 1]) == Apply(Replay(history[..i]), history[i])
    ensures Latest(history[..i]) <= history[i].at && history[i].at + 30_000 <= U64_MAX
  {
    var longer, before := LegalPrefixes(history, i);
    LastStep(longer, before, history[i]);
  }

  lemma LegalPrefixes(history: seq<Happening>, i: nat) returns (longer: seq<Happening>, before: seq<Happening>)
    requires Legal(history) && i < |history|
    ensures longer == history[..i + 1] && before == history[..i] && longer == before + [history[i]] && Legal(longer)
  {
    PrefixIsLegal(history, i + 1);
    longer, before := history[..i + 1], history[..i];
  }

  lemma LastStep(longer: seq<Happening>, before: seq<Happening>, h: Happening)
    requires longer == before + [h] && Legal(longer)
    ensures Legal(before) && Allowed(Replay(before), h) && Replay(longer) == Apply(Replay(before), h)
    ensures Latest(before) <= h.at && h.at + 30_000 <= U64_MAX
  {
    assert longer[..|longer| - 1] == before;
  }

  /** An exit comes right after the start of the same process, and an attempt never before the delay
      announced last is over. */
  lemma EachFollows(history: seq<Happening>, i: nat)
    requires Legal(history) && i < |history|
    ensures history[i].Exit? ==> i > 0 && history[i - 1].Start? && history[i - 1].pid == history[i].pid
    ensures !history[i].Exit? && i > 0 ==>
              !history[i - 1].Start? && history[i].at >= history[i - 1].at + history[i - 1].delay
  {
    LegalStep(history, i);
    StandsAs(history[..i]);
  }

  /** The exit of a process that ran for a minute or more. */
  ghost predicate LongRun(history: seq<Happening>, i: nat)
    requires i < |history|
  {
    i > 0 && history[i].Exit? && history[i - 1].Start? && history[i].at >= history[i - 1].at + 60_000
  }

  /** How many of these are exits and refusals. */
  function Setbacks(history: seq<Happening>): nat {
    if history == [] then 0
    else Setbacks(history[..|history| - 1]) + (if history[|history| - 1].Start? then 0 else 1)
  }

  lemma SetbacksStep(history: seq<Happening>, j: nat, i: nat)
    requires j <= i < |history|
    ensures Setbacks(history[j..i + 1]) == Setbacks(history[j..i]) + (if history[i].Start? then 0 else 1)
  {
    assert history[j..i + 1][..i - j] == history[j..i];
  }

  /** Nothing since `j`, where the count starts, came after a long run. */
  ghost predicate CountsFrom(history: seq<Happening>, j: nat, i: nat)
    requires i <= |history|
  {
    (j == 0 || (j < i && LongRun(history, j))) && forall k :: j < k < i ==> !LongRun(history, k)
  }

  lemma LongRunIs(history: seq<Happening>, i: nat)
    requires Legal(history) && i < |history|
    ensures LongRun(history, i) <==>
            history[i].Exit? && history[i].at >= Replay(history[..i]).startedAt + 60_000
  {
    LegalStep(history, i);
    EachFollows(history, i);
    StandsAs(history[..i]);
  }

  /** The five delays, and the one for every setback after that. */
  function WaitAfter(setbacks: nat): nat {
    if setbacks == 0 then 0 else if setbacks == 1 then 1_000 else if setbacks == 2 then 2_000
    else if setbacks == 3 then 5_000 else if setbacks == 4 then 10_000 else 30_000
  }

  lemma OneMore(s: State, h: Happening, long: bool)
    requires Allowed(s, h) && h.at + 30_000 <= U64_MAX
    requires long <==> h.Exit? && h.at >= s.startedAt + 60_000
    ensures Apply(s, h).failures == if h.Start? then s.failures else if long then 1 else s.failures + 1
    ensures !h.Start? ==> h.delay == WaitAfter(if long then 0 else s.failures)
  {
  }

  lemma OneMoreIn(history: seq<Happening>, i: nat, failures: nat)
    requires Legal(history) && i < |history| && failures == Replay(history[..i]).failures
    ensures Replay(history[..i + 1]).failures
         == if history[i].Start? then failures else if LongRun(history, i) then 1 else failures + 1
    ensures !history[i].Start? ==> history[i].delay == WaitAfter(if LongRun(history, i) then 0 else failures)
  {
    LegalStep(history, i);
    LongRunIs(history, i);
    OneMore(Replay(history[..i]), history[i], LongRun(history, i));
  }

  lemma {:induction false} FailuresAreCounted(history: seq<Happening>, j: nat, i: nat)
    requires Legal(history) && j <= i <= |history| && CountsFrom(history, j, i)
    ensures Replay(history[..i]).failures == Setbacks(history[j..i])
    decreases i
  {
    if i == 0 {
      assert history[..0] == [] && history[j..0] == [];
    } else {
      var last := i - 1;
      OneMoreIn(history, last, Replay(history[..last]).failures);
      SetbacksStep(history, j, last);
      if j < last || j == 0 {
        FailuresAreCounted(history, j, last);
      } else {
        assert history[j..last] == [];
      }
    }
  }

  /** The delay of every exit and refusal, by the number of exits and refusals before it since the last
      exit after a run of a minute or more, that one included; such an exit itself has none. */
  lemma DelaysAreCounted(history: seq<Happening>, j: nat, i: nat)
    requires Legal(history) && j <= i < |history| && !history[i].Start?
    requires j == 0 || LongRun(history, j)
    requires forall k :: j < k <= i ==> !LongRun(history, k)
    ensures history[i].delay == WaitAfter(Setbacks(history[j..i]))
  {
    OneMoreIn(history, i, Replay(history[..i]).failures);
    if j < i || j == 0 {
      FailuresAreCounted(history, j, i);
    } else {
      assert history[j..i] == [];
    }
  }

  // ----- The table -----

  datatype Service = Service(name: string, program: string)

  datatype Reaped = Reaped(pid: nat, status: int)

  /** What is reported. A service is named by its place in the table. */
  datatype Event =
    | Started(service: nat, pid: nat)
    | Exited(service: nat, reaped: Reaped, delayMs: nat)
    | CouldNotStart(service: nat, delayMs: nat)

  function Happened(e: Event, now: nat): Happening {
    match e
    case Started(_, pid) => Start(now, pid)
    case Exited(_, reaped, delay) => Exit(now, reaped.pid, delay)
    case CouldNotStart(_, delay) => Refusal(now, delay)
  }

  /** The part of a tick's events that concerns one service. */
  function About(events: seq<Event>, i: nat, now: nat): seq<Happening> {
    if events == [] then []
    else
      var before, last := About(events[..|events| - 1], i, now), events[|events| - 1];
      if last.service == i then before + [Happened(last, now)] else before
  }

  lemma AboutAppended(events: seq<Event>, e: Event, i: nat, now: nat)
    ensures About(events + [e], i, now)
         == About(events, i, now) + (if e.service == i then [Happened(e, now)] else [])
  {
    assert (events + [e])[..|events|] == events;
  }

  datatype ReapResult = Collected(reaped: Reaped) | Nothing | Failed

  /** PID 1's children and the orphans it has adopted: running, or exited and not yet waited for. */
  class Environment {
    /** Whether waiting for a child may fail, and whether every program can be started. */
    const faulty: bool
    const startable: bool
    var live: set<nat>
    var zombies: set<nat>

    constructor (running: set<nat>, faulty: bool, startable: bool)
      ensures this.faulty == faulty && this.startable == startable
      ensures live == running && zombies == {}
    {
      this.faulty, this.startable := faulty, startable;
      live, zombies := running, {};
    }

    /** Any of the running processes may exit at any time. */
    method Pass()
      requires live !! zombies
      modifies this
      ensures live !! zombies && live + zombies == old(live + zombies)
      ensures old(zombies) <= zombies && |live| + |zombies| == old(|live| + |zombies|)
    {
      var exiting: set<nat> :| exiting <= live;
      assert |live - exiting| + |exiting| == |live| by {
        assert live == (live - exiting) + exiting;
      }
      assert |zombies + exiting| == |zombies| + |exiting|;
      live, zombies := live - exiting, zombies + exiting;
    }

    method Reap() returns (r: ReapResult)
      requires live !! zombies
      modifies this
      ensures live !! zombies
      ensures r.Collected? ==>
                && r.reaped.pid in old(live + zombies) && r.reaped.pid !in live + zombies
                && live + zombies == old(live + zombies) - {r.reaped.pid}
                && old(zombies) - {r.reaped.pid} <= zombies
                && |live| + |zombies| < old(|live| + |zombies|)
      ensures !r.Collected? ==> live + zombies == old(live + zombies) && old(zombies) <= zombies
      ensures r.Nothing? ==> zombies == {}
      ensures r.Failed? ==> faulty
    {
      Pass();
      var fails: bool :| true;
      if faulty && fails {
        return Failed;
      }
      if zombies == {} {
        return Nothing;
      }
      var pid :| pid in zombies;
      var status: int :| true;
      zombies := zombies - {pid};
      return Collected(Reaped(pid, status));
    }

    /** A pid is never handed out while a process still has it. */
    method Spawn(service: Service) returns (r: Option<nat>)
      requires live !! zombies
      modifies this
      ensures live !! zombies && old(zombies) <= zombies
      ensures r.Some? ==> r.value !in old(live + zombies) && live + zombies == old(live + zombies) + {r.value}
      ensures r.None? ==> !startable && live + zombies == old(live + zombies)
    {
      Pass();
      var fails: bool :| true;
      if !startable && fails {
        return None;
      }
      SomePidIsFree(live + zombies);
      var pid: nat :| pid !in live + zombies;
      live := live + {pid};
      return Some(pid);
    }
  }

  lemma {:induction false} AtMostTheirSum(pids: set<nat>) returns (bound: nat)
    ensures forall p :: p in pids ==> p <= bound
  {
    if pids == {} {
      bound := 0;
    } else {
      var p :| p in pids;
      var rest := AtMostTheirSum(pids - {p});
      bound := rest + p;
      forall q | q in pids
        ensures q <= bound
      {
        assert q == p || q in pids - {p};
      }
    }
  }

  lemma SomePidIsFree(pids: set<nat>)
    ensures exists p: nat :: p !in pids
  {
    var bound := AtMostTheirSum(pids);
    assert bound + 1 !in pids;
  }

  class Supervisor {
    const services: seq<Service>
    var states: seq<State>
    ghost var histories: seq<seq<Happening>>
    ghost var clock: nat

    constructor (services: seq<Service>)
      ensures this.services == services && |states| == |services|
      ensures Books() && clock == 0
      ensures forall i :: 0 <= i < |states| ==> histories[i] == []
    {
      this.services := services;
      states := seq(|services|, i => FRESH);
      histories := seq(|services|, i => []);
      clock := 0;
    }

    /** Each row is its service's history replayed, and no two rows have one process. */
    ghost predicate Books()
      reads this
    {
      && |states| == |histories| == |services|
      && (forall i :: 0 <= i < |states| ==>
            Legal(histories[i]) && states[i] == Replay(histories[i]) && Latest(histories[i]) <= clock)
      && (forall i, j :: 0 <= i < j < |states| && states[i].pid.Some? ==> states[i].pid != states[j].pid)
    }

    /** Every process in the table exists: it runs, or it has exited and is still to be collected. */
    ghost predicate Valid(environment: Environment)
      reads this, environment
    {
      && Books() && environment.live !! environment.zombies
      && (forall i :: 0 <= i < |states| && states[i].pid.Some? ==>
            states[i].pid.value in environment.live + environment.zombies)
    }

    /** Records one happening in row `i`. */
    method Enter(i: nat, h: Happening)
      requires Books() && i < |states| && h.at == clock && clock + 30_000 <= U64_MAX
      requires Allowed(states[i], h)
      requires h.Start? ==> forall j :: 0 <= j < |states| ==> states[j].pid != Some(h.pid)
      modifies this`states, this`histories
      ensures Books()
      ensures states == old(states)[i := Apply(old(states[i]), h)]
      ensures histories == old(histories)[i := old(histories[i]) + [h]]
    {
      ghost var longer := Extend(histories[i], h);
      states := states[i := Apply(states[i], h)];
      histories := histories[i := histories[i] + [h]];
    }

    /** The row a process belongs to, or the number of rows. */
    method Owner(pid: nat) returns (index: nat)
      ensures index <= |states|
      ensures index < |states| ==> states[index].pid == Some(pid)
      ensures forall j :: 0 <= j < index ==> states[j].pid != Some(pid)
    {
      index := 0;
      while index < |states| && states[index].pid != Some(pid)
        invariant index <= |states|
        invariant forall j :: 0 <= j < index ==> states[j].pid != Some(pid)
      {
        index := index + 1;
      }
    }

    /** What has been appended to each history since `before` is what the events say. */
    ghost predicate Reported(before: seq<seq<Happening>>, events: seq<Event>, now: nat)
      reads this
      requires |before| == |histories|
    {
      forall i :: 0 <= i < |histories| ==> histories[i] == before[i] + About(events, i, now)
    }

    lemma ReportedNext(before: seq<seq<Happening>>, was: seq<seq<Happening>>, events: seq<Event>, e: Event, now: nat)
      requires |before| == |was| == |histories| && e.service < |was|
      requires forall i :: 0 <= i < |was| ==> was[i] == before[i] + About(events, i, now)
      requires histories == was[e.service := was[e.service] + [Happened(e, now)]]
      ensures Reported(before, events + [e], now)
    {
      forall i | 0 <= i < |histories|
        ensures histories[i] == before[i] + About(events + [e], i, now)
      {
        AboutAppended(events, e, i, now);
      }
    }

    /** One pass: collect what has exited, then start whatever is due. */
    method Tick(now: nat, environment: Environment) returns (events: seq<Event>)
      requires Valid(environment) && clock <= now && now + 30_000 <= U64_MAX
      modifies this`states, this`histories, this`clock, environment
      ensures Valid(environment) && clock == now
      ensures |histories| == |old(histories)| && Reported(old(histories), events, now)
      // Unless waiting for children fails, every service that had exited is reported.
      ensures !environment.faulty ==>
                forall i :: 0 <= i < |states| && HadExited(old(states), old(environment.zombies), i) ==>
                              |histories[i]| > |old(histories)[i]|
      // Every service runs, waits for its delay, or has only just failed to start.
      ensures forall i :: 0 <= i < |states| ==> Settled(i, now, environment)
    {
      clock := now;
      events := Collect(now, environment);
      events := StartDue(now, environment, events, old(histories));
    }

    ghost predicate Settled(i: nat, now: nat, environment: Environment)
      reads this
      requires i < |states|
    {
      states[i].pid.Some? || now < states[i].nextAttempt || (!environment.startable && JustRefused(i, now))
    }

    method StartDue(now: nat, environment: Environment, collected: seq<Event>, ghost before: seq<seq<Happening>>)
      returns (events: seq<Event>)
      requires Valid(environment) && clock == now && now + 30_000 <= U64_MAX
      requires |before| == |histories| && Reported(before, collected, now)
      modifies this`states, this`histories, environment
      ensures Valid(environment)
      ensures |histories| == |before| && Reported(before, events, now)
      ensures forall i :: 0 <= i < |states| ==> |histories[i]| >= |old(histories)[i]|
      ensures forall i :: 0 <= i < |states| ==> Settled(i, now, environment)
    {
      events := collected;
      for index := 0 to |services|
        invariant Valid(environment)
        invariant |histories| == |before| && Reported(before, events, now)
        invariant forall i :: 0 <= i < |states| ==> |histories[i]| >= |old(histories)[i]|
        invariant forall i :: 0 <= i < index ==> Settled(i, now, environment)
      {
        if states[index].pid.Some? || now < states[index].nextAttempt {
          continue;
        }
        events := StartOne(index, now, environment, events, before);
      }
    }

    /** One turn of the loop: the events grow by what came of the attempt. */
    method StartOne(index: nat, now: nat, environment: Environment, soFar: seq<Event>,
                    ghost before: seq<seq<Happening>>)
      returns (events: seq<Event>)
      requires Valid(environment) && clock == now && now + 30_000 <= U64_MAX
      requires index < |states| && states[index].pid.None? && now >= states[index].nextAttempt
      requires |before| == |histories| && Reported(before, soFar, now)
      modifies this`states, this`histories, environment
      ensures Valid(environment)
      ensures |histories| == |before| && Reported(before, events, now)
      ensures forall i :: 0 <= i < |states| ==> |histories[i]| >= |old(histories)[i]|
      ensures Settled(index, now, environment)
      ensures forall i :: 0 <= i < |states| && i != index && old(Settled(i, now, environment)) ==>
                Settled(i, now, environment)
    {
      ghost var was := histories;
      var e := TryStart(index, now, environment);
      ReportedNext(before, was, soFar, e, now);
      events := soFar + [e];
    }

    /** Starts a service that is down and due, or puts off the next attempt. */
    method TryStart(index: nat, now: nat, environment: Environment) returns (e: Event)
      requires Valid(environment) && clock == now && now + 30_000 <= U64_MAX
      requires index < |states| && states[index].pid.None? && now >= states[index].nextAttempt
      modifies this`states, this`histories, environment
      ensures Valid(environment) && old(environment.zombies) <= environment.zombies
      ensures e.service == index && e.Exited? == false
      ensures histories == old(histories)[index := old(histories[index]) + [Happened(e, now)]]
      ensures states == old(states)[index := Apply(old(states[index]), Happened(e, now))]
      ensures e.Started? ==> e.pid !in old(environment.live + environment.zombies)
      ensures environment.startable ==> e.Started?
      ensures Settled(index, now, environment)
      ensures forall i :: 0 <= i < |states| && i != index && old(Settled(i, now, environment)) ==>
                Settled(i, now, environment)
    {
      var spawned := environment.Spawn(services[index]);
      if spawned.Some? {
        e := Started(index, spawned.value);
      } else {
        e := CouldNotStart(index, Backoff(states[index].failures));
      }
      Enter(index, Happened(e, now));
    }

    ghost predicate HadExited(rows: seq<State>, zombies: set<nat>, i: nat)
      requires i < |rows|
    {
      rows[i].pid.Some? && rows[i].pid.value in zombies
    }

    ghost predicate JustRefused(i: nat, now: nat)
      reads this
      requires i < |states|
    {
      i < |histories| && histories[i] != [] && histories[i][|histories[i]| - 1].Refusal? && Latest(histories[i]) == now
    }

    /** Takes note of one collected child. An orphan changes nothing. */
    method Bury(reaped: Reaped, now: nat) returns (e: Option<Event>)
      requires Books() && clock == now && now + 30_000 <= U64_MAX
      modifies this`states, this`histories
      ensures Books()
      ensures e.None? ==> states == old(states) && histories == old(histories)
      ensures forall i :: 0 <= i < |states| && old(states)[i].pid == Some(reaped.pid) ==>
                            e.Some? && e.value.service == i
      ensures e.Some? ==>
                && e.value.Exited? && e.value.reaped == reaped && e.value.service < |old(states)|
                && old(states)[e.value.service].pid == Some(reaped.pid)
                && histories
                   == old(histories)[e.value.service := old(histories)[e.value.service] + [Happened(e.value, now)]]
                && states == old(states)[e.value.service := Apply(old(states)[e.value.service], Happened(e.value, now))]
    {
      var index := Owner(reaped.pid);
      if index == |states| {
        return None;
      }
      var after := OnExit(states[index], now);
      e := Some(Exited(index, reaped, after.nextAttempt - now));
      Enter(index, Happened(e.value, now));
    }

    /** Collects every child that has exited, unless waiting for one fails. */
    method Collect(now: nat, environment: Environment) returns (events: seq<Event>)
      requires Valid(environment) && clock == now && now + 30_000 <= U64_MAX
      modifies this`states, this`histories, environment
      ensures Valid(environment)
      ensures |histories| == |old(histories)| && Reported(old(histories), events, now)
      ensures !environment.faulty ==>
                && environment.zombies == {}
                && (forall p :: p in old(environment.zombies) ==> p !in environment.live + environment.zombies)
                && (forall i :: 0 <= i < |states| && HadExited(old(states), old(environment.zombies), i) ==>
                                  |histories[i]| > |old(histories)[i]|)
    {
      events := [];
      var more := true;
      while more
        invariant Valid(environment)
        invariant |histories| == |old(histories)| && Reported(old(histories), events, now)
        invariant StillExited(old(environment.zombies), environment)
        invariant !more && !environment.faulty ==> environment.zombies == {}
        invariant forall i :: 0 <= i < |states| ==>
                                states[i] == old(states)[i] || |histories[i]| > |old(histories)[i]|
        decreases more, |environment.live| + |environment.zombies|
      {
        events, more := CollectOne(now, environment, events, old(histories));
      }
    }

    /** Of these children, those not collected have exited. */
    ghost predicate StillExited(pids: set<nat>, environment: Environment)
      reads environment
    {
      forall p :: p in pids && p in environment.live + environment.zombies ==> p in environment.zombies
    }

    /** One turn of the loop: a child is collected, or there is none to collect. */
    method CollectOne(now: nat, environment: Environment, collected: seq<Event>, ghost before: seq<seq<Happening>>)
      returns (events: seq<Event>, more: bool)
      requires Valid(environment) && clock == now && now + 30_000 <= U64_MAX
      requires |before| == |histories| && Reported(before, collected, now)
      modifies this`states, this`histories, environment
      ensures Valid(environment)
      ensures |histories| == |before| && Reported(before, events, now)
      ensures forall pids :: old(StillExited(pids, environment)) ==> StillExited(pids, environment)
      ensures more ==> |environment.live| + |environment.zombies| < old(|environment.live| + |environment.zombies|)
      ensures !more && !environment.faulty ==> environment.zombies == {}
      ensures forall i :: 0 <= i < |states| ==>
                            || (states[i] == old(states)[i] && histories[i] == old(histories)[i])
                            || |histories[i]| > |old(histories)[i]|
    {
      events := collected;
      var r := environment.Reap();
      more := r.Collected?;
      if more {
        events := Note(r.reaped, now, events, before);
        assert forall i :: 0 <= i < |states| ==> states[i].pid != Some(r.reaped.pid);
      }
    }

    /** The events grow by what is entered for a collected child, if anything is. */
    method Note(reaped: Reaped, now: nat, collected: seq<Event>, ghost before: seq<seq<Happening>>)
      returns (events: seq<Event>)
      requires Books() && clock == now && now + 30_000 <= U64_MAX
      requires |before| == |histories| && Reported(before, collected, now)
      modifies this`states, this`histories
      ensures Books()
      ensures |histories| == |before| && Reported(before, events, now)
      ensures forall i :: 0 <= i < |states| ==>
                            if old(states)[i].pid == Some(reaped.pid)
                            then states[i].pid.None? && |histories[i]| > |old(histories)[i]|
                            else states[i] == old(states)[i] && histories[i] == old(histories)[i]
    {
      ghost var was := histories;
      var e := Bury(reaped, now);
      events := collected;
      if e.Some? {
        ReportedNext(before, was, events, e.value, now);
        events := events + [e.value];
      }
    }
  }
}
