/** `engine/supervisor.rs` and the shared state of `engine/mod.rs`: the engine process is started again
    after a fault, but not too often, and the shell sees an endpoint only while the engine is ready. */
module Supervisor {
  import opened Options
  import Ready

  datatype EngineError =
    | NotFound | SpawnFailed | ReadyTimeout | ReadyMalformed(reason: string) | ExitedBeforeReady(code: Option<int>)
    | HealthUnreachable(consecutive: nat) | ShutdownTimeout | KillFailed | RestartBudgetExhausted | HttpClient

  predicate IsRetryable(e: EngineError) {
    !e.NotFound? && !e.ReadyMalformed?
  }

  datatype EngineState = Launching | Serving | Restarting | Fatal

  datatype Endpoint = Endpoint(port: nat, token: string)

  // ---------- the shared state ----------

  class Shared {
    var endpoint: Option<Endpoint>
    var state: EngineState
    var restarts: nat
    var pid: Option<nat>
    var version: Option<string>
    var health: Option<string>
    var exitCode: Option<int>
    var error: Option<EngineError>

    /** A published endpoint means that the engine is ready. */
    ghost predicate Valid()
      reads this
    {
      endpoint.Some? ==> state == Serving
    }

    constructor ()
      ensures Valid() && endpoint.None? && state == Launching && error.None?
    {
      endpoint, state, restarts, pid, version := None, Launching, 0, None, None;
      health, exitCode, error := None, None, None;
    }

    method Publish(endpoint: Endpoint, pid: nat, version: string)
      modifies this
      ensures Valid() && this.endpoint == Some(endpoint) && state == Serving && error.None? && exitCode.None?
      ensures this.pid == Some(pid) && this.version == Some(version)
      ensures restarts == old(restarts) && health == old(health)
    {
      this.endpoint, this.pid, this.version := Some(endpoint), Some(pid), Some(version);
      state, error, exitCode := Serving, None, None;
    }

    method SetState(next: EngineState)
      requires Valid()
      modifies this`state, this`endpoint
      ensures Valid() && state == next && endpoint == if next.Serving? then old(endpoint) else None
    {
      state := next;
      if next != Serving {
        endpoint := None;
      }
    }

    method BeginAttempt(next: EngineState)
      modifies this
      ensures Valid() && state == next && endpoint.None? && error.None? && health.None?
      ensures restarts == old(restarts) && pid == old(pid) && version == old(version) && exitCode == old(exitCode)
    {
      state, endpoint, error, health := next, None, None, None;
    }

    method Fail(e: EngineError)
      modifies this
      ensures Valid() && state == Fatal && endpoint.None? && error == Some(e)
      ensures restarts == old(restarts) && exitCode == old(exitCode)
    {
      state, endpoint, error := Fatal, None, Some(e);
    }

    method SetHealth(status: string)
      requires Valid()
      modifies this`health
      ensures Valid() && health == Some(status)
    {
      health := Some(status);
    }

    method SetExitCode(code: Option<int>)
      requires Valid()
      modifies this`exitCode
      ensures Valid() && exitCode == code
    {
      exitCode := code;
    }

    method SetRestarts(n: nat)
      requires Valid()
      modifies this`restarts
      ensures Valid() && restarts == n
    {
      restarts := n;
    }
  }

  // ---------- the restart budget ----------

  datatype Timing = Timing(healthFailures: nat, window: nat, limit: nat)

  const BACKOFF: seq<nat> := [1, 2, 4, 8, 16]

  function BackoffDelay(streak: nat): (d: nat)
    ensures d == match streak case 0 => 1 case 1 => 2 case 2 => 4 case 3 => 8 case _ => 16
  {
    BACKOFF[if streak < 4 then streak else 4]
  }

  function SaturatingSub(a: nat, b: nat): nat {
    if a < b then 0 else a - b
  }

  function CountRecent(times: seq<nat>, now: nat, window: nat): nat {
    if times == [] then 0
    else CountRecent(times[..|times| - 1], now, window)
         + (if SaturatingSub(now, times[|times| - 1]) <= window then 1 else 0)
  }

  /** The stamps that are not older than the window: a stamp exactly as old as the window counts. */
  ghost function RecentStamps(times: seq<nat>, now: nat, window: nat): set<int> {
    set i | 0 <= i < |times| && now <= times[i] + window
  }

  lemma {:induction false} CountsRecentStamps(times: seq<nat>, now: nat, window: nat)
    ensures CountRecent(times, now, window) == |RecentStamps(times, now, window)|
  {
    if times != [] {
      var n := |times| - 1;
      CountsRecentStamps(times[..n], now, window);
      var before := RecentStamps(times[..n], now, window);
      assert RecentStamps(times, now, window) == before + if now <= times[n] + window then {n} else {};
    }
  }

  /** `restart_budget_exhausted` */
  method BudgetExhausted(times: seq<nat>, now: nat, window: nat, limit: nat) returns (exhausted: bool)
    ensures exhausted <==> CountRecent(times, now, window) >= limit
  {
    var recent, i := 0, 0;
    while i < |times|
      invariant 0 <= i <= |times| && recent == CountRecent(times[..i], now, window)
    {
      assert times[..i + 1][..i] == times[..i];
      if SaturatingSub(now, times[i]) <= window {
        recent := recent + 1;
      }
      i := i + 1;
    }
    assert times[..i] == times;
    exhausted := recent >= limit;
  }

  /** How many stamps lie in the closed window that starts at `t`. */
  function CountIn(times: seq<nat>, t: int, window: nat): nat {
    if times == [] then 0
    else CountIn(times[..|times| - 1], t, window) + (if t <= times[|times| - 1] <= t + window then 1 else 0)
  }

  ghost predicate Rising(times: seq<nat>) {
    forall i, j :: 0 <= i < j < |times| ==> times[i] <= times[j]
  }

  /** No window of the configured length holds more than `limit` restarts. */
  ghost predicate RateLimited(times: seq<nat>, window: nat, limit: nat) {
    forall t: int :: CountIn(times, t, window) <= limit
  }

  lemma {:induction false} InIsRecent(times: seq<nat>, t: int, now: nat, window: nat)
    requires now <= t + window
    ensures CountIn(times, t, window) <= CountRecent(times, now, window)
  {
    if times != [] { InIsRecent(times[..|times| - 1], t, now, window); }
  }

  lemma RecordKeepsLimit(times: seq<nat>, now: nat, window: nat, limit: nat)
    requires Rising(times) && RateLimited(times, window, limit) && CountRecent(times, now, window) < limit
    requires forall i :: 0 <= i < |times| ==> times[i] <= now
    ensures Rising(times + [now]) && RateLimited(times + [now], window, limit)
  {
    var more := times + [now];
    assert more[..|more| - 1] == times;
    forall t: int ensures CountIn(more, t, window) <= limit {
      if t <= now <= t + window {
        InIsRecent(times, t, now, window);
      } else {
        assert CountIn(times, t, window) <= limit;
      }
    }
  }

  class RestartClock {
    var times: seq<nat>
    /** Restarts since the engine last answered a health check. */
    var streak: nat

    constructor ()
      ensures times == [] && streak == 0
    {
      times, streak := [], 0;
    }

    method Record(now: nat)
      modifies this
      ensures times == old(times) + [now] && streak == old(streak) + 1
    {
      times := times + [now];
      streak := streak + 1;
    }

    method NoteHealthy()
      modifies this`streak
      ensures streak == 0
    {
      streak := 0;
    }
  }

  // ---------- one launch ----------

  /** What happens while the engine serves. */
  datatype HealthEvent = StopRequested | Exited(code: Option<int>) | Healthy(status: string) | Unhealthy

  /** What the host does in one launch: each field is read as far as the launch gets. */
  datatype Script = Script(
    resolved: bool, spawned: bool, stopInHandshake: bool, handshake: Ready.Handshake, token: string,
    pid: nat, healths: seq<HealthEvent>, exitCode: Option<int>)

  datatype Outcome = Stopped | Retry(error: EngineError)

  function ReadyError(h: Ready.Handshake, exitCode: Option<int>): EngineError
    requires !h.Announced?
  {
    match h
    case TimedOut => ReadyTimeout
    case Eof => ExitedBeforeReady(exitCode)
    case Failed(reason) => ReadyMalformed(reason)
  }

  /** When `n` events have been seen, the last `c` of them were unhealthy answers, and before them there is
      a healthy one or nothing. */
  ghost predicate UnhealthyFor(healths: seq<HealthEvent>, n: int, c: int) {
    && 0 <= c <= n <= |healths|
    && (forall j :: n - c <= j < n ==> healths[j].Unhealthy?)
    && (n - c == 0 || healths[n - c - 1].Healthy?)
  }

  ghost predicate FullRun(healths: seq<HealthEvent>, failures: nat, n: int) {
    exists c :: UnhealthyFor(healths, n, c) && c >= failures
  }

  /** A stop, an exit, or the last unhealthy answer of a full run. */
  ghost predicate Decides(healths: seq<HealthEvent>, failures: nat, i: int) {
    && 0 <= i < |healths|
    && (|| healths[i].StopRequested? || healths[i].Exited?
        || (healths[i].Unhealthy? && FullRun(healths, failures, i + 1)))
  }

  /** Event `until` is the first to decide; if none does, the events run out. */
  ghost predicate FirstToDecide(healths: seq<HealthEvent>, failures: nat, until: nat) {
    && until <= |healths| && (forall i :: 0 <= i < until ==> !Decides(healths, failures, i))
    && (until < |healths| ==> Decides(healths, failures, until))
  }

  /** What the deciding event makes of the launch. A launch is stopped only by a request or when the events
      run out; an exit counts as at least one failure. */
  ghost predicate WatchEnds(healths: seq<HealthEvent>, until: nat, out: Outcome)
    requires until <= |healths|
  {
    if until == |healths| || healths[until].StopRequested? then out == Stopped
    else if healths[until].Exited? then
      exists c :: UnhealthyFor(healths, until, c) && out == Retry(HealthUnreachable(if c > 1 then c else 1))
    else exists c :: UnhealthyFor(healths, until + 1, c) && out == Retry(HealthUnreachable(c))
  }

  ghost predicate AnsweredHealthy(healths: seq<HealthEvent>, until: nat)
    requires until <= |healths|
  {
    exists i :: 0 <= i < until && healths[i].Healthy?
  }

  /** The status shown is that of the last healthy answer. */
  ghost predicate ShowsHealth(healths: seq<HealthEvent>, until: nat, before: Option<string>, shown: Option<string>)
    requires until <= |healths|
  {
    && (!AnsweredHealthy(healths, until) ==> shown == before)
    && forall i :: 0 <= i < until && healths[i].Healthy? && !(exists j :: i < j < until && healths[j].Healthy?) ==>
         shown == Some(healths[i].status)
  }

  lemma OneRun(healths: seq<HealthEvent>, n: int, c: int, d: int)
    requires UnhealthyFor(healths, n, c) && UnhealthyFor(healths, n, d)
    ensures c == d
  {
    var at := n - (if c < d then c else d) - 1;
    assert at >= 0 ==> healths[at].Healthy?;
  }

  lemma NotYet(healths: seq<HealthEvent>, failures: nat, i: nat, c: nat)
    requires UnhealthyFor(healths, i, c) && i < |healths| && c + 1 < failures && healths[i].Unhealthy?
    ensures UnhealthyFor(healths, i + 1, c + 1) && !Decides(healths, failures, i)
  {
    var n := i + 1;
    forall d | UnhealthyFor(healths, n, d) ensures d == c + 1 {
      OneRun(healths, n, c + 1, d);
    }
  }

  /** `watch_health`: the first stop, exit or full run of failures ends it. */
  method WatchHealth(shared: Shared, clock: RestartClock, healths: seq<HealthEvent>, failures: nat)
    returns (out: Outcome, ghost until: nat)
    requires shared.Valid() && shared.state == Serving
    modifies shared`health, clock`streak
    ensures shared.Valid()
    ensures FirstToDecide(healths, failures, until) && WatchEnds(healths, until, out)
    ensures clock.streak == if AnsweredHealthy(healths, until) then 0 else old(clock.streak)
    ensures ShowsHealth(healths, until, old(shared.health), shared.health)
  {
    hide Decides, UnhealthyFor, AnsweredHealthy, ShowsHealth;
    var consecutive, i := 0, 0;
    NoneYet(healths, shared.health);
    while i < |healths|
      invariant 0 <= i <= |healths| && consecutive >= 0 && shared.Valid() && UnhealthyFor(healths, i, consecutive)
      invariant forall j :: 0 <= j < i ==> !Decides(healths, failures, j)
      invariant clock.streak == if AnsweredHealthy(healths, i) then 0 else old(clock.streak)
      invariant ShowsHealth(healths, i, old(shared.health), shared.health)
    {
      EventDecides(healths, failures, i, consecutive);
      EventShows(healths, i, old(shared.health), shared.health);
      match healths[i] {
        case StopRequested =>
          return Stopped, i;
        case Exited(_) =>
          return Retry(HealthUnreachable(if consecutive > 1 then consecutive else 1)), i;
        case Healthy(status) =>
          consecutive := 0;
          clock.NoteHealthy();
          shared.SetHealth(status);
        case Unhealthy =>
          consecutive := consecutive + 1;
          if consecutive >= failures {
            return Retry(HealthUnreachable(consecutive)), i;
          }
      }
      i := i + 1;
    }
    out, until := Stopped, i;
  }

  lemma NoneYet(healths: seq<HealthEvent>, shown: Option<string>)
    ensures UnhealthyFor(healths, 0, 0) && !AnsweredHealthy(healths, 0) && ShowsHealth(healths, 0, shown, shown)
  {
  }

  lemma EventShows(healths: seq<HealthEvent>, i: nat, before: Option<string>, shown: Option<string>)
    requires i < |healths| && ShowsHealth(healths, i, before, shown)
    ensures AnsweredHealthy(healths, i + 1) <==> AnsweredHealthy(healths, i) || healths[i].Healthy?
    ensures ShowsHealth(healths, i + 1, before, if healths[i].Healthy? then Some(healths[i].status) else shown)
  {
  }

  /** What one event does to the count, and whether it decides. */
  lemma EventDecides(healths: seq<HealthEvent>, failures: nat, i: nat, c: nat)
    requires i < |healths| && UnhealthyFor(healths, i, c)
    ensures healths[i].StopRequested? || healths[i].Exited? ==> Decides(healths, failures, i)
    ensures healths[i].Healthy? ==> !Decides(healths, failures, i) && UnhealthyFor(healths, i + 1, 0)
    ensures healths[i].Unhealthy? ==> UnhealthyFor(healths, i + 1, c + 1)
    ensures healths[i].Unhealthy? ==> (Decides(healths, failures, i) <==> c + 1 >= failures)
  {
    if healths[i].Unhealthy? {
      assert UnhealthyFor(healths, i + 1, c + 1);
      if c + 1 < failures { NotYet(healths, failures, i, c); }
    }
  }

  /** How a launch ends, from what the host does in it. */
  ghost predicate LaunchEnds(script: Script, failures: nat, out: Outcome) {
    if !script.resolved then out == Retry(NotFound)
    else if !script.spawned then out == Retry(SpawnFailed)
    else if script.stopInHandshake then out == Stopped
    else
      match script.handshake
      case TimedOut => out == Retry(ReadyTimeout)
      case Eof => out == Retry(ExitedBeforeReady(script.exitCode))
      case Failed(reason) => out == Retry(ReadyMalformed(reason))
      case Announced(_) =>
        exists until :: FirstToDecide(script.healths, failures, until) && WatchEnds(script.healths, until, out)
  }

  /** The launch got as far as an announced engine. */
  predicate Served(script: Script) {
    script.resolved && script.spawned && !script.stopInHandshake && script.handshake.Announced?
  }

  /** The engine of this launch answered a health check before the launch ended. */
  ghost predicate WasHealthy(script: Script, failures: nat) {
    && Served(script)
    && exists until :: FirstToDecide(script.healths, failures, until) && AnsweredHealthy(script.healths, until)
  }

  lemma OneDecides(healths: seq<HealthEvent>, failures: nat, m: nat, n: nat)
    requires FirstToDecide(healths, failures, m) && FirstToDecide(healths, failures, n)
    ensures m == n
  {
  }

  /** `attempt` */
  method Attempt(shared: Shared, clock: RestartClock, script: Script, timing: Timing) returns (out: Outcome)
    requires shared.Valid()
    modifies shared, clock`streak
    ensures shared.Valid() && shared.restarts == old(shared.restarts)
    ensures LaunchEnds(script, timing.healthFailures, out)
    ensures Served(script) ==>
              && shared.state == Serving && shared.error.None?
              && shared.endpoint == Some(Endpoint(script.handshake.info.port, script.token))
              && shared.version == Some(script.handshake.info.version)
              && shared.pid == Some(if script.handshake.info.pid == 0 then script.pid else script.handshake.info.pid)
    ensures !Served(script) ==>
              && shared.state == (if clock.times == [] then Launching else Restarting) && shared.error.None?
              && shared.endpoint.None? && shared.version == old(shared.version) && shared.pid == old(shared.pid)
    ensures shared.exitCode == if script.resolved && script.spawned then script.exitCode else old(shared.exitCode)
    ensures clock.streak == if WasHealthy(script, timing.healthFailures) then 0 else old(clock.streak)
  {
    hide FirstToDecide, WatchEnds, AnsweredHealthy;
    shared.BeginAttempt(if clock.times == [] then Launching else Restarting);
    if !script.resolved {
      return Retry(NotFound);
    }
    if !script.spawned {
      return Retry(SpawnFailed);
    }
    if script.stopInHandshake {
      shared.SetExitCode(script.exitCode);
      return Stopped;
    }
    if !script.handshake.Announced? {
      shared.SetExitCode(script.exitCode);
      return Retry(ReadyError(script.handshake, script.exitCode));
    }
    var info := script.handshake.info;
    shared.Publish(Endpoint(info.port, script.token), if info.pid == 0 then script.pid else info.pid, info.version);
    ghost var until;
    out, until := WatchHealth(shared, clock, script.healths, timing.healthFailures);
    forall m | FirstToDecide(script.healths, timing.healthFailures, m) ensures m == until {
      OneDecides(script.healths, timing.healthFailures, m, until);
    }
    shared.SetExitCode(script.exitCode);
  }

  /** `continue_after`: how long to wait before the next launch, or nothing when there is none. */
  method ContinueAfter(shared: Shared, clock: RestartClock, e: EngineError, now: nat, timing: Timing)
    returns (delay: Option<nat>)
    requires shared.Valid()
    modifies shared, clock
    ensures shared.Valid()
    ensures delay.Some? <==> IsRetryable(e) && CountRecent(old(clock.times), now, timing.window) < timing.limit
    ensures delay.None? ==>
              && clock.times == old(clock.times) && clock.streak == old(clock.streak)
              && shared.state == Fatal && shared.error == Some(if IsRetryable(e) then RestartBudgetExhausted else e)
    ensures delay.Some? ==>
              && delay.value == BackoffDelay(old(clock.streak))
              && clock.times == old(clock.times) + [now] && clock.streak == old(clock.streak) + 1
              && shared.state == Restarting && shared.endpoint.None? && shared.restarts == |clock.times|
  {
    if !IsRetryable(e) {
      shared.Fail(e);
      return None;
    }
    var exhausted := BudgetExhausted(clock.times, now, timing.window, timing.limit);
    if exhausted {
      shared.Fail(RestartBudgetExhausted);
      return None;
    }
    delay := Some(BackoffDelay(clock.streak));
    clock.Record(now);
    shared.SetRestarts(|clock.times|);
    shared.BeginAttempt(Restarting);
  }

  // ---------- the supervisor ----------

  /** One turn of the supervisor's loop: what the launch does, the clock after it, and whether a stop
      comes before the launch or while it waits. */
  datatype Round = Round(stopBefore: bool, script: Script, now: nat, stopInSleep: bool)

  ghost predicate ClockRises(rounds: seq<Round>) {
    forall i, j :: 0 <= i < j < |rounds| ==> rounds[i].now <= rounds[j].now
  }

  /** The launches of a run with what came out of them, and how long each was waited for after it. */
  datatype Launch = Launch(outcome: Outcome, delay: Option<nat>)

  /** The times of the first `k` rounds. */
  function Stamps(rounds: seq<Round>, k: nat): (times: seq<nat>)
    requires k <= |rounds|
    ensures |times| == k && forall i :: 0 <= i < k ==> times[i] == rounds[i].now
  {
    if k == 0 then [] else Stamps(rounds, k - 1) + [rounds[k - 1].now]
  }

  /** How many restarts there were when launch `k` ends, counted from the last launch that answered a health
      check. */
  ghost function StreakAfter(rounds: seq<Round>, failures: nat, k: nat): nat
    requires k < |rounds|
  {
    if k == 0 || WasHealthy(rounds[k].script, failures) then 0 else StreakAfter(rounds, failures, k - 1) + 1
  }

  /** The next launch may come: the fault is not one that a restart cannot mend, and fewer restarts than the
      limit are recent. */
  ghost predicate MayRestart(rounds: seq<Round>, k: nat, e: EngineError, timing: Timing)
    requires k < |rounds|
  {
    && !e.NotFound? && !e.ReadyMalformed?
    && |RecentStamps(Stamps(rounds, k), rounds[k].now, timing.window)| < timing.limit
  }

  /** What comes out of launch `k`, and the wait behind it. */
  ghost predicate RightLaunch(rounds: seq<Round>, k: nat, launch: Launch, timing: Timing)
    requires k < |rounds|
  {
    && !rounds[k].stopBefore && LaunchEnds(rounds[k].script, timing.healthFailures, launch.outcome)
    && (launch.outcome.Stopped? ==> launch.delay.None?)
    && (launch.outcome.Retry? ==>
          launch.delay == if MayRestart(rounds, k, launch.outcome.error, timing)
                          then Some(BackoffDelay(StreakAfter(rounds, timing.healthFailures, k))) else None)
  }

  /** Launch `k` is followed by another if there is a further round and no stop comes between. */
  predicate GoesOn(rounds: seq<Round>, launches: seq<Launch>, k: nat)
    requires k < |launches| && k < |rounds|
  {
    launches[k].delay.Some? && !rounds[k].stopInSleep && k + 1 < |rounds| && !rounds[k + 1].stopBefore
  }

  /** A run: every launch is as it should be, and it is the last exactly when the run does not go on. */
  ghost predicate RightRun(rounds: seq<Round>, launches: seq<Launch>, timing: Timing) {
    && |launches| <= |rounds| && (launches == [] ==> rounds == [] || rounds[0].stopBefore)
    && (forall k :: 0 <= k < |launches| ==> RightLaunch(rounds, k, launches[k], timing))
    && (forall k :: 0 <= k < |launches| ==> (GoesOn(rounds, launches, k) <==> k + 1 < |launches|))
  }

  /** `supervise` over any behaviour of the engine, the clock and the shell. */
  method Supervise(shared: Shared, rounds: seq<Round>, timing: Timing)
    returns (clock: RestartClock, launches: seq<Launch>)
    requires shared.Valid() && ClockRises(rounds)
    modifies shared
    ensures shared.Valid() && fresh(clock)
    ensures Rising(clock.times) && RateLimited(clock.times, timing.window, timing.limit)
    ensures RightRun(rounds, launches, timing)
    ensures |launches| - 1 <= |clock.times| <= |launches| && clock.times == Stamps(rounds, |clock.times|)
    ensures launches != [] && launches[|launches| - 1].outcome.Retry? && launches[|launches| - 1].delay.None? ==>
              var e := launches[|launches| - 1].outcome.error;
              && shared.state == Fatal && shared.endpoint.None?
              && shared.error == Some(if e.NotFound? || e.ReadyMalformed? then e else RestartBudgetExhausted)
    ensures launches != [] && launches[|launches| - 1].delay.Some? ==>
              shared.state == Restarting && shared.endpoint.None? && shared.restarts == |clock.times|
  {
    hide LaunchEnds, WasHealthy, Rising, RateLimited, RightLaunch, RightRun, RunSoFar, CountRecent, StreakAfter, Stamps;
    hide BackoffDelay, Served;
    clock := new RestartClock();
    launches := [];
    var i := 0;
    NoRestarts(rounds, timing);
    while i < |rounds|
      invariant 0 <= i <= |rounds| && shared.Valid() && fresh(clock) && |launches| == i
      invariant clock.times == Stamps(rounds, i)
      invariant Rising(clock.times) && RateLimited(clock.times, timing.window, timing.limit)
      invariant forall k :: 0 <= k < |clock.times| ==> i > 0 && clock.times[k] <= rounds[i - 1].now
      invariant clock.streak == if i == 0 then 0 else StreakAfter(rounds, timing.healthFailures, i - 1) + 1
      invariant RunSoFar(rounds, launches, timing)
      invariant i > 0 ==> launches[i - 1].delay.Some?
      invariant i > 0 ==> shared.state == Restarting && shared.endpoint.None? && shared.restarts == |clock.times|
    {
      var round := rounds[i];
      if round.stopBefore {
        RunStops(rounds, launches, timing);
        return;
      }
      ghost var times, before := clock.times, launches;
      var outcome := Attempt(shared, clock, round.script, timing);
      StreakStep(rounds, timing.healthFailures, i);
      if outcome.Stopped? {
        launches := launches + [Launch(outcome, None)];
        StopIsRight(rounds, i, outcome, timing);
        RunEnds(rounds, before, Launch(outcome, None), timing);
        return;
      }
      var delay := ContinueAfter(shared, clock, outcome.error, round.now, timing);
      launches := launches + [Launch(outcome, delay)];
      FaultIsRight(rounds, i, outcome, delay, timing);
      RunEnds(rounds, before, Launch(outcome, delay), timing);
      if delay.None? {
        return;
      }
      RecordKeepsLimit(times, round.now, timing.window, timing.limit);
      if round.stopInSleep {
        return;
      }
      i := i + 1;
    }
    RunStops(rounds, launches, timing);
  }

  /** The run so far: nothing has ended it. */
  ghost predicate RunSoFar(rounds: seq<Round>, launches: seq<Launch>, timing: Timing) {
    && |launches| <= |rounds|
    && forall k :: 0 <= k < |launches| ==>
         RightLaunch(rounds, k, launches[k], timing) && launches[k].delay.Some? && !rounds[k].stopInSleep
  }

  lemma RunStops(rounds: seq<Round>, launches: seq<Launch>, timing: Timing)
    requires RunSoFar(rounds, launches, timing)
    requires |launches| < |rounds| ==> rounds[|launches|].stopBefore
    ensures RightRun(rounds, launches, timing)
  {
    hide LaunchEnds, MayRestart, StreakAfter;
  }

  lemma RunEnds(rounds: seq<Round>, launches: seq<Launch>, last: Launch, timing: Timing)
    requires RunSoFar(rounds, launches, timing) && |launches| < |rounds|
    requires RightLaunch(rounds, |launches|, last, timing)
    ensures last.delay.None? || rounds[|launches|].stopInSleep ==> RightRun(rounds, launches + [last], timing)
    ensures last.delay.Some? && !rounds[|launches|].stopInSleep ==> RunSoFar(rounds, launches + [last], timing)
  {
    hide LaunchEnds, MayRestart, StreakAfter;
    var all := launches + [last];
    assert forall k :: 0 <= k < |launches| ==> all[k] == launches[k];
  }

  lemma StreakStep(rounds: seq<Round>, failures: nat, k: nat)
    requires k < |rounds|
    ensures StreakAfter(rounds, failures, k)
         == if k == 0 || WasHealthy(rounds[k].script, failures) then 0 else StreakAfter(rounds, failures, k - 1) + 1
  {
    hide WasHealthy;
  }

  lemma NoRestarts(rounds: seq<Round>, timing: Timing)
    ensures Rising([]) && RateLimited([], timing.window, timing.limit) && RunSoFar(rounds, [], timing)
  {
  }

  lemma StopIsRight(rounds: seq<Round>, k: nat, out: Outcome, timing: Timing)
    requires k < |rounds| && !rounds[k].stopBefore && out.Stopped?
    requires LaunchEnds(rounds[k].script, timing.healthFailures, out)
    ensures RightLaunch(rounds, k, Launch(out, None), timing)
  {
  }

  lemma FaultIsRight(rounds: seq<Round>, k: nat, out: Outcome, delay: Option<nat>, timing: Timing)
    requires k < |rounds| && !rounds[k].stopBefore && out.Retry?
    requires LaunchEnds(rounds[k].script, timing.healthFailures, out)
    requires delay == if IsRetryable(out.error)
                         && CountRecent(Stamps(rounds, k), rounds[k].now, timing.window) < timing.limit
                      then Some(BackoffDelay(StreakAfter(rounds, timing.healthFailures, k))) else None
    ensures RightLaunch(rounds, k, Launch(out, delay), timing)
  {
    hide LaunchEnds;
    CountsRecentStamps(Stamps(rounds, k), rounds[k].now, timing.window);
  }

  /** A launch whose engine exits while it serves, or stops answering, is followed by another one, if the
      budget allows it, a round is left and no stop is asked for. */
  lemma FaultIsFollowed(rounds: seq<Round>, launches: seq<Launch>, timing: Timing, k: nat, until: nat)
    requires RightRun(rounds, launches, timing) && k < |launches| && k + 1 < |rounds|
    requires Served(rounds[k].script)
    requires var healths := rounds[k].script.healths;
             && FirstToDecide(healths, timing.healthFailures, until) && until < |healths|
             && (healths[until].Exited? || healths[until].Unhealthy?)
    requires |RecentStamps(Stamps(rounds, k), rounds[k].now, timing.window)| < timing.limit
    requires !rounds[k].stopInSleep && !rounds[k + 1].stopBefore
    ensures launches[k].outcome.Retry? && launches[k].outcome.error.HealthUnreachable? && k + 1 < |launches|
  {
    var healths := rounds[k].script.healths;
    assert RightLaunch(rounds, k, launches[k], timing);
    forall m | FirstToDecide(healths, timing.healthFailures, m) ensures m == until {
      OneDecides(healths, timing.healthFailures, m, until);
    }
    hide FirstToDecide, RecentStamps, Stamps;
    assert GoesOn(rounds, launches, k);
  }

  // ---------- teardown ----------

  datatype Measure = AskToShutDown | Terminate | Kill

  /** `teardown`: each wait either sees the exit or runs out; the next measure is taken only then. */
  method Teardown(published: bool, waits: (Option<Option<int>>, Option<Option<int>>, Option<Option<int>>))
    returns (code: Option<int>, measures: seq<Measure>)
    ensures AskToShutDown in measures <==> published
    ensures Terminate in measures <==> waits.0.None?
    ensures Kill in measures <==> waits.0.None? && waits.1.None?
    ensures measures == (if published then [AskToShutDown] else []) + (if waits.0.None? then [Terminate] else [])
                        + (if waits.0.None? && waits.1.None? then [Kill] else [])
    ensures code == if waits.0.Some? then waits.0.value else if waits.1.Some? then waits.1.value
                    else if waits.2.Some? then waits.2.value else None
  {
    measures := [];
    if published {
      measures := measures + [AskToShutDown];
    }
    if waits.0.Some? {
      return waits.0.value, measures;
    }
    measures := measures + [Terminate];
    if waits.1.Some? {
      return waits.1.value, measures;
    }
    measures := measures + [Kill];
    code := if waits.2.Some? then waits.2.value else None;
  }
}
