/** `jobs/checkpoint.py`: a transition appends one line to `events.jsonl` and then rewrites `job.json`.
    The process may die before, between or after the two, also while it recovers from an earlier
    death. */
module Checkpoint {
  import opened JobStates
  import opened Options

  type Time = nat

  datatype Counts = Counts(total: nat, done: nat, reused: nat)

  datatype Job = Job(
    id: nat, project: nat, kind: Kind, state: State,
    pausedReason: Option<string>, startedAt: Option<Time>, finishedAt: Option<Time>, updatedAt: Time,
    cursor: nat, counts: Counts, lastSeq: nat)

  /** A state line without an event is the one that crash recovery writes. */
  datatype Payload =
    | StateLine(event: Option<Event>, state: State, stage: Stage, reason: Option<string>)
    | ProgressLine(cursor: nat, counts: Counts)

  datatype Line = Line(seq': nat, payload: Payload)

  datatype Disk = Disk(job: Option<Job>, lines: seq<Line>)

  /** Where the process dies in a pair of writes. */
  datatype Crash = Never | BeforeAppend | BetweenWrites

  datatype Result = Updated(job: Job) | Refused | Died

  // ---------- what the writes amount to ----------

  /** The record after an event, if the edge exists. */
  function After(record: Job, e: Event, now: Time): Option<Job> {
    match Transition(record.state, e, record.kind)
    case None => None
    case Some(next) =>
      Some(record.(
        state := next,
        pausedReason := if next.Paused? then record.pausedReason else None,
        startedAt := if record.state.Queued? && next.Running? then Some(now) else record.startedAt,
        finishedAt := if Terminal(next) then Some(now) else record.finishedAt,
        updatedAt := now,
        lastSeq := record.lastSeq + 1))
  }

  function StateLineOf(job: Job, e: Option<Event>): Line {
    Line(job.lastSeq, StateLine(e, job.state, StageFor(job.state, job.kind), job.pausedReason))
  }

  function Progressed(record: Job, cursor: nat, counts: Counts, now: Time): Job {
    record.(cursor := cursor, counts := counts, updatedAt := now, lastSeq := record.lastSeq + 1)
  }

  function ProgressLineOf(job: Job): Line {
    Line(job.lastSeq, ProgressLine(job.cursor, job.counts))
  }

  /** The line first, then the record. */
  function Written(d: Disk, job: Job, line: Line, crash: Crash): Disk {
    match crash
    case BeforeAppend => d
    case BetweenWrites => d.(lines := d.lines + [line])
    case Never => Disk(Some(job), d.lines + [line])
  }

  function LastSeq(lines: seq<Line>): nat {
    if lines == [] then 0
    else var rest := LastSeq(lines[..|lines| - 1]);
         if lines[|lines| - 1].seq' > rest then lines[|lines| - 1].seq' else rest
  }

  /** The record that `open` works with: as loaded, with the last sequence number of the log. */
  function CaughtUp(d: Disk): Job
    requires d.job.Some?
  {
    if LastSeq(d.lines) > d.job.value.lastSeq then d.job.value.(lastSeq := LastSeq(d.lines)) else d.job.value
  }

  function Opened(d: Disk, now: Time): Job
    requires d.job.Some?
  {
    var record := CaughtUp(d);
    var (state, reason) := Recover(record.state);
    if reason.None? then record
    else record.(state := state, pausedReason := reason, updatedAt := now, lastSeq := record.lastSeq + 1)
  }

  function OpenedDisk(d: Disk, now: Time, crash: Crash): Disk
    requires d.job.Some?
  {
    var job := Opened(d, now);
    if Recover(d.job.value.state).1.Some? then Written(d, job, StateLineOf(job, None), crash)
    else if crash.Never? then d.(job := Some(job)) else d
  }

  function SinceSeq(lines: seq<Line>, k: nat): seq<Line> {
    if lines == [] then [] else (if lines[0].seq' > k then [lines[0]] else []) + SinceSeq(lines[1..], k)
  }

  // ---------- the log ----------

  class JobLog {
    var job: Option<Job>
    var lines: seq<Line>

    function Files(): Disk
      reads this
    {
      Disk(job, lines)
    }

    constructor ()
      ensures Files() == Disk(None, [])
    {
      job, lines := None, [];
    }

    /** The first `job.json`; no line yet. */
    method Create(record: Job)
      modifies this
      ensures Files() == Disk(Some(record), old(lines))
    {
      job := Some(record);
    }

    method Publish(updated: Job, line: Line, crash: Crash) returns (survived: bool)
      modifies this
      ensures Files() == Written(old(Files()), updated, line, crash) && (survived <==> crash.Never?)
    {
      if crash.BeforeAppend? {
        return false;
      }
      lines := lines + [line];
      if crash.BetweenWrites? {
        return false;
      }
      job := Some(updated);
      return true;
    }

    /** `apply` */
    method Apply(record: Job, e: Event, now: Time, crash: Crash) returns (out: Result)
      modifies this
      ensures After(record, e, now).None? ==> out == Refused && Files() == old(Files())
      ensures After(record, e, now).Some? ==>
                var updated := After(record, e, now).value;
                && Files() == Written(old(Files()), updated, StateLineOf(updated, Some(e)), crash)
                && out == if crash.Never? then Updated(updated) else Died
      ensures out.Updated? ==>
                && Some(out.job.state) == Transition(record.state, e, record.kind)
                && lines == old(lines) + [Line(record.lastSeq + 1,
                     StateLine(Some(e), out.job.state, StageFor(out.job.state, record.kind), out.job.pausedReason))]
    {
      var next := Transition(record.state, e, record.kind);
      if next.None? {
        return Refused;
      }
      var pausedReason := if next.value != Paused then None else record.pausedReason;
      var startedAt := record.startedAt;
      if record.state == Queued && next.value == Running {
        startedAt := Some(now);
      }
      var finishedAt := if Terminal(next.value) then Some(now) else record.finishedAt;
      var updated := record.(state := next.value, pausedReason := pausedReason, startedAt := startedAt,
        finishedAt := finishedAt, updatedAt := now, lastSeq := record.lastSeq + 1);
      var survived := Publish(updated, StateLineOf(updated, Some(e)), crash);
      out := if survived then Updated(updated) else Died;
    }

    /** `note_progress`: only a running job. */
    method NoteProgress(record: Job, cursor: nat, counts: Counts, now: Time, crash: Crash) returns (out: Result)
      modifies this
      ensures !record.state.Running? ==> out == Refused && Files() == old(Files())
      ensures record.state.Running? ==>
                var updated := Progressed(record, cursor, counts, now);
                && Files() == Written(old(Files()), updated, ProgressLineOf(updated), crash)
                && out == if crash.Never? then Updated(updated) else Died
      ensures out.Updated? ==>
                && out.job.cursor == cursor && out.job.counts == counts && out.job.state == record.state
                && lines == old(lines) + [Line(record.lastSeq + 1, ProgressLine(cursor, counts))]
    {
      if record.state != Running {
        return Refused;
      }
      var updated := Progressed(record, cursor, counts, now);
      var survived := Publish(updated, ProgressLineOf(updated), crash);
      out := if survived then Updated(updated) else Died;
    }

    /** `_last_logged_seq` */
    method LastLoggedSeq() returns (found: nat)
      ensures found == LastSeq(lines)
    {
      found := 0;
      var i := 0;
      while i < |lines|
        invariant 0 <= i <= |lines| && found == LastSeq(lines[..i])
      {
        assert lines[..i + 1][..i] == lines[..i];
        if lines[i].seq' > found {
          found := lines[i].seq';
        }
        i := i + 1;
      }
      assert lines[..i] == lines;
    }

    /** `open`: catch up with the log, then recover. */
    method Open(now: Time, crash: Crash) returns (out: Result)
      requires job.Some?
      modifies this
      ensures Files() == OpenedDisk(old(Files()), now, crash)
      ensures out == if crash.Never? then Updated(Opened(old(Files()), now)) else Died
      ensures out.Updated? ==>
                var was := old(job).value;
                if was.state.Running? || was.state.Muxing? then
                  && out.job.state == Paused && out.job.pausedReason == Some("crash_recovery")
                  && lines == old(lines) + [Line(out.job.lastSeq,
                       StateLine(None, Paused, SynthStage, Some("crash_recovery")))]
                else
                  out.job.state == was.state && out.job.pausedReason == was.pausedReason && lines == old(lines)
    {
      var record := job.value;
      var logged := LastLoggedSeq();
      var behind := logged > record.lastSeq;
      if behind {
        record := record.(lastSeq := logged);
      }
      var (state, reason) := Recover(record.state);
      if reason.None? {
        if !crash.Never? {
          return Died;
        }
        if behind {
          job := Some(record);
        }
        return Updated(record);
      }
      var updated := record.(state := state, pausedReason := reason, updatedAt := now, lastSeq := record.lastSeq + 1);
      var survived := Publish(updated, StateLineOf(updated, None), crash);
      out := if survived then Updated(updated) else Died;
    }

    /** `events_since` */
    method EventsSince(k: nat) returns (found: seq<Line>)
      ensures found == SinceSeq(lines, k)
    {
      found := [];
      var i := |lines|;
      assert lines[i..] == [];
      while i > 0
        invariant 0 <= i <= |lines| && found == SinceSeq(lines[i..], k)
      {
        i := i - 1;
        assert lines[i..][0] == lines[i] && lines[i..][1..] == lines[i + 1..];
        if lines[i].seq' > k {
          found := [lines[i]] + found;
        }
      }
      assert lines[0..] == lines;
    }
  }

  // ---------- a process that may die ----------

  datatype System = System(disk: Disk, memory: Option<Job>)

  datatype Action =
    | DoOpen(now: Time, crash: Crash)
    | DoApply(event: Event, now: Time, crash: Crash)
    | DoProgress(cursor: nat, counts: Counts, now: Time, crash: Crash)
    | DoRoute(event: Event, now: Time, crash: Crash)
    | Kill

  function Survives(job: Job, crash: Crash): Option<Job> {
    if crash.Never? then Some(job) else None
  }

  function Exec(s: System, a: Action): System {
    match a
    case Kill => s.(memory := None)
    case DoOpen(now, crash) =>
      if s.disk.job.None? then s
      else System(OpenedDisk(s.disk, now, crash), Survives(Opened(s.disk, now), crash))
    case DoApply(e, now, crash) =>
      if s.memory.None? || After(s.memory.value, e, now).None? then s
      else
        var job := After(s.memory.value, e, now).value;
        System(Written(s.disk, job, StateLineOf(job, Some(e)), crash), Survives(job, crash))
    case DoProgress(cursor, counts, now, crash) =>
      if s.memory.None? || !s.memory.value.state.Running? then s
      else
        var job := Progressed(s.memory.value, cursor, counts, now);
        System(Written(s.disk, job, ProgressLineOf(job), crash), Survives(job, crash))
    case DoRoute(e, now, crash) => System(Routed(s.disk, e, now, crash), None)
  }

  /** A route reads `job.json` as it is, without `open`, and applies its event to that. Nothing in the
      engine holds the record beside it, and it forgets the record when it has answered. */
  function Routed(d: Disk, e: Event, now: Time, crash: Crash): Disk {
    if d.job.None? || After(d.job.value, e, now).None? then d
    else var job := After(d.job.value, e, now).value; Written(d, job, StateLineOf(job, Some(e)), crash)
  }

  function ExecAll(s: System, actions: seq<Action>): System
    decreases actions
  {
    if actions == [] then s else ExecAll(Exec(s, actions[0]), actions[1..])
  }

  // ---------- what holds in every run ----------

  /** The sequence numbers of the log are exactly 1, 2, ..., n. */
  ghost predicate Numbered(lines: seq<Line>) {
    forall i :: 0 <= i < |lines| ==> lines[i].seq' == i + 1
  }

  ghost predicate WellFormed(job: Job) {
    && (job.kind.Prep? ==> !job.state.Muxing?)
    && (job.finishedAt.Some? <==> Terminal(job.state))
    && (job.pausedReason.Some? ==> job.state.Paused?)
  }

  /** What holds whoever writes: `job.json` never runs ahead of the log, its record is well formed, and a
      process that works on the job holds that record. */
  ghost predicate Sane(s: System) {
    && (s.disk.job.Some? ==> s.disk.job.value.lastSeq <= LastSeq(s.disk.lines) && WellFormed(s.disk.job.value))
    && (s.memory.Some? ==> s.disk.job == s.memory)
  }

  ghost predicate Safe(s: System) {
    && Sane(s) && Numbered(s.disk.lines)
    && (s.memory.Some? ==> s.memory.value.lastSeq == |s.disk.lines|)
  }

  /** A route appends its line although `job.json` has fallen behind the log. */
  predicate Stale(s: System, a: Action) {
    && a.DoRoute? && !a.crash.BeforeAppend?
    && s.disk.job.Some? && After(s.disk.job.value, a.event, a.now).Some?
    && s.disk.job.value.lastSeq < |s.disk.lines|
  }

  predicate NeverStale(s: System, actions: seq<Action>)
    decreases actions
  {
    actions == [] || (!Stale(s, actions[0]) && NeverStale(Exec(s, actions[0]), actions[1..]))
  }

  lemma {:induction false} LastOfNumbered(lines: seq<Line>)
    requires Numbered(lines)
    ensures LastSeq(lines) == |lines|
  {
    if lines != [] { LastOfNumbered(lines[..|lines| - 1]); }
  }

  lemma LastOfMore(lines: seq<Line>, line: Line)
    ensures LastSeq(lines + [line]) == if line.seq' > LastSeq(lines) then line.seq' else LastSeq(lines)
  {
    assert (lines + [line])[..|lines|] == lines;
  }

  /** A pair of writes keeps the lines and, if the record was well formed, the rest. */
  lemma WrittenIsSane(d: Disk, job: Job, line: Line, crash: Crash)
    requires Sane(System(d, None)) && WellFormed(job) && line.seq' == job.lastSeq
    ensures Sane(System(Written(d, job, line, crash), Survives(job, crash)))
    ensures d.lines <= Written(d, job, line, crash).lines
  {
    LastOfMore(d.lines, line);
  }

  lemma ExecIsSane(s: System, a: Action)
    requires Sane(s)
    ensures Sane(Exec(s, a)) && s.disk.lines <= Exec(s, a).disk.lines
  {
    hide LastSeq;
    match a
    case Kill =>
    case DoOpen(now, crash) =>
      if s.disk.job.Some? { WrittenIsSane(s.disk, Opened(s.disk, now), StateLineOf(Opened(s.disk, now), None), crash); }
    case DoApply(e, now, crash) =>
      if s.memory.Some? && After(s.memory.value, e, now).Some? {
        var job := After(s.memory.value, e, now).value;
        WrittenIsSane(s.disk, job, StateLineOf(job, Some(e)), crash);
      }
    case DoProgress(cursor, counts, now, crash) =>
      if s.memory.Some? && s.memory.value.state.Running? {
        var job := Progressed(s.memory.value, cursor, counts, now);
        WrittenIsSane(s.disk, job, ProgressLineOf(job), crash);
      }
    case DoRoute(e, now, crash) =>
      if s.disk.job.Some? && After(s.disk.job.value, e, now).Some? {
        var job := After(s.disk.job.value, e, now).value;
        WrittenIsSane(s.disk, job, StateLineOf(job, Some(e)), crash);
      }
  }

  lemma ExecIsSafe(s: System, a: Action)
    requires Safe(s)
    ensures Sane(Exec(s, a)) && s.disk.lines <= Exec(s, a).disk.lines
    ensures Safe(Exec(s, a)) <==> !Stale(s, a)
    ensures Stale(s, a) ==> !Numbered(Exec(s, a).disk.lines)
    ensures a.DoOpen? && a.crash.Never? && s.disk.job.Some? ==>
              var t := Exec(s, a);
              t.memory.Some? && t.memory.value.lastSeq == |t.disk.lines|
              && !t.memory.value.state.Running? && !t.memory.value.state.Muxing?
  {
    ExecIsSane(s, a);
    LastOfNumbered(s.disk.lines);
    assert s.disk.job.Some? ==> s.disk.job.value.lastSeq <= |s.disk.lines|;
    hide LastSeq, WellFormed;
    if Stale(s, a) {
      assert Exec(s, a).disk.lines[|s.disk.lines|].seq' == s.disk.job.value.lastSeq + 1;
    }
  }

  /** Through any number of deaths, also inside `open`, and whatever the routes do: `job.json` never runs
      ahead of the log, lines are never lost, and the record is well formed. */
  lemma {:induction false} RunsAreSane(s: System, actions: seq<Action>)
    requires Sane(s)
    ensures Sane(ExecAll(s, actions)) && s.disk.lines <= ExecAll(s, actions).disk.lines
    decreases actions
  {
    if actions != [] {
      ExecIsSane(s, actions[0]);
      RunsAreSane(Exec(s, actions[0]), actions[1..]);
    }
  }

  /** In every run the log stays numbered 1..n without repeat or gap if and only if no route meets a
      `job.json` that fell behind. */
  lemma {:induction false} RunsAreSafe(s: System, actions: seq<Action>)
    requires Safe(s)
    ensures Numbered(ExecAll(s, actions).disk.lines) <==> NeverStale(s, actions)
    ensures NeverStale(s, actions) ==> Safe(ExecAll(s, actions))
    decreases actions
  {
    if actions != [] {
      hide Safe, Sane, Stale, Exec;
      var next := Exec(s, actions[0]);
      SafeIsSane(s);
      ExecIsSafe(s, actions[0]);
      if Stale(s, actions[0]) {
        RunsAreSane(next, actions[1..]);
        NumberedPrefix(next.disk.lines, ExecAll(next, actions[1..]).disk.lines);
      } else {
        RunsAreSafe(next, actions[1..]);
      }
    }
  }

  lemma SafeIsSane(s: System)
    requires Safe(s)
    ensures Sane(s)
  {
  }

  lemma NumberedPrefix(lines: seq<Line>, more: seq<Line>)
    requires lines <= more
    ensures Numbered(more) ==> Numbered(lines)
  {
  }

  /** A job that ended in `job.json` stays as it is, in every run. */
  lemma {:induction false} TerminalIsForever(s: System, actions: seq<Action>)
    requires Sane(s) && s.disk.job.Some? && Terminal(s.disk.job.value.state)
    ensures var t := ExecAll(s, actions);
            && t.disk.job.Some?
            && t.disk.job.value.(lastSeq := 0) == s.disk.job.value.(lastSeq := 0)
            && t.disk.lines == s.disk.lines
    decreases actions
  {
    if actions != [] {
      ExecIsSane(s, actions[0]);
      ExecKeepsEnded(s, actions[0]);
      hide Exec, Sane;
      TerminalIsForever(Exec(s, actions[0]), actions[1..]);
    }
  }

  lemma ExecKeepsEnded(s: System, a: Action)
    requires Sane(s) && s.disk.job.Some? && Terminal(s.disk.job.value.state)
    ensures var t := Exec(s, a);
            && t.disk.job.Some? && t.disk.job.value.(lastSeq := 0) == s.disk.job.value.(lastSeq := 0)
            && t.disk.lines == s.disk.lines
  {
    hide LastSeq, StateLineOf, ProgressLineOf;
  }

  /** Who the job is never changes, and a job that is not active never becomes active again. */
  lemma {:induction false} RunsKeepIdentity(s: System, actions: seq<Action>)
    requires Sane(s) && s.disk.job.Some?
    ensures var t := ExecAll(s, actions);
            && t.disk.job.Some? && t.disk.job.value.id == s.disk.job.value.id
            && t.disk.job.value.project == s.disk.job.value.project && t.disk.job.value.kind == s.disk.job.value.kind
            && (Active(t.disk.job.value.state) ==> Active(s.disk.job.value.state))
    decreases actions
  {
    if actions != [] {
      ExecIsSane(s, actions[0]);
      ExecKeepsIdentity(s, actions[0]);
      hide Exec, Sane;
      RunsKeepIdentity(Exec(s, actions[0]), actions[1..]);
    }
  }

  lemma ExecKeepsIdentity(s: System, a: Action)
    requires Sane(s) && s.disk.job.Some?
    ensures var t := Exec(s, a);
            && t.disk.job.Some? && t.disk.job.value.id == s.disk.job.value.id
            && t.disk.job.value.project == s.disk.job.value.project && t.disk.job.value.kind == s.disk.job.value.kind
            && (Active(t.disk.job.value.state) ==> Active(s.disk.job.value.state))
  {
    hide LastSeq, StateLineOf, ProgressLineOf;
  }

  /** Opening again right after a completed open changes nothing. */
  lemma OpenIsIdempotent(d: Disk, now: Time, later: Time)
    requires d.job.Some? && Safe(System(d, None))
    ensures var after := OpenedDisk(d, now, Never);
            after.job == Some(Opened(d, now)) && Opened(after, later) == Opened(d, now)
            && OpenedDisk(after, later, Never) == after
  {
    LastOfNumbered(d.lines);
    LastOfNumbered(OpenedDisk(d, now, Never).lines);
  }

  /** A reconnecting client gets exactly the lines it missed. */
  lemma {:induction false} SinceIsSuffix(lines: seq<Line>, k: nat)
    requires Numbered(lines)
    ensures SinceSeq(lines, k) == if k <= |lines| then lines[k..] else []
  {
    SinceFrom(lines, 0, k);
    assert lines[0..] == lines;
  }

  lemma {:induction false} SinceFrom(lines: seq<Line>, i: nat, k: nat)
    requires Numbered(lines) && i <= |lines|
    ensures SinceSeq(lines[i..], k) == if k >= |lines| then [] else if i <= k then lines[k..] else lines[i..]
    decreases |lines| - i
  {
    if i < |lines| {
      SinceFrom(lines, i + 1, k);
      assert lines[i..][0] == lines[i] && lines[i..][1..] == lines[i + 1..];
    }
  }

  // ---------- a transition without `open` ----------

  /** One death between the two writes, and the next event that a route lets through repeats a number. */
  lemma DeathAndRouteRepeatSeq(s: System, e: Event, now: Time, f: Event, later: Time)
    requires Safe(s) && s.memory.Some?
    requires After(s.memory.value, e, now).Some? && After(s.memory.value, f, later).Some?
    ensures var actions := [DoApply(e, now, BetweenWrites), DoRoute(f, later, Never)];
            var t := ExecAll(s, actions);
            && !NeverStale(s, actions)
            && |t.disk.lines| == |s.disk.lines| + 2
            && t.disk.lines[|s.disk.lines|].seq' == t.disk.lines[|s.disk.lines| + 1].seq'
  {
    hide LastSeq;
    var a, b := DoApply(e, now, BetweenWrites), DoRoute(f, later, Never);
    assert [a, b][1..] == [b] && [b][1..] == [];
    var next := Exec(s, a);
    assert next.disk.job == s.memory && Stale(next, b);
    assert ExecAll(s, [a, b]) == ExecAll(next, [b]) == ExecAll(Exec(next, b), []);
  }

  /** While job.json has not fallen behind, a route is as good as an open and an apply. */
  lemma FreshRouteIsApply(d: Disk, e: Event, now: Time, crash: Crash)
    requires d.job.Some? && Safe(System(d, None)) && d.job.value.lastSeq == |d.lines|
    requires Recover(d.job.value.state).1.None?
    ensures Exec(System(d, None), DoRoute(e, now, crash)).disk
         == ExecAll(System(d, None), [DoOpen(now, Never), DoApply(e, now, crash)]).disk
  {
    LastOfNumbered(d.lines);
    var s := System(d, None);
    var a, b := DoOpen(now, Never), DoApply(e, now, crash);
    assert [a, b][1..] == [b] && [b][1..] == [];
    assert Exec(s, a) == System(d, d.job);
    assert ExecAll(s, [a, b]) == ExecAll(Exec(s, a), [b]) == ExecAll(Exec(Exec(s, a), b), []);
  }
}
