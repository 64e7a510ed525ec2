/** `jobs/create.py` and `jobs/manager.py`: which jobs may exist beside each other, and the one job an
    engine runs. */
module Jobs {
  import opened Checkpoint
  import opened JobStates
  import opened Options

  // ---------- the jobs directory ----------

  /** The jobs on disk, each with the process that may be working on it. */
  type Catalog = map<nat, System>

  predicate ActiveFor(s: System, project: nat) {
    s.disk.job.Some? && s.disk.job.value.project == project && Active(s.disk.job.value.state)
  }

  /** The job has not ended. */
  predicate Unended(s: System) {
    s.disk.job.Some? && !Terminal(s.disk.job.value.state)
  }

  /** No project has two jobs that have not ended. */
  ghost predicate OneActive(jobs: Catalog) {
    forall a, b :: a in jobs && b in jobs && Rivals(jobs[a], jobs[b]) ==> a == b
  }

  predicate Rivals(s: System, t: System) {
    Unended(s) && Unended(t) && s.disk.job.value.project == t.disk.job.value.project
  }

  lemma ActiveForMeans(s: System, project: nat)
    ensures ActiveFor(s, project) <==> Unended(s) && s.disk.job.value.project == project
  {
  }

  ghost predicate AllSane(jobs: Catalog) {
    forall a :: a in jobs ==> Sane(jobs[a])
  }

  function NewJob(id: nat, project: nat, kind: Kind, now: Time): Job {
    Job(id, project, kind, Queued, None, None, None, now, 0, Counts(0, 0, 0), 0)
  }

  function NewSystem(id: nat, project: nat, kind: Kind, now: Time): System {
    System(Disk(Some(NewJob(id, project, kind, now)), []), None)
  }

  class JobsDir {
    var jobs: Catalog

    /** `create_queued`: refused while a job of the project is still active. */
    method CreateQueued(id: nat, project: nat, kind: Kind, now: Time) returns (out: Option<Job>)
      requires id !in jobs
      modifies this
      ensures out.None? <==> exists a :: a in old(jobs) && ActiveFor(old(jobs)[a], project)
      ensures (forall a :: a in old(jobs) && Unended(old(jobs)[a]) ==> old(jobs)[a].disk.job.value.project != project)
              ==> out.Some?
      ensures out.None? ==> jobs == old(jobs)
      ensures out.Some? ==> out.value.id == id && out.value.project == project && out.value.kind == kind
                            && out.value.state == Queued && out.value.lastSeq == 0 && out.value.cursor == 0
      ensures out.Some? ==> out.value == NewJob(id, project, kind, now)
                            && jobs == old(jobs)[id := NewSystem(id, project, kind, now)]
    {
      var rest := jobs.Keys;
      while rest != {}
        invariant rest <= jobs.Keys && jobs == old(jobs)
        invariant forall a :: a in jobs && ActiveFor(jobs[a], project) ==> a in rest
      {
        var a :| a in rest;
        if ActiveFor(jobs[a], project) {
          return None;
        }
        rest := rest - {a};
      }
      out := Some(NewJob(id, project, kind, now));
      jobs := jobs[id := NewSystem(id, project, kind, now)];
    }
  }

  datatype CatalogAction =
    | DoCreate(id: nat, project: nat, kind: Kind, now: Time)
    | DoExec(id: nat, action: Action)

  ghost function CatalogExec(jobs: Catalog, a: CatalogAction): Catalog {
    match a
    case DoCreate(id, project, kind, now) =>
      if id in jobs || (exists b :: b in jobs && ActiveFor(jobs[b], project)) then jobs
      else jobs[id := NewSystem(id, project, kind, now)]
    case DoExec(id, action) =>
      if id in jobs then jobs[id := Exec(jobs[id], action)] else jobs
  }

  ghost function CatalogRun(jobs: Catalog, actions: seq<CatalogAction>): Catalog
    decreases actions
  {
    if actions == [] then jobs else CatalogRun(CatalogExec(jobs, actions[0]), actions[1..])
  }

  lemma ExecKeepsInactive(s: System, a: Action, project: nat)
    requires Sane(s) && ActiveFor(Exec(s, a), project)
    ensures ActiveFor(s, project)
  {
    if s.disk.job.Some? {
      RunsKeepIdentity(s, [a]);
      assert ExecAll(s, [a]) == ExecAll(Exec(s, a), []) == Exec(s, a);
    }
  }

  lemma CatalogStep(jobs: Catalog, a: CatalogAction)
    requires OneActive(jobs) && AllSane(jobs)
    ensures OneActive(CatalogExec(jobs, a)) && AllSane(CatalogExec(jobs, a))
  {
    var after := CatalogExec(jobs, a);
    forall s: System, project: nat ensures ActiveFor(s, project) <==>
          Unended(s) && s.disk.job.value.project == project {
      ActiveForMeans(s, project);
    }
    hide Unended, ActiveFor, Sane, Exec;
    if a.DoExec? && a.id in jobs {
      ExecIsSane(jobs[a.id], a.action);
      ExecKeepsEnded(jobs[a.id], a.action);
    }
    if a.DoCreate? && after != jobs {
      NewIsSane(a.id, a.project, a.kind, a.now);
    }
  }

  lemma ExecKeepsEnded(s: System, a: Action)
    requires Sane(s)
    ensures Unended(Exec(s, a)) ==> Unended(s) && s.disk.job.value.project == Exec(s, a).disk.job.value.project
  {
    hide Sane, Exec;
    if Unended(Exec(s, a)) {
      var project := Exec(s, a).disk.job.value.project;
      ActiveForMeans(Exec(s, a), project);
      ActiveForMeans(s, project);
      ExecKeepsInactive(s, a, project);
    }
  }

  lemma NewIsSane(id: nat, project: nat, kind: Kind, now: Time)
    ensures Sane(NewSystem(id, project, kind, now)) && NewSystem(id, project, kind, now).disk.job.Some?
    ensures NewSystem(id, project, kind, now).disk.job.value.project == project
  {
  }

  /** In every run of creations, transitions, routes, recoveries and deaths no project ever has two active
      jobs. */
  lemma {:induction false} NeverTwoActive(jobs: Catalog, actions: seq<CatalogAction>)
    requires OneActive(jobs) && AllSane(jobs)
    ensures OneActive(CatalogRun(jobs, actions)) && AllSane(CatalogRun(jobs, actions))
    decreases actions
  {
    if actions != [] {
      CatalogStep(jobs, actions[0]);
      NeverTwoActive(CatalogExec(jobs, actions[0]), actions[1..]);
    }
  }

  // ---------- the slot of the engine ----------

  datatype SlotResult = Moved(job: Job) | NoJob | Busy | Illegal

  class JobManager {
    var log: JobLog?
    var record: Option<Job>

    /** The slot holds what `job.json` holds, and the log is complete. */
    ghost predicate Valid()
      reads this, log
    {
      && (record.Some? <==> log != null)
      && (record.Some? ==> Safe(System(log.Files(), record)))
    }

    constructor ()
      ensures Valid() && record.None?
    {
      log, record := null, None;
    }

    /** `adopt`: a live job in the slot blocks it. The log of the job that is taken is complete if and only
        if it was numbered up to the record. */
    method Adopt(incoming: JobLog, queued: Job) returns (out: SlotResult)
      requires Valid()
      modifies this, incoming
      ensures out.Busy? ==> Valid()
      ensures out.Moved? ==>
                (Valid() <==>
                  Numbered(old(incoming.lines)) && queued.lastSeq == |old(incoming.lines)| && WellFormed(queued))
      ensures out == if old(record).Some? && Active(old(record).value.state) then Busy else Moved(queued)
      ensures out.Busy? ==> record == old(record) && log == old(log) && incoming.Files() == old(incoming.Files())
      ensures out.Moved? ==>
                && log == incoming && record == Some(queued)
                && incoming.Files() == Disk(Some(queued), old(incoming.lines))
    {
      if record.Some? && Active(record.value.state) {
        return Busy;
      }
      log := incoming;
      incoming.Create(queued);
      record := Some(queued);
      if Numbered(incoming.lines) { LastOfNumbered(incoming.lines); }
      out := Moved(queued);
    }

    /** `start`, `pause` and `resume` */
    method Send(e: Event, now: Time) returns (out: SlotResult)
      requires Valid()
      modifies this, log
      ensures Valid() && log == old(log)
      ensures out == if old(record).None? then NoJob
                     else if After(old(record).value, e, now).None? then Illegal
                     else Moved(After(old(record).value, e, now).value)
      ensures record == if out.Moved? then Some(out.job) else old(record)
    {
      if record.None? {
        return NoJob;
      }
      ghost var before := System(log.Files(), record);
      ExecIsSafe(before, DoApply(e, now, Never));
      var applied := log.Apply(record.value, e, now, Never);
      if applied.Refused? {
        return Illegal;
      }
      record := Some(applied.job);
      out := Moved(applied.job);
    }

    /** `stop`: a queued job is cancelled, any other that has not ended is stopped. */
    method StopJob(now: Time) returns (out: SlotResult)
      requires Valid()
      modifies this, log
      ensures Valid() && log == old(log)
      ensures old(record).None? ==> out == NoJob
      ensures old(record).Some? && Active(old(record).value.state) ==>
                out.Moved? && record == Some(out.job) && out.job.state == Cancelled
      ensures old(record).Some? && !Active(old(record).value.state) ==> out == Illegal && record == old(record)
    {
      if record.None? {
        return NoJob;
      }
      out := Send(if record.value.state == Queued then Cancel else Stop, now);
    }

    /** `reset`: the slot is freed unless its job is active. */
    method Reset() returns (out: SlotResult)
      requires Valid()
      modifies this
      ensures Valid()
      ensures out == if old(record).None? then NoJob
                     else if Active(old(record).value.state) then Illegal
                     else Moved(old(record).value)
      ensures if out.Moved? then record.None? else record == old(record) && log == old(log)
    {
      if record.None? {
        return NoJob;
      }
      if Active(record.value.state) {
        return Illegal;
      }
      out := Moved(record.value);
      log, record := null, None;
    }
  }
}
