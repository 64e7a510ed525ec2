/** `jobs/state.py`: the states of a job and the edges between them. */
module JobStates {
  import opened Options

  datatype State = Queued | Running | Paused | Muxing | Done | Failed | Cancelled

  datatype Event = Start | Cancel | Pause | Resume | Stop | Rendered | Fail | Muxed | FfmpegError

  datatype Kind = Record | Prep

  datatype Stage = PlanStage | SynthStage | MuxStage

  predicate Terminal(s: State) {
    s.Done? || s.Failed? || s.Cancelled?
  }

  predicate Active(s: State) {
    s.Queued? || s.Running? || s.Paused? || s.Muxing?
  }

  function Transition(s: State, e: Event, kind: Kind): Option<State> {
    match (s, e)
    case (Running, Rendered) => Some(if kind.Prep? then Done else Muxing)
    case (Queued, Start) => Some(Running)
    case (Queued, Cancel) => Some(Cancelled)
    case (Running, Pause) => Some(Paused)
    case (Paused, Resume) => Some(Running)
    case (Running, Stop) => Some(Cancelled)
    case (Paused, Stop) => Some(Cancelled)
    case (Muxing, Stop) => Some(Cancelled)
    case (Running, Fail) => Some(Failed)
    case (Paused, Fail) => Some(Failed)
    case (Muxing, Muxed) => Some(Done)
    case (Muxing, FfmpegError) => Some(Failed)
    case (_, _) => None
  }

  function Recover(s: State): (State, Option<string>) {
    if s.Running? || s.Muxing? then (Paused, Some("crash_recovery")) else (s, None)
  }

  function StageFor(s: State, kind: Kind): Stage {
    if s.Queued? then PlanStage
    else if s.Muxing? || (s.Done? && kind.Record?) then MuxStage
    else SynthStage
  }

  ghost predicate Path(s: State, es: seq<Event>, kind: Kind, t: State)
    decreases es
  {
    if es == [] then s == t
    else Transition(s, es[0], kind).Some? && Path(Transition(s, es[0], kind).value, es[1..], kind, t)
  }

  /** A job is active as long as some event can move it. */
  lemma ActiveMeansMoves(s: State, kind: Kind)
    ensures Active(s) <==> exists e :: Transition(s, e, kind).Some?
    ensures Terminal(s) <==> !Active(s)
  {
    assert s.Queued? ==> Transition(s, Start, kind).Some?;
    assert s.Running? ==> Transition(s, Pause, kind).Some?;
    assert s.Paused? ==> Transition(s, Resume, kind).Some?;
    assert s.Muxing? ==> Transition(s, Muxed, kind).Some?;
  }

  function Progress(stage: Stage): nat {
    match stage case PlanStage => 0 case SynthStage => 1 case MuxStage => 2
  }

  /** The stage that is shown goes back only when muxing is stopped or fails: then it is that of synthesis. */
  lemma StageGoesBackExactly(s: State, e: Event, kind: Kind, t: State)
    requires Transition(s, e, kind) == Some(t) && (kind.Prep? ==> !s.Muxing?)
    ensures Progress(StageFor(t, kind)) < Progress(StageFor(s, kind)) <==> s.Muxing? && !t.Done?
    ensures StageFor(s, kind).PlanStage? <==> s.Queued?
    ensures StageFor(t, kind).MuxStage? <==> kind.Record? && (t.Muxing? || t.Done?)
  {
  }

  /** Along every path of legal edges a prep job is never muxing, a job that ended stays where it is,
      and nothing comes back to the queue. */
  lemma {:induction false} PathsAreSafe(s: State, es: seq<Event>, kind: Kind, t: State)
    requires Path(s, es, kind, t)
    ensures kind.Prep? && !s.Muxing? ==> !t.Muxing?
    ensures Terminal(s) ==> es == [] && t == s
    ensures t.Queued? ==> es == []
    ensures Active(t) ==> Active(s)
    decreases es
  {
    if es != [] { PathsAreSafe(Transition(s, es[0], kind).value, es[1..], kind, t); }
  }

  /** A record job that is done has been muxed: its path goes through `Muxing`. */
  lemma {:induction false} DoneMeansMuxed(s: State, es: seq<Event>, t: State)
    requires Path(s, es, Record, t) && t.Done? && !s.Done?
    ensures s.Muxing? || Rendered in es
    decreases es
  {
    if es != [] && !Transition(s, es[0], Record).value.Done? {
      DoneMeansMuxed(Transition(s, es[0], Record).value, es[1..], t);
    }
  }

  // ---------- the events a job can see ----------

  /** A job that saw this event last has started and is not waiting for anything. */
  predicate Runs(e: Event) {
    e.Start? || e.Resume?
  }

  /** Which event may come right behind which. */
  predicate MayFollow(before: Event, e: Event, kind: Kind) {
    match e
    case Pause | Rendered => Runs(before)
    case Resume => before.Pause?
    case Fail => Runs(before) || before.Pause?
    case Stop => Runs(before) || before.Pause? || (before.Rendered? && kind.Record?)
    case Muxed | FfmpegError => before.Rendered? && kind.Record?
    case Start | Cancel => false
  }

  /** The events come in an order a new job allows. */
  ghost predicate Legal(es: seq<Event>, kind: Kind) {
    && (es != [] ==> es[0].Start? || es[0].Cancel?)
    && forall i :: 0 < i < |es| ==> MayFollow(es[i - 1], es[i], kind)
  }

  /** The state of a job is told by its last event. */
  function StateAfter(last: Event, kind: Kind): State {
    match last
    case Start | Resume => Running
    case Pause => Paused
    case Cancel | Stop => Cancelled
    case Rendered => if kind.Record? then Muxing else Done
    case Muxed => Done
    case Fail | FfmpegError => Failed
  }

  lemma {:induction false} PathSnoc(s: State, es: seq<Event>, e: Event, kind: Kind, m: State, t: State)
    requires Path(s, es, kind, m)
    ensures Path(s, es + [e], kind, t) <==> Transition(m, e, kind) == Some(t)
    decreases es
  {
    hide Transition;
    var all := es + [e];
    if es == [] {
      assert all[1..] == [];
    } else {
      assert all[0] == es[0] && all[1..] == es[1..] + [e];
      PathSnoc(Transition(s, es[0], kind).value, es[1..], e, kind, m, t);
    }
  }

  lemma {:induction false} PathFront(s: State, es: seq<Event>, e: Event, kind: Kind, t: State) returns (m: State)
    requires Path(s, es + [e], kind, t)
    ensures Path(s, es, kind, m) && Transition(m, e, kind) == Some(t)
    decreases es
  {
    hide Transition;
    var all := es + [e];
    if es == [] {
      m := s;
      assert all[1..] == [];
    } else {
      assert all[0] == es[0] && all[1..] == es[1..] + [e];
      m := PathFront(Transition(s, es[0], kind).value, es[1..], e, kind, t);
    }
  }

  lemma LegalSnoc(es: seq<Event>, e: Event, kind: Kind)
    ensures Legal(es + [e], kind) <==>
            Legal(es, kind) && if es == [] then e.Start? || e.Cancel? else MayFollow(es[|es| - 1], e, kind)
  {
    hide MayFollow;
    var all := es + [e];
    assert forall i :: 0 <= i < |es| ==> all[i] == es[i];
    if Legal(all, kind) && es != [] { assert all[|es|] == e; }
  }

  lemma EventMoves(d: Event, e: Event, kind: Kind, t: State)
    ensures Transition(StateAfter(d, kind), e, kind) == Some(t) <==> MayFollow(d, e, kind) && t == StateAfter(e, kind)
    ensures Transition(Queued, e, kind) == Some(t) <==> (e.Start? || e.Cancel?) && t == StateAfter(e, kind)
  {
  }

  /** The state after some events. */
  function StateOf(es: seq<Event>, kind: Kind): State {
    if es == [] then Queued else StateAfter(es[|es| - 1], kind)
  }

  /** A new job comes to a state by exactly the legal orders of events, and its last event tells which. */
  lemma {:induction false} EventsDecide(es: seq<Event>, kind: Kind, t: State)
    ensures Path(Queued, es, kind, t) <==> Legal(es, kind) && t == StateOf(es, kind)
    decreases es
  {
    hide Transition, MayFollow, StateAfter;
    if es != [] {
      hide Legal, Path;
      var n := |es| - 1;
      var front, e := es[..n], es[n];
      assert es == front + [e];
      var m := StateOf(front, kind);
      EventsDecide(front, kind, m);
      LegalSnoc(front, e, kind);
      if front != [] { EventMoves(front[n - 1], e, kind, t); } else { EventMoves(e, e, kind, t); }
      if Legal(front, kind) {
        PathSnoc(Queued, front, e, kind, m, t);
      } else if Path(Queued, es, kind, t) {
        var p := PathFront(Queued, front, e, kind, t);
        EventsDecide(front, kind, p);
      }
    }
  }
}
