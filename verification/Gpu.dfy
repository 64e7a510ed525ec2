/** `gpu/budget.py`, `gpu/monitor.py`, `jobs/admission.py` and `jobs/scheduler.py`: how many workers may
    run so that a reserve of GPU memory stays free. */
module Gpu {
  import opened Chunks
  import opened FakeRun
  import opened Options
  import opened PyText

  // ---------- the budget ----------

  const RESERVE_FLOOR_MIB := 1536

  datatype Vendor = Nvidia | Amd | Cpu

  datatype PeakResult = Peak(mib: nat) | PeakRefused

  /** `_seed_peak` */
  function SeedPeak(backend: string, precision: string, model: string): Option<nat> {
    if backend == "fake" then Some(64)
    else if backend == "qwen3_tts" && model == "1.7b" && precision == "fp16" then Some(7000)
    else if backend == "omnivoice" && precision == "fp16" then Some(3500)
    else if backend == "omnivoice" && precision == "fp32" then Some(6000)
    else if backend == "chatterbox" && precision == "fp16" then Some(4500)
    else if backend == "qwen3_tts" && precision == "fp16" then Some(4000)
    else None
  }

  /** `_peak`: an override, else a measurement, else the seed; it is never zero. */
  function PeakOf(backend: string, precision: string, model: string, override: Option<int>,
                  measured: Option<int>): (r: PeakResult)
    ensures r.Peak? ==> r.mib > 0
    ensures override.Some? ==> if override.value > 0 then r == Peak(override.value) else r.PeakRefused?
    ensures override.None? && measured.Some? ==>
              if measured.value > 0 then r == Peak(measured.value) else r.PeakRefused?
    ensures override.None? && measured.None? ==>
              match SeedPeak(backend, precision, model) case Some(mib) => r == Peak(mib) case None => r.PeakRefused?
  {
    if override.Some? then if override.value <= 0 then PeakRefused else Peak(override.value)
    else if measured.Some? then if measured.value <= 0 then PeakRefused else Peak(measured.value)
    else match SeedPeak(backend, precision, model)
      case None => PeakRefused
      case Some(mib) => Peak(mib)
  }

  function Max(a: int, b: int): int {
    if a >= b then a else b
  }

  function Min(a: int, b: int): int {
    if a <= b then a else b
  }

  /** `_reserve`: a fifth of the card, rounded up, and not less than the floor. */
  function ReserveOf(total: nat, override: Option<int>): int {
    if override.Some? then Max(0, override.value)
    else Max((total * 20 + 100 - 1) / 100, RESERVE_FLOOR_MIB)
  }

  datatype Budget = Budget(reserve: int, peak: nat, formula: int, effective: int, lowWarning: bool)

  /** `compute_budget`, once the peak is known. Memory that cannot be read counts as none. */
  function ComputeBudget(vendor: Vendor, total: Option<nat>, free: Option<int>, peak: nat,
                         workerCap: int, maxParallel: int, reserveOverride: Option<int>): Budget
    requires peak > 0
  {
    var cap, parallel := Max(1, workerCap), Max(1, maxParallel);
    if vendor.Cpu? || total.None? || free.None? then
      Budget(0, peak, 1, 1, !vendor.Cpu?)
    else
      var reserve := ReserveOf(total.value, reserveOverride);
      var headroom := free.value - reserve;
      var raw := if headroom > 0 then headroom / peak else 0;
      var formula := Max(1, raw);
      Budget(reserve, peak, formula, Min(formula, Min(cap, parallel)), headroom < peak)
  }

  lemma Quotient(headroom: int, peak: nat)
    requires peak > 0 && headroom >= 0
    ensures (headroom / peak) * peak <= headroom < (headroom / peak + 1) * peak
  {
  }

  lemma Scaled(a: int, b: int, c: nat)
    requires a <= b
    ensures a * c <= b * c
  {
  }

  /** The reserve of a card: what is asked for, if it is not negative, and by default the least number of MiB
      that is a fifth of the card and not below the floor. */
  lemma ReserveIsLeast(total: nat, override: Option<int>)
    ensures override.Some? ==> ReserveOf(total, override) == if override.value < 0 then 0 else override.value
    ensures override.None? ==> forall r :: ReserveOf(total, None) <= r <==> r * 5 >= total && r >= 1536
  {
    var n := total * 20 + 99;
    assert n == 100 * (n / 100) + n % 100;
  }

  /** On a card that can be read, the workers fit into the memory beside the reserve exactly when there
      is no warning, and one more worker would break the cap, the backend's limit or the reserve. */
  lemma BudgetFits(vendor: Vendor, total: nat, free: int, peak: nat, workerCap: int, maxParallel: int,
                   reserveOverride: Option<int>)
    requires !vendor.Cpu? && peak > 0
    ensures var b := ComputeBudget(vendor, Some(total), Some(free), peak, workerCap, maxParallel, reserveOverride);
            && b.effective >= 1
            && (b.effective * peak <= free - b.reserve <==> !b.lowWarning)
            && (b.effective + 1 > Max(1, workerCap) || b.effective + 1 > Max(1, maxParallel)
                || (b.effective + 1) * peak > free - b.reserve)
  {
    var b := ComputeBudget(vendor, Some(total), Some(free), peak, workerCap, maxParallel, reserveOverride);
    var headroom := free - b.reserve;
    Scaled(1, b.effective, peak);
    if headroom > 0 {
      Quotient(headroom, peak);
      var raw := headroom / peak;
      if headroom >= peak {
        assert raw >= 1 by { if raw <= 0 { Scaled(raw + 1, 1, peak); } }
        Scaled(b.effective, raw, peak);
      }
      Scaled(raw + 1, b.formula + 1, peak);
    } else {
      Scaled(0, b.effective + 1, peak);
      Scaled(1, b.effective + 1, peak);
    }
  }

  /** On a card that can be read, `w` workers are within the budget if and only if they are within the cap and
      the backend's limit, and fit beside the reserve unless there is only one. Without such a card there
      is one worker, with a warning when it is a card that cannot be read. */
  lemma BudgetIsExact(vendor: Vendor, total: Option<nat>, free: Option<int>, peak: nat, workerCap: int,
                      maxParallel: int, reserveOverride: Option<int>, w: int)
    requires peak > 0 && w >= 1
    ensures var b := ComputeBudget(vendor, total, free, peak, workerCap, maxParallel, reserveOverride);
            if vendor.Cpu? || total.None? || free.None? then
              b.effective == 1 && b.reserve == 0 && (b.lowWarning <==> !vendor.Cpu?)
            else
              && b.reserve == ReserveOf(total.value, reserveOverride)
              && (b.lowWarning <==> free.value - b.reserve < peak)
              && (w <= b.effective <==>
                  w <= Max(1, workerCap) && w <= Max(1, maxParallel) && (w == 1 || w * peak <= free.value - b.reserve))
  {
    var b := ComputeBudget(vendor, total, free, peak, workerCap, maxParallel, reserveOverride);
    if !vendor.Cpu? && total.Some? && free.Some? {
      hide ReserveOf;
      var headroom := free.value - b.reserve;
      FitsByQuotient(headroom, peak, w);
    }
  }

  lemma FitsByQuotient(headroom: int, peak: nat, w: int)
    requires peak > 0 && w >= 1
    ensures headroom > 0 ==> (w <= headroom / peak <==> w * peak <= headroom)
    ensures headroom <= 0 ==> w * peak > headroom
  {
    Scaled(1, w, peak);
    if headroom > 0 {
      var q := headroom / peak;
      Quotient(headroom, peak);
      if w <= q { Scaled(w, q, peak); } else { Scaled(q + 1, w, peak); }
    }
  }

  // ---------- the monitor ----------

  datatype Tick = Tick(sampled: bool, total: Option<int>, free: Option<int>, used: Option<int>,
                       paused: bool, pausedNow: bool, resumedNow: bool, admits: bool)

  datatype Reading = Reading(total: Option<int>, free: Option<int>)

  /** `admits_worker` */
  predicate AdmitsWorker(free: int, reserve: int, peak: int) {
    peak > 0 && free - reserve >= peak
  }

  predicate Below(r: Reading, reserve: int) {
    r.free.Some? && r.free.value < reserve
  }

  /** How many readings have followed the last one below the reserve. */
  function SinceBelow(history: seq<Reading>, reserve: int): Option<nat> {
    if history == [] then None
    else
      var n := |history| - 1;
      if Below(history[n], reserve) then Some(0)
      else match SinceBelow(history[..n], reserve)
        case None => None
        case Some(k) => Some(k + 1)
  }

  /** Admissions are paused from a reading below the reserve until enough readings have followed. */
  predicate PausedBy(history: seq<Reading>, reserve: int, resume: int) {
    SinceBelow(history, reserve).Some? && SinceBelow(history, reserve).value < Max(1, resume)
  }

  /** The same in plain words: some reading was below, and fewer than `resume` have followed the last
      such one. */
  lemma {:induction false} PausedMeans(history: seq<Reading>, reserve: int, resume: int)
    ensures PausedBy(history, reserve, resume) <==>
            exists i :: 0 <= i < |history| && Below(history[i], reserve) && |history| - 1 - i < Max(1, resume)
                        && forall j :: i < j < |history| ==> !Below(history[j], reserve)
  {
    SinceIs(history, reserve);
  }

  lemma {:induction false} SinceIs(history: seq<Reading>, reserve: int)
    ensures SinceBelow(history, reserve).None? <==> forall i :: 0 <= i < |history| ==> !Below(history[i], reserve)
    ensures var k := SinceBelow(history, reserve);
            k.Some? ==> k.value < |history| && Below(history[|history| - 1 - k.value], reserve)
                        && forall j :: |history| - 1 - k.value < j < |history| ==> !Below(history[j], reserve)
  {
    if history != [] {
      var n := |history| - 1;
      SinceIs(history[..n], reserve);
      assert forall i :: 0 <= i < n ==> history[..n][i] == history[i];
    }
  }

  class VramMonitor {
    const reserve: int
    const peak: int
    const interval: real
    const resume: int
    var lastAt: Option<real>
    var last: Option<Tick>
    var paused: bool
    var clearStreak: nat
    /** The readings that were sampled. */
    ghost var history: seq<Reading>

    ghost predicate Valid()
      reads this
    {
      && (paused <==> PausedBy(history, reserve, resume))
      && clearStreak == (if paused then SinceBelow(history, reserve).value else 0)
      && (last.Some? <==> history != []) && (lastAt.Some? <==> last.Some?)
      && (last.Some? ==> last.value.free == history[|history| - 1].free)
      && (last.Some? ==> (last.value.admits <==> Admits()))
    }

    /** One more worker fits beside the reserve by the latest reading, and nothing is paused. */
    ghost predicate Admits()
      requires history != []
      reads this
    {
      var free := history[|history| - 1].free;
      free.Some? && AdmitsWorker(free.value, reserve, peak) && !PausedBy(history, reserve, resume)
    }

    constructor (reserve: int, peak: int, interval: real, resume: int)
      ensures Valid() && history == []
      ensures this.reserve == reserve && this.peak == peak && this.interval == interval && this.resume == resume
    {
      this.reserve, this.peak, this.interval, this.resume := reserve, peak, interval, resume;
      lastAt, last, paused, clearStreak, history := None, None, false, 0, [];
    }

    /** `poll`: the probe runs only when the interval has passed. */
    method Poll(now: real, reading: Reading) returns (tick: Tick)
      requires Valid()
      modifies this
      ensures Valid()
      ensures tick.sampled <==> old(lastAt).None? || now - old(lastAt).value >= interval
      ensures history == if tick.sampled then old(history) + [reading] else old(history)
      ensures tick.paused == PausedBy(history, reserve, resume)
      ensures history != [] && (tick.admits <==> Admits())
      ensures tick.pausedNow <==> tick.paused && !old(paused)
      ensures tick.resumedNow <==> !tick.paused && old(paused)
    {
      if last.Some? && lastAt.Some? && now - lastAt.value < interval {
        return last.value.(sampled := false, paused := paused, pausedNow := false, resumedNow := false,
          admits := last.value.admits && !paused);
      }
      tick := Decide(reading);
      lastAt := Some(now);
      last := Some(tick);
    }

    /** `_decide` */
    method Decide(reading: Reading) returns (tick: Tick)
      requires Valid()
      modifies this`paused, this`clearStreak, this`history
      ensures history == old(history) + [reading]
      ensures paused == PausedBy(history, reserve, resume)
      ensures clearStreak == if paused then SinceBelow(history, reserve).value else 0
      ensures tick.sampled && tick.free == reading.free && tick.paused == paused && (tick.admits <==> Admits())
      ensures tick.total == reading.total
      ensures reading.total.Some? && reading.free.Some? ==>
                tick.used.Some? && tick.used.value + reading.free.value == reading.total.value
      ensures reading.total.None? || reading.free.None? ==> tick.used.None?
      ensures tick.pausedNow <==> paused && !old(paused)
      ensures tick.resumedNow <==> !paused && old(paused)
    {
      history := history + [reading];
      assert history[..|history| - 1] == old(history);
      var below := reading.free.Some? && reading.free.value < reserve;
      var pausedNow, resumedNow := false, false;
      if below {
        clearStreak := 0;
        if !paused {
          paused := true;
          pausedNow := true;
        }
      } else if paused {
        clearStreak := clearStreak + 1;
        if clearStreak >= resume {
          paused := false;
          clearStreak := 0;
          resumedNow := true;
        }
      } else {
        clearStreak := 0;
      }
      var fits := reading.free.Some? && AdmitsWorker(reading.free.value, reserve, peak);
      var used := if reading.total.Some? && reading.free.Some? then Some(reading.total.value - reading.free.value)
                  else None;
      tick := Tick(true, reading.total, reading.free, used, paused, pausedNow, resumedNow, fits && !paused);
    }
  }

  // ---------- the gate ----------

  datatype Admission = Admit | Wait | PausedAdmission

  class AdmissionGate {
    const slots: nat
    var held: nat

    ghost predicate Valid()
      reads this
    {
      1 <= slots && held <= slots
    }

    constructor (effective: int)
      ensures Valid() && slots == Max(1, effective) && held == 0
    {
      slots := if effective >= 1 then effective else 1;
      held := 0;
    }

    /** `try_acquire` */
    method TryAcquire(tick: Tick) returns (out: Admission)
      requires Valid()
      modifies this`held
      ensures Valid()
      ensures out == if tick.paused then PausedAdmission else if !tick.admits || old(held) >= slots then Wait else Admit
      ensures held == if out.Admit? then old(held) + 1 else old(held)
    {
      if tick.paused {
        return PausedAdmission;
      }
      if !tick.admits || held >= slots {
        return Wait;
      }
      held := held + 1;
      return Admit;
    }

    /** `release`: an extra release is ignored. */
    method Release()
      requires Valid()
      modifies this`held
      ensures Valid() && held == if old(held) > 0 then old(held) - 1 else 0
    {
      if held > 0 {
        held := held - 1;
      }
    }
  }

  // ---------- dispatch ----------

  datatype Action = Reuse | Quiet | Synth

  datatype Dispatch = Dispatch(ordinal: nat, action: Action)

  /** What an item needs. */
  function ActionOf(item: Item, reusable: Item -> bool): Action {
    if item.Silence? then Quiet else if reusable(item) then Reuse else Synth
  }

  /** How many more workers one tick may start. */
  function FreeSlots(tick: Tick, slots: nat, held: nat): nat {
    if tick.paused || !tick.admits || held >= slots then 0 else slots - held
  }

  function DispatchOf(items: seq<Item>, cursor: nat, reusable: Item -> bool, free: nat): seq<Dispatch> {
    if items == [] then []
    else if items[0].ordinal < cursor then DispatchOf(items[1..], cursor, reusable, free)
    else
      var action := ActionOf(items[0], reusable);
      if action.Synth? && free == 0 then []
      else [Dispatch(items[0].ordinal, action)]
           + DispatchOf(items[1..], cursor, reusable, if action.Synth? then free - 1 else free)
  }

  function Synths(taken: seq<Dispatch>): nat {
    if taken == [] then 0 else (if taken[0].action.Synth? then 1 else 0) + Synths(taken[1..])
  }

  lemma {:induction false} SynthsOfAppend(xs: seq<Dispatch>, ys: seq<Dispatch>)
    ensures Synths(xs + ys) == Synths(xs) + Synths(ys)
  {
    if xs == [] {
      assert xs + ys == ys;
    } else {
      assert (xs + ys)[1..] == xs[1..] + ys;
      SynthsOfAppend(xs[1..], ys);
    }
  }

  /** `dispatch` */
  method DispatchItems(items: seq<Item>, cursor: nat, reusable: Item -> bool, gate: AdmissionGate, tick: Tick)
    returns (taken: seq<Dispatch>)
    requires gate.Valid()
    modifies gate`held
    ensures gate.Valid()
    ensures taken == DispatchOf(items, cursor, reusable, FreeSlots(tick, gate.slots, old(gate.held)))
    ensures gate.held == old(gate.held) + Synths(taken)
  {
    taken := [];
    ghost var free := FreeSlots(tick, gate.slots, gate.held);
    var i := 0;
    while i < |items|
      invariant 0 <= i <= |items| && gate.Valid()
      invariant gate.held == old(gate.held) + Synths(taken)
      invariant taken + DispatchOf(items[i..], cursor, reusable, FreeSlots(tick, gate.slots, gate.held))
             == DispatchOf(items, cursor, reusable, free)
    {
      var item := items[i];
      assert items[i..][0] == item && items[i..][1..] == items[i + 1..];
      i := i + 1;
      if item.ordinal < cursor {
        continue;
      }
      var action := if item.Silence? then Quiet else if reusable(item) then Reuse else Synth;
      if action == Synth {
        var admission := gate.TryAcquire(tick);
        if !admission.Admit? {
          break;
        }
      }
      var next := [Dispatch(item.ordinal, action)];
      SynthsOfAppend(taken, next);
      Regroup(taken, next, DispatchOf(items[i..], cursor, reusable, FreeSlots(tick, gate.slots, gate.held)),
              DispatchOf(items, cursor, reusable, free));
      taken := taken + next;
    }
  }

  /** The items that wait for dispatch. */
  function Ahead(items: seq<Item>, cursor: nat): seq<Item> {
    if items == [] then [] else (if items[0].ordinal < cursor then [] else [items[0]]) + Ahead(items[1..], cursor)
  }

  /** A prefix of the waiting items, cut where a worker is needed and no slot is left. */
  ghost predicate IsLongestPrefix(taken: seq<Dispatch>, ahead: seq<Item>, reusable: Item -> bool, free: nat) {
    && |taken| <= |ahead| && Synths(taken) <= free
    && (forall i :: 0 <= i < |taken| ==> taken[i] == Dispatch(ahead[i].ordinal, ActionOf(ahead[i], reusable)))
    && (|taken| < |ahead| ==> Synths(taken) == free && ActionOf(ahead[|taken|], reusable).Synth?)
  }

  lemma OneMoreTaken(item: Item, taken: seq<Dispatch>, ahead: seq<Item>, reusable: Item -> bool, free: nat)
    requires IsLongestPrefix(taken, ahead, reusable, free)
    ensures var action := ActionOf(item, reusable);
            IsLongestPrefix([Dispatch(item.ordinal, action)] + taken, [item] + ahead, reusable,
                            if action.Synth? then free + 1 else free)
  {
    hide ActionOf;
    var all := [Dispatch(item.ordinal, ActionOf(item, reusable))] + taken;
    assert all[1..] == taken;
    assert forall i :: 0 < i < |all| ==> all[i] == taken[i - 1] && ([item] + ahead)[i] == ahead[i - 1];
  }

  /** No chunk jumps a waiting one: what is dispatched is the longest prefix of the waiting items that
      needs no more workers than there are slots. */
  lemma {:induction false} DispatchIsPrefix(items: seq<Item>, cursor: nat, reusable: Item -> bool, free: nat)
    ensures IsLongestPrefix(DispatchOf(items, cursor, reusable, free), Ahead(items, cursor), reusable, free)
  {
    if items != [] {
      hide IsLongestPrefix, ActionOf;
      if items[0].ordinal < cursor {
        DispatchIsPrefix(items[1..], cursor, reusable, free);
        assert Ahead(items, cursor) == Ahead(items[1..], cursor);
      } else {
        var action := ActionOf(items[0], reusable);
        if action.Synth? && free == 0 {
          NothingTaken(items[0], Ahead(items[1..], cursor), reusable);
        } else {
          var rest := if action.Synth? then free - 1 else free;
          DispatchIsPrefix(items[1..], cursor, reusable, rest);
          OneMoreTaken(items[0], DispatchOf(items[1..], cursor, reusable, rest), Ahead(items[1..], cursor), reusable,
                       rest);
        }
      }
    }
  }

  lemma NothingTaken(item: Item, ahead: seq<Item>, reusable: Item -> bool)
    requires ActionOf(item, reusable).Synth?
    ensures IsLongestPrefix([], [item] + ahead, reusable, 0)
  {
  }

  // ---------- the memory of the sample ----------

  /** How many of the waiting items need a worker. */
  function NeedWorker(ahead: seq<Item>, reusable: Item -> bool): nat {
    if ahead == [] then 0 else (if ActionOf(ahead[0], reusable).Synth? then 1 else 0) + NeedWorker(ahead[1..], reusable)
  }

  lemma {:induction false} StartedWorkers(items: seq<Item>, cursor: nat, reusable: Item -> bool, free: nat)
    ensures Synths(DispatchOf(items, cursor, reusable, free)) == Min(NeedWorker(Ahead(items, cursor), reusable), free)
  {
    if items == [] {
    } else if items[0].ordinal < cursor {
      StartedWorkers(items[1..], cursor, reusable, free);
      assert Ahead(items, cursor) == Ahead(items[1..], cursor);
    } else {
      var action := ActionOf(items[0], reusable);
      assert Ahead(items, cursor) == [items[0]] + Ahead(items[1..], cursor);
      if !action.Synth? || free > 0 {
        var rest := if action.Synth? then free - 1 else free;
        StartedWorkers(items[1..], cursor, reusable, rest);
        assert ([Dispatch(items[0].ordinal, action)] + DispatchOf(items[1..], cursor, reusable, rest))[1..]
            == DispatchOf(items[1..], cursor, reusable, rest);
      }
    }
  }

  lemma FitsExactly(n: nat, peak: nat, room: int)
    requires peak > 0 && room >= 0
    ensures n * peak <= room <==> n <= room / peak
  {
    Quotient(room, peak);
    if n <= room / peak { Scaled(n, room / peak, peak); } else { Scaled(room / peak + 1, n, peak); }
  }

  /** A tick admits when one more worker fits into the memory of its sample beside the reserve. The workers
      that one dispatch starts with it all fit there if and only if the items that need one, or the free
      slots, are not more than that memory holds. */
  lemma SampleIsProtectedExactly(items: seq<Item>, cursor: nat, reusable: Item -> bool, tick: Tick,
                                 slots: nat, held: nat, reserve: int, peak: nat)
    requires tick.free.Some? && AdmitsWorker(tick.free.value, reserve, peak) && tick.admits && !tick.paused
    requires held <= slots
    ensures var started := Synths(DispatchOf(items, cursor, reusable, FreeSlots(tick, slots, held)));
            var room := tick.free.value - reserve;
            started * peak <= room <==> Min(NeedWorker(Ahead(items, cursor), reusable), slots - held) <= room / peak
  {
    StartedWorkers(items, cursor, reusable, FreeSlots(tick, slots, held));
    FitsExactly(Synths(DispatchOf(items, cursor, reusable, FreeSlots(tick, slots, held))), peak,
                tick.free.value - reserve);
  }

  /** Two missing chunks, two free slots and room for one worker: both start. */
  lemma SampleIsNotProtected(reserve: nat, peak: nat, key: Key)
    requires peak > 0
    ensures var items := [Speech(0, key, "a"), Speech(1, key, "b")];
            var none: Item -> bool := _ => false;
            var tick := Tick(true, None, Some(reserve + peak), None, false, false, false, true);
            && AdmitsWorker(reserve + peak, reserve, peak)
            && Synths(DispatchOf(items, 0, none, FreeSlots(tick, 2, 0))) == 2
            && 2 * peak > reserve + peak - reserve
  {
    var none: Item -> bool := _ => false;
    var a, b := Speech(0, key, "a"), Speech(1, key, "b");
    assert [a, b][1..] == [b] && [b][1..] == [] && [a] + [b] == [a, b];
    assert Ahead([b], 0) == [b] && Ahead([a, b], 0) == [a] + Ahead([b], 0);
    assert NeedWorker([b], none) == 1 && NeedWorker([a, b], none) == 1 + NeedWorker([b], none);
    StartedWorkers([a, b], 0, none, 2);
  }

  // ---------- whole runs ----------

  datatype GateAction = DoDispatch(items: seq<Item>, cursor: nat, reusable: Item -> bool, tick: Tick) | DoRelease

  function HeldAfter(held: nat, slots: nat, a: GateAction): nat {
    match a
    case DoRelease => if held > 0 then held - 1 else 0
    case DoDispatch(items, cursor, reusable, tick) =>
      held + Synths(DispatchOf(items, cursor, reusable, FreeSlots(tick, slots, held)))
  }

  function HeldRun(held: nat, slots: nat, actions: seq<GateAction>): nat
    decreases actions
  {
    if actions == [] then held else HeldRun(HeldAfter(held, slots, actions[0]), slots, actions[1..])
  }

  lemma {:induction false} HeldStaysInSlots(held: nat, slots: nat, actions: seq<GateAction>)
    requires held <= slots
    ensures HeldRun(held, slots, actions) <= slots
    decreases actions
  {
    if actions != [] {
      if actions[0].DoDispatch? {
        DispatchIsPrefix(actions[0].items, actions[0].cursor, actions[0].reusable,
                         FreeSlots(actions[0].tick, slots, held));
      }
      HeldStaysInSlots(HeldAfter(held, slots, actions[0]), slots, actions[1..]);
    }
  }

  /** For a budget without the warning, no sequence of dispatches and releases ever holds more workers
      than fit into the budgeted free memory beside the reserve. */
  lemma ReserveIsProtected(vendor: Vendor, total: nat, free: int, peak: nat, workerCap: int, maxParallel: int,
                           reserveOverride: Option<int>, actions: seq<GateAction>)
    requires !vendor.Cpu? && peak > 0
    ensures var b := ComputeBudget(vendor, Some(total), Some(free), peak, workerCap, maxParallel, reserveOverride);
            !b.lowWarning ==> b.effective >= 1 && HeldRun(0, b.effective, actions) * peak <= free - b.reserve
  {
    var b := ComputeBudget(vendor, Some(total), Some(free), peak, workerCap, maxParallel, reserveOverride);
    BudgetFits(vendor, total, free, peak, workerCap, maxParallel, reserveOverride);
    HeldStaysInSlots(0, b.effective, actions);
    Scaled(HeldRun(0, b.effective, actions), b.effective, peak);
  }
}
