/** `text/dialogue.py`, the dash part: dashes are found, some are confirmed as switches between
    narration and dialogue, and the block is tiled at the confirmed ones. */
module Dialogue {
  import opened Options
  import opened PyText

  datatype DashKind = Initial | Colon | Flanked | Trailing

  datatype Dash = Dash(start: nat, content: nat, kind: DashKind)

  datatype Voice = Narration | Dialogue

  datatype Segment = Segment(voice: Voice, start: nat, end: nat)

  /** `_starts_with_speech(text, index)`: the words at `index` start with a verb of saying. */
  type Speech = nat -> bool

  // ---------- finding dashes ----------

  function SkipSpace(text: string, index: nat): (r: nat)
    requires index <= |text|
    ensures index <= r <= |text|
    ensures forall k :: index <= k < r ==> IsSpace(text[k])
    ensures r < |text| ==> !IsSpace(text[r])
    decreases |text| - index
  {
    if index < |text| && IsSpace(text[index]) then SkipSpace(text, index + 1) else index
  }

  predicate ColonBefore(text: string, index: nat)
    requires index <= |text|
  {
    if index == 0 then false
    else if IsSpace(text[index - 1]) then ColonBefore(text, index - 1)
    else text[index - 1] == ':'
  }

  predicate SpaceBefore(text: string, index: nat)
    requires index <= |text|
  {
    index > 0 && IsSpace(text[index - 1])
  }

  /** `_dash_kind` */
  function KindOf(text: string, index: nat): Option<DashKind>
    requires index < |text|
  {
    if AllSpace(text[..index]) then Some(Initial)
    else if ColonBefore(text, index) then Some(Colon)
    else if SpaceBefore(text, index) then Some(Flanked)
    else None
  }

  /** The dash the loop finds at `index`, if any. */
  function DashAt(text: string, index: nat): Option<Dash>
    requires index < |text|
  {
    if !IsDash(text[index]) then None
    else
      var content := SkipSpace(text, index + 1);
      var trailing := content >= |text|;
      if !trailing && !IsSpace(text[index + 1]) then None
      else
        match KindOf(text, index)
        case Some(kind) => Some(Dash(index, content, kind))
        case None => if trailing && SpaceBefore(text, index) then Some(Dash(index, content, Trailing)) else None
  }

  function DashesFrom(text: string, index: nat): seq<Dash>
    requires index <= |text|
    decreases |text| - index
  {
    if index == |text| then []
    else (match DashAt(text, index) case Some(d) => [d] case None => []) + DashesFrom(text, index + 1)
  }

  method SkipSpaceLoop(text: string, start: nat) returns (index: nat)
    requires start <= |text|
    ensures index == SkipSpace(text, start)
  {
    index := start;
    while index < |text| && IsSpace(text[index])
      invariant start <= index <= |text| && SkipSpace(text, index) == SkipSpace(text, start)
    {
      index := index + 1;
    }
  }

  method ColonBeforeLoop(text: string, index: nat) returns (found: bool)
    requires index <= |text|
    ensures found == ColonBefore(text, index)
  {
    var cursor: int := index - 1;
    while cursor >= 0 && IsSpace(text[cursor])
      invariant -1 <= cursor < index && ColonBefore(text, cursor + 1) == ColonBefore(text, index)
    {
      cursor := cursor - 1;
    }
    found := cursor >= 0 && text[cursor] == ':';
  }

  method KindOfLoop(text: string, index: nat) returns (kind: Option<DashKind>)
    requires index < |text|
    ensures kind == KindOf(text, index)
  {
    if AllSpace(text[..index]) {
      return Some(Initial);
    }
    var colon := ColonBeforeLoop(text, index);
    if colon {
      return Some(Colon);
    }
    kind := if SpaceBefore(text, index) then Some(Flanked) else None;
  }

  /** The body of the loop, for the character at `index`. */
  method LookAt(text: string, index: nat) returns (found: Option<Dash>)
    requires index < |text|
    ensures found == DashAt(text, index)
  {
    if !IsDash(text[index]) {
      return None;
    }
    var content := SkipSpaceLoop(text, index + 1);
    var trailing := content >= |text|;
    var followed := trailing || IsSpace(text[index + 1]);
    if !followed {
      return None;
    }
    var kind := KindOfLoop(text, index);
    if kind.None? && !trailing {
      return None;
    }
    if kind.None? && trailing && SpaceBefore(text, index) {
      kind := Some(Trailing);
    }
    found := if kind.None? then None else Some(Dash(index, content, kind.value));
  }

  method FindDashes(text: string) returns (found: seq<Dash>)
    ensures found == DashesFrom(text, 0)
  {
    found := [];
    var index := 0;
    while index < |text|
      invariant 0 <= index <= |text|
      invariant found + DashesFrom(text, index) == DashesFrom(text, 0)
    {
      var dash := LookAt(text, index);
      if dash.Some? {
        Regroup(found, [dash.value], DashesFrom(text, index + 1), DashesFrom(text, 0));
        found := found + [dash.value];
      }
      index := index + 1;
    }
  }

  // ---------- confirming dashes ----------

  /** The state of `_confirmed_indexes` between two dashes. `aside` is `speech_narration`: the
      narration was opened by a verb of saying, so the next flanked dash closes it. */
  datatype Mode = Mode(voice: Voice, aside: bool)

  predicate NextIsSpeech(dashes: seq<Dash>, index: nat, speech: Speech) {
    index + 1 < |dashes| && dashes[index + 1].kind.Flanked? && speech(dashes[index + 1].content)
  }

  /** What the loop does with one dash: is it confirmed, and the mode after it. */
  function Confirm(dashes: seq<Dash>, index: nat, mode: Mode, speech: Speech): (bool, Mode)
    requires index < |dashes|
  {
    var dash := dashes[index];
    if dash.kind.Initial? || dash.kind.Colon? then (true, Mode(Dialogue, false))
    else if dash.kind.Trailing? && mode.voice.Dialogue? then (true, Mode(Narration, false))
    else if dash.kind.Flanked? && speech(dash.content) then (true, Mode(Narration, true))
    else if dash.kind.Flanked? && mode.voice.Narration?
            && ((!mode.aside && NextIsSpeech(dashes, index, speech)) || mode.aside) then
      (true, Mode(Dialogue, false))
    else (false, mode)
  }

  /** Indexes of the confirmed dashes from `index` on. */
  function ConfirmedFrom(dashes: seq<Dash>, index: nat, mode: Mode, speech: Speech): seq<nat>
    requires index <= |dashes|
    decreases |dashes| - index
  {
    if index == |dashes| then []
    else
      var (yes, next) := Confirm(dashes, index, mode, speech);
      (if yes then [index] else []) + ConfirmedFrom(dashes, index + 1, next, speech)
  }

  const START := Mode(Narration, false)

  method ConfirmedIndexes(dashes: seq<Dash>, speech: Speech) returns (chosen: seq<nat>)
    ensures chosen == ConfirmedFrom(dashes, 0, START, speech)
  {
    hide ConfirmedFrom, NextIsSpeech;
    var state, aside := Narration, false;
    chosen := [];
    ghost var all := ConfirmedFrom(dashes, 0, START, speech);
    var index := 0;
    while index < |dashes|
      invariant 0 <= index <= |dashes|
      invariant chosen + ConfirmedFrom(dashes, index, Mode(state, aside), speech) == all
    {
      var dash := dashes[index];
      ghost var step := Confirm(dashes, index, Mode(state, aside), speech);
      ConfirmedStep(dashes, index, Mode(state, aside), speech);
      Regroup(chosen, if step.0 then [index] else [], ConfirmedFrom(dashes, index + 1, step.1, speech), all);
      assert chosen + [] == chosen;
      index := index + 1;
      if dash.kind.Initial? || dash.kind.Colon? {
        chosen := chosen + [index - 1];
        state, aside := Dialogue, false;
        continue;
      }
      if dash.kind.Trailing? && state.Dialogue? {
        chosen := chosen + [index - 1];
        state, aside := Narration, false;
        continue;
      }
      if dash.kind.Flanked? && speech(dash.content) {
        chosen := chosen + [index - 1];
        state, aside := Narration, true;
        continue;
      }
      var opens := dash.kind.Flanked? && state.Narration? && !aside && NextIsSpeech(dashes, index - 1, speech);
      var closes := dash.kind.Flanked? && state.Narration? && aside;
      if opens || closes {
        chosen := chosen + [index - 1];
        state, aside := Dialogue, false;
      }
    }
    NoneConfirmed(dashes, Mode(state, aside), speech);
  }

  lemma ConfirmedStep(dashes: seq<Dash>, index: nat, mode: Mode, speech: Speech)
    requires index < |dashes|
    ensures var (yes, next) := Confirm(dashes, index, mode, speech);
            ConfirmedFrom(dashes, index, mode, speech)
            == (if yes then [index] else []) + ConfirmedFrom(dashes, index + 1, next, speech)
  {
  }

  lemma NoneConfirmed(dashes: seq<Dash>, mode: Mode, speech: Speech)
    ensures ConfirmedFrom(dashes, |dashes|, mode, speech) == []
  {
  }

  // ---------- tiling ----------

  /** `_state_after`: the tiler rebuilds the state from the dash alone. */
  function StateAfter(dash: Dash, state: Voice, speech: Speech): Voice {
    if dash.kind.Trailing? then Narration
    else if dash.kind.Flanked? && speech(dash.content) then Narration
    else Dialogue
  }

  predicate Dropped(c: char) {
    IsSpace(c) || IsDash(c)
  }

  predicate AllDropped(s: string) {
    forall i :: 0 <= i < |s| ==> Dropped(s[i])
  }

  /** The end of the spaces that start at `start`. */
  function LeftSpaces(text: string, start: nat, end: nat): (r: nat)
    requires start <= end <= |text|
    ensures start <= r <= end && (r < end ==> !IsSpace(text[r]))
    ensures forall k :: start <= k < r ==> IsSpace(text[k])
    decreases |text| - start
  {
    if start < end && IsSpace(text[start]) then LeftSpaces(text, start + 1, end) else start
  }

  function RightSpaces(text: string, start: nat, end: nat): (r: nat)
    requires start <= end <= |text|
    ensures start <= r <= end && (start < r ==> !IsSpace(text[r - 1]))
    ensures forall k :: r <= k < end ==> IsSpace(text[k])
    decreases end
  {
    if start < end && IsSpace(text[end - 1]) then RightSpaces(text, start, end - 1) else end
  }

  /** Dashes, each with the spaces after it, at the start. */
  function LeftDashes(text: string, start: nat, end: nat): (r: nat)
    requires start <= end <= |text| && (start < end ==> !IsSpace(text[start]))
    ensures start <= r <= end && (r < end ==> !Dropped(text[r]))
    ensures forall k :: start <= k < r ==> Dropped(text[k])
    decreases |text| - start
  {
    if start < end && IsDash(text[start]) then LeftDashes(text, LeftSpaces(text, start + 1, end), end) else start
  }

  /** Dashes, each with the spaces before it, at the end. */
  function RightDashes(text: string, start: nat, end: nat): (r: nat)
    requires start <= end <= |text| && (start < end ==> !IsSpace(text[end - 1]))
    ensures start <= r <= end && (start < r ==> !Dropped(text[r - 1]))
    ensures forall k :: r <= k < end ==> Dropped(text[k])
    decreases end
  {
    if start < end && IsDash(text[end - 1]) then RightDashes(text, start, RightSpaces(text, start, end - 1)) else end
  }

  function TrimStart(text: string, start: nat, end: nat): (r: nat)
    requires start <= end <= |text|
    ensures start <= r <= end && (forall k :: start <= k < r ==> Dropped(text[k]))
  {
    var a := LeftSpaces(text, start, end);
    LeftDashes(text, a, RightSpaces(text, a, end))
  }

  function TrimEnd(text: string, start: nat, end: nat): (r: nat)
    requires start <= end <= |text|
    ensures TrimStart(text, start, end) <= r <= end && (forall k :: r <= k < end ==> Dropped(text[k]))
  {
    var a := LeftSpaces(text, start, end);
    RightDashes(text, TrimStart(text, start, end), RightSpaces(text, a, end))
  }

  method LeftSpacesLoop(text: string, from: nat, end: nat) returns (start: nat)
    requires from <= end <= |text|
    ensures start == LeftSpaces(text, from, end)
  {
    start := from;
    while start < end && IsSpace(text[start])
      invariant from <= start <= end && LeftSpaces(text, start, end) == LeftSpaces(text, from, end)
    {
      start := start + 1;
    }
  }

  method RightSpacesLoop(text: string, start: nat, to: nat) returns (end: nat)
    requires start <= to <= |text|
    ensures end == RightSpaces(text, start, to)
  {
    end := to;
    while end > start && IsSpace(text[end - 1])
      invariant start <= end <= to && RightSpaces(text, start, end) == RightSpaces(text, start, to)
    {
      end := end - 1;
    }
  }

  method LeftDashesLoop(text: string, from: nat, end: nat) returns (start: nat)
    requires from <= end <= |text| && (from < end ==> !IsSpace(text[from]))
    ensures start == LeftDashes(text, from, end)
  {
    start := from;
    while start < end && IsDash(text[start])
      invariant from <= start <= end && (start < end ==> !IsSpace(text[start]))
      invariant LeftDashes(text, start, end) == LeftDashes(text, from, end)
    {
      start := LeftSpacesLoop(text, start + 1, end);
    }
  }

  method RightDashesLoop(text: string, start: nat, to: nat) returns (end: nat)
    requires start <= to <= |text| && (start < to ==> !IsSpace(text[to - 1]))
    ensures end == RightDashes(text, start, to)
  {
    end := to;
    while end > start && IsDash(text[end - 1])
      invariant start <= end <= to && (start < end ==> !IsSpace(text[end - 1]))
      invariant RightDashes(text, start, end) == RightDashes(text, start, to)
    {
      end := RightSpacesLoop(text, start, end - 1);
    }
  }

  /** `_trim` */
  method Trim(text: string, from: nat, to: nat) returns (start: nat, end: nat)
    requires from <= to <= |text|
    ensures start == TrimStart(text, from, to) && end == TrimEnd(text, from, to)
  {
    start := LeftSpacesLoop(text, from, to);
    end := RightSpacesLoop(text, start, to);
    start := LeftDashesLoop(text, start, end);
    end := RightDashesLoop(text, start, end);
  }

  /** `_append` */
  function Piece(text: string, voice: Voice, start: nat, end: nat): seq<Segment>
    requires start <= end <= |text|
  {
    var begin, stop := TrimStart(text, start, end), TrimEnd(text, start, end);
    if begin < stop then [Segment(voice, begin, stop)] else []
  }

  /** Dashes in the text, in order, each followed by nothing but spaces up to its content. */
  ghost predicate InOrder(text: string, dashes: seq<Dash>) {
    && (forall i :: 0 <= i < |dashes| ==>
          && dashes[i].start < dashes[i].content <= |text|
          && forall k :: dashes[i].start <= k < dashes[i].content ==> Dropped(text[k]))
    && (forall i, j :: 0 <= i < j < |dashes| ==> dashes[i].content <= dashes[j].start)
  }

  ghost predicate Rising(chosen: seq<nat>, n: nat) {
    && (forall i :: 0 <= i < |chosen| ==> chosen[i] < n)
    && (forall i, j :: 0 <= i < j < |chosen| ==> chosen[i] < chosen[j])
  }

  /** The loop may stand at `cursor` with these confirmed dashes still to come. */
  ghost predicate Ahead(dashes: seq<Dash>, chosen: seq<nat>, cursor: nat)
    requires Rising(chosen, |dashes|)
  {
    chosen != [] ==> cursor <= dashes[chosen[0]].start
  }

  /** `_dash_tiling` from `cursor` on. */
  ghost function TileFrom(text: string, dashes: seq<Dash>, chosen: seq<nat>, state: Voice, cursor: nat,
                          speech: Speech): seq<Segment>
    requires InOrder(text, dashes) && Rising(chosen, |dashes|) && Ahead(dashes, chosen, cursor) && cursor <= |text|
    decreases |chosen|
  {
    if chosen == [] then Piece(text, state, cursor, |text|)
    else
      var dash := dashes[chosen[0]];
      NextAhead(text, dashes, chosen);
      Piece(text, state, cursor, dash.start)
      + TileFrom(text, dashes, chosen[1..], StateAfter(dash, state, speech), dash.content, speech)
  }

  lemma NextAhead(text: string, dashes: seq<Dash>, chosen: seq<nat>)
    requires InOrder(text, dashes) && Rising(chosen, |dashes|) && chosen != []
    ensures Rising(chosen[1..], |dashes|) && Ahead(dashes, chosen[1..], dashes[chosen[0]].content)
  {
    if |chosen| > 1 { assert chosen[0] < chosen[1]; }
  }

  method PieceLoop(text: string, voice: Voice, start: nat, end: nat) returns (pieces: seq<Segment>)
    requires start <= end <= |text|
    ensures pieces == Piece(text, voice, start, end)
  {
    var begin, stop := Trim(text, start, end);
    pieces := if begin < stop then [Segment(voice, begin, stop)] else [];
  }

  method DashTiling(text: string, dashes: seq<Dash>, chosen: seq<nat>, speech: Speech) returns (pieces: seq<Segment>)
    requires InOrder(text, dashes) && Rising(chosen, |dashes|)
    ensures pieces == TileFrom(text, dashes, chosen, Narration, 0, speech)
  {
    var state: Voice := Narration;
    var cursor: nat := 0;
    pieces := [];
    ghost var all := TileFrom(text, dashes, chosen, Narration, 0, speech);
    var i := 0;
    while i < |chosen|
      invariant 0 <= i <= |chosen| && cursor <= |text|
      invariant Rising(chosen[i..], |dashes|) && Ahead(dashes, chosen[i..], cursor)
      invariant pieces + TileFrom(text, dashes, chosen[i..], state, cursor, speech) == all
    {
      var dash := dashes[chosen[i]];
      TileStep(text, dashes, chosen, i, state, cursor, speech, pieces, all);
      var piece := PieceLoop(text, state, cursor, dash.start);
      pieces := pieces + piece;
      cursor := dash.content;
      state := StateAfter(dash, state, speech);
      i := i + 1;
    }
    var last := PieceLoop(text, state, cursor, |text|);
    pieces := pieces + last;
  }

  lemma TileStep(text: string, dashes: seq<Dash>, chosen: seq<nat>, i: nat, state: Voice, cursor: nat,
                 speech: Speech, before: seq<Segment>, all: seq<Segment>)
    requires InOrder(text, dashes) && i < |chosen| && cursor <= |text|
    requires Rising(chosen[i..], |dashes|) && Ahead(dashes, chosen[i..], cursor)
    requires before + TileFrom(text, dashes, chosen[i..], state, cursor, speech) == all
    ensures var dash := dashes[chosen[i]];
            && Rising(chosen[i + 1..], |dashes|) && Ahead(dashes, chosen[i + 1..], dash.content)
            && cursor <= dash.start < dash.content <= |text|
            && (before + Piece(text, state, cursor, dash.start))
               + TileFrom(text, dashes, chosen[i + 1..], StateAfter(dash, state, speech), dash.content, speech) == all
  {
    var left, dash := chosen[i..], dashes[chosen[i]];
    assert left[0] == chosen[i] && left[1..] == chosen[i + 1..];
    NextAhead(text, dashes, left);
    Regroup(before, Piece(text, state, cursor, dash.start),
            TileFrom(text, dashes, left[1..], StateAfter(dash, state, speech), dash.content, speech), all);
  }

  // ---------- the dashes the finder finds ----------

  /** A dash and the spaces up to its content. */
  lemma DashAtShape(text: string, index: nat)
    requires index < |text| && DashAt(text, index).Some?
    ensures var d := DashAt(text, index).value;
            && d.start == index < d.content <= |text| && !IsSpace(text[index])
            && (forall k :: index <= k < d.content ==> Dropped(text[k]))
            && (forall k :: index + 1 <= k < d.content ==> IsSpace(text[k]))
  {
  }

  lemma {:induction false} DashesInOrder(text: string, index: nat)
    requires index <= |text|
    ensures var ds := DashesFrom(text, index);
            InOrder(text, ds) && (ds != [] ==> index <= ds[0].start < |text| && !IsSpace(text[ds[0].start]))
    decreases |text| - index
  {
    if index < |text| {
      var rest := DashesFrom(text, index + 1);
      DashesInOrder(text, index + 1);
      if DashAt(text, index).Some? {
        var d := DashAt(text, index).value;
        DashAtShape(text, index);
        assert rest != [] ==> d.content <= rest[0].start;
        PrependDash(text, d, rest);
        assert DashesFrom(text, index) == [d] + rest;
      } else {
        assert DashesFrom(text, index) == rest;
      }
    }
  }

  lemma PrependDash(text: string, d: Dash, rest: seq<Dash>)
    requires InOrder(text, rest) && d.start < d.content <= |text|
    requires forall k :: d.start <= k < d.content ==> Dropped(text[k])
    requires rest != [] ==> d.content <= rest[0].start
    ensures InOrder(text, [d] + rest)
  {
    var all := [d] + rest;
    forall i, j | 0 <= i < j < |all| ensures all[i].content <= all[j].start {
      if i == 0 && j > 1 { assert rest[0].content <= rest[j - 1].start; }
      if i > 0 { assert rest[i - 1].content <= rest[j - 1].start; }
    }
  }

  /** No dash is ever of the trailing kind: a dash with white space before it is already flanked, so
      the branch that closes dialogue at a trailing dash cannot be taken. */
  lemma {:induction false} NoTrailingDash(text: string, index: nat)
    requires index <= |text|
    ensures forall i :: 0 <= i < |DashesFrom(text, index)| ==> !DashesFrom(text, index)[i].kind.Trailing?
    decreases |text| - index
  {
    if index < |text| { NoTrailingDash(text, index + 1); }
  }

  lemma {:induction false} ConfirmedRises(dashes: seq<Dash>, index: nat, mode: Mode, speech: Speech)
    requires index <= |dashes|
    ensures Rising(ConfirmedFrom(dashes, index, mode, speech), |dashes|)
    ensures ConfirmedFrom(dashes, index, mode, speech) != [] ==> index <= ConfirmedFrom(dashes, index, mode, speech)[0]
    decreases |dashes| - index
  {
    hide Confirm;
    if index < |dashes| {
      ConfirmedRises(dashes, index + 1, Confirm(dashes, index, mode, speech).1, speech);
    }
  }

  // ---------- the two passes agree ----------

  /** The voice `_confirmed_indexes` holds after each dash it confirms. */
  function HeldVoices(dashes: seq<Dash>, index: nat, mode: Mode, speech: Speech): seq<Voice>
    requires index <= |dashes|
    decreases |dashes| - index
  {
    if index == |dashes| then []
    else
      var (yes, next) := Confirm(dashes, index, mode, speech);
      (if yes then [next.voice] else []) + HeldVoices(dashes, index + 1, next, speech)
  }

  /** The voice `_dash_tiling` rebuilds after each of them. */
  function RebuiltVoices(dashes: seq<Dash>, chosen: seq<nat>, state: Voice, speech: Speech): seq<Voice>
    requires forall i :: 0 <= i < |chosen| ==> chosen[i] < |dashes|
  {
    if chosen == [] then []
    else
      var next := StateAfter(dashes[chosen[0]], state, speech);
      [next] + RebuiltVoices(dashes, chosen[1..], next, speech)
  }

  /** One confirmed dash: rebuilding the voice from the dash gives what the confirming pass holds. */
  lemma OneVoiceAgrees(dashes: seq<Dash>, index: nat, mode: Mode, speech: Speech)
    requires index < |dashes|
    ensures var (yes, next) := Confirm(dashes, index, mode, speech);
            if yes then StateAfter(dashes[index], mode.voice, speech) == next.voice else next == mode
  {
  }

  /** The tiler keeps no `aside` flag, yet at every confirmed dash it holds the voice the confirming
      pass held there. */
  lemma {:induction false} VoicesAgree(dashes: seq<Dash>, index: nat, mode: Mode, speech: Speech, chosen: seq<nat>)
    requires index <= |dashes| && chosen == ConfirmedFrom(dashes, index, mode, speech)
    ensures forall i :: 0 <= i < |chosen| ==> chosen[i] < |dashes|
    ensures RebuiltVoices(dashes, chosen, mode.voice, speech) == HeldVoices(dashes, index, mode, speech)
    decreases |dashes| - index
  {
    ConfirmedRises(dashes, index, mode, speech);
    if index < |dashes| {
      var step := Confirm(dashes, index, mode, speech);
      var rest := ConfirmedFrom(dashes, index + 1, step.1, speech);
      OneVoiceAgrees(dashes, index, mode, speech);
      VoicesAgree(dashes, index + 1, step.1, speech, rest);
      if step.0 {
        assert chosen == [index] + rest;
        RebuiltFirst(dashes, index, rest, mode.voice, speech);
      } else {
        assert chosen == rest;
      }
    }
  }

  lemma RebuiltFirst(dashes: seq<Dash>, index: nat, rest: seq<nat>, state: Voice, speech: Speech)
    requires index < |dashes| && forall i :: 0 <= i < |rest| ==> rest[i] < |dashes|
    ensures forall i :: 0 <= i < |[index] + rest| ==> ([index] + rest)[i] < |dashes|
    ensures var next := StateAfter(dashes[index], state, speech);
            RebuiltVoices(dashes, [index] + rest, state, speech) == [next] + RebuiltVoices(dashes, rest, next, speech)
  {
    assert ([index] + rest)[1..] == rest;
  }

  // ---------- the tiling ----------

  /** Segments in order, apart and not empty, with nothing but white space and dashes between them;
      `from` is where the first gap starts. */
  ghost predicate Tiled(text: string, segments: seq<Segment>, from: nat) {
    if segments == [] then from <= |text| && AllDropped(text[from..])
    else
      && from <= segments[0].start < segments[0].end <= |text|
      && AllDropped(text[from..segments[0].start])
      && Tiled(text, segments[1..], segments[0].end)
  }

  lemma {:induction false} WidenGap(text: string, segments: seq<Segment>, from: nat, m: nat)
    requires from <= m <= |text| && AllDropped(text[from..m]) && Tiled(text, segments, m)
    ensures Tiled(text, segments, from)
  {
    if segments == [] {
      assert text[from..] == text[from..m] + text[m..];
    } else {
      var s := segments[0].start;
      assert text[from..s] == text[from..m] + text[m..s];
    }
  }

  lemma PieceTiles(text: string, voice: Voice, start: nat, end: nat, rest: seq<Segment>)
    requires start <= end <= |text| && Tiled(text, rest, end)
    ensures Tiled(text, Piece(text, voice, start, end) + rest, start)
  {
    var a, b := TrimStart(text, start, end), TrimEnd(text, start, end);
    if a < b {
      var piece := [Segment(voice, a, b)];
      WidenGap(text, rest, b, end);
      assert (piece + rest)[1..] == rest;
    } else {
      assert a == b;
      assert Piece(text, voice, start, end) + rest == rest;
      assert forall k :: start <= k < end ==> Dropped(text[k]);
      WidenGap(text, rest, start, end);
    }
  }

  lemma {:induction false} TileFromTiles(text: string, dashes: seq<Dash>, chosen: seq<nat>, state: Voice,
                                         cursor: nat, speech: Speech)
    requires InOrder(text, dashes) && Rising(chosen, |dashes|) && Ahead(dashes, chosen, cursor) && cursor <= |text|
    ensures Tiled(text, TileFrom(text, dashes, chosen, state, cursor, speech), cursor)
    decreases |chosen|
  {
    if chosen == [] {
      assert text[|text|..] == "";
      PieceTiles(text, state, cursor, |text|, []);
      assert Piece(text, state, cursor, |text|) + [] == Piece(text, state, cursor, |text|);
    } else {
      var dash := dashes[chosen[0]];
      NextAhead(text, dashes, chosen);
      var next := StateAfter(dash, state, speech);
      TileFromTiles(text, dashes, chosen[1..], next, dash.content, speech);
      var rest := TileFrom(text, dashes, chosen[1..], next, dash.content, speech);
      WidenGap(text, rest, dash.start, dash.content);
      PieceTiles(text, state, cursor, dash.start, rest);
    }
  }

  ghost function DashSegments(text: string, speech: Speech): seq<Segment> {
    var dashes := DashesFrom(text, 0);
    DashesInOrder(text, 0);
    ConfirmedRises(dashes, 0, START, speech);
    TileFrom(text, dashes, ConfirmedFrom(dashes, 0, START, speech), Narration, 0, speech)
  }

  /** The dash branch of `_analyse`, run as the code runs it. */
  method SegmentByDashes(text: string, speech: Speech) returns (pieces: seq<Segment>)
    ensures pieces == DashSegments(text, speech)
  {
    var dashes := FindDashes(text);
    var chosen := ConfirmedIndexes(dashes, speech);
    DashesInOrder(text, 0);
    ConfirmedRises(dashes, 0, START, speech);
    pieces := DashTiling(text, dashes, chosen, speech);
  }

  ghost predicate Holds(segments: seq<Segment>, i: int, p: int) {
    0 <= i < |segments| && segments[i].start <= p < segments[i].end
  }

  lemma NotInGap(text: string, a: nat, b: nat, p: nat)
    requires a <= b <= |text| && AllDropped(text[a..b]) && p < |text| && !Dropped(text[p])
    ensures !(a <= p < b)
  {
    if a <= p < b { InGap(text, a, b, p); }
  }

  lemma InGap(text: string, a: nat, b: nat, p: nat)
    requires a <= p < b <= |text| && AllDropped(text[a..b])
    ensures Dropped(text[p])
  {
    assert text[a..b][p - a] == text[p];
  }

  lemma {:induction false} TiledHoldsOnce(text: string, segments: seq<Segment>, from: nat, p: nat)
    requires Tiled(text, segments, from) && from <= p < |text| && !Dropped(text[p])
    ensures exists i :: Holds(segments, i, p) && forall j :: Holds(segments, j, p) ==> j == i
  {
    NotInGap(text, from, if segments == [] then |text| else segments[0].start, p);
    if p < segments[0].end {
      LaterStart(text, segments);
      assert Holds(segments, 0, p);
    } else {
      TiledHoldsOnce(text, segments[1..], segments[0].end, p);
      var i :| Holds(segments[1..], i, p) && forall j :: Holds(segments[1..], j, p) ==> j == i;
      assert Holds(segments, i + 1, p);
      forall j | Holds(segments, j, p) ensures j == i + 1 {
        assert j > 0 && Holds(segments[1..], j - 1, p);
      }
    }
  }

  lemma {:induction false} LaterStart(text: string, segments: seq<Segment>)
    requires segments != [] && Tiled(text, segments[1..], segments[0].end)
    ensures forall j :: 0 < j < |segments| ==> segments[0].end <= segments[j].start
  {
    forall j | 0 < j < |segments| ensures segments[0].end <= segments[j].start {
      TiledStart(text, segments[1..], segments[0].end, j - 1);
    }
  }

  lemma {:induction false} TiledStart(text: string, segments: seq<Segment>, from: nat, j: nat)
    requires Tiled(text, segments, from) && j < |segments|
    ensures from <= segments[j].start
    decreases j
  {
    if j > 0 { TiledStart(text, segments[1..], segments[0].end, j - 1); }
  }

  /** Dash tiling is a tiling: every character that is neither white space nor a dash lies in exactly
      one segment, whatever words count as verbs of saying. */
  lemma DashTilingIsExact(text: string, speech: Speech, p: nat)
    requires p < |text| && !Dropped(text[p])
    ensures var segments := DashSegments(text, speech);
            && Tiled(text, segments, 0)
            && exists i :: Holds(segments, i, p) && forall j :: Holds(segments, j, p) ==> j == i
  {
    var dashes := DashesFrom(text, 0);
    DashesInOrder(text, 0);
    ConfirmedRises(dashes, 0, START, speech);
    TileFromTiles(text, dashes, ConfirmedFrom(dashes, 0, START, speech), Narration, 0, speech);
    TiledHoldsOnce(text, DashSegments(text, speech), 0, p);
  }
}
