/** Which dashes of a block switch between narration and dialogue, and whose voice each stretch has, in
    terms of the text and the verbs of saying alone. */
module DialogueProofs {
  import opened Dialogue
  import opened PyText

  // ---------- which marks are dashes ----------

  ghost predicate ColonAt(text: string, c: int, p: nat)
    requires p <= |text|
  {
    0 <= c < p && text[c] == ':' && forall k :: c < k < p ==> IsSpace(text[k])
  }

  /** Nothing but white space stands between a colon and `p`. */
  ghost predicate AfterColon(text: string, p: nat)
    requires p <= |text|
  {
    exists c :: ColonAt(text, c, p)
  }

  ghost predicate AtStart(text: string, p: nat)
    requires p <= |text|
  {
    forall k :: 0 <= k < p ==> IsSpace(text[k])
  }

  /** A hyphen or a dash that white space or the end of the text follows, at the start of the block, behind a
      colon, or behind white space. */
  ghost predicate IsMark(text: string, p: nat)
    requires p < |text|
  {
    && (text[p] == '-' || text[p] == '\U{2013}' || text[p] == '\U{2014}')
    && (p + 1 < |text| ==> IsSpace(text[p + 1]))
    && (AtStart(text, p) || AfterColon(text, p) || IsSpace(text[p - 1]))
  }

  /** What is recorded of the mark at `d.start`. */
  ghost predicate IsDashOf(text: string, d: Dash) {
    && d.start < d.content <= |text| && IsMark(text, d.start)
    && (forall k :: d.start < k < d.content ==> IsSpace(text[k]))
    && (d.content < |text| ==> !IsSpace(text[d.content]))
    && d.kind == if AtStart(text, d.start) then Initial else if AfterColon(text, d.start) then Colon else Flanked
  }

  lemma {:induction false} ColonBeforeMeans(text: string, p: nat)
    requires p <= |text|
    ensures ColonBefore(text, p) <==> AfterColon(text, p)
    decreases p
  {
    if p > 0 {
      if IsSpace(text[p - 1]) {
        ColonBeforeMeans(text, p - 1);
        ColonFurther(text, p);
      } else {
        assert ColonAt(text, p - 1, p) <==> text[p - 1] == ':';
        if AfterColon(text, p) {
          var c :| ColonAt(text, c, p);
          assert c == p - 1;
        }
      }
    }
  }

  lemma ColonFurther(text: string, p: nat)
    requires 0 < p <= |text| && IsSpace(text[p - 1])
    ensures AfterColon(text, p) <==> AfterColon(text, p - 1)
  {
    if AfterColon(text, p) {
      var c :| ColonAt(text, c, p);
      assert ColonAt(text, c, p - 1);
    }
    if AfterColon(text, p - 1) {
      var c :| ColonAt(text, c, p - 1);
      assert ColonAt(text, c, p);
    }
  }

  lemma AtStartMeans(text: string, p: nat)
    requires p <= |text|
    ensures AllSpace(text[..p]) <==> AtStart(text, p)
  {
    if AllSpace(text[..p]) {
      forall k | 0 <= k < p ensures IsSpace(text[k]) { assert text[..p][k] == text[k]; }
    }
  }

  lemma DashAtMeans(text: string, p: nat)
    requires p < |text|
    ensures DashAt(text, p).Some? <==> IsMark(text, p)
    ensures DashAt(text, p).Some? ==> DashAt(text, p).value.start == p && IsDashOf(text, DashAt(text, p).value)
  {
    ColonBeforeMeans(text, p);
    AtStartMeans(text, p);
    var content := SkipSpace(text, p + 1);
    assert p + 1 < |text| && content >= |text| ==> IsSpace(text[p + 1]);
    assert p == 0 ==> AtStart(text, p);
    hide ColonBefore, AfterColon, AtStart, AllSpace, SkipSpace;
  }

  ghost predicate HasDashAt(ds: seq<Dash>, p: nat) {
    exists i :: 0 <= i < |ds| && ds[i].start == p
  }

  /** Exactly the marks from `from` on. */
  ghost predicate AreMarks(text: string, ds: seq<Dash>, from: nat) {
    && (forall i :: 0 <= i < |ds| ==> IsDashOf(text, ds[i]) && ds[i].start >= from)
    && (forall p :: from <= p < |text| && IsMark(text, p) ==> HasDashAt(ds, p))
  }

  lemma NoMarkHere(text: string, ds: seq<Dash>, from: nat)
    requires from < |text| && !IsMark(text, from) && AreMarks(text, ds, from + 1)
    ensures AreMarks(text, ds, from)
  {
    hide IsMark, IsDashOf;
  }

  lemma MarkHere(text: string, d: Dash, ds: seq<Dash>, from: nat)
    requires from < |text| && d.start == from && IsDashOf(text, d) && AreMarks(text, ds, from + 1)
    ensures AreMarks(text, [d] + ds, from)
  {
    hide IsMark, IsDashOf;
    var all := [d] + ds;
    assert all[0] == d;
    forall p | from <= p < |text| && IsMark(text, p) ensures HasDashAt(all, p) {
      if p != from {
        assert HasDashAt(ds, p);
        var i :| 0 <= i < |ds| && ds[i].start == p;
        assert all[1 + i] == ds[i];
      }
    }
  }

  /** The dashes that are found are exactly the marks, each recorded as it stands. */
  lemma {:induction false} DashesAreMarks(text: string, from: nat)
    requires from <= |text|
    ensures AreMarks(text, DashesFrom(text, from), from)
    decreases |text| - from
  {
    if from < |text| {
      DashAtMeans(text, from);
      DashesAreMarks(text, from + 1);
      hide DashAt, IsMark, IsDashOf, AreMarks;
      var rest := DashesFrom(text, from + 1);
      if DashAt(text, from).Some? {
        MarkHere(text, DashAt(text, from).value, rest, from);
      } else {
        NoMarkHere(text, rest, from);
        assert [] + rest == rest;
      }
    }
  }

  // ---------- which dashes switch ----------

  /** A dash that opens dialogue whatever stands around it. */
  ghost predicate Opens(dashes: seq<Dash>, k: int) {
    0 <= k < |dashes| && (dashes[k].kind.Initial? || dashes[k].kind.Colon?)
  }

  /** A dash in front of a verb of saying. */
  ghost predicate Says(dashes: seq<Dash>, k: int, speech: Speech) {
    0 <= k < |dashes| && dashes[k].kind.Flanked? && speech(dashes[k].content)
  }

  ghost predicate NothingBefore(dashes: seq<Dash>, k: int, speech: Speech) {
    forall j :: 0 <= j < k ==> !Opens(dashes, j) && !Says(dashes, j, speech)
  }

  /** The dashes that switch: those that open dialogue, those in front of a verb of saying, the one right
      behind such an aside, and, when none of these came before, the one right in front of it. */
  ghost predicate Switches(dashes: seq<Dash>, k: int, speech: Speech) {
    && 0 <= k < |dashes|
    && (|| Opens(dashes, k)
        || Says(dashes, k, speech)
        || (dashes[k].kind.Flanked?
            && (Says(dashes, k - 1, speech) || (Says(dashes, k + 1, speech) && NothingBefore(dashes, k, speech)))))
  }

  /** The mode of the confirming pass before dash `k`. */
  ghost function ModeAt(dashes: seq<Dash>, k: nat, speech: Speech): Mode {
    if Says(dashes, k - 1, speech) then Mode(Narration, true)
    else if NothingBefore(dashes, k, speech) && !Switches(dashes, k - 1, speech) then START
    else Mode(Voice.Dialogue, false)
  }

  ghost predicate NoneTrails(dashes: seq<Dash>) {
    forall k :: 0 <= k < |dashes| ==> !dashes[k].kind.Trailing?
  }

  lemma ConfirmMeans(dashes: seq<Dash>, k: nat, speech: Speech)
    requires NoneTrails(dashes) && k < |dashes|
    ensures var (yes, next) := Confirm(dashes, k, ModeAt(dashes, k, speech), speech);
            (yes <==> Switches(dashes, k, speech)) && next == ModeAt(dashes, k + 1, speech)
  {
    var before, after := NothingBefore(dashes, k, speech), NothingBefore(dashes, k + 1, speech);
    assert after <==> before && !Opens(dashes, k) && !Says(dashes, k, speech);
    assert before ==> !Says(dashes, k - 1, speech);
    assert before && Switches(dashes, k - 1, speech) ==> Says(dashes, k, speech);
    hide NothingBefore;
  }

  lemma {:induction false} ConfirmedFromAre(dashes: seq<Dash>, from: nat, speech: Speech)
    requires NoneTrails(dashes) && from <= |dashes|
    ensures forall k :: k in ConfirmedFrom(dashes, from, ModeAt(dashes, from, speech), speech) <==>
                        k >= from && Switches(dashes, k, speech)
    decreases |dashes| - from
  {
    if from < |dashes| {
      ConfirmMeans(dashes, from, speech);
      ConfirmedFromAre(dashes, from + 1, speech);
      hide Confirm, ModeAt, Switches, NoneTrails;
      var rest := ConfirmedFrom(dashes, from + 1, ModeAt(dashes, from + 1, speech), speech);
      var here := if Switches(dashes, from, speech) then [from] else [];
      assert ConfirmedFrom(dashes, from, ModeAt(dashes, from, speech), speech) == here + rest;
    } else {
      assert forall k :: Switches(dashes, k, speech) ==> k < |dashes|;
    }
  }

  /** The pass confirms exactly the dashes that switch. */
  lemma ConfirmedAre(dashes: seq<Dash>, speech: Speech)
    requires NoneTrails(dashes)
    ensures forall k :: k in ConfirmedFrom(dashes, 0, START, speech) <==> k >= 0 && Switches(dashes, k, speech)
  {
    assert ModeAt(dashes, 0, speech) == START;
    ConfirmedFromAre(dashes, 0, speech);
  }

  // ---------- whose voice a stretch has ----------

  /** The voice behind a dash that switches. */
  ghost function VoiceBehind(dashes: seq<Dash>, k: int, speech: Speech): Voice {
    if Says(dashes, k, speech) then Narration else Voice.Dialogue
  }

  /** `k` is the last dash of `chosen` before `p`. */
  ghost predicate LastBefore(dashes: seq<Dash>, chosen: seq<nat>, k: int, p: nat) {
    && 0 <= k < |dashes| && k in chosen && dashes[k].start < p
    && forall j :: j in chosen && j < |dashes| && dashes[j].start < p ==> j <= k
  }

  ghost predicate NoneBefore(dashes: seq<Dash>, chosen: seq<nat>, p: nat) {
    forall j :: j in chosen && j < |dashes| ==> dashes[j].start >= p
  }

  /** The segment has the voice of the last dash before it, and of the start if there is none; no dash of
      `chosen` is in it, and neither white space nor a dash stands at its ends. */
  ghost predicate RightVoice(text: string, dashes: seq<Dash>, chosen: seq<nat>, state: Voice, speech: Speech,
                             s: Segment) {
    && s.start < s.end <= |text| && !Dropped(text[s.start]) && !Dropped(text[s.end - 1])
    && (NoneBefore(dashes, chosen, s.start) ==> s.voice == state)
    && (forall k :: LastBefore(dashes, chosen, k, s.start) ==> s.voice == VoiceBehind(dashes, k, speech))
    && (forall k :: k in chosen && k < |dashes| ==> dashes[k].start >= s.end || dashes[k].content <= s.start)
  }

  lemma PieceIsTrimmed(text: string, voice: Voice, start: nat, end: nat, s: Segment)
    requires start <= end <= |text| && s in Piece(text, voice, start, end)
    ensures s.voice == voice && start <= s.start < s.end <= end
    ensures !Dropped(text[s.start]) && !Dropped(text[s.end - 1])
  {
  }

  lemma {:induction false} TileVoices(text: string, dashes: seq<Dash>, chosen: seq<nat>, state: Voice, cursor: nat,
                                      speech: Speech, s: Segment)
    requires InOrder(text, dashes) && Rising(chosen, |dashes|) && Ahead(dashes, chosen, cursor) && cursor <= |text|
    requires NoneTrails(dashes) && s in TileFrom(text, dashes, chosen, state, cursor, speech)
    ensures cursor <= s.start && RightVoice(text, dashes, chosen, state, speech, s)
    decreases |chosen|
  {
    if chosen == [] {
      PieceIsTrimmed(text, state, cursor, |text|, s);
    } else {
      var c, tail := chosen[0], chosen[1..];
      var dash := dashes[c];
      NextAhead(text, dashes, chosen);
      var next := StateAfter(dash, state, speech);
      assert next == VoiceBehind(dashes, c, speech);
      hide RightVoice, Piece, StateAfter, VoiceBehind, Rising, Ahead;
      if s in Piece(text, state, cursor, dash.start) {
        PieceIsTrimmed(text, state, cursor, dash.start, s);
        FirstVoice(text, dashes, chosen, state, speech, s);
      } else {
        TileVoices(text, dashes, tail, next, dash.content, speech, s);
        LaterVoice(text, dashes, chosen, state, next, speech, s);
      }
    }
  }

  lemma FirstVoice(text: string, dashes: seq<Dash>, chosen: seq<nat>, state: Voice, speech: Speech, s: Segment)
    requires chosen != [] && Rising(chosen, |dashes|) && InOrder(text, dashes)
    requires s.start < s.end <= |text| && !Dropped(text[s.start]) && !Dropped(text[s.end - 1]) && s.voice == state
    requires s.end <= dashes[chosen[0]].start
    ensures RightVoice(text, dashes, chosen, state, speech, s)
  {
    hide Dropped;
    forall j | j in chosen ensures j < |dashes| && dashes[j].start >= s.end {
      var i :| 0 <= i < |chosen| && chosen[i] == j;
      assert i > 0 ==> chosen[0] < chosen[i];
    }
  }

  lemma LaterVoice(text: string, dashes: seq<Dash>, chosen: seq<nat>, state: Voice, next: Voice, speech: Speech,
                   s: Segment)
    requires chosen != [] && Rising(chosen, |dashes|) && next == VoiceBehind(dashes, chosen[0], speech)
    requires RightVoice(text, dashes, chosen[1..], next, speech, s)
    requires dashes[chosen[0]].start < dashes[chosen[0]].content <= s.start
    ensures RightVoice(text, dashes, chosen, state, speech, s)
  {
    var c, tail := chosen[0], chosen[1..];
    assert forall j :: j in chosen <==> j == c || j in tail by { assert chosen == [c] + tail; }
    assert forall j :: j in tail ==> c < j < |dashes|;
    hide VoiceBehind;
    forall k | LastBefore(dashes, chosen, k, s.start) ensures s.voice == VoiceBehind(dashes, k, speech) {
      if k == c {
        assert NoneBefore(dashes, tail, s.start);
      } else {
        assert LastBefore(dashes, tail, k, s.start);
      }
    }
  }

  ghost predicate LastSwitch(dashes: seq<Dash>, k: int, p: nat, speech: Speech) {
    && Switches(dashes, k, speech) && dashes[k].start < p
    && forall j :: Switches(dashes, j, speech) && dashes[j].start < p ==> j <= k
  }

  /** The segment lies between two neighbouring switches and has the voice of the one before it: narration
      behind a dash in front of a verb of saying, dialogue behind any other, and narration when there is
      none. */
  ghost predicate VoicedBySwitches(dashes: seq<Dash>, s: Segment, speech: Speech) {
    && (forall k :: Switches(dashes, k, speech) ==> dashes[k].start >= s.end || dashes[k].content <= s.start)
    && ((forall k :: Switches(dashes, k, speech) ==> dashes[k].start >= s.start) ==> s.voice.Narration?)
    && (forall k :: LastSwitch(dashes, k, s.start, speech) ==> (s.voice.Narration? <==> Says(dashes, k, speech)))
  }

  /** Every segment is trimmed and has the voice the switches give it. */
  lemma VoicesAreRight(text: string, speech: Speech, s: Segment)
    requires s in DashSegments(text, speech)
    ensures s.start < s.end <= |text| && !Dropped(text[s.start]) && !Dropped(text[s.end - 1])
    ensures VoicedBySwitches(DashesFrom(text, 0), s, speech)
  {
    hide DashSegments, ConfirmedFrom, DashesFrom, RightVoice, AreSwitches, VoicedBySwitches, Dropped, IsSpace, IsDash;
    var dashes := DashesFrom(text, 0);
    SegmentVoice(text, speech, s);
    ConfirmedSwitch(text, speech);
    FromChosen(text, dashes, ConfirmedFrom(dashes, 0, START, speech), speech, s);
  }

  lemma SegmentVoice(text: string, speech: Speech, s: Segment)
    requires s in DashSegments(text, speech)
    ensures var dashes := DashesFrom(text, 0);
            RightVoice(text, dashes, ConfirmedFrom(dashes, 0, START, speech), Narration, speech, s)
  {
    var dashes := DashesFrom(text, 0);
    NoTrailingDash(text, 0);
    DashesInOrder(text, 0);
    ConfirmedRises(dashes, 0, START, speech);
    hide RightVoice, ConfirmedFrom, TileFrom, DashesFrom, InOrder;
    TileVoices(text, dashes, ConfirmedFrom(dashes, 0, START, speech), Narration, 0, speech, s);
  }

  ghost predicate AreSwitches(dashes: seq<Dash>, chosen: seq<nat>, speech: Speech) {
    forall k :: k in chosen <==> 0 <= k < |dashes| && Switches(dashes, k, speech)
  }

  lemma ConfirmedSwitch(text: string, speech: Speech)
    ensures var dashes := DashesFrom(text, 0); AreSwitches(dashes, ConfirmedFrom(dashes, 0, START, speech), speech)
  {
    var dashes := DashesFrom(text, 0);
    NoTrailingDash(text, 0);
    ConfirmedAre(dashes, speech);
    assert forall k :: Switches(dashes, k, speech) ==> 0 <= k < |dashes|;
    hide ConfirmedFrom, DashesFrom, Switches;
  }

  lemma FromChosen(text: string, dashes: seq<Dash>, chosen: seq<nat>, speech: Speech, s: Segment)
    requires RightVoice(text, dashes, chosen, Narration, speech, s)
    requires AreSwitches(dashes, chosen, speech)
    ensures s.start < s.end <= |text| && !Dropped(text[s.start]) && !Dropped(text[s.end - 1])
    ensures VoicedBySwitches(dashes, s, speech)
  {
    assert forall k :: Switches(dashes, k, speech) ==> 0 <= k < |dashes|;
    hide Switches, Says, Dropped;
    if forall k :: Switches(dashes, k, speech) ==> dashes[k].start >= s.start {
      assert NoneBefore(dashes, chosen, s.start);
    }
    forall k | LastSwitch(dashes, k, s.start, speech) ensures s.voice.Narration? <==> Says(dashes, k, speech) {
      assert LastBefore(dashes, chosen, k, s.start);
      assert s.voice == VoiceBehind(dashes, k, speech);
    }
  }

  lemma HasMember(chosen: seq<nat>)
    ensures chosen != [] ==> exists k :: k in chosen
  {
    if chosen != [] { assert chosen[0] in chosen; }
  }

  /** Without a dash at the start or behind a colon, and without one in front of a verb of saying, nothing
      is confirmed and all of the block is narration. */
  lemma AllNarration(text: string, speech: Speech)
    requires forall k :: 0 <= k < |DashesFrom(text, 0)| ==>
               !Opens(DashesFrom(text, 0), k) && !Says(DashesFrom(text, 0), k, speech)
    ensures ConfirmedFrom(DashesFrom(text, 0), 0, START, speech) == []
    ensures forall s :: s in DashSegments(text, speech) ==> s.voice.Narration?
  {
    var dashes := DashesFrom(text, 0);
    NoTrailingDash(text, 0);
    ConfirmedAre(dashes, speech);
    forall k ensures !Switches(dashes, k, speech) {
      assert !Says(dashes, k - 1, speech) && !Says(dashes, k + 1, speech);
    }
    HasMember(ConfirmedFrom(dashes, 0, START, speech));
    forall s | s in DashSegments(text, speech) ensures s.voice.Narration? {
      VoicesAreRight(text, speech, s);
    }
  }
}
