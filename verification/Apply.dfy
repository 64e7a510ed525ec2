/** `text/apply.py`: accepted suggestions become rewritten text plus spans. Rewrites are carried
    out from right to left while every other suggestion is moved along; the spec is the
    simultaneous substitution of module `Substitution`. */
module Apply {
  import opened PyText
  import opened Sorting

  datatype Category =
    | ForeignWord | Acronym | Toponym | Numeral | OrdinalHeading | DictHit
    | DialogueSplit | SpeakerGender | ConversionArtifact | SkipSpan | OtherCategory

  datatype SpanKind = Dialogue | Narration | Pause | Pronunciation | Skip

  datatype Mark = Mark(kind: SpanKind, start: int, end: int)

  datatype RawSuggestion = Suggestion(
    kind: Category, start: nat, end: nat, original: string, replacement: string,
    segments: seq<Mark>, confidence: real, speaker: string)

  /** `Suggestion.__post_init__` refuses an empty or inverted span. */
  type Suggestion = s: RawSuggestion | s.start < s.end
    witness Suggestion(OtherCategory, 0, 1, "", "", [], 0.0, "")

  datatype AppliedSpan = AppliedSpan(
    kind: SpanKind, start: int, end: int,
    spoken: string, gender: string, confidence: real, speaker: string)

  /** `Raised` is the `ValueError` of `Suggestion.__post_init__`: a suggestion whose span became
      empty cannot be built. */
  datatype ApplyResult =
    | Applied(text: string, spans: seq<AppliedSpan>, conflicts: seq<Suggestion>)
    | Raised

  datatype Shifted = Kept(item: Suggestion) | Dropped | Raises

  function Plain(kind: SpanKind, start: int, end: int): AppliedSpan {
    AppliedSpan(kind, start, end, "", "", 0.0, "")
  }

  predicate IsPronunciation(c: Category) {
    c.ForeignWord? || c.Acronym? || c.Toponym? || c.Numeral? || c.OrdinalHeading? || c.DictHit?
  }

  // ---------- moving one suggestion past one rewrite ----------

  /** A mark keeps clear of the rewritten stretch [start, end). */
  predicate Clear(m: Mark, start: nat, end: nat) {
    m.end <= start || m.start >= end
  }

  function MovedMark(m: Mark, start: nat, delta: int): Mark {
    if m.end <= start then m else m.(start := m.start + delta, end := m.end + delta)
  }

  function MovedMarks(ms: seq<Mark>, start: nat, delta: int): seq<Mark> {
    seq(|ms|, i requires 0 <= i < |ms| => MovedMark(ms[i], start, delta))
  }

  function SlidMarks(ms: seq<Mark>, delta: int): seq<Mark> {
    seq(|ms|, i requires 0 <= i < |ms| =>
      ms[i].(start := ms[i].start + delta, end := ms[i].end + delta))
  }

  function RewriteInside(item: Suggestion, start: nat, end: nat, text: string): Shifted
    requires item.start <= start < end <= item.end
  {
    var delta := |text| - (end - start);
    if exists m :: m in item.segments && !Clear(m, start, end) then Dropped
    else if item.end + delta <= item.start then Raises
    else Kept(item.(
      end := item.end + delta,
      original := Slice(item.original, 0, start - item.start) + text
                + Slice(item.original, end - item.start, |item.original|),
      segments := MovedMarks(item.segments, start, delta)))
  }

  function ShiftSuggestion(item: Suggestion, start: nat, end: nat, text: string): Shifted
    requires start < end
  {
    var delta := |text| - (end - start);
    if item.end <= start then Kept(item)
    else if item.start >= end then
      Kept(item.(start := item.start + delta, end := item.end + delta,
                 segments := SlidMarks(item.segments, delta)))
    else if item.start <= start && item.end >= end then RewriteInside(item, start, end, text)
    else Dropped
  }

  /** `_rewrite_inside`: leave at the first mark the rewrite touches, else collect the moved marks. */
  method RewriteInsideLoop(item: Suggestion, start: nat, end: nat, text: string) returns (r: Shifted)
    requires item.start <= start < end <= item.end
    ensures r == RewriteInside(item, start, end, text)
  {
    var delta := |text| - (end - start);
    var original := Slice(item.original, 0, start - item.start) + text
                  + Slice(item.original, end - item.start, |item.original|);
    var moved: seq<Mark> := [];
    var i := 0;
    while i < |item.segments|
      invariant 0 <= i <= |item.segments|
      invariant forall j :: 0 <= j < i ==> Clear(item.segments[j], start, end)
      invariant moved == MovedMarks(item.segments[..i], start, delta)
    {
      var mark := item.segments[i];
      if mark.end <= start {
        moved := moved + [mark];
      } else if mark.start >= end {
        moved := moved + [mark.(start := mark.start + delta, end := mark.end + delta)];
      } else {
        assert mark in item.segments && !Clear(mark, start, end);
        return Dropped;
      }
      i := i + 1;
    }
    assert item.segments[..i] == item.segments;
    assert forall m :: m in item.segments ==> Clear(m, start, end);
    if item.end + delta <= item.start {
      return Raises;
    }
    r := Kept(item.(end := item.end + delta, original := original, segments := moved));
  }

  // ---------- the right-to-left pass ----------

  /** `current[:a] + text + current[b:]` */
  function Splice(current: string, a: nat, b: nat, text: string): string {
    Slice(current, 0, a) + text + Slice(current, b, |current|)
  }

  function KeptPast(os: seq<Suggestion>, r: Suggestion): seq<Suggestion> {
    if os == [] then [] else
      match ShiftSuggestion(os[0], r.start, r.end, r.replacement)
      case Kept(item) => [item] + KeptPast(os[1..], r)
      case _ => KeptPast(os[1..], r)
  }

  function DroppedPast(os: seq<Suggestion>, r: Suggestion): seq<Suggestion> {
    if os == [] then [] else
      match ShiftSuggestion(os[0], r.start, r.end, r.replacement)
      case Dropped => [os[0]] + DroppedPast(os[1..], r)
      case _ => DroppedPast(os[1..], r)
  }

  predicate RaisesPast(os: seq<Suggestion>, r: Suggestion) {
    exists o :: o in os && ShiftSuggestion(o, r.start, r.end, r.replacement).Raises?
  }

  datatype Pass = Pass(text: string, others: seq<Suggestion>, conflicts: seq<Suggestion>) | PassRaised

  function RewritePass(current: string, rs: seq<Suggestion>, others: seq<Suggestion>,
                       conflicts: seq<Suggestion>): Pass
    decreases |rs|
  {
    if rs == [] then Pass(current, others, conflicts)
    else if Slice(current, rs[0].start, rs[0].end) != rs[0].original then
      RewritePass(current, rs[1..], others, conflicts + [rs[0]])
    else if RaisesPast(others, rs[0]) then PassRaised
    else RewritePass(Splice(current, rs[0].start, rs[0].end, rs[0].replacement), rs[1..],
                     KeptPast(others, rs[0]), conflicts + DroppedPast(others, rs[0]))
  }

  // ---------- from suggestions to spans ----------

  function DialogueSpans(ms: seq<Mark>, length: nat): seq<AppliedSpan> {
    if ms == [] then []
    else if 0 <= ms[0].start <= ms[0].end <= length && (ms[0].kind.Narration? || ms[0].kind.Dialogue?)
    then [Plain(ms[0].kind, ms[0].start, ms[0].end)] + DialogueSpans(ms[1..], length)
    else DialogueSpans(ms[1..], length)
  }

  predicate Applies(text: string, s: Suggestion) {
    && Slice(text, s.start, s.end) == s.original
    && (IsPronunciation(s.kind) || (s.kind.DialogueSplit? && s.segments != [])
        || s.kind.SkipSpan? || s.kind.SpeakerGender?)
  }

  function SpansOf(text: string, s: Suggestion): seq<AppliedSpan> {
    if !Applies(text, s) then []
    else if IsPronunciation(s.kind) then
      [Plain(Pronunciation, s.start, s.end).(spoken := s.replacement)]
    else if s.kind.DialogueSplit? then DialogueSpans(s.segments, |text|)
    else if s.kind.SkipSpan? then [Plain(Skip, s.start, s.end)]
    else []
  }

  function AllSpans(text: string, ss: seq<Suggestion>): seq<AppliedSpan> {
    if ss == [] then [] else SpansOf(text, ss[0]) + AllSpans(text, ss[1..])
  }

  function Genders(text: string, ss: seq<Suggestion>): seq<Suggestion> {
    if ss == [] then []
    else if Applies(text, ss[0]) && ss[0].kind.SpeakerGender? then [ss[0]] + Genders(text, ss[1..])
    else Genders(text, ss[1..])
  }

  function Unapplied(text: string, ss: seq<Suggestion>): seq<Suggestion> {
    if ss == [] then []
    else if Applies(text, ss[0]) then Unapplied(text, ss[1..])
    else [ss[0]] + Unapplied(text, ss[1..])
  }

  /** The first gender mark on exactly this span wins. */
  function PaintOne(span: AppliedSpan, genders: seq<Suggestion>): AppliedSpan {
    if !span.kind.Dialogue? || genders == [] then span
    else if genders[0].start == span.start && genders[0].end == span.end then
      span.(gender := genders[0].replacement, confidence := genders[0].confidence,
            speaker := genders[0].speaker)
    else PaintOne(span, genders[1..])
  }

  function Painted(spans: seq<AppliedSpan>, genders: seq<Suggestion>): seq<AppliedSpan> {
    if spans == [] then [] else [PaintOne(spans[0], genders)] + Painted(spans[1..], genders)
  }

  function Rank(k: SpanKind): nat {
    match k case Dialogue => 0 case Narration => 1 case Pause => 2 case Pronunciation => 3 case Skip => 4
  }

  predicate SpanOrder(a: AppliedSpan, b: AppliedSpan) {
    a.start < b.start ||
    (a.start == b.start && (a.end < b.end || (a.end == b.end && Rank(a.kind) <= Rank(b.kind))))
  }

  predicate StartsLater(a: Suggestion, b: Suggestion) {
    a.start >= b.start
  }

  function Filter(ss: seq<Suggestion>, rewrites: bool): seq<Suggestion> {
    if ss == [] then []
    else if ss[0].kind.ConversionArtifact? == rewrites then [ss[0]] + Filter(ss[1..], rewrites)
    else Filter(ss[1..], rewrites)
  }

  lemma {:induction false} FilterIn(ss: seq<Suggestion>, rewrites: bool)
    ensures forall s :: s in Filter(ss, rewrites) <==> s in ss && s.kind.ConversionArtifact? == rewrites
  {
    if ss != [] { FilterIn(ss[1..], rewrites); }
  }

  /** The rewrites of a batch, last start first. */
  function LastFirst(ss: seq<Suggestion>): seq<Suggestion> {
    Sort<Suggestion>(Filter(ss, true), StartsLater)
  }

  function PassOf(text: string, ss: seq<Suggestion>): Pass
  {
    RewritePass(text, LastFirst(ss), Filter(ss, false), [])
  }

  function Applying(text: string, ss: seq<Suggestion>): ApplyResult
  {
    match PassOf(text, ss)
    case PassRaised => Raised
    case Pass(current, others, conflicts) =>
      Applied(current,
              Sort(Painted(AllSpans(current, others), Genders(current, others)), SpanOrder),
              conflicts + Unapplied(current, others))
  }

  method DialogueSpansLoop(item: Suggestion, length: nat) returns (spans: seq<AppliedSpan>)
    ensures spans == DialogueSpans(item.segments, length)
  {
    spans := [];
    var i := 0;
    while i < |item.segments|
      invariant 0 <= i <= |item.segments|
      invariant spans + DialogueSpans(item.segments[i..], length) == DialogueSpans(item.segments, length)
    {
      var mark := item.segments[i];
      if 0 <= mark.start <= mark.end <= length && (mark.kind.Narration? || mark.kind.Dialogue?) {
        spans := spans + [Plain(mark.kind, mark.start, mark.end)];
      }
      i := i + 1;
    }
  }

  method PaintGender(spans: seq<AppliedSpan>, genders: seq<Suggestion>) returns (painted: seq<AppliedSpan>)
    ensures painted == Painted(spans, genders)
  {
    hide PaintOne;
    painted := [];
    ghost var all := Painted(spans, genders);
    var i := 0;
    while i < |spans|
      invariant 0 <= i <= |spans|
      invariant painted + Painted(spans[i..], genders) == all
    {
      assert spans[i..][0] == spans[i] && spans[i..][1..] == spans[i + 1..];
      Regroup(painted, [PaintOne(spans[i], genders)], Painted(spans[i + 1..], genders), all);
      painted := painted + [PaintOne(spans[i], genders)];
      i := i + 1;
    }
  }

  /** The inner loop over the suggestions that are not rewrites. */
  method ShiftOthers(others: seq<Suggestion>, r: Suggestion, conflicts: seq<Suggestion>)
    returns (raised: bool, shifted: seq<Suggestion>, conflicts': seq<Suggestion>)
    ensures raised <==> RaisesPast(others, r)
    ensures !raised ==> shifted == KeptPast(others, r) && conflicts' == conflicts + DroppedPast(others, r)
  {
    hide KeptPast, DroppedPast, ShiftSuggestion;
    shifted, conflicts' := [], conflicts;
    raised := false;
    ghost var kept, dropped := KeptPast(others, r), conflicts + DroppedPast(others, r);
    var j := 0;
    assert others[0..] == others;
    while j < |others|
      invariant 0 <= j <= |others|
      invariant forall k :: 0 <= k < j ==>
                  !ShiftSuggestion(others[k], r.start, r.end, r.replacement).Raises?
      invariant shifted + KeptPast(others[j..], r) == kept
      invariant conflicts' + DroppedPast(others[j..], r) == dropped
    {
      var other := others[j];
      PastStep(others, j, r);
      var moved;
      if other.end > r.start && other.start < r.end && other.start <= r.start && other.end >= r.end {
        InsideIsShifted(other, r);
        moved := RewriteInsideLoop(other, r.start, r.end, r.replacement);
      } else {
        moved := ShiftSuggestion(other, r.start, r.end, r.replacement);
      }
      match moved {
        case Kept(item) =>
          Regroup(shifted, [item], KeptPast(others[j + 1..], r), kept);
          shifted := shifted + [item];
        case Dropped =>
          Regroup(conflicts', [other], DroppedPast(others[j + 1..], r), dropped);
          conflicts' := conflicts' + [other];
        case Raises =>
          assert other in others;
          return true, [], [];
      }
      j := j + 1;
    }
    NothingPast(r);
    assert others[j..] == [];
    assert shifted + [] == shifted && conflicts' + [] == conflicts';
  }

  lemma InsideIsShifted(o: Suggestion, r: Suggestion)
    requires o.end > r.start && o.start < r.end && o.start <= r.start && o.end >= r.end
    ensures ShiftSuggestion(o, r.start, r.end, r.replacement) == RewriteInside(o, r.start, r.end, r.replacement)
  {
  }

  lemma NothingPast(r: Suggestion)
    ensures KeptPast([], r) == [] && DroppedPast([], r) == []
  {
  }

  lemma PastStep(os: seq<Suggestion>, j: nat, r: Suggestion)
    requires j < |os|
    ensures var moved := ShiftSuggestion(os[j], r.start, r.end, r.replacement);
            && KeptPast(os[j..], r)
               == (if moved.Kept? then [moved.item] + KeptPast(os[j + 1..], r) else KeptPast(os[j + 1..], r))
            && DroppedPast(os[j..], r) == (if moved.Dropped? then [os[j]] + DroppedPast(os[j + 1..], r)
                                           else DroppedPast(os[j + 1..], r))
  {
    hide ShiftSuggestion;
    assert os[j..][0] == os[j] && os[j..][1..] == os[j + 1..];
  }

  /** The loop over the rewrites, last start first. */
  method RewriteLoop(text: string, rewrites: seq<Suggestion>, untouched: seq<Suggestion>)
    returns (pass: Pass)
    ensures pass == RewritePass(text, rewrites, untouched, [])
  {
    var current, others := text, untouched;
    var conflicts: seq<Suggestion> := [];
    var i := 0;
    while i < |rewrites|
      invariant 0 <= i <= |rewrites|
      invariant RewritePass(current, rewrites[i..], others, conflicts)
             == RewritePass(text, rewrites, untouched, [])
    {
      var item := rewrites[i];
      assert rewrites[i..][0] == item && rewrites[i..][1..] == rewrites[i + 1..];
      if Slice(current, item.start, item.end) != item.original {
        conflicts := conflicts + [item];
      } else {
        var raised;
        raised, others, conflicts := ShiftOthers(others, item, conflicts);
        if raised {
          return PassRaised;
        }
        current := Splice(current, item.start, item.end, item.replacement);
      }
      i := i + 1;
    }
    pass := Pass(current, others, conflicts);
  }

  function GenderOf(text: string, s: Suggestion): seq<Suggestion> {
    if Applies(text, s) && s.kind.SpeakerGender? then [s] else []
  }

  function ConflictOf(text: string, s: Suggestion): seq<Suggestion> {
    if Applies(text, s) then [] else [s]
  }

  lemma AllSpansStep(text: string, ss: seq<Suggestion>)
    requires ss != []
    ensures AllSpans(text, ss) == SpansOf(text, ss[0]) + AllSpans(text, ss[1..])
  {
  }

  lemma GendersStep(text: string, ss: seq<Suggestion>)
    requires ss != []
    ensures Genders(text, ss) == GenderOf(text, ss[0]) + Genders(text, ss[1..])
  {
  }

  lemma UnappliedStep(text: string, ss: seq<Suggestion>)
    requires ss != []
    ensures Unapplied(text, ss) == ConflictOf(text, ss[0]) + Unapplied(text, ss[1..])
  {
  }

  /** The loop that turns what is left into spans, gender marks and conflicts. */
  method Classify(current: string, others: seq<Suggestion>)
    returns (spans: seq<AppliedSpan>, genders: seq<Suggestion>, conflicts: seq<Suggestion>)
    ensures spans == AllSpans(current, others)
    ensures genders == Genders(current, others)
    ensures conflicts == Unapplied(current, others)
  {
    spans, genders, conflicts := [], [], [];
    var i := 0;
    while i < |others|
      invariant 0 <= i <= |others|
      invariant spans + AllSpans(current, others[i..]) == AllSpans(current, others)
      invariant genders + Genders(current, others[i..]) == Genders(current, others)
      invariant conflicts + Unapplied(current, others[i..]) == Unapplied(current, others)
    {
      var item := others[i];
      ghost var left, rest := others[i..], others[i + 1..];
      assert left[0] == item && left[1..] == rest;
      AllSpansStep(current, left);
      GendersStep(current, left);
      UnappliedStep(current, left);
      Regroup(spans, SpansOf(current, item), AllSpans(current, rest), AllSpans(current, others));
      Regroup(genders, GenderOf(current, item), Genders(current, rest), Genders(current, others));
      Regroup(conflicts, ConflictOf(current, item), Unapplied(current, rest), Unapplied(current, others));
      ghost var s0, g0, c0 := spans, genders, conflicts;
      if Slice(current, item.start, item.end) != item.original {
        conflicts := conflicts + [item];
      } else if IsPronunciation(item.kind) {
        spans := spans + [Plain(Pronunciation, item.start, item.end).(spoken := item.replacement)];
      } else if item.kind.DialogueSplit? && item.segments != [] {
        var found := DialogueSpansLoop(item, |current|);
        spans := spans + found;
      } else if item.kind.SkipSpan? {
        spans := spans + [Plain(Skip, item.start, item.end)];
      } else if item.kind.SpeakerGender? {
        genders := genders + [item];
      } else {
        conflicts := conflicts + [item];
      }
      assert spans == s0 + SpansOf(current, item);
      assert genders == g0 + GenderOf(current, item);
      assert conflicts == c0 + ConflictOf(current, item);
      i := i + 1;
    }
  }

  method ApplyBlock(text: string, suggestions: seq<Suggestion>) returns (result: ApplyResult)
    ensures result == Applying(text, suggestions)
  {
    var pass := RewriteLoop(text, LastFirst(suggestions), Filter(suggestions, false));
    if pass.PassRaised? {
      return Raised;
    }
    var spans, genders, unapplied := Classify(pass.text, pass.others);
    spans := PaintGender(spans, genders);
    result := Applied(pass.text, Sort(spans, SpanOrder), pass.conflicts + unapplied);
  }
}
