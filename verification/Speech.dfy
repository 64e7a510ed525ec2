/** What is said: `spoken_form` is the simultaneous expansion of a block's overlays, and speaking the
    block tile by tile says the same. */
module Speech {
  import opened PyText
  import opened Sorting
  import opened Substitution
  import opened Apply
  import opened Planner

  predicate ApartFrom(p: AppliedSpan, q: AppliedSpan) {
    p.end <= q.start || q.end <= p.start
  }

  /** Overlays that are not empty, lie in the block and do not overlap. */
  ghost predicate CleanOverlays(ov: seq<AppliedSpan>, n: nat) {
    && (forall i :: 0 <= i < |ov| ==> 0 <= ov[i].start < ov[i].end <= n)
    && Pairwise(ov, ApartFrom)
  }

  function Placing(p: AppliedSpan): Placed {
    if 0 <= p.start && 0 <= p.end then Placed(p.start, Edit(p.end, Saying(p))) else Placed(0, Edit(0, ""))
  }

  function Placings(ps: seq<AppliedSpan>): seq<Placed> {
    seq(|ps|, i requires 0 <= i < |ps| => Placing(ps[i]))
  }

  /** The overlays as edits, whatever their order. */
  ghost function OverlayEdits(ov: seq<AppliedSpan>, n: nat): Edits
    requires CleanOverlays(ov, n)
  {
    SameStart(ov, n);
    map i | 0 <= i < |ov| :: ov[i].start := Edit(ov[i].end, Saying(ov[i]))
  }

  lemma SameStart(ov: seq<AppliedSpan>, n: nat)
    requires CleanOverlays(ov, n)
    ensures forall i, j :: 0 <= i < |ov| && 0 <= j < |ov| && ov[i].start == ov[j].start ==> i == j
  {
    forall i, j | 0 <= i < j < |ov| ensures ov[i].start != ov[j].start {
      assert ApartFrom(ov[i], ov[j]);
    }
  }

  lemma OverlayEditsDescribe(ov: seq<AppliedSpan>, n: nat)
    requires CleanOverlays(ov, n)
    ensures Describes(OverlayEdits(ov, n), Placings(ov))
  {
    SameStart(ov, n);
    forall s | s in OverlayEdits(ov, n) ensures exists i :: 0 <= i < |ov| && Placings(ov)[i].start == s {
      var i :| 0 <= i < |ov| && ov[i].start == s;
      assert Placings(ov)[i].start == s;
    }
  }

  /** Sorted by falling start, the overlays come in the order the right-to-left loop needs. */
  lemma SortedOverlays(ov: seq<AppliedSpan>, n: nat)
    requires CleanOverlays(ov, n)
    ensures Descending(Placings(Sort(ov, SpanStartsLater)), n)
    ensures forall p :: p in Sort(ov, SpanStartsLater) <==> p in ov
  {
    var ps := Sort(ov, SpanStartsLater);
    SortKeeps(ov, SpanStartsLater);
    SortSorts(ov, SpanStartsLater);
    SortPairwise(ov, SpanStartsLater, ApartFrom);
    forall i | 0 <= i < |ps| ensures 0 <= ps[i].start < ps[i].end <= n {
      assert ps[i] in ov;
    }
    forall i, j | 0 <= i < j < |ps| ensures ps[j].end <= ps[i].start {
      assert ApartFrom(ps[i], ps[j]) && SpanStartsLater(ps[i], ps[j]);
    }
  }

  lemma SameMembersDescribe(es: Edits, ps: seq<AppliedSpan>, qs: seq<AppliedSpan>)
    requires Describes(es, Placings(ps)) && forall p :: p in ps <==> p in qs
    ensures Describes(es, Placings(qs))
  {
    forall i | 0 <= i < |qs| ensures Placings(qs)[i].start in es && es[Placings(qs)[i].start] == Placings(qs)[i].edit {
      assert qs[i] in ps;
      var j :| 0 <= j < |ps| && ps[j] == qs[i];
      assert Placings(ps)[j] == Placings(qs)[i];
    }
    forall s | s in es ensures exists i :: 0 <= i < |qs| && Placings(qs)[i].start == s {
      var j :| 0 <= j < |ps| && Placings(ps)[j].start == s;
      assert ps[j] in qs;
      var i :| 0 <= i < |qs| && qs[i] == ps[j];
      assert Placings(qs)[i].start == s;
    }
  }

  lemma OneDescription(a: Edits, b: Edits, ps: seq<Placed>)
    requires Describes(a, ps) && Describes(b, ps)
    ensures a == b
  {
  }

  lemma OverlayEditsAreCollected(ov: seq<AppliedSpan>, n: nat)
    requires CleanOverlays(ov, n)
    ensures OverlayEdits(ov, n) == Collect(Placings(Sort(ov, SpanStartsLater)))
    ensures Disjoint(OverlayEdits(ov, n), n)
  {
    var ps := Sort(ov, SpanStartsLater);
    SortedOverlays(ov, n);
    OverlayEditsDescribe(ov, n);
    SameMembersDescribe(OverlayEdits(ov, n), ov, ps);
    CollectDescribes(Placings(ps), n);
    CollectIsDisjoint(Placings(ps), n);
    OneDescription(OverlayEdits(ov, n), Collect(Placings(ps)), Placings(ps));
  }

  lemma {:induction false} SpeakIsPutAll(text: string, ps: seq<AppliedSpan>)
    requires Descending(Placings(ps), |text|)
    requires forall i :: 0 <= i < |ps| ==> 0 <= ps[i].start <= ps[i].end
    ensures Speak(text, ps) == PutAll(text, Placings(ps))
    decreases |ps|
  {
    if ps != [] {
      assert Placings(ps)[0].edit.end <= |text|;
      var t' := Put(text, ps[0].start, Edit(ps[0].end, Saying(ps[0])));
      assert Placings(ps)[0] == Placing(ps[0]);
      assert Placings(ps)[1..] == Placings(ps[1..]);
      StillDescending(text, Placings(ps));
      SpeakIsPutAll(t', ps[1..]);
    }
  }

  /** `spoken_form` is the left-to-right expansion of its overlays. */
  lemma SpokenFormIsExpand(text: string, spans: seq<AppliedSpan>)
    requires CleanOverlays(Select(spans, IsOverlay), |text|)
    ensures SpokenForm(text, spans)
         == Expand(text, OverlayEdits(Select(spans, IsOverlay), |text|), 0, |text|)
  {
    var ov := Select(spans, IsOverlay);
    var ps := Sort(ov, SpanStartsLater);
    SortedOverlays(ov, |text|);
    OverlayEditsAreCollected(ov, |text|);
    forall i | 0 <= i < |ps| ensures 0 <= ps[i].start <= ps[i].end {
      assert ps[i] in ov;
    }
    SpeakIsPutAll(text, ps);
    PutAllIsExpand(text, Placings(ps));
  }

  // ---------- what is told ----------

  /** A pronunciation or a skip of the block lies at [from, p.end). */
  ghost predicate ReadsAt(spans: seq<AppliedSpan>, p: AppliedSpan, from: int) {
    p in spans && (p.kind.Pronunciation? || p.kind.Skip?) && p.start == from < p.end
  }

  ghost predicate ReadHere(spans: seq<AppliedSpan>, from: int) {
    exists p :: ReadsAt(spans, p, from)
  }

  /** The block read from left to right: a pronunciation is told as it is spoken, a skip is left out, and
      every other character is told as it stands. */
  ghost function Told(text: string, spans: seq<AppliedSpan>, from: nat): string
    decreases |text| - from
  {
    if from >= |text| then ""
    else if ReadHere(spans, from) then
      var p :| ReadsAt(spans, p, from);
      (if p.kind.Pronunciation? then p.spoken else "") + Told(text, spans, p.end)
    else [text[from]] + Told(text, spans, from + 1)
  }

  lemma {:induction false} SelectIsReading(spans: seq<AppliedSpan>)
    ensures forall p :: p in Select(spans, IsOverlay) <==> p in spans && (p.kind.Pronunciation? || p.kind.Skip?)
  {
    SelectIn(spans, IsOverlay);
  }

  /** Where an overlay starts, the only reading there is that overlay. */
  lemma ReadingIsEdit(spans: seq<AppliedSpan>, n: nat, from: nat, p: AppliedSpan)
    requires CleanOverlays(Select(spans, IsOverlay), n) && ReadsAt(spans, p, from)
    ensures var es := OverlayEdits(Select(spans, IsOverlay), n);
            from in es && es[from] == Edit(p.end, if p.kind.Pronunciation? then p.spoken else "") && from < p.end <= n
  {
    var ov := Select(spans, IsOverlay);
    SelectIsReading(spans);
    OverlayEditsCover(ov, n);
    hide Select, OverlayEdits, IsOverlay;
    var i :| 0 <= i < |ov| && ov[i] == p;
  }

  lemma EditIsReading(spans: seq<AppliedSpan>, n: nat, from: nat)
    requires CleanOverlays(Select(spans, IsOverlay), n) && from in OverlayEdits(Select(spans, IsOverlay), n)
    ensures ReadHere(spans, from)
  {
    var ov := Select(spans, IsOverlay);
    SelectIsReading(spans);
    var i := MemberAt(ov, n, from);
    assert ov[i] in ov;
    assert ReadsAt(spans, ov[i], from);
  }

  lemma ToldAtReading(text: string, spans: seq<AppliedSpan>, from: nat) returns (p: AppliedSpan)
    requires from < |text| && ReadHere(spans, from)
    ensures ReadsAt(spans, p, from)
    ensures Told(text, spans, from) == (if p.kind.Pronunciation? then p.spoken else "") + Told(text, spans, p.end)
  {
    p :| ReadsAt(spans, p, from)
      && Told(text, spans, from) == (if p.kind.Pronunciation? then p.spoken else "") + Told(text, spans, p.end);
  }

  lemma {:induction false} ExpandIsTold(text: string, spans: seq<AppliedSpan>, from: nat)
    requires CleanOverlays(Select(spans, IsOverlay), |text|)
    ensures Expand(text, OverlayEdits(Select(spans, IsOverlay), |text|), from, |text|) == Told(text, spans, from)
    decreases |text| - from
  {
    hide Select, OverlayEdits, CleanOverlays, ReadHere;
    if from < |text| {
      if ReadHere(spans, from) {
        var p := ToldAtReading(text, spans, from);
        ReadingIsEdit(spans, |text|, from, p);
        ExpandIsTold(text, spans, p.end);
      } else {
        if from in OverlayEdits(Select(spans, IsOverlay), |text|) { EditIsReading(spans, |text|, from); }
        ExpandIsTold(text, spans, from + 1);
      }
    }
  }

  /** `spoken_form`, which works on the edits from the right, tells the block from the left. */
  lemma SpokenFormIsTold(text: string, spans: seq<AppliedSpan>)
    requires CleanOverlays(Select(spans, IsOverlay), |text|)
    ensures SpokenForm(text, spans) == Told(text, spans, 0)
  {
    SpokenFormIsExpand(text, spans);
    ExpandIsTold(text, spans, 0);
  }

  // ---------- speaking one tile ----------

  predicate InsideTile(p: AppliedSpan, a: nat, b: nat) {
    IsOverlay(p) && !(p.start < a || p.end > b)
  }

  function Shifted(p: AppliedSpan, a: nat): AppliedSpan {
    Plain(p.kind, p.start - a, p.end - a).(spoken := p.spoken)
  }

  function LocalOne(p: AppliedSpan, a: nat, b: nat): seq<AppliedSpan> {
    if InsideTile(p, a, b) then [Shifted(p, a)] else []
  }

  /** `_speak`'s list of overlays, with offsets counted from the tile. */
  function Local(spans: seq<AppliedSpan>, a: nat, b: nat): seq<AppliedSpan> {
    if spans == [] then [] else LocalOne(spans[0], a, b) + Local(spans[1..], a, b)
  }

  /** What a tile says, before `strip`. A tile may reach past the end of the text. */
  function SpeakTile(text: string, spans: seq<AppliedSpan>, a: nat, b: nat): string {
    SpokenForm(Slice(text, a, b), Local(spans, a, b))
  }

  method LocalLoop(spans: seq<AppliedSpan>, a: nat, b: nat) returns (local: seq<AppliedSpan>)
    ensures local == Local(spans, a, b)
  {
    hide IsOverlay, Local;
    local := [];
    ghost var all := Local(spans, a, b);
    var i := 0;
    assert spans[0..] == spans;
    while i < |spans|
      invariant 0 <= i <= |spans|
      invariant local + Local(spans[i..], a, b) == all
    {
      var span := spans[i];
      LocalStep(spans, i, a, b);
      Regroup(local, LocalOne(span, a, b), Local(spans[i + 1..], a, b), all);
      i := i + 1;
      if !IsOverlay(span) || span.start < a || span.end > b {
        continue;
      }
      local := local + [Plain(span.kind, span.start - a, span.end - a).(spoken := span.spoken)];
    }
    LocalNone(a, b);
    assert spans[i..] == [];
    assert local + [] == local;
  }

  lemma LocalStep(spans: seq<AppliedSpan>, i: nat, a: nat, b: nat)
    requires i < |spans|
    ensures Local(spans[i..], a, b) == LocalOne(spans[i], a, b) + Local(spans[i + 1..], a, b)
  {
    hide LocalOne;
    assert spans[i..][0] == spans[i] && spans[i..][1..] == spans[i + 1..];
  }

  lemma LocalNone(a: nat, b: nat)
    ensures Local([], a, b) == []
  {
  }

  method SpeakLoop(text: string, spans: seq<AppliedSpan>, a: nat, b: nat) returns (said: string)
    ensures said == Strip(SpeakTile(text, spans, a, b))
  {
    var local := LocalLoop(spans, a, b);
    var whole := SpokenFormLoop(Slice(text, a, b), local);
    said := Strip(whole);
  }

  /** The overlays that lie in the tile, in order, with their positions in the block. */
  function Inside(ov: seq<AppliedSpan>, a: nat, b: nat): seq<AppliedSpan> {
    if ov == [] then []
    else (if InsideTile(ov[0], a, b) then [ov[0]] else []) + Inside(ov[1..], a, b)
  }

  lemma {:induction false} LocalIsInside(spans: seq<AppliedSpan>, a: nat, b: nat)
    ensures |Local(spans, a, b)| == |Inside(Select(spans, IsOverlay), a, b)|
    ensures forall i :: 0 <= i < |Local(spans, a, b)| ==>
              Local(spans, a, b)[i] == Shifted(Inside(Select(spans, IsOverlay), a, b)[i], a)
  {
    hide Shifted;
    if spans != [] {
      LocalIsInside(spans[1..], a, b);
      var rest := Select(spans[1..], IsOverlay);
      if IsOverlay(spans[0]) {
        assert Select(spans, IsOverlay) == [spans[0]] + rest;
        assert ([spans[0]] + rest)[1..] == rest;
      } else {
        assert Select(spans, IsOverlay) == rest;
      }
    }
  }

  lemma {:induction false} InsideShape(ov: seq<AppliedSpan>, a: nat, b: nat)
    requires forall p :: p in ov ==> IsOverlay(p)
    ensures forall p :: p in Inside(ov, a, b) <==> p in ov && a <= p.start && p.end <= b
  {
    if ov != [] {
      assert IsOverlay(ov[0]);
      InsideShape(ov[1..], a, b);
    }
  }

  lemma {:induction false} InsidePairwise(ov: seq<AppliedSpan>, a: nat, b: nat)
    requires Pairwise(ov, ApartFrom)
    ensures Pairwise(Inside(ov, a, b), ApartFrom)
    ensures forall p :: p in Inside(ov, a, b) ==> p in ov
  {
    if ov != [] {
      InsidePairwise(ov[1..], a, b);
      var out, rest := Inside(ov, a, b), Inside(ov[1..], a, b);
      forall i, j | 0 <= i < j < |out| ensures ApartFrom(out[i], out[j]) {
        if |out| > |rest| {
          assert out[j] == rest[j - 1] && rest[j - 1] in ov[1..];
          var k :| 0 <= k < |ov[1..]| && ov[1..][k] == out[j];
          assert ApartFrom(ov[0], ov[k + 1]);
          if i > 0 { assert out[i] == rest[i - 1]; }
        }
      }
    }
  }

  lemma {:induction false} SelectAll(spans: seq<AppliedSpan>)
    requires forall p :: p in spans ==> IsOverlay(p)
    ensures Select(spans, IsOverlay) == spans
  {
    if spans != [] {
      assert spans[0] in spans;
      SelectAll(spans[1..]);
    }
  }

  lemma LocalClean(spans: seq<AppliedSpan>, a: nat, b: nat, n: nat)
    requires a <= b <= n && CleanOverlays(Select(spans, IsOverlay), n)
    ensures Select(Local(spans, a, b), IsOverlay) == Local(spans, a, b)
    ensures CleanOverlays(Local(spans, a, b), b - a)
  {
    var ov, local := Select(spans, IsOverlay), Local(spans, a, b);
    var inside := Inside(ov, a, b);
    SelectIn(spans, IsOverlay);
    LocalIsInside(spans, a, b);
    InsideShape(ov, a, b);
    InsidePairwise(ov, a, b);
    forall i | 0 <= i < |local| ensures IsOverlay(local[i]) && 0 <= local[i].start < local[i].end <= b - a {
      assert inside[i] in ov;
      var k :| 0 <= k < |ov| && ov[k] == inside[i];
    }
    forall i, j | 0 <= i < j < |local| ensures ApartFrom(local[i], local[j]) {
      assert ApartFrom(inside[i], inside[j]);
    }
    SelectAll(local);
  }

  lemma MemberAt(ov: seq<AppliedSpan>, n: nat, s: nat) returns (i: nat)
    requires CleanOverlays(ov, n) && s in OverlayEdits(ov, n)
    ensures i < |ov| && ov[i].start == s && OverlayEdits(ov, n)[s] == Edit(ov[i].end, Saying(ov[i]))
  {
    i :| 0 <= i < |ov| && ov[i].start == s;
    OverlayEditsDescribe(ov, n);
    assert Placings(ov)[i].start == s;
  }

  /** The edits of these overlays ... */
  ghost predicate Covers(es: Edits, ps: seq<AppliedSpan>) {
    forall i :: 0 <= i < |ps| ==>
      0 <= ps[i].start < ps[i].end && ps[i].start in es && es[ps[i].start] == Edit(ps[i].end, Saying(ps[i]))
  }

  predicate IsStart(es: Edits, s: nat) {
    s in es
  }

  /** ... and no others. */
  ghost predicate CoveredBy(es: Edits, ps: seq<AppliedSpan>) {
    forall s :: IsStart(es, s) ==> exists i :: 0 <= i < |ps| && ps[i].start == s
  }

  lemma OverlayEditsCover(ov: seq<AppliedSpan>, n: nat)
    requires CleanOverlays(ov, n)
    ensures Covers(OverlayEdits(ov, n), ov)
  {
    var es := OverlayEdits(ov, n);
    OverlayEditsDescribe(ov, n);
    forall i | 0 <= i < |ov| ensures ov[i].start in es && es[ov[i].start] == Edit(ov[i].end, Saying(ov[i])) {
      assert Placings(ov)[i] == Placing(ov[i]);
    }
  }

  lemma OverlayEditsCovered(ov: seq<AppliedSpan>, n: nat)
    requires CleanOverlays(ov, n)
    ensures CoveredBy(OverlayEdits(ov, n), ov)
  {
    SameStart(ov, n);
  }

  ghost predicate ShiftedAll(inside: seq<AppliedSpan>, local: seq<AppliedSpan>, a: nat) {
    |local| == |inside| && forall j :: 0 <= j < |local| ==> local[j] == Shifted(inside[j], a)
  }

  lemma WindowIn(p: AppliedSpan, inside: seq<AppliedSpan>, local: seq<AppliedSpan>, es': Edits, a: nat)
    requires ShiftedAll(inside, local, a) && Covers(es', local) && p in inside
    ensures 0 <= p.start - a && 0 <= p.end - a
    ensures p.start - a in es' && es'[p.start - a] == Edit(p.end - a, Saying(p))
  {
    var j :| 0 <= j < |inside| && inside[j] == p;
    assert local[j] == Shifted(p, a);
  }

  lemma LocalSameWindow(spans: seq<AppliedSpan>, es: Edits, es': Edits, a: nat, b: nat)
    requires a <= b
    requires var ov := Select(spans, IsOverlay); Covers(es, ov) && CoveredBy(es, ov)
    requires var local := Local(spans, a, b); Covers(es', local) && CoveredBy(es', local)
    requires !Straddled(es, b)
    ensures SameWindow(es, a, b, es', -(a as int))
  {
    forall s: nat | a <= s < b
      ensures (s in es <==> s - a in es')
              && (s in es ==> es'[s - a].end == es[s].end - a && es'[s - a].text == es[s].text)
    {
      LocalWindowAt(spans, es, es', a, b, s);
    }
  }

  lemma LocalWindowAt(spans: seq<AppliedSpan>, es: Edits, es': Edits, a: nat, b: nat, s: nat)
    requires a <= s < b
    requires var ov := Select(spans, IsOverlay); Covers(es, ov) && CoveredBy(es, ov)
    requires var local := Local(spans, a, b); Covers(es', local) && CoveredBy(es', local)
    requires !Straddled(es, b)
    ensures s in es <==> s - a in es'
    ensures s in es ==> es'[s - a].end == es[s].end - a && es'[s - a].text == es[s].text
  {
    var ov, local := Select(spans, IsOverlay), Local(spans, a, b);
    var inside := Inside(ov, a, b);
    assert ShiftedAll(inside, local, a) by { LocalIsInside(spans, a, b); }
    if s in es {
      assert forall p :: p in ov && a <= p.start && p.end <= b ==> p in inside by {
        SelectIn(spans, IsOverlay);
        InsideShape(ov, a, b);
      }
      OneWindowIn(ov, inside, local, es, es', a, b, s);
    } else if s - a in es' {
      assert forall p :: p in inside ==> p in ov by {
        SelectIn(spans, IsOverlay);
        InsideShape(ov, a, b);
      }
      OneWindowOut(ov, inside, local, es, es', a, s);
    }
  }

  lemma OneWindowIn(ov: seq<AppliedSpan>, inside: seq<AppliedSpan>, local: seq<AppliedSpan>,
                    es: Edits, es': Edits, a: nat, b: nat, s: nat)
    requires a <= s < b && s in es && !Straddled(es, b)
    requires Covers(es, ov) && CoveredBy(es, ov) && ShiftedAll(inside, local, a) && Covers(es', local)
    requires forall p :: p in ov && a <= p.start && p.end <= b ==> p in inside
    ensures s - a in es' && es'[s - a].end == es[s].end - a && es'[s - a].text == es[s].text
  {
    assert IsStart(es, s);
    var i :| 0 <= i < |ov| && ov[i].start == s;
    assert !(s < b < es[s].end);
    assert ov[i] in ov;
    WindowIn(ov[i], inside, local, es', a);
  }

  lemma OneWindowOut(ov: seq<AppliedSpan>, inside: seq<AppliedSpan>, local: seq<AppliedSpan>,
                     es: Edits, es': Edits, a: nat, s: nat)
    requires a <= s && s - a in es'
    requires Covers(es, ov) && CoveredBy(es', local) && ShiftedAll(inside, local, a)
    requires forall p :: p in inside ==> p in ov
    ensures s in es
  {
    assert IsStart(es', s - a);
    var j :| 0 <= j < |local| && local[j].start == s - a;
    assert inside[j] in inside;
    var i :| 0 <= i < |ov| && ov[i] == inside[j];
  }

  /** A tile whose end no overlay crosses says the expansion of its stretch of the block. */
  lemma SpeakTileIsExpand(text: string, spans: seq<AppliedSpan>, es: Edits, a: nat, b: nat)
    requires a <= b <= |text|
    requires CleanOverlays(Select(spans, IsOverlay), |text|)
    requires es == OverlayEdits(Select(spans, IsOverlay), |text|) && !Straddled(es, b)
    ensures SpeakTile(text, spans, a, b) == Expand(text, es, a, b)
  {
    var ov, local := Select(spans, IsOverlay), Local(spans, a, b);
    assert Slice(text, a, b) == text[a..b];
    LocalClean(spans, a, b, |text|);
    SpokenFormIsExpand(text[a..b], local);
    OverlayEditsCover(ov, |text|);
    OverlayEditsCovered(ov, |text|);
    OverlayEditsCover(local, |text[a..b]|);
    OverlayEditsCovered(local, |text[a..b]|);
    OverlayEditsAreCollected(ov, |text|);
    LocalFrame(text, spans, es, OverlayEdits(local, |text[a..b]|), a, b);
  }

  lemma LocalFrame(text: string, spans: seq<AppliedSpan>, es: Edits, es': Edits, a: nat, b: nat)
    requires a <= b <= |text| && Disjoint(es, |text|) && !Straddled(es, b)
    requires var ov := Select(spans, IsOverlay); Covers(es, ov) && CoveredBy(es, ov)
    requires var local := Local(spans, a, b); Covers(es', local) && CoveredBy(es', local)
    ensures Expand(text, es, a, b) == Expand(text[a..b], es', 0, |text[a..b]|)
  {
    LocalSameWindow(spans, es, es', a, b);
    ExpandFrame(text, es, a, b, text[a..b], es', -(a as int));
  }

  // ---------- speaking the block ----------

  ghost predicate TilesInside(tiles: seq<AppliedSpan>, n: nat) {
    forall i :: 0 <= i < |tiles| ==> InSpan(tiles[i], n)
  }

  /** What the tiles say one after the other. */
  ghost function SpeakTiles(text: string, spans: seq<AppliedSpan>, tiles: seq<AppliedSpan>): string
    requires TilesInside(tiles, |text|)
  {
    if tiles == [] then ""
    else
      assert InSpan(tiles[0], |text|);
      SpeakTile(text, spans, tiles[0].start, tiles[0].end) + SpeakTiles(text, spans, tiles[1..])
  }

  ghost predicate CleanCuts(es: Edits, tiles: seq<AppliedSpan>) {
    forall i :: 0 <= i < |tiles| && tiles[i].end >= 0 ==> !Straddled(es, tiles[i].end)
  }

  lemma {:induction false} SpeakTilesIsExpand(text: string, spans: seq<AppliedSpan>, es: Edits,
                                              tiles: seq<AppliedSpan>, from: nat)
    requires TilesInside(tiles, |text|)
    requires CleanOverlays(Select(spans, IsOverlay), |text|)
    requires es == OverlayEdits(Select(spans, IsOverlay), |text|) && CleanCuts(es, tiles)
    requires Contiguous(tiles, from, |text|) && from <= |text|
    ensures SpeakTiles(text, spans, tiles) == Expand(text, es, from, |text|)
  {
    var ov := Select(spans, IsOverlay);
    if tiles != [] {
      var t := tiles[0];
      assert InSpan(t, |text|);
      OverlayEditsAreCollected(ov, |text|);
      SpeakTilesIsExpand(text, spans, es, tiles[1..], t.end);
      SpeakTileIsExpand(text, spans, es, t.start, t.end);
      ExpandSplit(text, es, from, t.end, |text|);
    }
  }

  /** Every overlay lies inside one tile of the cover. */
  ghost predicate OverlaysInTiles(text: string, spans: seq<AppliedSpan>) {
    forall i :: 0 <= i < |Select(spans, IsOverlay)| ==>
      exists t :: t in Cover(text, spans)
        && t.start <= Select(spans, IsOverlay)[i].start && Select(spans, IsOverlay)[i].end <= t.end
  }

  /** Two tiles of one tiling: one ends before the other starts. */
  lemma {:induction false} TilesApart(tiles: seq<AppliedSpan>, from: int, to: int, t: AppliedSpan, u: AppliedSpan)
    requires Contiguous(tiles, from, to) && t in tiles && u in tiles
    ensures t == u || t.end <= u.start || u.end <= t.start
  {
    if t in tiles[1..] && u in tiles[1..] {
      TilesApart(tiles[1..], tiles[0].end, to, t, u);
    } else if t in tiles[1..] {
      ContiguousBounds(tiles[1..], tiles[0].end, to, t);
    } else if u in tiles[1..] {
      ContiguousBounds(tiles[1..], tiles[0].end, to, u);
    }
  }

  lemma NotCut(ov: seq<AppliedSpan>, tiles: seq<AppliedSpan>, n: nat, u: AppliedSpan, s: nat)
    requires CleanOverlays(ov, n) && s in OverlayEdits(ov, n) && Contiguous(tiles, 0, n) && u in tiles
    requires forall i :: 0 <= i < |ov| ==> exists t :: t in tiles && t.start <= ov[i].start && ov[i].end <= t.end
    ensures !(s < u.end < OverlayEdits(ov, n)[s].end)
  {
    var k := MemberAt(ov, n, s);
    hide OverlayEdits, CleanOverlays, Contiguous;
    var t :| t in tiles && t.start <= ov[k].start && ov[k].end <= t.end;
    TilesApart(tiles, 0, n, t, u);
    ContiguousBounds(tiles, 0, n, u);
  }

  /** No overlay crosses the end of a tile. */
  lemma CutsAreClean(text: string, spans: seq<AppliedSpan>)
    requires Contiguous(Cover(text, spans), 0, |text|)
    requires CleanOverlays(Select(spans, IsOverlay), |text|) && OverlaysInTiles(text, spans)
    ensures CleanCuts(OverlayEdits(Select(spans, IsOverlay), |text|), Cover(text, spans))
  {
    var tiles, ov := Cover(text, spans), Select(spans, IsOverlay);
    hide OverlayEdits, CleanOverlays, Contiguous, Cover, Select;
    forall i, s | 0 <= i < |tiles| && s in OverlayEdits(ov, |text|)
      ensures !(s < tiles[i].end < OverlayEdits(ov, |text|)[s].end)
    {
      NotCut(ov, tiles, |text|, tiles[i], s);
    }
  }

  /** Speaking a block tile by tile says exactly its spoken form, and that is the left-to-right
      expansion of its overlays. */
  lemma SpokenTileByTile(text: string, spans: seq<AppliedSpan>)
    requires forall p :: p in spans && IsStructural(p) ==> InSpan(p, |text|)
    requires CleanOverlays(Select(spans, IsOverlay), |text|) && OverlaysInTiles(text, spans)
    ensures TilesInside(Cover(text, spans), |text|)
    ensures SpeakTiles(text, spans, Cover(text, spans)) == SpokenForm(text, spans)
    ensures SpokenForm(text, spans)
         == Expand(text, OverlayEdits(Select(spans, IsOverlay), |text|), 0, |text|)
  {
    var tiles := Cover(text, spans);
    var es := OverlayEdits(Select(spans, IsOverlay), |text|);
    CoverTiles(text, spans);
    CutsAreClean(text, spans);
    hide Cover, OverlaysInTiles, CleanOverlays, OverlayEdits, TileOf;
    forall i | 0 <= i < |tiles| ensures InSpan(tiles[i], |text|) {
      ContiguousBounds(tiles, 0, |text|, tiles[i]);
    }
    SpokenFormIsExpand(text, spans);
    SpeakTilesIsExpand(text, spans, es, tiles, 0);
  }
}
