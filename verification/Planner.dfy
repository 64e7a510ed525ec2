/** `text/spoken.py` and `jobs/planner.py`: a block becomes spoken runs. Structural spans tile the
    block, overlays (pronunciations and skips) change what is said inside a tile. */
module Planner {
  import opened PyText
  import opened Sorting
  import opened Apply

  // ---------- spoken_form ----------

  predicate IsOverlay(p: AppliedSpan) {
    p.kind.Pronunciation? || p.kind.Skip?
  }

  predicate IsStructural(p: AppliedSpan) {
    p.kind.Narration? || p.kind.Dialogue? || p.kind.Pause?
  }

  function Select(spans: seq<AppliedSpan>, keep: AppliedSpan -> bool): seq<AppliedSpan> {
    if spans == [] then []
    else (if keep(spans[0]) then [spans[0]] else []) + Select(spans[1..], keep)
  }

  predicate SpanStartsLater(a: AppliedSpan, b: AppliedSpan) {
    a.start >= b.start
  }

  function Saying(p: AppliedSpan): string {
    if p.kind.Skip? then "" else p.spoken
  }

  function Speak(spoken: string, edits: seq<AppliedSpan>): string
    decreases |edits|
  {
    if edits == [] then spoken
    else if 0 <= edits[0].start <= edits[0].end <= |spoken| then
      Speak(spoken[..edits[0].start] + Saying(edits[0]) + spoken[edits[0].end..], edits[1..])
    else Speak(spoken, edits[1..])
  }

  function SpokenForm(text: string, spans: seq<AppliedSpan>): string {
    Speak(text, Sort(Select(spans, IsOverlay), SpanStartsLater))
  }

  method SpokenFormLoop(text: string, spans: seq<AppliedSpan>) returns (spoken: string)
    ensures spoken == SpokenForm(text, spans)
  {
    var edits := Sort(Select(spans, IsOverlay), SpanStartsLater);
    spoken := text;
    var i := 0;
    while i < |edits|
      invariant 0 <= i <= |edits|
      invariant Speak(spoken, edits[i..]) == SpokenForm(text, spans)
    {
      var span := edits[i];
      assert edits[i..][0] == span && edits[i..][1..] == edits[i + 1..];
      if 0 <= span.start <= span.end <= |spoken| {
        spoken := spoken[..span.start] + Saying(span) + spoken[span.end..];
      }
      i := i + 1;
    }
  }

  // ---------- _cover ----------

  predicate SpanBefore(a: AppliedSpan, b: AppliedSpan) {
    a.start < b.start || (a.start == b.start && a.end <= b.end)
  }

  function Filler(cursor: int, start: int): seq<AppliedSpan> {
    if start > cursor then [Plain(Narration, cursor, start)] else []
  }

  /** The tiles from `cursor` on, for structural spans sorted by start. */
  function Tiles(ss: seq<AppliedSpan>, cursor: int, n: nat): seq<AppliedSpan> {
    if ss == [] then Filler(cursor, n)
    else
      Filler(cursor, ss[0].start) +
      if ss[0].end <= cursor then Tiles(ss[1..], cursor, n)
      else [ss[0].(start := if ss[0].start > cursor then ss[0].start else cursor)]
           + Tiles(ss[1..], ss[0].end, n)
  }

  function Structure(spans: seq<AppliedSpan>): seq<AppliedSpan> {
    Sort(Select(spans, IsStructural), SpanBefore)
  }

  function Cover(text: string, spans: seq<AppliedSpan>): seq<AppliedSpan> {
    Tiles(Structure(spans), 0, |text|)
  }

  method CoverLoop(text: string, spans: seq<AppliedSpan>) returns (covered: seq<AppliedSpan>)
    ensures covered == Cover(text, spans)
  {
    var structural := Structure(spans);
    if structural == [] {
      return if text == "" then [] else [Plain(Narration, 0, |text|)];
    }
    covered := [];
    var cursor := 0;
    var i := 0;
    while i < |structural|
      invariant 0 <= i <= |structural|
      invariant covered + Tiles(structural[i..], cursor, |text|) == Cover(text, spans)
    {
      var span := structural[i];
      ghost var left, before, at := structural[i..], covered, cursor;
      assert left[0] == span && left[1..] == structural[i + 1..];
      if span.start > cursor {
        covered := covered + [Plain(Narration, cursor, span.start)];
      }
      assert covered == before + Filler(at, span.start);
      i := i + 1;
      if span.end <= cursor {
        Regroup(before, Filler(at, span.start), Tiles(left[1..], at, |text|), Cover(text, spans));
        continue;
      }
      var start := if span.start > cursor then span.start else cursor;
      covered := covered + [span.(start := start)];
      cursor := span.end;
      Regroup(before, Filler(at, span.start), [span.(start := start)] + Tiles(left[1..], cursor, |text|),
              Cover(text, spans));
      Regroup(before + Filler(at, span.start), [span.(start := start)], Tiles(left[1..], cursor, |text|),
              Cover(text, spans));
    }
    if cursor < |text| {
      covered := covered + [Plain(Narration, cursor, |text|)];
    }
  }

  // ---------- what `_cover` guarantees ----------

  /** Tiles that follow each other without gap or overlap from `from` to `to`. */
  ghost predicate Contiguous(tiles: seq<AppliedSpan>, from: int, to: int) {
    if tiles == [] then from == to
    else tiles[0].start == from <= tiles[0].end && Contiguous(tiles[1..], tiles[0].end, to)
  }

  lemma {:induction false} ContiguousAppend(a: seq<AppliedSpan>, b: seq<AppliedSpan>, from: int, m: int, to: int)
    requires Contiguous(a, from, m) && Contiguous(b, m, to)
    ensures Contiguous(a + b, from, to)
  {
    if a == [] {
      assert a + b == b;
    } else {
      ContiguousAppend(a[1..], b, a[0].end, m, to);
      assert (a + b)[1..] == a[1..] + b;
    }
  }

  lemma {:induction false} ContiguousOrder(tiles: seq<AppliedSpan>, from: int, to: int)
    requires Contiguous(tiles, from, to)
    ensures from <= to
  {
    if tiles != [] { ContiguousOrder(tiles[1..], tiles[0].end, to); }
  }

  lemma {:induction false} ContiguousBounds(tiles: seq<AppliedSpan>, from: int, to: int, t: AppliedSpan)
    requires Contiguous(tiles, from, to) && t in tiles
    ensures from <= t.start <= t.end <= to
  {
    if t == tiles[0] {
      ContiguousOrder(tiles[1..], tiles[0].end, to);
    } else {
      ContiguousBounds(tiles[1..], tiles[0].end, to, t);
    }
  }

  ghost predicate SpansInside(ss: seq<AppliedSpan>, n: nat) {
    forall i :: 0 <= i < |ss| ==> InSpan(ss[i], n)
  }

  /** The span table's CHECK constraint, and the block's length. */
  predicate InSpan(p: AppliedSpan, n: nat) {
    0 <= p.start <= p.end <= n
  }

  ghost predicate StartsAscend(ss: seq<AppliedSpan>) {
    forall i, j :: 0 <= i < j < |ss| ==> ss[i].start <= ss[j].start
  }

  /** What the span table allows. */
  predicate ProperSpan(p: AppliedSpan) {
    0 <= p.start <= p.end
  }

  /** Whatever the spans reach, a tile starts in the block's order of offsets. */
  lemma {:induction false} TilesAreProper(ss: seq<AppliedSpan>, cursor: nat, n: nat)
    requires forall i :: 0 <= i < |ss| ==> ProperSpan(ss[i])
    ensures forall t :: t in Tiles(ss, cursor, n) ==> ProperSpan(t)
  {
    if ss != [] {
      assert ProperSpan(ss[0]);
      TilesAreProper(ss[1..], if ss[0].end <= cursor then cursor else ss[0].end, n);
    }
  }

  lemma CoverIsProper(text: string, spans: seq<AppliedSpan>)
    requires forall p :: p in spans && IsStructural(p) ==> ProperSpan(p)
    ensures forall t :: t in Cover(text, spans) ==> ProperSpan(t)
  {
    var sel := Select(spans, IsStructural);
    SelectIn(spans, IsStructural);
    SortKeeps(sel, SpanBefore);
    forall i | 0 <= i < |Structure(spans)| ensures ProperSpan(Structure(spans)[i]) {
      assert Structure(spans)[i] in sel;
    }
    TilesAreProper(Structure(spans), 0, |text|);
  }

  lemma {:induction false} TilesContiguous(ss: seq<AppliedSpan>, cursor: int, n: nat)
    requires SpansInside(ss, n) && cursor <= n
    ensures Contiguous(Tiles(ss, cursor, n), cursor, n)
  {
    if ss != [] {
      var s := ss[0];
      assert InSpan(s, n);
      if s.end <= cursor {
        TilesContiguous(ss[1..], cursor, n);
        assert Tiles(ss, cursor, n) == Tiles(ss[1..], cursor, n);
      } else {
        var start := if s.start > cursor then s.start else cursor;
        TilesContiguous(ss[1..], s.end, n);
        assert Contiguous(Filler(cursor, s.start), cursor, start);
        assert ([s.(start := start)] + Tiles(ss[1..], s.end, n))[1..] == Tiles(ss[1..], s.end, n);
        ContiguousAppend(Filler(cursor, s.start), [s.(start := start)] + Tiles(ss[1..], s.end, n),
                         cursor, start, n);
      }
    }
  }

  /** A tile is the end piece of a structural span, or a narration filler that touches none. */
  ghost predicate TileOf(ss: seq<AppliedSpan>, t: AppliedSpan) {
    || (exists i :: 0 <= i < |ss| && ss[i].start <= t.start && t == ss[i].(start := t.start))
    || (t == Plain(Narration, t.start, t.end) && t.start < t.end
        && forall i :: 0 <= i < |ss| ==> ss[i].end <= t.start || t.end <= ss[i].start)
  }

  lemma {:induction false} TilesAreTiles(ss: seq<AppliedSpan>, cursor: int, n: nat, t: AppliedSpan)
    requires SpansInside(ss, n) && StartsAscend(ss) && cursor <= n && t in Tiles(ss, cursor, n)
    ensures TileOf(ss, t) && cursor <= t.start
  {
    TilesContiguous(ss, cursor, n);
    ContiguousBounds(Tiles(ss, cursor, n), cursor, n, t);
    if ss != [] {
      var s := ss[0];
      assert InSpan(s, n);
      var next := if s.end <= cursor then cursor else s.end;
      if t in Filler(cursor, s.start) {
        assert forall i :: 0 <= i < |ss| ==> t.end <= ss[i].start;
      } else if t in Tiles(ss[1..], next, n) {
        TilesAreTiles(ss[1..], next, n, t);
        TileOfTail(ss, t);
      } else {
        assert t == ss[0].(start := t.start);
      }
    }
  }

  lemma TileOfTail(ss: seq<AppliedSpan>, t: AppliedSpan)
    requires ss != [] && TileOf(ss[1..], t) && ss[0].end <= t.start
    ensures TileOf(ss, t)
  {
    var tail := ss[1..];
    if i :| 0 <= i < |tail| && tail[i].start <= t.start && t == tail[i].(start := t.start) {
      assert ss[i + 1] == tail[i];
    } else {
      forall i | 0 <= i < |ss| ensures ss[i].end <= t.start || t.end <= ss[i].start {
        if i > 0 { assert ss[i] == tail[i - 1]; }
      }
    }
  }

  lemma {:induction false} SelectIn(spans: seq<AppliedSpan>, keep: AppliedSpan -> bool)
    ensures forall p :: p in Select(spans, keep) <==> p in spans && keep(p)
  {
    if spans != [] { SelectIn(spans[1..], keep); }
  }

  lemma StructureShape(spans: seq<AppliedSpan>, n: nat)
    requires forall p :: p in spans && IsStructural(p) ==> InSpan(p, n)
    ensures SpansInside(Structure(spans), n) && StartsAscend(Structure(spans))
    ensures forall p :: p in Structure(spans) <==> p in spans && IsStructural(p)
  {
    var sel := Select(spans, IsStructural);
    SelectIn(spans, IsStructural);
    SortKeeps(sel, SpanBefore);
    SortSorts(sel, SpanBefore);
    forall i | 0 <= i < |Structure(spans)| ensures InSpan(Structure(spans)[i], n) {
      assert Structure(spans)[i] in sel;
    }
  }

  /** A tile is the end piece of a narration, dialogue or pause span, or a narration filler that touches none. */
  ghost predicate BelongsTo(spans: seq<AppliedSpan>, t: AppliedSpan) {
    || (exists s :: s in spans && (s.kind.Narration? || s.kind.Dialogue? || s.kind.Pause?)
                    && s.start <= t.start && t == s.(start := t.start))
    || (t == Plain(Narration, t.start, t.end) && t.start < t.end
        && forall s :: s in spans && (s.kind.Narration? || s.kind.Dialogue? || s.kind.Pause?) ==>
             s.end <= t.start || t.end <= s.start)
  }

  lemma TileBelongs(spans: seq<AppliedSpan>, t: AppliedSpan)
    requires TileOf(Structure(spans), t) && forall p :: p in Structure(spans) <==> p in spans && IsStructural(p)
    ensures BelongsTo(spans, t)
  {
    var ss := Structure(spans);
    hide Structure;
    if i :| 0 <= i < |ss| && ss[i].start <= t.start && t == ss[i].(start := t.start) {
      assert ss[i] in ss;
    } else {
      forall s | s in spans && IsStructural(s) ensures s.end <= t.start || t.end <= s.start {
        assert s in ss;
      }
    }
  }

  /** `_cover` is an exact tiling of the block; every tile belongs to a structural span or is a
      filler that touches none. */
  lemma CoverTiles(text: string, spans: seq<AppliedSpan>)
    requires forall p :: p in spans && IsStructural(p) ==> InSpan(p, |text|)
    ensures Contiguous(Cover(text, spans), 0, |text|)
    ensures forall t :: t in Cover(text, spans) ==> TileOf(Structure(spans), t) && BelongsTo(spans, t)
  {
    var ss := Structure(spans);
    StructureShape(spans, |text|);
    TilesContiguous(ss, 0, |text|);
    forall t | t in Cover(text, spans) ensures TileOf(ss, t) && BelongsTo(spans, t) {
      TilesAreTiles(ss, 0, |text|, t);
      TileBelongs(spans, t);
    }
  }

  /** A structural span that starts before `p` reaches `p`. */
  ghost predicate Reached(ss: seq<AppliedSpan>, p: int) {
    exists i :: 0 <= i < |ss| && ss[i].start < p <= ss[i].end
  }

  predicate PauseAt(s: AppliedSpan, p: int) {
    s.kind.Pause? && s.start == p && s.end == p
  }

  ghost predicate HasPause(ss: seq<AppliedSpan>, p: int) {
    exists i :: 0 <= i < |ss| && PauseAt(ss[i], p)
  }

  lemma HasPauseSplit(a: seq<AppliedSpan>, b: seq<AppliedSpan>, p: int)
    ensures HasPause(a + b, p) <==> HasPause(a, p) || HasPause(b, p)
  {
    if i :| 0 <= i < |a| && PauseAt(a[i], p) { assert (a + b)[i] == a[i]; }
    if i :| 0 <= i < |b| && PauseAt(b[i], p) { assert (a + b)[|a| + i] == b[i]; }
  }

  lemma ReachedSplit(ss: seq<AppliedSpan>, p: int)
    requires ss != []
    ensures Reached(ss, p) <==> ss[0].start < p <= ss[0].end || Reached(ss[1..], p)
  {
    if i :| 0 <= i < |ss| && ss[i].start < p <= ss[i].end {
      assert i > 0 ==> ss[1..][i - 1] == ss[i];
    }
    if i :| 0 <= i < |ss[1..]| && ss[1..][i].start < p <= ss[1..][i].end {
      assert ss[i + 1] == ss[1..][i];
    }
  }

  /** Spans of zero length are pauses. */
  ghost predicate OnlyPausesEmpty(ss: seq<AppliedSpan>) {
    forall i :: 0 <= i < |ss| ==> ss[i].start < ss[i].end || ss[i].kind.Pause?
  }

  ghost predicate SortedSpans(ss: seq<AppliedSpan>) {
    forall i, j :: 0 <= i < j < |ss| ==> SpanBefore(ss[i], ss[j])
  }

  lemma PauseInHead(s: AppliedSpan, cursor: int, n: nat, p: int)
    requires InSpan(s, n) && (s.start < s.end || s.kind.Pause?) && s.end > cursor
    ensures var first := s.(start := if s.start > cursor then s.start else cursor);
            HasPause(Filler(cursor, s.start) + [first], p) <==> PauseAt(s, p)
  {
    var first := s.(start := if s.start > cursor then s.start else cursor);
    HasPauseSplit(Filler(cursor, s.start), [first], p);
    assert [first][0] == first;
  }

  lemma PauseInTail(ss: seq<AppliedSpan>, p: int)
    requires ss != []
    ensures HasPause(ss, p) <==> PauseAt(ss[0], p) || HasPause(ss[1..], p)
  {
    assert ss == [ss[0]] + ss[1..];
    HasPauseSplit([ss[0]], ss[1..], p);
    assert [ss[0]][0] == ss[0];
  }

  /** Taking the head span off the list of tiles. */
  lemma PauseTilesStep(ss: seq<AppliedSpan>, cursor: int, n: nat, p: int)
    requires ss != [] && InSpan(ss[0], n) && (ss[0].start < ss[0].end || ss[0].kind.Pause?)
    ensures ss[0].end <= cursor ==> (HasPause(Tiles(ss, cursor, n), p) <==> HasPause(Tiles(ss[1..], cursor, n), p))
    ensures ss[0].end > cursor ==> (HasPause(Tiles(ss, cursor, n), p) <==>
              PauseAt(ss[0], p) || HasPause(Tiles(ss[1..], ss[0].end, n), p))
  {
    hide HasPause, PauseAt;
    var s, tail := ss[0], ss[1..];
    TilesStep(ss, cursor, n);
    if s.end > cursor {
      var first := s.(start := if s.start > cursor then s.start else cursor);
      PauseInHead(s, cursor, n, p);
      HasPauseSplit(Filler(cursor, s.start) + [first], Tiles(tail, s.end, n), p);
    }
  }

  lemma TilesStep(ss: seq<AppliedSpan>, cursor: int, n: nat)
    requires ss != [] && ss[0].start <= ss[0].end
    ensures ss[0].end <= cursor ==> Tiles(ss, cursor, n) == Tiles(ss[1..], cursor, n)
    ensures ss[0].end > cursor ==>
              Tiles(ss, cursor, n)
              == (Filler(cursor, ss[0].start) + [ss[0].(start := if ss[0].start > cursor then ss[0].start else cursor)])
                 + Tiles(ss[1..], ss[0].end, n)
  {
    var s, rest := ss[0], Tiles(ss[1..], ss[0].end, n);
    if s.end <= cursor {
      assert Filler(cursor, s.start) == [];
      assert [] + Tiles(ss[1..], cursor, n) == Tiles(ss[1..], cursor, n);
    } else {
      var first := [s.(start := if s.start > cursor then s.start else cursor)];
      assert Filler(cursor, s.start) + (first + rest) == (Filler(cursor, s.start) + first) + rest;
    }
  }

  lemma {:induction false} TilesKeepPause(ss: seq<AppliedSpan>, cursor: int, n: nat, p: int)
    requires SpansInside(ss, n) && SortedSpans(ss) && OnlyPausesEmpty(ss) && cursor <= n
    ensures HasPause(Tiles(ss, cursor, n), p) <==> HasPause(ss, p) && p > cursor && !Reached(ss, p)
  {
    if ss != [] {
      var s, tail := ss[0], ss[1..];
      assert InSpan(s, n) && (s.start < s.end || s.kind.Pause?);
      PauseInTail(ss, p);
      ReachedSplit(ss, p);
      PauseTilesStep(ss, cursor, n, p);
      TilesKeepPause(tail, if s.end <= cursor then cursor else s.end, n, p);
      NothingReachesBack(ss, p);
    }
  }

  /** Sorted spans: nothing behind the head reaches a pause that stands at the head or before, and a
      later pause past the head's start that the head does not reach lies past its end. */
  lemma NothingReachesBack(ss: seq<AppliedSpan>, p: int)
    requires ss != [] && SortedSpans(ss)
    ensures Reached(ss[1..], p) ==> ss[0].start < p
    ensures HasPause(ss[1..], p) ==> ss[0].start <= p && (ss[0].start == p ==> ss[0].end <= p)
  {
    if i :| 0 <= i < |ss[1..]| && ss[1..][i].start < p <= ss[1..][i].end {
      assert SpanBefore(ss[0], ss[i + 1]);
    }
    if i :| 0 <= i < |ss[1..]| && PauseAt(ss[1..][i], p) {
      assert SpanBefore(ss[0], ss[i + 1]);
    }
  }

  /** A pause becomes a tile, and so a silence, exactly when it does not stand at the very start of
      the block and no structural span that starts before it reaches it. */
  lemma PauseSurvives(text: string, spans: seq<AppliedSpan>, p: int)
    requires forall s :: s in spans && IsStructural(s) ==>
               InSpan(s, |text|) && (s.start < s.end || s.kind.Pause?)
    ensures (exists t :: t in Cover(text, spans) && PauseAt(t, p)) <==>
            && p > 0
            && (exists s :: s in spans && PauseAt(s, p))
            && !(exists s :: s in spans && (s.kind.Narration? || s.kind.Dialogue? || s.kind.Pause?)
                             && s.start < p <= s.end)
  {
    var ss := Structure(spans);
    StructureShape(spans, |text|);
    SortSorts(Select(spans, IsStructural), SpanBefore);
    forall i | 0 <= i < |ss| ensures ss[i].start < ss[i].end || ss[i].kind.Pause? {
      assert ss[i] in ss;
    }
    TilesKeepPause(ss, 0, |text|, p);
    HasPauseIn(Cover(text, spans), p);
    HasPauseIn(ss, p);
    ReachedIn(ss, p);
  }

  /** A pause at the start of a block, and one at the end of a stretch of dialogue: neither is heard. */
  lemma PausesThatAreLost(text: string, n: nat)
    requires 0 < n <= |text|
    ensures !exists t :: t in Cover(text, [Plain(Pause, 0, 0)]) && PauseAt(t, 0)
    ensures !exists t :: t in Cover(text, [Plain(Dialogue, 0, n), Plain(Pause, n, n)]) && PauseAt(t, n)
  {
    PauseSurvives(text, [Plain(Pause, 0, 0)], 0);
    var spans := [Plain(Dialogue, 0, n), Plain(Pause, n, n)];
    assert spans[0] in spans;
    PauseSurvives(text, spans, n);
  }

  lemma HasPauseIn(ss: seq<AppliedSpan>, p: int)
    ensures HasPause(ss, p) <==> exists s :: s in ss && PauseAt(s, p)
  {
    if HasPause(ss, p) {
      var i :| 0 <= i < |ss| && PauseAt(ss[i], p);
      assert ss[i] in ss;
    }
  }

  lemma ReachedIn(ss: seq<AppliedSpan>, p: int)
    ensures Reached(ss, p) <==> exists s :: s in ss && s.start < p <= s.end
  {
    if Reached(ss, p) {
      var i :| 0 <= i < |ss| && ss[i].start < p <= ss[i].end;
      assert ss[i] in ss;
    }
  }
}
