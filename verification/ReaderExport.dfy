/** `ebook/reader_export.py`: one block printed with nested lector markup. The spans come in any
    order and may overlap; each interval prints its siblings and recurses into them. */
module ReaderExport {
  import opened PyText
  import opened Sorting

  datatype Kind = Dialogue | Narration | Pause | Pronunciation | Skip

  datatype ReaderSpan = ReaderSpan(
    start: int, end: int, kind: Kind, spoken: string, gender: string, speaker: string, pauseMs: nat)

  // ---------- escaping ----------

  /** `str.replace` of one character. */
  function ReplaceChar(s: string, c: char, into: string): string {
    if s == "" then "" else (if s[0] == c then into else [s[0]]) + ReplaceChar(s[1..], c, into)
  }

  predicate IllegalXml(c: char) {
    c <= '\U{0008}' || c == '\U{000B}' || c == '\U{000C}' || '\U{000E}' <= c <= '\U{001F}'
  }

  function DropIllegal(s: string): string {
    if s == "" then "" else (if IllegalXml(s[0]) then "" else [s[0]]) + DropIllegal(s[1..])
  }

  function XmlText(value: string): string {
    ReplaceChar(ReplaceChar(ReplaceChar(Newlines(DropIllegal(value)), '&', "&amp;"), '<', "&lt;"), '>', "&gt;")
  }

  function XmlAttr(value: string): string {
    ReplaceChar(XmlText(value), '"', "&quot;")
  }

  function KindName(k: Kind): string {
    match k
    case Dialogue => "dialogue"
    case Narration => "narration"
    case Pause => "pause"
    case Pronunciation => "pronunciation"
    case Skip => "skip"
  }

  function Attr(name: string, value: string): string {
    " data-prl-" + name + "=\"" + XmlAttr(value) + "\""
  }

  function Attrs(span: ReaderSpan): string {
    Attr("kind", KindName(span.kind))
    + (if span.kind.Pronunciation? && span.spoken != "" then Attr("spoken", span.spoken) else "")
    + (if span.kind.Dialogue? && span.gender != "" then Attr("gender", span.gender) else "")
    + (if span.kind.Dialogue? && span.speaker != "" then Attr("speaker", span.speaker) else "")
  }

  function Open(span: ReaderSpan): string {
    "<span" + Attrs(span) + ">"
  }

  function PauseTag(span: ReaderSpan): string {
    "<span data-prl-pause=\"" + Decimal(span.pauseMs) + "\"></span>"
  }

  // ---------- choosing the spans of one interval ----------

  predicate Marked(k: Kind) {
    !k.Narration?
  }

  /** `_siblings` keeps this span for the interval [start, end). */
  predicate Eligible(span: ReaderSpan, start: int, end: int, top: bool) {
    && Marked(span.kind)
    && start <= span.start && span.end <= end
    && (top || !(span.start == start && span.end == end))
    && (span.kind.Pause? || span.start < span.end)
  }

  function Contained(spans: seq<ReaderSpan>, start: int, end: int, top: bool): seq<ReaderSpan> {
    if spans == [] then []
    else (if Eligible(spans[0], start, end, top) then [spans[0]] else []) + Contained(spans[1..], start, end, top)
  }

  function Rank(k: Kind): nat {
    match k case Dialogue => 0 case Narration => 1 case Pause => 2 case Pronunciation => 3 case Skip => 4
  }

  /** By start, the longer span first, then by kind. */
  predicate Outer(a: ReaderSpan, b: ReaderSpan) {
    a.start < b.start ||
    (a.start == b.start &&
      (a.end - a.start > b.end - b.start || (a.end - a.start == b.end - b.start && Rank(a.kind) <= Rank(b.kind))))
  }

  function Chosen(contained: seq<ReaderSpan>, cursor: int): seq<ReaderSpan> {
    if contained == [] then []
    else if contained[0].start < cursor then Chosen(contained[1..], cursor)
    else [contained[0]] + Chosen(contained[1..], if contained[0].kind.Pause? then cursor else contained[0].end)
  }

  function Siblings(spans: seq<ReaderSpan>, start: int, end: int, top: bool): seq<ReaderSpan> {
    Chosen(Sort(Contained(spans, start, end, top), Outer), start)
  }

  method ContainedLoop(spans: seq<ReaderSpan>, start: int, end: int, top: bool) returns (contained: seq<ReaderSpan>)
    ensures contained == Contained(spans, start, end, top)
  {
    hide Contained;
    contained := [];
    ghost var all := Contained(spans, start, end, top);
    var i := 0;
    assert spans[0..] == spans;
    while i < |spans|
      invariant 0 <= i <= |spans|
      invariant contained + Contained(spans[i..], start, end, top) == all
    {
      var span := spans[i];
      ghost var one := if Eligible(span, start, end, top) then [span] else [];
      ContainedStep(spans, i, start, end, top);
      Regroup(contained, one, Contained(spans[i + 1..], start, end, top), all);
      assert contained + [] == contained;
      i := i + 1;
      if !Marked(span.kind) { continue; }
      if span.start < start || span.end > end { continue; }
      if !top && span.start == start && span.end == end { continue; }
      if !span.kind.Pause? && span.end <= span.start { continue; }
      contained := contained + [span];
    }
    NoneContained(start, end, top);
    assert spans[i..] == [];
  }

  lemma ContainedStep(spans: seq<ReaderSpan>, i: nat, start: int, end: int, top: bool)
    requires i < |spans|
    ensures Contained(spans[i..], start, end, top)
         == (if Eligible(spans[i], start, end, top) then [spans[i]] else [])
             + Contained(spans[i + 1..], start, end, top)
  {
    hide Eligible;
    assert spans[i..][0] == spans[i] && spans[i..][1..] == spans[i + 1..];
  }

  lemma NoneContained(start: int, end: int, top: bool)
    ensures Contained([], start, end, top) == []
  {
  }

  method SiblingsLoop(spans: seq<ReaderSpan>, start: int, end: int, top: bool) returns (chosen: seq<ReaderSpan>)
    ensures chosen == Siblings(spans, start, end, top)
  {
    var contained := ContainedLoop(spans, start, end, top);
    var sorted := Sort(contained, Outer);
    chosen := [];
    var cursor := start;
    ghost var all := Chosen(sorted, start);
    var i := 0;
    while i < |sorted|
      invariant 0 <= i <= |sorted|
      invariant chosen + Chosen(sorted[i..], cursor) == all
    {
      var span := sorted[i];
      assert sorted[i..][0] == span && sorted[i..][1..] == sorted[i + 1..];
      i := i + 1;
      if span.start < cursor { continue; }
      Regroup(chosen, [span], Chosen(sorted[i..], if span.kind.Pause? then cursor else span.end), all);
      chosen := chosen + [span];
      if !span.kind.Pause? {
        cursor := span.end;
      }
    }
  }

  // ---------- printing ----------

  lemma {:induction false} ContainedIn(spans: seq<ReaderSpan>, start: int, end: int, top: bool)
    ensures forall s :: s in Contained(spans, start, end, top) <==> s in spans && Eligible(s, start, end, top)
  {
    if spans != [] { ContainedIn(spans[1..], start, end, top); }
  }

  lemma {:induction false} ChosenIn(contained: seq<ReaderSpan>, cursor: int)
    ensures forall s :: s in Chosen(contained, cursor) ==> s in contained
  {
    if contained != [] {
      ChosenIn(contained[1..], cursor);
      ChosenIn(contained[1..], contained[0].end);
    }
  }

  lemma SiblingsEligible(spans: seq<ReaderSpan>, start: int, end: int, top: bool)
    ensures forall s :: s in Siblings(spans, start, end, top) ==> s in spans && Eligible(s, start, end, top)
  {
    var contained := Contained(spans, start, end, top);
    ContainedIn(spans, start, end, top);
    SortKeeps(contained, Outer);
    ChosenIn(Sort(contained, Outer), start);
  }

  /** `text[a:b]` for an interval inside the block. */
  function Cut(text: string, a: int, b: int): string {
    if 0 <= a && 0 <= b then Slice(text, a, b) else ""
  }

  /** `_emit`. The interval shrinks, except once: a top interval may contain itself as a span. */
  function Emit(text: string, spans: seq<ReaderSpan>, start: int, end: int, top: bool): string
    decreases if end >= start then end - start else 0, if top then 1 else 0, 1, 0
  {
    SiblingsEligible(spans, start, end, top);
    EmitFrom(text, spans, Siblings(spans, start, end, top), start, start, end, top)
  }

  /** The rest of one interval, from the siblings not yet printed and the cursor. */
  function EmitFrom(text: string, spans: seq<ReaderSpan>, left: seq<ReaderSpan>, cursor: int,
                    start: int, end: int, top: bool): string
    requires forall s :: s in left ==> Eligible(s, start, end, top)
    decreases if end >= start then end - start else 0, if top then 1 else 0, 0, |left|
  {
    if left == [] then XmlText(Cut(text, cursor, end))
    else
      var span := left[0];
      assert Eligible(span, start, end, top);
      if span.kind.Pause? then
        (XmlText(Cut(text, cursor, span.start)) + PauseTag(span))
        + EmitFrom(text, spans, left[1..], span.start, start, end, top)
      else
        (XmlText(Cut(text, cursor, span.start)) + Open(span)
         + Emit(text, spans, span.start, span.end, false) + "</span>")
        + EmitFrom(text, spans, left[1..], span.end, start, end, top)
  }

  function AnnotateText(text: string, spans: seq<ReaderSpan>): string {
    Emit(text, spans, 0, |text|, true)
  }

  method EmitLoop(text: string, spans: seq<ReaderSpan>, start: int, end: int, top: bool) returns (html: string)
    ensures html == Emit(text, spans, start, end, top)
    decreases if end >= start then end - start else 0, if top then 1 else 0
  {
    html := "";
    var cursor := start;
    var siblings := SiblingsLoop(spans, start, end, top);
    SiblingsEligible(spans, start, end, top);
    var i := 0;
    while i < |siblings|
      invariant 0 <= i <= |siblings|
      invariant html + EmitFrom(text, spans, siblings[i..], cursor, start, end, top)
             == Emit(text, spans, start, end, top)
    {
      var span := siblings[i];
      ghost var left := siblings[i..];
      assert left[0] == span && left[1..] == siblings[i + 1..];
      assert Eligible(span, start, end, top);
      i := i + 1;
      if span.kind.Pause? {
        Regroup(html, XmlText(Cut(text, cursor, span.start)) + PauseTag(span),
                EmitFrom(text, spans, left[1..], span.start, start, end, top), Emit(text, spans, start, end, top));
        html := html + (XmlText(Cut(text, cursor, span.start)) + PauseTag(span));
        cursor := span.start;
        continue;
      }
      var inner := EmitLoop(text, spans, span.start, span.end, false);
      Regroup(html, XmlText(Cut(text, cursor, span.start)) + Open(span) + inner + "</span>",
              EmitFrom(text, spans, left[1..], span.end, start, end, top), Emit(text, spans, start, end, top));
      html := html + (XmlText(Cut(text, cursor, span.start)) + Open(span) + inner + "</span>");
      cursor := span.end;
    }
    assert siblings[i..] == [];
    html := html + XmlText(Cut(text, cursor, end));
  }
}
