/** Reading the lector markup back: erasing the tags and decoding the entities of an annotated block
    gives its printed text, and every opened span is closed in nested order. */
module ReaderExportProofs {
  import opened PyText
  import opened Sorting
  import opened ReaderExport

  /** The rest of the document after the tag that is open at its front. */
  function AfterTag(html: string): (rest: string)
    ensures html != "" ==> |rest| < |html|
  {
    if html == "" then "" else if html[0] == '>' then html[1..] else AfterTag(html[1..])
  }

  /** The printed text of a document: tags go, entities are decoded. */
  function Erase(html: string): string
    decreases |html|
  {
    if html == "" then ""
    else if html[0] == '<' then Erase(AfterTag(html))
    else if "&amp;" <= html then "&" + Erase(html[5..])
    else if "&lt;" <= html then "<" + Erase(html[4..])
    else if "&gt;" <= html then ">" + Erase(html[4..])
    else [html[0]] + Erase(html[1..])
  }

  /** Read with `depth` spans open, the document closes each span after those opened inside it, and
      ends with none open. */
  predicate WellNested(html: string, depth: nat)
    decreases |html|
  {
    if html == "" then depth == 0
    else if html[0] != '<' then WellNested(html[1..], depth)
    else if |html| > 1 && html[1] == '/' then depth > 0 && WellNested(AfterTag(html), depth - 1)
    else WellNested(AfterTag(html), depth + 1)
  }

  // ---------- escaped text ----------

  function EscapeChar(c: char): string {
    if c == '&' then "&amp;" else if c == '<' then "&lt;" else if c == '>' then "&gt;" else [c]
  }

  function Escape(s: string): string {
    if s == "" then "" else EscapeChar(s[0]) + Escape(s[1..])
  }

  lemma {:induction false} ReplaceAppend(a: string, b: string, c: char, into: string)
    ensures ReplaceChar(a + b, c, into) == ReplaceChar(a, c, into) + ReplaceChar(b, c, into)
  {
    if a == "" {
      assert a + b == b;
    } else {
      assert (a + b)[1..] == a[1..] + b;
      ReplaceAppend(a[1..], b, c, into);
    }
  }

  function Escaped3(s: string): string {
    ReplaceChar(ReplaceChar(ReplaceChar(s, '&', "&amp;"), '<', "&lt;"), '>', "&gt;")
  }

  lemma EscapeCharIsEscaped3(c: char)
    ensures Escaped3([c]) == EscapeChar(c)
  {
    Replace1(c, '&', "&amp;");
    if c == '&' {
      Untouched("&amp;", '<', "&lt;");
      Untouched("&amp;", '>', "&gt;");
    } else {
      Replace1(c, '<', "&lt;");
      if c == '<' { Untouched("&lt;", '>', "&gt;"); } else { Replace1(c, '>', "&gt;"); }
    }
  }

  lemma Replace1(x: char, c: char, into: string)
    ensures ReplaceChar([x], c, into) == if x == c then into else [x]
  {
    assert [x][1..] == "";
  }

  lemma {:induction false} Untouched(s: string, c: char, into: string)
    requires c !in s
    ensures ReplaceChar(s, c, into) == s
  {
    if s != "" { Untouched(s[1..], c, into); }
  }

  /** The three replacements, one after the other, escape character by character. */
  lemma {:induction false} Escaped3IsEscape(s: string)
    ensures Escaped3(s) == Escape(s)
  {
    if s != "" {
      assert s == [s[0]] + s[1..];
      ReplaceAppend([s[0]], s[1..], '&', "&amp;");
      ReplaceAppend(ReplaceChar([s[0]], '&', "&amp;"), ReplaceChar(s[1..], '&', "&amp;"), '<', "&lt;");
      ReplaceAppend(ReplaceChar(ReplaceChar([s[0]], '&', "&amp;"), '<', "&lt;"),
                    ReplaceChar(ReplaceChar(s[1..], '&', "&amp;"), '<', "&lt;"), '>', "&gt;");
      EscapeCharIsEscaped3(s[0]);
      Escaped3IsEscape(s[1..]);
    }
  }

  lemma XmlTextIsEscape(s: string)
    ensures XmlText(s) == Escape(Newlines(DropIllegal(s)))
  {
    Escaped3IsEscape(Newlines(DropIllegal(s)));
  }

  lemma {:induction false} EraseEscape(s: string, rest: string)
    ensures Erase(Escape(s) + rest) == s + Erase(rest)
  {
    if s == "" {
      assert Escape(s) + rest == rest;
    } else {
      var tail := Escape(s[1..]) + rest;
      assert Escape(s) + rest == EscapeChar(s[0]) + tail;
      calc {
        Erase(Escape(s) + rest);
        Erase(EscapeChar(s[0]) + tail);
        { EraseChar(s[0], tail); }
        [s[0]] + Erase(tail);
        { EraseEscape(s[1..], rest); }
        [s[0]] + (s[1..] + Erase(rest));
        { assert s == [s[0]] + s[1..]; }
        s + Erase(rest);
      }
    }
  }

  lemma EraseChar(c: char, tail: string)
    ensures Erase(EscapeChar(c) + tail) == [c] + Erase(tail)
  {
    var html := EscapeChar(c) + tail;
    if c == '&' {
      assert html[5..] == tail;
    } else if c == '<' {
      assert html[0] == '&' && html[1] == 'l' && "&lt;" <= html;
      assert html[4..] == tail;
    } else if c == '>' {
      assert html[0] == '&' && html[1] == 'g' && "&gt;" <= html;
      assert html[4..] == tail;
    } else {
      assert html[0] == c && html[1..] == tail;
    }
  }

  lemma {:induction false} NestedEscape(s: string, rest: string, depth: nat)
    ensures WellNested(Escape(s) + rest, depth) == WellNested(rest, depth)
  {
    if s == "" {
      assert Escape(s) + rest == rest;
    } else {
      var tail := Escape(s[1..]) + rest;
      assert Escape(s) + rest == EscapeChar(s[0]) + tail;
      NestedPlain(EscapeChar(s[0]), tail, depth);
      NestedEscape(s[1..], rest, depth);
    }
  }

  lemma {:induction false} NestedPlain(s: string, rest: string, depth: nat)
    requires '<' !in s
    ensures WellNested(s + rest, depth) == WellNested(rest, depth)
  {
    if s == "" {
      assert s + rest == rest;
    } else {
      assert (s + rest)[1..] == s[1..] + rest;
      NestedPlain(s[1..], rest, depth);
    }
  }

  // ---------- tags ----------

  /** A tag: it opens with `<`, and its only `>` closes it. */
  predicate IsTag(t: string) {
    |t| >= 2 && t[0] == '<' && t[|t| - 1] == '>' && '>' !in t[..|t| - 1]
  }

  lemma {:induction false} AfterTagIs(t: string, rest: string)
    requires t != "" && t[|t| - 1] == '>' && '>' !in t[..|t| - 1]
    ensures AfterTag(t + rest) == rest
  {
    if |t| == 1 {
      assert (t + rest)[1..] == rest;
    } else {
      assert t[0] in t[..|t| - 1];
      assert (t + rest)[1..] == t[1..] + rest;
      assert t[1..][..|t| - 2] == t[..|t| - 1][1..];
      AfterTagIs(t[1..], rest);
    }
  }

  lemma EraseTag(t: string, rest: string, depth: nat)
    requires IsTag(t)
    ensures Erase(t + rest) == Erase(rest)
    ensures t[1] != '/' ==> WellNested(t + rest, depth) == WellNested(rest, depth + 1)
    ensures t[1] == '/' ==> WellNested(t + rest, depth) == (depth > 0 && WellNested(rest, depth - 1))
  {
    AfterTagIs(t, rest);
    assert (t + rest)[0] == t[0] && (t + rest)[1] == t[1];
  }

  lemma {:induction false} ReplaceRemoves(s: string, c: char, into: string, d: char)
    requires d !in into && (d == c || d !in s)
    ensures d !in ReplaceChar(s, c, into)
  {
    if s != "" { ReplaceRemoves(s[1..], c, into, d); }
  }

  lemma AttrHasNoGreater(value: string)
    ensures '>' !in XmlAttr(value)
  {
    var inner := ReplaceChar(ReplaceChar(Newlines(DropIllegal(value)), '&', "&amp;"), '<', "&lt;");
    ReplaceRemoves(inner, '>', "&gt;", '>');
    ReplaceRemoves(XmlText(value), '"', "&quot;", '>');
  }

  lemma AttrLacks(name: string, value: string)
    requires '>' !in name
    ensures '>' !in Attr(name, value)
  {
    AttrHasNoGreater(value);
  }

  lemma AttrsLack(span: ReaderSpan)
    ensures '>' !in Attrs(span)
  {
    AttrLacks("kind", KindName(span.kind));
    AttrLacks("spoken", span.spoken);
    AttrLacks("gender", span.gender);
    AttrLacks("speaker", span.speaker);
  }

  lemma OpenIsTag(span: ReaderSpan)
    ensures IsTag(Open(span)) && Open(span)[1] != '/'
  {
    AttrsLack(span);
    var body := "<span" + Attrs(span);
    assert Open(span) == body + ">" && Open(span)[..|Open(span)| - 1] == body;
    assert body[0] == '<' && body[1] == 's';
  }

  lemma {:induction false} DecimalHasNoGreater(n: nat)
    ensures '>' !in Decimal(n)
  {
    if n >= 10 { DecimalHasNoGreater(n / 10); }
  }

  lemma ErasePause(span: ReaderSpan, rest: string, depth: nat)
    ensures Erase(PauseTag(span) + rest) == Erase(rest)
    ensures WellNested(PauseTag(span) + rest, depth) == WellNested(rest, depth)
  {
    DecimalHasNoGreater(span.pauseMs);
    var tag := "<span data-prl-pause=\"" + Decimal(span.pauseMs) + "\">";
    assert tag[..|tag| - 1] == "<span data-prl-pause=\"" + Decimal(span.pauseMs) + "\"";
    assert IsTag(tag) && tag[1] == 's';
    assert PauseTag(span) + rest == tag + ("</span>" + rest);
    CloseIsTag();
    EraseTag(tag, "</span>" + rest, depth);
    EraseTag("</span>", rest, depth + 1);
  }

  lemma CloseIsTag()
    ensures IsTag("</span>") && "</span>"[1] == '/'
  {
    assert "</span>"[..6] == "</span";
  }

  // ---------- the siblings of one interval ----------

  /** The span table's CHECK constraint, for pauses: they do not end before they start. */
  ghost predicate ProperPauses(spans: seq<ReaderSpan>) {
    forall s :: s in spans && s.kind.Pause? ==> s.start <= s.end
  }

  function After(span: ReaderSpan): int {
    if span.kind.Pause? then span.start else span.end
  }

  /** Each sibling starts where the one before it ended, or later. */
  ghost predicate Chain(left: seq<ReaderSpan>, cursor: int) {
    left == [] || (cursor <= left[0].start && Chain(left[1..], After(left[0])))
  }

  ghost predicate StartsAscend(ss: seq<ReaderSpan>) {
    forall i, j :: 0 <= i < j < |ss| ==> ss[i].start <= ss[j].start
  }

  lemma {:induction false} ChosenChain(contained: seq<ReaderSpan>, cursor: int)
    requires StartsAscend(contained)
    ensures Chain(Chosen(contained, cursor), cursor)
  {
    if contained != [] {
      var span := contained[0];
      if span.start < cursor {
        ChosenChain(contained[1..], cursor);
      } else {
        var next := if span.kind.Pause? then cursor else span.end;
        var rest := Chosen(contained[1..], next);
        ChosenChain(contained[1..], next);
        if rest != [] {
          ChosenIn(contained[1..], next);
          assert rest[0] in contained[1..];
          var k :| 0 <= k < |contained[1..]| && contained[1..][k] == rest[0];
          assert contained[0].start <= contained[k + 1].start;
        }
        assert ([span] + rest)[1..] == rest;
      }
    }
  }

  lemma SiblingsChain(spans: seq<ReaderSpan>, start: int, end: int, top: bool)
    ensures Chain(Siblings(spans, start, end, top), start)
  {
    var contained := Contained(spans, start, end, top);
    SortSorts(contained, Outer);
    assert forall i, j :: 0 <= i < j < |Sort(contained, Outer)| ==>
      Outer(Sort(contained, Outer)[i], Sort(contained, Outer)[j]);
    ChosenChain(Sort(contained, Outer), start);
  }

  // ---------- what a stretch of text may read back as ----------

  predicate IsBreak(c: char) {
    c == '\r' || c == '\n'
  }

  /** The text without its line breaks. */
  function Unbroken(s: string): string {
    if s == "" then "" else (if IsBreak(s[0]) then "" else [s[0]]) + Unbroken(s[1..])
  }

  ghost predicate Clean(s: string) {
    forall i :: 0 <= i < |s| ==> !IllegalXml(s[i]) && s[i] != '\r'
  }

  /** `printed` is clean, and it is the text without the characters XML forbids, up to its line breaks;
      those are the same too if the text has no CR. */
  ghost predicate Like(printed: string, text: string) {
    && Clean(printed)
    && Unbroken(printed) == Unbroken(DropIllegal(text))
    && ('\r' !in text ==> printed == DropIllegal(text))
  }

  lemma {:induction false} DropAppend(a: string, b: string)
    ensures DropIllegal(a + b) == DropIllegal(a) + DropIllegal(b)
  {
    if a == "" {
      assert a + b == b;
    } else {
      assert (a + b)[1..] == a[1..] + b;
      DropAppend(a[1..], b);
    }
  }

  lemma {:induction false} UnbrokenAppend(a: string, b: string)
    ensures Unbroken(a + b) == Unbroken(a) + Unbroken(b)
  {
    if a == "" {
      assert a + b == b;
    } else {
      assert (a + b)[1..] == a[1..] + b;
      UnbrokenAppend(a[1..], b);
    }
  }

  lemma LikeAppend(p: string, a: string, q: string, b: string)
    requires Like(p, a) && Like(q, b)
    ensures Like(p + q, a + b)
  {
    hide DropIllegal, Unbroken, IllegalXml;
    DropAppend(a, b);
    UnbrokenAppend(p, q);
    UnbrokenAppend(DropIllegal(a), DropIllegal(b));
  }

  lemma {:induction false} DropIsLegal(s: string)
    ensures forall i :: 0 <= i < |DropIllegal(s)| ==> !IllegalXml(DropIllegal(s)[i])
    ensures '\r' !in s ==> '\r' !in DropIllegal(s)
  {
    if s != "" { DropIsLegal(s[1..]); }
  }

  lemma {:induction false} NewlinesAreClean(s: string)
    requires forall i :: 0 <= i < |s| ==> !IllegalXml(s[i])
    ensures Clean(Newlines(s)) && Unbroken(Newlines(s)) == Unbroken(s)
  {
    if s == "" {
    } else if s[0] == '\r' && |s| > 1 && s[1] == '\n' {
      NewlinesAreClean(s[2..]);
      assert s[1..][1..] == s[2..];
      assert Unbroken(s) == Unbroken(s[1..]) == Unbroken(s[2..]);
      assert Newlines(s)[1..] == Newlines(s[2..]);
    } else {
      NewlinesAreClean(s[1..]);
      assert Newlines(s)[1..] == Newlines(s[1..]);
    }
  }

  lemma EscapedIsLike(text: string)
    ensures Like(Newlines(DropIllegal(text)), text)
  {
    DropIsLegal(text);
    NewlinesAreClean(DropIllegal(text));
    if '\r' !in text { NewlinesKeep(DropIllegal(text)); }
  }

  lemma NothingIsLike()
    ensures Like("", "")
  {
  }

  // ---------- printing and reading back ----------

  ghost predicate ReadsBefore(html: string, printed: string, rest: string, depth: nat) {
    && Erase(html + rest) == printed + Erase(rest)
    && WellNested(html + rest, depth) == WellNested(rest, depth)
  }

  /** Wherever `html` stands, it reads as `printed` and leaves as many spans open as before. */
  ghost predicate ReadsAs(html: string, printed: string) {
    forall rest, depth: nat :: ReadsBefore(html, printed, rest, depth)
  }

  lemma ReadsAppend(a: string, p: string, b: string, q: string)
    requires ReadsAs(a, p) && ReadsAs(b, q)
    ensures ReadsAs(a + b, p + q)
  {
    forall rest, depth: nat ensures ReadsBefore(a + b, p + q, rest, depth) {
      assert ReadsBefore(a, p, b + rest, depth) && ReadsBefore(b, q, rest, depth);
      assert (a + b) + rest == a + (b + rest);
      assert (p + q) + Erase(rest) == p + (q + Erase(rest));
    }
  }

  lemma ReadsText(text: string)
    ensures ReadsAs(XmlText(text), Newlines(DropIllegal(text)))
  {
    XmlTextIsEscape(text);
    hide XmlText, Newlines, DropIllegal, Escape, Erase, WellNested;
    forall rest, depth: nat ensures ReadsBefore(XmlText(text), Newlines(DropIllegal(text)), rest, depth) {
      EraseEscape(Newlines(DropIllegal(text)), rest);
      NestedEscape(Newlines(DropIllegal(text)), rest, depth);
    }
  }

  lemma ReadsPause(span: ReaderSpan)
    ensures ReadsAs(PauseTag(span), "")
  {
    hide PauseTag, Erase, WellNested;
    forall rest, depth: nat ensures ReadsBefore(PauseTag(span), "", rest, depth) {
      ErasePause(span, rest, depth);
      assert "" + Erase(rest) == Erase(rest);
    }
  }

  lemma WrappedBefore(span: ReaderSpan, inner: string, printed: string, rest: string, depth: nat)
    requires ReadsAs(inner, printed)
    ensures ReadsBefore(Open(span) + inner + "</span>", printed, rest, depth)
  {
    OpenIsTag(span);
    CloseIsTag();
    hide Open, Erase, WellNested, IsTag;
    var close := "</span>" + rest;
    EraseTag(Open(span), inner + close, depth);
    assert ReadsBefore(inner, printed, close, depth + 1);
    EraseTag("</span>", rest, depth + 1);
    assert (Open(span) + inner + "</span>") + rest == Open(span) + (inner + close);
  }

  lemma ReadsWrapped(span: ReaderSpan, inner: string, printed: string)
    requires ReadsAs(inner, printed)
    ensures ReadsAs(Open(span) + inner + "</span>", printed)
  {
    hide Open, ReadsBefore;
    forall rest, depth: nat ensures ReadsBefore(Open(span) + inner + "</span>", printed, rest, depth) {
      WrappedBefore(span, inner, printed, rest, depth);
    }
  }

  /** `html` reads as something like the text. */
  ghost predicate ReadsLike(html: string, text: string) {
    exists printed :: ReadsAs(html, printed) && Like(printed, text)
  }

  lemma ReadsLikeAppend(a: string, x: string, b: string, y: string)
    requires ReadsLike(a, x) && ReadsLike(b, y)
    ensures ReadsLike(a + b, x + y)
  {
    hide ReadsAs, Like;
    var p :| ReadsAs(a, p) && Like(p, x);
    var q :| ReadsAs(b, q) && Like(q, y);
    ReadsAppend(a, p, b, q);
    LikeAppend(p, x, q, y);
  }

  lemma TextReadsLike(text: string)
    ensures ReadsLike(XmlText(text), text)
  {
    hide ReadsAs, Like;
    ReadsText(text);
    EscapedIsLike(text);
  }

  lemma CutIs(text: string, a: nat, b: nat)
    requires a <= b <= |text|
    ensures Cut(text, a, b) == text[a..b]
  {
  }

  /** What an interval prints reads back as that interval. */
  lemma {:induction false} EmitReads(text: string, spans: seq<ReaderSpan>, start: nat, end: nat, top: bool)
    requires ProperPauses(spans) && start <= end <= |text|
    ensures ReadsLike(Emit(text, spans, start, end, top), text[start..end])
    decreases |text| + end - start, if top then 1 else 0, 1, 0
  {
    SiblingsEligible(spans, start, end, top);
    SiblingsChain(spans, start, end, top);
    EmitFromReads(text, spans, Siblings(spans, start, end, top), start, start, end, top);
  }

  lemma {:induction false} EmitFromReads(text: string, spans: seq<ReaderSpan>, left: seq<ReaderSpan>,
                                         cursor: nat, start: nat, end: nat, top: bool)
    requires ProperPauses(spans) && start <= cursor <= end <= |text|
    requires (forall s :: s in left ==> s in spans && Eligible(s, start, end, top)) && Chain(left, cursor)
    ensures ReadsLike(EmitFrom(text, spans, left, cursor, start, end, top), text[cursor..end])
    decreases |text| + end - start, if top then 1 else 0, 0, |left|
  {
    hide ReadsLike, XmlText, Open, PauseTag;
    if left == [] {
      CutIs(text, cursor, end);
      TextReadsLike(text[cursor..end]);
    } else {
      var span := left[0];
      assert span in spans && Eligible(span, start, end, top);
      var next := After(span);
      var tail := EmitFrom(text, spans, left[1..], next, start, end, top);
      EmitFromReads(text, spans, left[1..], next, start, end, top);
      CutIs(text, cursor, span.start);
      var before := XmlText(text[cursor..span.start]);
      var head;
      if span.kind.Pause? {
        head := before + PauseTag(span);
        PauseReads(text, span, cursor);
      } else {
        var inner := Emit(text, spans, span.start, span.end, false);
        head := before + Open(span) + inner + "</span>";
        EmitReads(text, spans, span.start, span.end, false);
        HeadReads(text, span, cursor, inner);
      }
      ReadsLikeAppend(head, text[cursor..next], tail, text[next..end]);
      assert text[cursor..next] + text[next..end] == text[cursor..end];
    }
  }

  lemma PauseReads(text: string, span: ReaderSpan, cursor: nat)
    requires cursor <= span.start <= |text|
    ensures ReadsLike(XmlText(text[cursor..span.start]) + PauseTag(span), text[cursor..span.start])
  {
    hide ReadsAs, Like, XmlText, PauseTag;
    TextReadsLike(text[cursor..span.start]);
    ReadsPause(span);
    NothingIsLike();
    assert ReadsLike(PauseTag(span), "");
    ReadsLikeAppend(XmlText(text[cursor..span.start]), text[cursor..span.start], PauseTag(span), "");
    assert text[cursor..span.start] + "" == text[cursor..span.start];
  }

  lemma HeadReads(text: string, span: ReaderSpan, cursor: nat, inner: string)
    requires cursor <= span.start <= span.end <= |text|
    requires ReadsLike(inner, text[span.start..span.end])
    ensures ReadsLike(XmlText(text[cursor..span.start]) + Open(span) + inner + "</span>", text[cursor..span.end])
  {
    hide ReadsAs, Like, XmlText, Open;
    var before, wrapped := XmlText(text[cursor..span.start]), Open(span) + inner + "</span>";
    TextReadsLike(text[cursor..span.start]);
    var p :| ReadsAs(inner, p) && Like(p, text[span.start..span.end]);
    ReadsWrapped(span, inner, p);
    assert ReadsLike(wrapped, text[span.start..span.end]);
    ReadsLikeAppend(before, text[cursor..span.start], wrapped, text[span.start..span.end]);
    assert text[cursor..span.start] + text[span.start..span.end] == text[cursor..span.end];
    assert before + wrapped == before + Open(span) + inner + "</span>";
  }

  /** Whatever spans a block carries, in any order and overlap, reading the annotated block back gives
      the block's text without the characters XML forbids and with LF for its line breaks, and every
      span that is opened is closed in nested order. */
  lemma AnnotateReadsBack(text: string, spans: seq<ReaderSpan>)
    requires ProperPauses(spans)
    ensures Like(Erase(AnnotateText(text, spans)), text)
    ensures WellNested(AnnotateText(text, spans), 0)
  {
    var html := AnnotateText(text, spans);
    hide Like;
    EmitReads(text, spans, 0, |text|, true);
    assert text[0..|text|] == text;
    var p :| ReadsAs(html, p) && Like(p, text);
    assert ReadsBefore(html, p, "", 0);
    assert html + "" == html && p + "" == p;
  }

  lemma {:induction false} LegalTextKept(text: string)
    requires forall i :: 0 <= i < |text| ==> !IllegalXml(text[i])
    ensures DropIllegal(text) == text
  {
    if text != "" { LegalTextKept(text[1..]); }
  }

  /** Print preservation: the text of a block survives the reader export unchanged if and only if it has
      no CR and no character that XML forbids. */
  lemma PrintPreserved(text: string, spans: seq<ReaderSpan>)
    requires ProperPauses(spans)
    ensures Erase(AnnotateText(text, spans)) == text <==>
            forall i :: 0 <= i < |text| ==> text[i] >= ' ' || text[i] == '\t' || text[i] == '\n'
  {
    assert forall c: char :: !IllegalXml(c) && c != '\r' <==> c >= ' ' || c == '\t' || c == '\n';
    hide IllegalXml;
    AnnotateReadsBack(text, spans);
    if Clean(text) { LegalTextKept(text); }
  }
}
