/** What the marks of an annotated block say: the tag of every span reads back as its kind and values, and it
    stands at the span's own place. */
module ReaderMarks {
  import opened PyText
  import opened Sorting
  import opened ReaderExport
  import opened ReaderExportProofs

  // ---------- reading a tag ----------

  datatype Attribute = Attribute(name: string, value: string)

  /** How many characters stand before the first `c`. */
  function Until(s: string, c: char): (k: nat)
    ensures k <= |s| && c !in s[..k] && (k < |s| ==> s[k] == c)
  {
    if s == "" || s[0] == c then 0 else 1 + Until(s[1..], c)
  }

  /** An attribute value, with its entities decoded. */
  function Decode(value: string): string {
    if value == "" then ""
    else if "&amp;" <= value then "&" + Decode(value[5..])
    else if "&lt;" <= value then "<" + Decode(value[4..])
    else if "&gt;" <= value then ">" + Decode(value[4..])
    else if "&quot;" <= value then "\"" + Decode(value[6..])
    else [value[0]] + Decode(value[1..])
  }

  /** The `name="value"` pairs of a tag, each behind a space. */
  function ReadPairs(s: string): seq<Attribute>
    decreases |s|
  {
    var e := Until(s, '=');
    if e == 0 || e + 2 > |s| then []
    else
      var value := s[e + 2..];
      var q := Until(value, '"');
      [Attribute(s[1..e], Decode(value[..q]))] + if q < |value| then ReadPairs(value[q + 1..]) else []
  }

  /** The attributes of a `<span ...>` tag. */
  function ReadTag(tag: string): seq<Attribute>
    requires IsTag(tag)
  {
    if "<span" <= tag && |tag| > 5 then ReadPairs(tag[5..|tag| - 1]) else []
  }

  /** The number that decimal digits write. */
  function Number(digits: string): int {
    if digits == "" then 0
    else Number(digits[..|digits| - 1]) * 10 + (digits[|digits| - 1] as int - '0' as int)
  }

  // ---------- attribute values ----------

  function QuoteChar(c: char): string {
    if c == '"' then "&quot;" else EscapeChar(c)
  }

  function Quote(s: string): string {
    if s == "" then "" else QuoteChar(s[0]) + Quote(s[1..])
  }

  lemma {:induction false} QuotedEscape(s: string)
    ensures ReplaceChar(Escape(s), '"', "&quot;") == Quote(s)
  {
    if s != "" {
      ReplaceAppend(EscapeChar(s[0]), Escape(s[1..]), '"', "&quot;");
      QuotedEscape(s[1..]);
      if s[0] == '"' { Replace1('"', '"', "&quot;"); } else { Untouched(EscapeChar(s[0]), '"', "&quot;"); }
    }
  }

  lemma DecodeChar(c: char, tail: string)
    ensures Decode(QuoteChar(c) + tail) == [c] + Decode(tail)
  {
    var html := QuoteChar(c) + tail;
    if c == '&' {
      assert html[5..] == tail;
    } else if c == '<' {
      assert html[1] == 'l' && html[4..] == tail;
    } else if c == '>' {
      assert html[1] == 'g' && html[4..] == tail;
    } else if c == '"' {
      assert html[1] == 'q' && html[6..] == tail;
    } else {
      assert html[0] == c && html[1..] == tail;
    }
  }

  lemma {:induction false} DecodeQuote(s: string)
    ensures Decode(Quote(s)) == s
  {
    hide Decode, QuoteChar;
    if s == "" {
      assert Decode("") == "" by { DecodeNothing(); }
    } else {
      DecodeChar(s[0], Quote(s[1..]));
      DecodeQuote(s[1..]);
    }
  }

  lemma DecodeNothing()
    ensures Decode("") == ""
  {
  }

  lemma {:induction false} QuoteLacks(s: string)
    ensures '"' !in Quote(s)
  {
    if s != "" { QuoteLacks(s[1..]); }
  }

  /** What an attribute value can carry: legal characters, with LF for its line breaks. */
  function Carried(value: string): string {
    Newlines(DropIllegal(value))
  }

  lemma XmlAttrDecodes(value: string)
    ensures Decode(XmlAttr(value)) == Carried(value) && '"' !in XmlAttr(value)
  {
    XmlTextIsEscape(value);
    QuotedEscape(Carried(value));
    DecodeQuote(Carried(value));
    QuoteLacks(Carried(value));
  }

  lemma {:induction false} UntilIs(a: string, c: char, rest: string)
    requires c !in a
    ensures Until(a + [c] + rest, c) == |a|
  {
    if a == "" {
      assert (a + [c] + rest)[0] == c;
    } else {
      assert a[0] != c && (a + [c] + rest)[1..] == a[1..] + [c] + rest;
      UntilIs(a[1..], c, rest);
    }
  }

  lemma PairsAt(s: string, e: nat, q: nat)
    requires 0 < e == Until(s, '=') && e + 2 <= |s| && q == Until(s[e + 2..], '"') < |s| - e - 2
    ensures ReadPairs(s) == [Attribute(s[1..e], Decode(s[e + 2..][..q]))] + ReadPairs(s[e + 2..][q + 1..])
  {
    hide Decode, Until;
  }

  lemma PairShape(name: string, value: string, rest: string)
    ensures var head, s := [' '] + name, [' '] + name + ['=', '"'] + value + ['"'] + rest;
            && s == head + ['='] + (['"'] + value + ['"'] + rest) && s[1..|head|] == name
            && |head| + 2 <= |s| && s[|head| + 2..] == value + ['"'] + rest
  {
    var head := [' '] + name;
    assert head + ['=', '"'] == head + ['='] + ['"'] && |head + ['=', '"']| == |head| + 2;
  }

  lemma ValueShape(value: string, rest: string)
    ensures (value + ['"'] + rest)[..|value|] == value && (value + ['"'] + rest)[|value| + 1..] == rest
  {
  }

  /** A pair at the front is read, and reading goes on behind it. */
  lemma ReadPair(name: string, value: string, rest: string)
    requires '=' !in name && '"' !in value
    ensures ReadPairs([' '] + name + ['=', '"'] + value + ['"'] + rest)
         == [Attribute(name, Decode(value))] + ReadPairs(rest)
  {
    hide Decode, ReadPairs, Until;
    var head, s := [' '] + name, [' '] + name + ['=', '"'] + value + ['"'] + rest;
    PairShape(name, value, rest);
    UntilIs(head, '=', ['"'] + value + ['"'] + rest);
    UntilIs(value, '"', rest);
    PairsAt(s, |head|, |value|);
    ValueShape(value, rest);
  }

  /** One printed attribute is read back, and reading goes on behind it. */
  lemma ReadAttr(name: string, value: string, rest: string)
    requires '=' !in name
    ensures ReadPairs(Attr(name, value) + rest) == [Attribute("data-prl-" + name, Carried(value))] + ReadPairs(rest)
  {
    var full, v := "data-prl-" + name, XmlAttr(value);
    XmlAttrDecodes(value);
    hide XmlAttr, Decode, ReadPairs, Carried;
    ReadPair(full, v, rest);
    assert Attr(name, value) + rest == [' '] + full + ['=', '"'] + v + ['"'] + rest;
  }

  lemma ReadNothing()
    ensures ReadPairs("") == []
  {
  }

  // ---------- what a mark says ----------

  function Given(name: string, value: string): seq<Attribute> {
    if value == "" then [] else [Attribute(name, Carried(value))]
  }

  /** What the tag of a span is to say: its kind, the spoken form of a pronunciation, the gender and the
      speaker of dialogue if they are known, the milliseconds of a pause, and nothing else. */
  ghost predicate SaysMark(said: seq<Attribute>, s: ReaderSpan) {
    match s.kind
    case Pronunciation =>
      said == [Attribute("data-prl-kind", "pronunciation")] + Given("data-prl-spoken", s.spoken)
    case Dialogue =>
      said == [Attribute("data-prl-kind", "dialogue")]
              + Given("data-prl-gender", s.gender) + Given("data-prl-speaker", s.speaker)
    case Skip => said == [Attribute("data-prl-kind", "skip")]
    case Pause => |said| == 1 && said[0].name == "data-prl-pause" && Number(said[0].value) == s.pauseMs
    case Narration => false
  }

  /** A span that is printed around its text. */
  predicate Wraps(s: ReaderSpan) {
    (s.kind.Dialogue? || s.kind.Pronunciation? || s.kind.Skip?) && s.start < s.end
  }

  /** An attribute that is printed only if it is given. */
  function Optional(given: bool, name: string, value: string): string {
    if given && value != "" then Attr(name, value) else ""
  }

  lemma ReadOptional(given: bool, name: string, value: string, rest: string)
    requires '=' !in name
    ensures ReadPairs(Optional(given, name, value) + rest)
         == (if given then Given("data-prl-" + name, value) else []) + ReadPairs(rest)
  {
    hide Attr, ReadPairs, Carried;
    if given && value != "" { ReadAttr(name, value, rest); } else { assert "" + rest == rest; }
  }

  function Spoken(s: ReaderSpan): string { Optional(s.kind.Pronunciation?, "spoken", s.spoken) }

  function Gender(s: ReaderSpan): string { Optional(s.kind.Dialogue?, "gender", s.gender) }

  function Speaker(s: ReaderSpan): string { Optional(s.kind.Dialogue?, "speaker", s.speaker) }

  lemma AttrsAre(s: ReaderSpan)
    ensures Attrs(s) == Attr("kind", KindName(s.kind)) + (Spoken(s) + (Gender(s) + Speaker(s)))
  {
    hide Attr, KindName;
  }

  lemma Names()
    ensures "data-prl-" + "kind" == "data-prl-kind" && "data-prl-" + "spoken" == "data-prl-spoken"
    ensures "data-prl-" + "gender" == "data-prl-gender" && "data-prl-" + "speaker" == "data-prl-speaker"
  {
  }

  lemma PairsRead(s: ReaderSpan)
    ensures ReadPairs(Spoken(s) + (Gender(s) + Speaker(s))) ==
            (if s.kind.Pronunciation? then Given("data-prl-spoken", s.spoken) else [])
            + ((if s.kind.Dialogue? then Given("data-prl-gender", s.gender) else [])
               + (if s.kind.Dialogue? then Given("data-prl-speaker", s.speaker) else []))
  {
    Names();
    hide Optional, Given, ReadPairs;
    var gender, speaker := Gender(s), Speaker(s);
    ReadOptional(s.kind.Pronunciation?, "spoken", s.spoken, gender + speaker);
    ReadOptional(s.kind.Dialogue?, "gender", s.gender, speaker);
    ReadOptional(s.kind.Dialogue?, "speaker", s.speaker, "");
    ReadNothing();
    assert speaker + "" == speaker;
  }

  lemma AttrsRead(s: ReaderSpan)
    ensures ReadPairs(Attrs(s)) ==
            [Attribute("data-prl-kind", KindName(s.kind))]
            + ((if s.kind.Pronunciation? then Given("data-prl-spoken", s.spoken) else [])
               + ((if s.kind.Dialogue? then Given("data-prl-gender", s.gender) else [])
                  + (if s.kind.Dialogue? then Given("data-prl-speaker", s.speaker) else [])))
  {
    Names();
    AttrsAre(s);
    PairsRead(s);
    KindCarried(s.kind);
    hide Attr, Attrs, KindName, ReadPairs, Given, Spoken, Gender, Speaker;
    ReadAttr("kind", KindName(s.kind), Spoken(s) + (Gender(s) + Speaker(s)));
  }

  lemma OpenReads(s: ReaderSpan)
    ensures IsTag(Open(s)) && ReadTag(Open(s)) == ReadPairs(Attrs(s))
  {
    OpenIsTag(s);
    hide IsTag, Attrs, ReadPairs;
    var tag := Open(s);
    assert tag[..5] == "<span" && tag[5..|tag| - 1] == Attrs(s);
  }

  lemma OpenSays(s: ReaderSpan)
    requires Wraps(s)
    ensures IsTag(Open(s)) && SaysMark(ReadTag(Open(s)), s)
  {
    OpenReads(s);
    AttrsRead(s);
    hide IsTag, Open, Attrs, ReadTag, ReadPairs, Carried, Given;
  }

  lemma NameHasLetters(k: Kind)
    ensures forall i :: 0 <= i < |KindName(k)| ==> 'a' <= KindName(k)[i] <= 'z'
  {
  }

  lemma KindCarried(k: Kind)
    ensures Carried(KindName(k)) == KindName(k)
  {
    NameHasLetters(k);
    var name := KindName(k);
    hide KindName, DropIllegal, Newlines;
    LegalTextKept(name);
    NewlinesKeep(name);
  }

  lemma {:induction false} NumberReads(n: nat)
    ensures Number(Decimal(n)) == n && '"' !in Decimal(n) && '&' !in Decimal(n)
  {
    if n >= 10 {
      NumberReads(n / 10);
      assert Decimal(n)[..|Decimal(n)| - 1] == Decimal(n / 10);
    } else {
      assert Decimal(n)[..0] == "";
    }
  }

  lemma {:induction false} DecodePlain(s: string)
    requires '&' !in s
    ensures Decode(s) == s
  {
    if s != "" {
      DecodePlain(s[1..]);
      assert s[0] != '&';
    }
  }

  /** A pause prints a tag of its milliseconds, closed at once. */
  lemma PauseSays(s: ReaderSpan) returns (tag: string)
    requires s.kind.Pause?
    ensures PauseTag(s) == tag + "</span>" && IsTag(tag) && tag[1] != '/' && SaysMark(ReadTag(tag), s)
  {
    var ms := Decimal(s.pauseMs);
    DecimalHasNoGreater(s.pauseMs);
    NumberReads(s.pauseMs);
    tag := PauseOpen(ms);
    hide Decimal, Number, ReadPairs, IsTag;
    PausePair(ms);
  }

  lemma PauseOpen(ms: string) returns (tag: string)
    requires '>' !in ms
    ensures tag == "<span data-prl-pause=\"" + ms + "\">" && IsTag(tag) && tag[1] != '/'
    ensures ReadTag(tag) == ReadPairs(" data-prl-pause=\"" + ms + "\"")
  {
    hide ReadPairs;
    tag := "<span data-prl-pause=\"" + ms + "\">";
    assert tag[..|tag| - 1] == "<span data-prl-pause=\"" + ms + "\"";
    assert tag[1] == 's' && tag[..5] == "<span";
    assert tag[5..|tag| - 1] == " data-prl-pause=\"" + ms + "\"";
  }

  lemma PausePair(ms: string)
    requires '"' !in ms && '&' !in ms
    ensures ReadPairs(" data-prl-pause=\"" + ms + "\"") == [Attribute("data-prl-pause", ms)]
  {
    PlainPair(" data-prl-pause=\"", "data-prl-pause", ms);
  }

  lemma PlainPair(head: string, name: string, value: string)
    requires head == [' '] + name + ['=', '"'] && '=' !in name && '"' !in value && '&' !in value
    ensures ReadPairs(head + value + "\"") == [Attribute(name, value)]
  {
    DecodePlain(value);
    hide Decode, ReadPairs;
    ReadPair(name, value, "");
    ReadNothing();
    assert head + value + "\"" == [' '] + name + ['=', '"'] + value + ['"'] + "";
  }

  // ---------- where a mark stands ----------

  /** Two spans that stand apart, or one inside the other and smaller. */
  predicate Nested(a: ReaderSpan, b: ReaderSpan) {
    || a.end <= b.start || b.end <= a.start
    || (a.start <= b.start && b.end <= a.end && a.end - a.start > b.end - b.start)
    || (b.start <= a.start && a.end <= b.end && b.end - b.start > a.end - a.start)
  }

  ghost predicate NestedFamily(spans: seq<ReaderSpan>) {
    forall a, b :: a in spans && b in spans && Wraps(a) && Wraps(b) && a != b ==> Nested(a, b)
  }

  ghost predicate PrintsBefore(html: string, printed: string, rest: string) {
    Erase(html + rest) == printed + Erase(rest)
  }

  /** In front of anything, `html` prints `printed`; spans may be left open. */
  ghost predicate PrintsAs(html: string, printed: string) {
    forall rest :: PrintsBefore(html, printed, rest)
  }

  ghost predicate PrintsLike(html: string, text: string) {
    exists printed :: PrintsAs(html, printed) && Like(printed, text)
  }

  lemma PrintsLikeAppend(a: string, x: string, b: string, y: string)
    requires PrintsLike(a, x) && PrintsLike(b, y)
    ensures PrintsLike(a + b, x + y)
  {
    hide Like;
    var p :| PrintsAs(a, p) && Like(p, x);
    var q :| PrintsAs(b, q) && Like(q, y);
    LikeAppend(p, x, q, y);
    forall rest ensures PrintsBefore(a + b, p + q, rest) {
      assert PrintsBefore(a, p, b + rest) && PrintsBefore(b, q, rest);
      assert (a + b) + rest == a + (b + rest);
      assert (p + q) + Erase(rest) == p + (q + Erase(rest));
    }
    assert PrintsAs(a + b, p + q);
  }

  lemma ReadingPrints(html: string, text: string)
    requires ReadsLike(html, text)
    ensures PrintsLike(html, text)
  {
    hide Like;
    var p :| ReadsAs(html, p) && Like(p, text);
    forall rest ensures PrintsBefore(html, p, rest) { assert ReadsBefore(html, p, rest, 0); }
    assert PrintsAs(html, p);
  }

  lemma TagPrints(tag: string)
    requires IsTag(tag)
    ensures PrintsLike(tag, "")
  {
    forall rest ensures PrintsBefore(tag, "", rest) { EraseTag(tag, rest, 0); }
    assert PrintsAs(tag, "");
    NothingIsLike();
  }

  lemma PrintedIsLike(html: string, text: string)
    requires PrintsLike(html, text)
    ensures Like(Erase(html), text)
  {
    hide Like;
    var p :| PrintsAs(html, p) && Like(p, text);
    assert PrintsBefore(html, p, "");
    assert html + "" == html && p + "" == p;
  }

  ghost predicate Around(html: string, before: string, part: string, after: string) {
    html == before + part + after
  }

  /** `part` stands in `html` behind something that prints `text`. */
  ghost predicate StandsAt(html: string, part: string, text: string) {
    exists before, after :: Around(html, before, part, after) && PrintsLike(before, text)
  }

  lemma StandsMore(html: string, part: string, text: string, front: string, fronted: string, back: string)
    requires StandsAt(html, part, text) && PrintsLike(front, fronted)
    ensures StandsAt(front + html + back, part, fronted + text)
  {
    hide PrintsLike;
    var before, after :| Around(html, before, part, after) && PrintsLike(before, text);
    PrintsLikeAppend(front, fronted, before, text);
    assert front + html + back == (front + before) + part + (after + back);
    assert Around(front + html + back, front + before, part, after + back);
  }

  lemma StandsFirst(part: string, front: string, fronted: string, back: string)
    requires PrintsLike(front, fronted)
    ensures StandsAt(front + part + back, part, fronted)
  {
    assert Around(front + part + back, front, part, back);
  }

  /** What a sibling prints. */
  ghost function Own(text: string, spans: seq<ReaderSpan>, s: ReaderSpan): string {
    if s.kind.Pause? then PauseTag(s) else Open(s) + Emit(text, spans, s.start, s.end, false) + "</span>"
  }

  predicate EmptyPause(s: ReaderSpan) {
    s.kind.Pause? && s.start == s.end
  }

  // ---------- every span of a nested family is marked ----------

  ghost predicate OuterSorted(ss: seq<ReaderSpan>) {
    forall i, j :: 0 <= i < j < |ss| ==> Outer(ss[i], ss[j])
  }

  /** A span is chosen, or a chosen span that sorts before it covers its start. */
  lemma {:induction false} ChosenCovers(contained: seq<ReaderSpan>, cursor: int, s: ReaderSpan)
    requires OuterSorted(contained) && s in contained && (Wraps(s) || EmptyPause(s)) && cursor <= s.start
    requires forall x :: x in contained ==> x.kind.Pause? || Wraps(x)
    ensures s in Chosen(contained, cursor) ||
            exists c :: c in Chosen(contained, cursor) && Wraps(c) && Outer(c, s) && c.start <= s.start < c.end
  {
    var h := contained[0];
    if h.start < cursor {
      ChosenCovers(contained[1..], cursor, s);
    } else if h != s {
      var next := if h.kind.Pause? then cursor else h.end;
      var k :| 0 <= k < |contained| && contained[k] == s;
      assert Outer(contained[0], contained[k]);
      assert h in Chosen(contained, cursor);
      if h.kind.Pause? || h.end <= s.start {
        assert contained[1..][k - 1] == s;
        ChosenCovers(contained[1..], next, s);
        assert forall c :: c in Chosen(contained[1..], next) ==> c in Chosen(contained, cursor);
      } else {
        assert h in contained;
      }
    }
  }

  lemma SiblingsCover(spans: seq<ReaderSpan>, start: int, end: int, top: bool, s: ReaderSpan)
    requires s in spans && (Wraps(s) || EmptyPause(s)) && Eligible(s, start, end, top) && NestedFamily(spans)
    ensures s in Siblings(spans, start, end, top) ||
            exists c :: c in Siblings(spans, start, end, top) && Wraps(c) && Eligible(s, c.start, c.end, false)
  {
    var contained := Contained(spans, start, end, top);
    var sorted := Sort(contained, Outer);
    ContainedIn(spans, start, end, top);
    SortKeeps(contained, Outer);
    SortSorts(contained, Outer);
    ChosenCovers(sorted, start, s);
    if s !in Siblings(spans, start, end, top) {
      var c :| c in Chosen(sorted, start) && Wraps(c) && Outer(c, s) && c.start <= s.start < c.end;
      ChosenIn(sorted, start);
      assert c in spans && c != s;
      assert Wraps(s) ==> Nested(c, s);
    }
  }

  lemma EmitStep(text: string, spans: seq<ReaderSpan>, left: seq<ReaderSpan>, cursor: nat, start: nat, end: nat,
                 top: bool)
    requires left != [] && forall s :: s in left ==> Eligible(s, start, end, top)
    requires cursor <= left[0].start <= |text|
    ensures EmitFrom(text, spans, left, cursor, start, end, top)
         == (XmlText(text[cursor..left[0].start]) + Own(text, spans, left[0]))
            + EmitFrom(text, spans, left[1..], After(left[0]), start, end, top)
  {
    hide Emit, Open, XmlText, PauseTag, Eligible;
    var h := left[0];
    CutIs(text, cursor, h.start);
    var gap := XmlText(text[cursor..h.start]);
    if !h.kind.Pause? {
      var inner := Emit(text, spans, h.start, h.end, false);
      assert gap + Open(h) + inner + "</span>" == gap + (Open(h) + inner + "</span>");
    }
  }

  /** The gap in front of a sibling, and the sibling, print their own stretch of the block. */
  lemma OwnPrints(text: string, spans: seq<ReaderSpan>, h: ReaderSpan, cursor: nat)
    requires ProperPauses(spans) && h in spans && cursor <= h.start <= h.end <= |text|
    ensures PrintsLike(XmlText(text[cursor..h.start]), text[cursor..h.start])
    ensures PrintsLike(XmlText(text[cursor..h.start]) + Own(text, spans, h), text[cursor..After(h)])
  {
    hide PrintsLike, ReadsLike, XmlText, Open, PauseTag, Emit;
    var gap := XmlText(text[cursor..h.start]);
    TextReadsLike(text[cursor..h.start]);
    ReadingPrints(gap, text[cursor..h.start]);
    if h.kind.Pause? {
      PauseReads(text, h, cursor);
      ReadingPrints(gap + PauseTag(h), text[cursor..h.start]);
    } else {
      var inner := Emit(text, spans, h.start, h.end, false);
      EmitReads(text, spans, h.start, h.end, false);
      HeadReads(text, h, cursor, inner);
      assert gap + Open(h) + inner + "</span>" == gap + Own(text, spans, h);
      ReadingPrints(gap + Own(text, spans, h), text[cursor..h.end]);
    }
  }

  /** Each sibling of an interval is printed at its place. */
  lemma {:induction false} SiblingStands(text: string, spans: seq<ReaderSpan>, left: seq<ReaderSpan>, cursor: nat,
                                         start: nat, end: nat, top: bool, c: ReaderSpan)
    requires ProperPauses(spans) && start <= cursor <= end <= |text|
    requires (forall s :: s in left ==> s in spans && Eligible(s, start, end, top)) && Chain(left, cursor) && c in left
    ensures cursor <= c.start <= end
    ensures StandsAt(EmitFrom(text, spans, left, cursor, start, end, top), Own(text, spans, c), text[cursor..c.start])
    decreases |left|
  {
    hide PrintsLike, StandsAt, XmlText, Own, Emit, EmitFrom;
    var h := left[0];
    assert h in spans && Eligible(h, start, end, top);
    var gap, tail := XmlText(text[cursor..h.start]), EmitFrom(text, spans, left[1..], After(h), start, end, top);
    EmitStep(text, spans, left, cursor, start, end, top);
    OwnPrints(text, spans, h, cursor);
    if h == c {
      StandsFirst(Own(text, spans, c), gap, text[cursor..c.start], tail);
    } else {
      SiblingStands(text, spans, left[1..], After(h), start, end, top, c);
      StandsMore(tail, Own(text, spans, c), text[After(h)..c.start], gap + Own(text, spans, h), text[cursor..After(h)],
                 "");
      assert text[cursor..After(h)] + text[After(h)..c.start] == text[cursor..c.start];
      assert (gap + Own(text, spans, h)) + tail + "" == (gap + Own(text, spans, h)) + tail;
    }
  }

  lemma SiblingsStand(text: string, spans: seq<ReaderSpan>, start: nat, end: nat, top: bool, c: ReaderSpan)
    requires ProperPauses(spans) && start <= end <= |text| && c in Siblings(spans, start, end, top)
    ensures Eligible(c, start, end, top) && start <= c.start <= end
    ensures StandsAt(Emit(text, spans, start, end, top), Own(text, spans, c), text[start..c.start])
  {
    hide StandsAt, Own, EmitFrom, Siblings;
    SiblingsEligible(spans, start, end, top);
    SiblingsChain(spans, start, end, top);
    SiblingStands(text, spans, Siblings(spans, start, end, top), start, start, end, top, c);
  }

  lemma {:induction false} NestedStands(text: string, spans: seq<ReaderSpan>, start: nat, end: nat, top: bool,
                                        s: ReaderSpan)
    requires ProperPauses(spans) && NestedFamily(spans) && start <= end <= |text|
    requires s in spans && (Wraps(s) || EmptyPause(s)) && Eligible(s, start, end, top)
    ensures StandsAt(Emit(text, spans, start, end, top), Own(text, spans, s), text[start..s.start])
    decreases end - start, if top then 1 else 0
  {
    hide StandsAt, Own, NestedFamily, Emit, ProperPauses, Siblings;
    SiblingsCover(spans, start, end, top, s);
    if s in Siblings(spans, start, end, top) {
      SiblingsStand(text, spans, start, end, top, s);
    } else {
      var c :| c in Siblings(spans, start, end, top) && Wraps(c) && Eligible(s, c.start, c.end, false);
      SiblingsStand(text, spans, start, end, top, c);
      NestedStands(text, spans, c.start, c.end, false, s);
      StandsInside(text, spans, c, s);
      StandsThrough(Emit(text, spans, start, end, top), Own(text, spans, c), Own(text, spans, s), text[start..c.start],
                    text[c.start..s.start]);
      assert text[start..c.start] + text[c.start..s.start] == text[start..s.start];
    }
  }

  lemma StandsInside(text: string, spans: seq<ReaderSpan>, c: ReaderSpan, s: ReaderSpan)
    requires Wraps(c) && 0 <= c.start <= s.start && c.start < c.end <= |text| && s.start <= |text|
    requires StandsAt(Emit(text, spans, c.start, c.end, false), Own(text, spans, s), text[c.start..s.start])
    ensures StandsAt(Own(text, spans, c), Own(text, spans, s), text[c.start..s.start])
  {
    hide StandsAt, PrintsLike, Emit, Open;
    OpenIsTag(c);
    TagPrints(Open(c));
    var part := Own(text, spans, s);
    StandsMore(Emit(text, spans, c.start, c.end, false), part, text[c.start..s.start], Open(c), "", "</span>");
    assert "" + text[c.start..s.start] == text[c.start..s.start];
  }

  lemma StandsThrough(html: string, mid: string, part: string, front: string, inner: string)
    requires StandsAt(html, mid, front) && StandsAt(mid, part, inner)
    ensures StandsAt(html, part, front + inner)
  {
    hide PrintsLike;
    var before, after :| Around(html, before, mid, after) && PrintsLike(before, front);
    StandsMore(mid, part, inner, before, front, after);
  }

  /** The span is printed at its own place: what stands before it prints the block up to its start, its tag
      says what it is to say, and what the tag wraps prints its own text. */
  ghost predicate MarkedAt(html: string, before: string, tag: string, inner: string, after: string,
                           text: string, s: ReaderSpan)
    requires 0 <= s.start <= s.end <= |text|
  {
    && html == before + (tag + inner + "</span>") + after
    && Like(Erase(before), text[..s.start])
    && IsTag(tag) && SaysMark(ReadTag(tag), s)
    && Like(Erase(inner), text[s.start..s.end])
  }

  lemma OwnIsMark(text: string, spans: seq<ReaderSpan>, s: ReaderSpan) returns (tag: string, inner: string)
    requires ProperPauses(spans) && (Wraps(s) || EmptyPause(s)) && 0 <= s.start <= s.end <= |text|
    ensures Own(text, spans, s) == tag + inner + "</span>"
    ensures IsTag(tag) && SaysMark(ReadTag(tag), s) && Like(Erase(inner), text[s.start..s.end])
  {
    hide Like, ReadTag, SaysMark, IsTag, Open, PauseTag, Emit;
    if s.kind.Pause? {
      tag := PauseSays(s);
      inner := "";
      NothingIsLike();
      assert text[s.start..s.end] == "";
    } else {
      tag := Open(s);
      OpenSays(s);
      inner := Emit(text, spans, s.start, s.end, false);
      EmitReads(text, spans, s.start, s.end, false);
      ReadingPrints(inner, text[s.start..s.end]);
      PrintedIsLike(inner, text[s.start..s.end]);
    }
  }

  /** When the marked spans of a block are nested or apart, every one of them, and every empty pause, is
      printed at its own place with a tag that says what it is. */
  lemma EverySpanIsMarked(text: string, spans: seq<ReaderSpan>, s: ReaderSpan)
    requires ProperPauses(spans) && NestedFamily(spans)
    requires s in spans && (Wraps(s) || EmptyPause(s)) && 0 <= s.start && s.end <= |text|
    ensures exists before, tag, inner, after ::
              MarkedAt(AnnotateText(text, spans), before, tag, inner, after, text, s)
  {
    hide Like, ReadTag, SaysMark, IsTag, Own, Emit, PrintsLike, NestedFamily;
    var html, part := AnnotateText(text, spans), Own(text, spans, s);
    NestedStands(text, spans, 0, |text|, true, s);
    assert text[0..s.start] == text[..s.start];
    var before, after :| Around(html, before, part, after) && PrintsLike(before, text[..s.start]);
    PrintedIsLike(before, text[..s.start]);
    var tag, inner := OwnIsMark(text, spans, s);
    assert MarkedAt(html, before, tag, inner, after, text, s);
  }

  // ---------- marks on the same stretch ----------

  /** The kinds in the order of their names. */
  predicate NamedFirst(a: Kind, b: Kind) {
    (a.Dialogue? && (b.Pronunciation? || b.Skip?)) || (a.Pronunciation? && b.Skip?)
  }

  lemma HasMember(ss: seq<ReaderSpan>)
    ensures ss != [] ==> exists s :: s in ss
  {
    if ss != [] { assert ss[0] in ss; }
  }

  lemma NoSiblings(text: string, spans: seq<ReaderSpan>, start: nat, end: nat)
    requires start <= end <= |text| && forall s :: s in spans ==> s.start == start && s.end == end
    ensures Emit(text, spans, start, end, false) == XmlText(text[start..end])
  {
    ContainedIn(spans, start, end, false);
    var contained := Contained(spans, start, end, false);
    HasMember(contained);
    CutIs(text, start, end);
  }

  lemma OneSibling(text: string, spans: seq<ReaderSpan>, x: ReaderSpan)
    requires 0 <= x.start < x.end <= |text| && Wraps(x) && Siblings(spans, 0, |text|, true) == [x]
    requires forall s :: s in spans ==> s.start == x.start && s.end == x.end
    ensures AnnotateText(text, spans)
         == XmlText(text[..x.start]) + Open(x) + XmlText(text[x.start..x.end]) + "</span>" + XmlText(text[x.end..])
  {
    hide XmlText, Open, Siblings;
    NoSiblings(text, spans, x.start, x.end);
    EmitStep(text, spans, [x], 0, 0, |text|, true);
    CutIs(text, x.end, |text|);
    assert text[0..x.start] == text[..x.start] && text[x.end..|text|] == text[x.end..];
    assert [x][1..] == [];
    var front, inner, back := XmlText(text[..x.start]), XmlText(text[x.start..x.end]), XmlText(text[x.end..]);
    assert front + (Open(x) + inner + "</span>") + back == front + Open(x) + inner + "</span>" + back;
  }

  lemma SortTwo(x: ReaderSpan, y: ReaderSpan)
    requires Outer(x, y) && !Outer(y, x)
    ensures Sort([x, y], Outer) == [x, y] && Sort([y, x], Outer) == [x, y]
  {
    SortOne(x);
    SortOne(y);
    assert [x, y][1..] == [y] && [y, x][1..] == [x] && [x][1..] == [];
    assert Sort([x, y], Outer) == Insert(x, [y], Outer) && Sort([y, x], Outer) == Insert(y, [x], Outer);
    assert Insert(y, [], Outer) == [y];
  }

  lemma ChosenFirst(x: ReaderSpan, y: ReaderSpan)
    requires 0 <= x.start < x.end && y.start == x.start && !x.kind.Pause?
    ensures Chosen([x, y], 0) == [x] && Chosen([x], 0) == [x]
  {
    assert [x, y][1..] == [y] && [y][1..] == [] && [x][1..] == [];
    assert Chosen([], x.end) == [] && Chosen([y], x.end) == Chosen([y][1..], x.end);
  }

  lemma BothContained(x: ReaderSpan, y: ReaderSpan, n: nat)
    requires 0 <= x.start < x.end <= n && y.start == x.start && y.end == x.end && Wraps(x) && Wraps(y)
    ensures Contained([x, y], 0, n, true) == [x, y] && Contained([x], 0, n, true) == [x]
  {
    assert [x, y][1..] == [y] && [y][1..] == [] && [x][1..] == [];
    assert Contained([y], 0, n, true) == [y];
  }

  /** Of two marks on the same stretch only the one whose kind has the first name is printed. */
  lemma SameStretchFirstByName(text: string, x: ReaderSpan, y: ReaderSpan)
    requires 0 <= x.start < x.end <= |text| && y.start == x.start && y.end == x.end
    requires Wraps(x) && Wraps(y) && NamedFirst(x.kind, y.kind)
    ensures AnnotateText(text, [x, y]) == AnnotateText(text, [x])
    ensures AnnotateText(text, [y, x]) == AnnotateText(text, [x])
  {
    hide AnnotateText, Chosen, Contained, Sort;
    BothContained(x, y, |text|);
    BothContained(y, x, |text|);
    SortTwo(x, y);
    SortOne(x);
    ChosenFirst(x, y);
    OneSibling(text, [x, y], x);
    OneSibling(text, [y, x], x);
    OneSibling(text, [x], x);
  }

  lemma SortOne(x: ReaderSpan)
    ensures Sort([x], Outer) == [x]
  {
    assert [x][1..] == [];
  }
}
