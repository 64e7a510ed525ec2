/** How many marks an annotated block has: one for every span that wraps text, one for every pause, and one
    more for a pause at each span that ends where it stands. */
module ReaderCounts {
  import opened PyText
  import opened Sorting
  import opened ReaderExport
  import opened ReaderExportProofs
  import opened ReaderMarks

  /** The number of opening tags of a document. */
  function Opened(html: string): nat
    decreases |html|
  {
    if html == "" then 0
    else if html[0] != '<' then Opened(html[1..])
    else if |html| > 1 && html[1] == '/' then Opened(AfterTag(html))
    else 1 + Opened(AfterTag(html))
  }

  ghost predicate OpensBefore(html: string, n: int, rest: string) {
    Opened(html + rest) == n + Opened(rest)
  }

  /** Wherever `html` stands, it has `n` opening tags. */
  ghost predicate Opens(html: string, n: int) {
    forall rest :: OpensBefore(html, n, rest)
  }

  lemma OpensAppend(a: string, m: int, b: string, n: int)
    requires Opens(a, m) && Opens(b, n)
    ensures Opens(a + b, m + n)
  {
    var sum := m + n;
    forall rest ensures OpensBefore(a + b, sum, rest) {
      assert OpensBefore(a, m, b + rest) && OpensBefore(b, n, rest);
      assert (a + b) + rest == a + (b + rest);
    }
  }

  lemma {:induction false} OpenedPlain(s: string, rest: string)
    requires '<' !in s
    ensures Opened(s + rest) == Opened(rest)
  {
    if s == "" {
      assert s + rest == rest;
    } else {
      assert s[0] != '<' && (s + rest)[1..] == s[1..] + rest;
      OpenedPlain(s[1..], rest);
    }
  }

  lemma TextOpens(text: string)
    ensures Opens(XmlText(text), 0)
  {
    var inner := ReplaceChar(Newlines(DropIllegal(text)), '&', "&amp;");
    ReplaceRemoves(inner, '<', "&lt;", '<');
    ReplaceRemoves(ReplaceChar(inner, '<', "&lt;"), '>', "&gt;", '<');
    hide XmlText, Opened;
    forall rest ensures OpensBefore(XmlText(text), 0, rest) { OpenedPlain(XmlText(text), rest); }
  }

  lemma TagOpens(t: string)
    requires IsTag(t)
    ensures Opens(t, if t[1] == '/' then 0 else 1)
  {
    var n := if t[1] == '/' then 0 else 1;
    forall rest ensures OpensBefore(t, n, rest) {
      AfterTagIs(t, rest);
      assert (t + rest)[0] == t[0] && (t + rest)[1] == t[1];
    }
  }

  lemma PauseOpens(s: ReaderSpan)
    requires s.kind.Pause?
    ensures Opens(PauseTag(s), 1)
  {
    hide Opens, PauseTag, SaysMark, ReadTag;
    var tag := PauseSays(s);
    TagOpens(tag);
    CloseIsTag();
    TagOpens("</span>");
    OpensAppend(tag, 1, "</span>", 0);
  }

  lemma WrappedOpens(s: ReaderSpan, inner: string, n: int)
    requires Wraps(s) && Opens(inner, n)
    ensures Opens(Open(s) + inner + "</span>", 1 + n)
  {
    hide Opens, Open;
    OpenIsTag(s);
    TagOpens(Open(s));
    CloseIsTag();
    TagOpens("</span>");
    OpensAppend(Open(s), 1, inner, n);
    OpensAppend(Open(s) + inner, 1 + n, "</span>", 0);
  }

  // ---------- how many marks there should be ----------

  /** The spans that wrap text, in an interval. */
  ghost function Wrapping(spans: seq<ReaderSpan>, start: int, end: int, top: bool): set<ReaderSpan> {
    set s | s in spans && Wraps(s) && Eligible(s, start, end, top)
  }

  ghost function EndingAt(ws: set<ReaderSpan>, p: int): set<ReaderSpan> {
    set s | s in ws && s.end == p
  }

  /** How often a pause in [lo, hi] is printed: once, and once more for each wrapping span that ends there. */
  ghost function Times(ws: set<ReaderSpan>, lo: int, hi: int, p: ReaderSpan): int {
    if EmptyPause(p) && lo <= p.start <= hi then 1 + |EndingAt(ws, p.start)| else 0
  }

  ghost function PauseTimes(ps: seq<ReaderSpan>, ws: set<ReaderSpan>, lo: int, hi: int): int {
    if ps == [] then 0 else Times(ws, lo, hi, ps[0]) + PauseTimes(ps[1..], ws, lo, hi)
  }

  ghost function Marks(spans: seq<ReaderSpan>, start: int, end: int, top: bool): int {
    var ws := Wrapping(spans, start, end, top);
    |ws| + PauseTimes(spans, ws, start, end)
  }

  ghost predicate PausesAreEmpty(spans: seq<ReaderSpan>) {
    forall s :: s in spans && s.kind.Pause? ==> s.start == s.end
  }

  // ---------- sums over the pauses ----------

  lemma {:induction false} TimesAppend(ps: seq<ReaderSpan>, qs: seq<ReaderSpan>, ws: set<ReaderSpan>, lo: int, hi: int)
    ensures PauseTimes(ps + qs, ws, lo, hi) == PauseTimes(ps, ws, lo, hi) + PauseTimes(qs, ws, lo, hi)
  {
    hide Times;
    if ps == [] {
      assert ps + qs == qs;
    } else {
      assert (ps + qs)[1..] == ps[1..] + qs;
      TimesAppend(ps[1..], qs, ws, lo, hi);
    }
  }

  /** Taking one pause out of the list. */
  lemma TimesWithout(qs: seq<ReaderSpan>, k: nat, ws: set<ReaderSpan>, lo: int, hi: int)
    requires k < |qs|
    ensures PauseTimes(qs, ws, lo, hi) == Times(ws, lo, hi, qs[k]) + PauseTimes(qs[..k] + qs[k + 1..], ws, lo, hi)
  {
    hide Times;
    assert qs == qs[..k] + ([qs[k]] + qs[k + 1..]);
    TimesAppend(qs[..k], qs[k + 1..], ws, lo, hi);
    TimesAppend(qs[..k], [qs[k]] + qs[k + 1..], ws, lo, hi);
    assert ([qs[k]] + qs[k + 1..])[1..] == qs[k + 1..];
  }

  lemma HeadWithout(ps: seq<ReaderSpan>, qs: seq<ReaderSpan>, k: nat)
    requires ps != [] && k < |qs| && qs[k] == ps[0] && multiset(ps) == multiset(qs)
    ensures multiset(ps[1..]) == multiset(qs[..k] + qs[k + 1..])
  {
    assert ps == [ps[0]] + ps[1..];
    assert qs == qs[..k] + ([qs[k]] + qs[k + 1..]);
    assert multiset(ps[1..]) == multiset(ps) - multiset{ps[0]};
  }

  lemma {:induction false} TimesPermute(ps: seq<ReaderSpan>, qs: seq<ReaderSpan>, ws: set<ReaderSpan>, lo: int, hi: int)
    requires multiset(ps) == multiset(qs)
    ensures PauseTimes(ps, ws, lo, hi) == PauseTimes(qs, ws, lo, hi)
    decreases |ps|
  {
    hide Times;
    if ps == [] {
      assert |multiset(qs)| == |qs|;
    } else {
      assert ps[0] in multiset(ps);
      var k :| 0 <= k < |qs| && qs[k] == ps[0];
      TimesWithout(qs, k, ws, lo, hi);
      HeadWithout(ps, qs, k);
      TimesPermute(ps[1..], qs[..k] + qs[k + 1..], ws, lo, hi);
    }
  }

  lemma {:induction false} TimesNone(ps: seq<ReaderSpan>, ws: set<ReaderSpan>, lo: int, hi: int)
    requires forall p :: p in ps ==> Times(ws, lo, hi, p) == 0
    ensures PauseTimes(ps, ws, lo, hi) == 0
  {
    hide Times;
    if ps != [] {
      assert ps[0] in ps;
      TimesNone(ps[1..], ws, lo, hi);
    }
  }

  lemma {:induction false} TimesSplit(ps: seq<ReaderSpan>, ws: set<ReaderSpan>, lo: int, hi: int, us: set<ReaderSpan>,
                                      lu: int, hu: int, vs: set<ReaderSpan>, lv: int, hv: int)
    requires forall p :: p in ps ==> Times(ws, lo, hi, p) == Times(us, lu, hu, p) + Times(vs, lv, hv, p)
    ensures PauseTimes(ps, ws, lo, hi) == PauseTimes(ps, us, lu, hu) + PauseTimes(ps, vs, lv, hv)
  {
    hide Times;
    if ps != [] {
      assert ps[0] in ps;
      TimesSplit(ps[1..], ws, lo, hi, us, lu, hu, vs, lv, hv);
    }
  }

  /** What is not eligible is not printed. */
  lemma {:induction false} TimesContained(spans: seq<ReaderSpan>, start: int, end: int, top: bool,
                                          ws: set<ReaderSpan>, lo: int, hi: int)
    requires start <= lo && hi <= end && (top || start < end)
    ensures PauseTimes(Contained(spans, start, end, top), ws, lo, hi) == PauseTimes(spans, ws, lo, hi)
  {
    if spans != [] {
      TimesContained(spans[1..], start, end, top, ws, lo, hi);
      var one := if Eligible(spans[0], start, end, top) then [spans[0]] else [];
      TimesAppend(one, Contained(spans[1..], start, end, top), ws, lo, hi);
      assert !Eligible(spans[0], start, end, top) ==> Times(ws, lo, hi, spans[0]) == 0;
      assert [spans[0]][1..] == [];
    }
  }

  // ---------- the siblings of an interval print the marks ----------

  /** What siblings print, if each interval prints the marks it should. */
  ghost function Total(spans: seq<ReaderSpan>, left: seq<ReaderSpan>): int {
    if left == [] then 0
    else (if left[0].kind.Pause? then 1 else 1 + Marks(spans, left[0].start, left[0].end, false))
         + Total(spans, left[1..])
  }

  /** The wrapping spans of the list that start at the cursor or later. */
  ghost function From(rest: seq<ReaderSpan>, cursor: int): set<ReaderSpan> {
    set s | s in rest && Wraps(s) && s.start >= cursor
  }

  ghost function Ahead(rest: seq<ReaderSpan>, cursor: int, end: int): int {
    |From(rest, cursor)| + PauseTimes(rest, From(rest, cursor), cursor, end)
  }

  /** The spans of an interval, in their order. */
  ghost predicate IsRow(all: seq<ReaderSpan>, spans: seq<ReaderSpan>, start: int, end: int, top: bool) {
    && multiset(all) == multiset(Contained(spans, start, end, top))
    && (forall s :: s in all <==> s in spans && Eligible(s, start, end, top))
    && OuterSorted(all) && (top || start < end)
  }

  lemma TheRow(spans: seq<ReaderSpan>, start: int, end: int, top: bool)
    requires top || start < end
    ensures IsRow(Sort(Contained(spans, start, end, top), Outer), spans, start, end, top)
  {
    var contained := Contained(spans, start, end, top);
    RowSorted(contained);
    ContainedIn(spans, start, end, top);
    SortKeeps(contained, Outer);
    hide Contained, Sort, Outer, Eligible, OuterSorted;
  }

  lemma RowSorted(contained: seq<ReaderSpan>)
    ensures OuterSorted(Sort(contained, Outer))
  {
    SortSorts(contained, Outer);
  }

  lemma SkipHead(rest: seq<ReaderSpan>, cursor: int, end: int)
    requires rest != [] && rest[0].start < cursor
    ensures Ahead(rest, cursor, end) == Ahead(rest[1..], cursor, end)
  {
    assert From(rest, cursor) == From(rest[1..], cursor) by { assert rest == [rest[0]] + rest[1..]; }
  }

  lemma PauseHead(rest: seq<ReaderSpan>, cursor: int, end: int)
    requires rest != [] && EmptyPause(rest[0]) && cursor <= rest[0].start <= end && OuterSorted(rest)
    ensures Ahead(rest, cursor, end) == 1 + Ahead(rest[1..], cursor, end)
  {
    var ws, p := From(rest, cursor), rest[0].start;
    assert ws == From(rest[1..], cursor) by { assert rest == [rest[0]] + rest[1..]; }
    forall s | s in ws ensures s.end != p {
      var i :| 0 <= i < |rest| && rest[i] == s;
      assert i > 0 && Outer(rest[0], rest[i]);
    }
    assert EndingAt(ws, p) == {};
  }

  /** Behind a wrapping span `c` come the spans inside it and those that start at its end or later. */
  lemma RowSplits(all: seq<ReaderSpan>, k: nat, cursor: int, spans: seq<ReaderSpan>, start: int, end: int, top: bool)
    requires IsRow(all, spans, start, end, top) && NestedFamily(spans)
    requires k < |all| && Wraps(all[k]) && start <= cursor <= all[k].start
    ensures var c, ins := all[k], Wrapping(spans, all[k].start, all[k].end, false);
            && From(all[k..], cursor) == {c} + ins + From(all[k + 1..], c.end)
            && c !in ins && c !in From(all[k + 1..], c.end) && ins !! From(all[k + 1..], c.end)
  {
    var c, rest, later := all[k], all[k..], all[k + 1..];
    assert rest == [c] + later;
    assert c in all;
    forall s | s in From(rest, cursor) ensures s == c || Eligible(s, c.start, c.end, false) || s.start >= c.end {
      var i :| 0 <= i < |rest| && rest[i] == s;
      assert rest[i] == all[k + i] && s in all;
      assert i > 0 ==> Outer(all[k], all[k + i]);
      assert s != c ==> Nested(c, s);
    }
    forall s | s in Wrapping(spans, c.start, c.end, false) ensures s in rest {
      InsideComesLater(all, k, spans, start, end, top, s);
    }
  }

  lemma InsideComesLater(all: seq<ReaderSpan>, k: nat, spans: seq<ReaderSpan>, start: int, end: int, top: bool,
                         s: ReaderSpan)
    requires IsRow(all, spans, start, end, top) && k < |all| && Wraps(all[k])
    requires s in spans && Wraps(s) && Eligible(s, all[k].start, all[k].end, false)
    ensures s in all[k + 1..]
  {
    var c := all[k];
    assert c in all && Eligible(s, start, end, top);
    var j :| 0 <= j < |all| && all[j] == s;
    assert j > k;
    assert all[k + 1..][j - k - 1] == s;
  }

  lemma NoPauseBefore(all: seq<ReaderSpan>, k: nat, ins: set<ReaderSpan>)
    requires OuterSorted(all) && k < |all| && Wraps(all[k])
    ensures PauseTimes(all[..k + 1], ins, all[k].start, all[k].end) == 0
  {
    var c, first := all[k], all[..k + 1];
    forall p | p in first ensures Times(ins, c.start, c.end, p) == 0 {
      var i :| 0 <= i < |first| && first[i] == p;
      assert all[i] == p && (i < k ==> Outer(all[i], all[k]));
    }
    TimesNone(first, ins, c.start, c.end);
  }

  lemma RowTimes(all: seq<ReaderSpan>, spans: seq<ReaderSpan>, start: int, end: int, top: bool,
                 ws: set<ReaderSpan>, lo: int, hi: int)
    requires IsRow(all, spans, start, end, top) && start <= lo && hi <= end
    ensures PauseTimes(all, ws, lo, hi) == PauseTimes(spans, ws, lo, hi)
  {
    hide PauseTimes, Contained, Eligible, OuterSorted;
    TimesPermute(all, Contained(spans, start, end, top), ws, lo, hi);
    TimesContained(spans, start, end, top, ws, lo, hi);
  }

  /** The pauses inside `c` stand behind it. */
  lemma PausesInside(all: seq<ReaderSpan>, k: nat, spans: seq<ReaderSpan>, start: int, end: int, top: bool,
                     ins: set<ReaderSpan>)
    requires IsRow(all, spans, start, end, top) && k < |all| && Wraps(all[k])
    ensures PauseTimes(all[k + 1..], ins, all[k].start, all[k].end)
         == PauseTimes(spans, ins, all[k].start, all[k].end)
  {
    hide PauseTimes, OuterSorted, IsRow, Wraps;
    var c := all[k];
    RowHolds(all, k, spans, start, end, top);
    RowTimes(all, spans, start, end, top, ins, c.start, c.end);
    NoPauseBefore(all, k, ins);
    TailAlone(all, k, ins, c.start, c.end);
  }

  lemma RowHolds(all: seq<ReaderSpan>, k: nat, spans: seq<ReaderSpan>, start: int, end: int, top: bool)
    requires IsRow(all, spans, start, end, top) && k < |all|
    ensures start <= all[k].start && all[k].end <= end && OuterSorted(all)
  {
    assert all[k] in all;
  }

  lemma TailAlone(all: seq<ReaderSpan>, k: nat, ws: set<ReaderSpan>, lo: int, hi: int)
    requires k < |all| && PauseTimes(all[..k + 1], ws, lo, hi) == 0
    ensures PauseTimes(all[k + 1..], ws, lo, hi) == PauseTimes(all, ws, lo, hi)
  {
    TimesAppend(all[..k + 1], all[k + 1..], ws, lo, hi);
    assert all == all[..k + 1] + all[k + 1..];
  }

  lemma EndsSplit(ws: set<ReaderSpan>, c: ReaderSpan, ins: set<ReaderSpan>, later: set<ReaderSpan>, p: int)
    requires ws == {c} + ins + later && c !in ins
    requires (forall s :: s in ins ==> s.end <= c.end) && (forall s :: s in later ==> c.end < s.end)
    ensures p < c.end ==> EndingAt(ws, p) == EndingAt(ins, p)
    ensures p == c.end ==> |EndingAt(ws, p)| == 1 + |EndingAt(ins, p)| && EndingAt(later, p) == {}
    ensures p > c.end ==> EndingAt(ws, p) == EndingAt(later, p)
  {
    if p == c.end { assert EndingAt(ws, p) == {c} + EndingAt(ins, p); }
  }

  lemma WrapHead(all: seq<ReaderSpan>, k: nat, cursor: int, spans: seq<ReaderSpan>, start: int, end: int, top: bool)
    requires IsRow(all, spans, start, end, top) && NestedFamily(spans) && PausesAreEmpty(spans)
    requires k < |all| && Wraps(all[k]) && start <= cursor <= all[k].start
    ensures Ahead(all[k..], cursor, end)
         == 1 + Marks(spans, all[k].start, all[k].end, false) + Ahead(all[k + 1..], all[k].end, end)
  {
    var c, rest, tail := all[k], all[k..], all[k + 1..];
    var ins := Wrapping(spans, c.start, c.end, false);
    var ws, later := From(rest, cursor), From(tail, c.end);
    assert c in all;
    RowSplits(all, k, cursor, spans, start, end, top);
    PausesInside(all, k, spans, start, end, top, ins);
    forall p | p in tail && EmptyPause(p) ensures c.start <= p.start <= end {
      var i :| 0 <= i < |tail| && tail[i] == p;
      assert Outer(all[k], all[k + 1 + i]) && all[k + 1 + i] in all;
    }
    var n := |ins| + PauseTimes(tail, ins, c.start, c.end);
    assert rest[0] == c && rest[1..] == tail;
    assert PauseTimes(rest, ws, cursor, end) == PauseTimes(tail, ws, cursor, end);
    hide IsRow, NestedFamily, PausesAreEmpty, From, Outer, PauseTimes;
    TailTimes(tail, ws, cursor, end, c, ins, later);
  }

  lemma TailTimes(tail: seq<ReaderSpan>, ws: set<ReaderSpan>, cursor: int, end: int, c: ReaderSpan,
                  ins: set<ReaderSpan>, later: set<ReaderSpan>)
    requires Wraps(c) && cursor <= c.start && c.end <= end && ws == {c} + ins + later && c !in ins
    requires (forall s :: s in ins ==> s.end <= c.end) && (forall s :: s in later ==> c.end < s.end)
    requires forall p :: p in tail && EmptyPause(p) ==> c.start <= p.start <= end
    ensures PauseTimes(tail, ws, cursor, end)
         == PauseTimes(tail, ins, c.start, c.end) + PauseTimes(tail, later, c.end, end)
  {
    hide EndingAt;
    forall p | p in tail ensures Times(ws, cursor, end, p)
        == Times(ins, c.start, c.end, p) + Times(later, c.end, end, p) {
      EndsSplit(ws, c, ins, later, p.start);
    }
    TimesSplit(tail, ws, cursor, end, ins, c.start, c.end, later, c.end, end);
  }

  /** The siblings chosen from the cursor on print every mark that starts there or later. */
  lemma {:induction false} ChosenTotal(all: seq<ReaderSpan>, k: nat, cursor: int, spans: seq<ReaderSpan>,
                                       start: int, end: int, top: bool)
    requires IsRow(all, spans, start, end, top) && NestedFamily(spans) && PausesAreEmpty(spans)
    requires k <= |all| && start <= cursor
    ensures Total(spans, Chosen(all[k..], cursor)) == Ahead(all[k..], cursor, end)
    decreases |all| - k
  {
    hide Ahead, Marks, NestedFamily, Outer;
    var rest := all[k..];
    if rest == [] {
      NothingAhead(cursor, end);
    } else {
      var h := rest[0];
      assert h == all[k] && rest[1..] == all[k + 1..] && h in all;
      if h.start < cursor {
        SkipHead(rest, cursor, end);
        ChosenTotal(all, k + 1, cursor, spans, start, end, top);
      } else if h.kind.Pause? {
        PauseHead(rest, cursor, end);
        ChosenTotal(all, k + 1, cursor, spans, start, end, top);
        TotalStep(spans, h, Chosen(rest[1..], cursor));
      } else {
        WrapHead(all, k, cursor, spans, start, end, top);
        ChosenTotal(all, k + 1, h.end, spans, start, end, top);
        TotalStep(spans, h, Chosen(rest[1..], h.end));
      }
    }
  }

  lemma NothingAhead(cursor: int, end: int)
    ensures Ahead([], cursor, end) == 0
  {
    assert From([], cursor) == {};
  }

  lemma TotalStep(spans: seq<ReaderSpan>, h: ReaderSpan, left: seq<ReaderSpan>)
    ensures Total(spans, [h] + left)
         == (if h.kind.Pause? then 1 else 1 + Marks(spans, h.start, h.end, false)) + Total(spans, left)
  {
    hide Marks;
    assert ([h] + left)[1..] == left;
  }

  lemma SiblingsTotal(spans: seq<ReaderSpan>, start: int, end: int, top: bool)
    requires NestedFamily(spans) && PausesAreEmpty(spans) && (top || start < end)
    ensures Total(spans, Siblings(spans, start, end, top)) == Marks(spans, start, end, top)
  {
    var all := Sort(Contained(spans, start, end, top), Outer);
    TheRow(spans, start, end, top);
    ChosenTotal(all, 0, start, spans, start, end, top);
    assert all[0..] == all;
    RowIsAll(all, spans, start, end, top);
  }

  lemma RowIsAll(all: seq<ReaderSpan>, spans: seq<ReaderSpan>, start: int, end: int, top: bool)
    requires IsRow(all, spans, start, end, top)
    ensures Ahead(all, start, end) == Marks(spans, start, end, top)
  {
    var ws := Wrapping(spans, start, end, top);
    assert From(all, start) == ws;
    RowTimes(all, spans, start, end, top, ws, start, end);
  }

  // ---------- what an interval prints ----------

  lemma {:induction false} EmitOpens(text: string, spans: seq<ReaderSpan>, start: int, end: int, top: bool)
    requires NestedFamily(spans) && PausesAreEmpty(spans) && (top || start < end)
    ensures Opens(Emit(text, spans, start, end, top), Marks(spans, start, end, top))
    decreases if end >= start then end - start else 0, if top then 1 else 0, 1, 0
  {
    hide Opens, Marks, NestedFamily;
    SiblingsEligible(spans, start, end, top);
    SiblingsTotal(spans, start, end, top);
    EmitFromOpens(text, spans, Siblings(spans, start, end, top), start, start, end, top);
  }

  lemma {:induction false} EmitFromOpens(text: string, spans: seq<ReaderSpan>, left: seq<ReaderSpan>, cursor: int,
                                         start: int, end: int, top: bool)
    requires NestedFamily(spans) && PausesAreEmpty(spans)
    requires forall s :: s in left ==> Eligible(s, start, end, top)
    ensures Opens(EmitFrom(text, spans, left, cursor, start, end, top), Total(spans, left))
    decreases if end >= start then end - start else 0, if top then 1 else 0, 0, |left|
  {
    hide Opens, Marks, NestedFamily, XmlText, Cut, Open, PauseTag;
    if left == [] {
      TextOpens(Cut(text, cursor, end));
    } else {
      var h := left[0];
      assert Eligible(h, start, end, top);
      var gap := XmlText(Cut(text, cursor, h.start));
      TextOpens(Cut(text, cursor, h.start));
      var tail := EmitFrom(text, spans, left[1..], After(h), start, end, top);
      EmitFromOpens(text, spans, left[1..], After(h), start, end, top);
      if h.kind.Pause? {
        PauseOpens(h);
        OpensAppend(gap, 0, PauseTag(h), 1);
        OpensAppend(gap + PauseTag(h), 1, tail, Total(spans, left[1..]));
      } else {
        var inner, n := Emit(text, spans, h.start, h.end, false), Marks(spans, h.start, h.end, false);
        EmitOpens(text, spans, h.start, h.end, false);
        WrappedOpens(h, inner, n);
        OpensAppend(gap, 0, Open(h) + inner + "</span>", 1 + n);
        OpensAppend(gap + (Open(h) + inner + "</span>"), 1 + n, tail, Total(spans, left[1..]));
        assert gap + Open(h) + inner + "</span>" == gap + (Open(h) + inner + "</span>");
      }
    }
  }

  /** The spans of a block that wrap text in it. */
  ghost function WrapsIn(spans: seq<ReaderSpan>, n: nat): set<ReaderSpan> {
    set s | s in spans && Wraps(s) && 0 <= s.start && s.end <= n
  }

  /** When the marked spans of a block are nested or apart and its pauses are empty, the block has one mark for
      each span that wraps text, one for each pause, and one more for a pause at each wrapping span that
      ends where it stands. */
  lemma MarksAreCounted(text: string, spans: seq<ReaderSpan>)
    requires NestedFamily(spans) && PausesAreEmpty(spans)
    ensures var ws := WrapsIn(spans, |text|);
            Opened(AnnotateText(text, spans)) == |ws| + PauseTimes(spans, ws, 0, |text|)
  {
    EmitOpens(text, spans, 0, |text|, true);
    var html := AnnotateText(text, spans);
    assert OpensBefore(html, Marks(spans, 0, |text|, true), "");
    assert html + "" == html;
    assert Wrapping(spans, 0, |text|, true) == WrapsIn(spans, |text|);
  }

  /** How many pauses lie in a block of length `n`. */
  ghost function PauseCount(ps: seq<ReaderSpan>, n: nat): int {
    if ps == [] then 0 else (if EmptyPause(ps[0]) && 0 <= ps[0].start <= n then 1 else 0) + PauseCount(ps[1..], n)
  }

  lemma {:induction false} TimesAreOnce(ps: seq<ReaderSpan>, ws: set<ReaderSpan>, n: nat)
    ensures PauseTimes(ps, ws, 0, n) >= PauseCount(ps, n)
    ensures PauseTimes(ps, ws, 0, n) == PauseCount(ps, n) <==>
            forall p :: p in ps && EmptyPause(p) && 0 <= p.start <= n ==> EndingAt(ws, p.start) == {}
  {
    if ps != [] {
      hide EndingAt;
      TimesAreOnce(ps[1..], ws, n);
      assert forall p :: p in ps <==> p == ps[0] || p in ps[1..];
    }
  }

  /** Every mark is printed once if and only if no pause stands where a wrapping span ends. */
  lemma PrintedOnceExactly(text: string, spans: seq<ReaderSpan>)
    requires NestedFamily(spans) && PausesAreEmpty(spans)
    ensures var ws := WrapsIn(spans, |text|);
            Opened(AnnotateText(text, spans)) == |ws| + PauseCount(spans, |text|) <==>
            forall p, s :: p in spans && EmptyPause(p) && 0 <= p.start <= |text| && s in ws ==> s.end != p.start
  {
    var ws := WrapsIn(spans, |text|);
    MarksAreCounted(text, spans);
    TimesAreOnce(spans, ws, |text|);
    assert forall s, p: int :: s in ws && s.end == p ==> s in EndingAt(ws, p);
    hide WrapsIn, AnnotateText;
  }

  /** A pause at the end of a stretch of dialogue is printed twice. */
  lemma PausePrintedTwice(text: string, n: nat, ms: nat)
    requires 0 < n <= |text|
    ensures Opened(AnnotateText(text, [ReaderSpan(0, n, Dialogue, "", "", "", 0),
                                       ReaderSpan(n, n, Pause, "", "", "", ms)])) == 3
  {
    var a, p := ReaderSpan(0, n, Dialogue, "", "", "", 0), ReaderSpan(n, n, Pause, "", "", "", ms);
    var spans := [a, p];
    MarksAreCounted(text, spans);
    var ws := WrapsIn(spans, |text|);
    assert spans[0] == a && spans[1] == p;
    assert ws == {a} && EndingAt(ws, n) == {a};
    assert spans == [a] + [p];
    hide AnnotateText, WrapsIn, EndingAt;
    TimesAppend([a], [p], ws, 0, |text|);
  }
}
