/** What `apply_block` makes of a clean batch: the spans it returns, told from the batch as listed. */
module ApplySpans {
  import opened PyText
  import opened Sorting
  import opened Substitution
  import opened Apply
  import opened ApplyProofs

  /** A gender with how sure it is and the speaker. */
  datatype Gender = Gender(gender: string, confidence: real, speaker: string)

  const UNKNOWN := Gender("", 0.0, "")

  /** A gender suggestion that no rewrite spoils and that lands on exactly this stretch. */
  ghost predicate Marks(text: string, ss: seq<Suggestion>, o: Suggestion, start: int, end: int)
    requires CleanBatch(text, ss)
  {
    && o.kind.SpeakerGender? && !SpoiledIn(ss, o)
    && Landing(text, BatchEdits(text, ss), o.start) == start && Landing(text, BatchEdits(text, ss), o.end) == end
  }

  /** The first of the suggestions that marks the stretch gives its gender. */
  ghost function GenderAt(text: string, ss: seq<Suggestion>, os: seq<Suggestion>, start: int, end: int): Gender
    requires CleanBatch(text, ss)
  {
    if os == [] then UNKNOWN
    else if Marks(text, ss, os[0], start, end) then Gender(os[0].replacement, os[0].confidence, os[0].speaker)
    else GenderAt(text, ss, os[1..], start, end)
  }

  /** The span a mark of a dialogue split becomes. */
  ghost function MeantMark(text: string, ss: seq<Suggestion>, m: Mark): seq<AppliedSpan>
    requires CleanBatch(text, ss)
  {
    var m' := LandedMark(text, BatchEdits(text, ss), m);
    match m.kind
    case Narration => [AppliedSpan(Narration, m'.start, m'.end, "", "", 0.0, "")]
    case Dialogue =>
      var g := GenderAt(text, ss, ss, m'.start, m'.end);
      [AppliedSpan(Dialogue, m'.start, m'.end, "", g.gender, g.confidence, g.speaker)]
    case _ => []
  }

  ghost function MeantMarks(text: string, ss: seq<Suggestion>, ms: seq<Mark>): seq<AppliedSpan>
    requires CleanBatch(text, ss)
  {
    if ms == [] then [] else MeantMark(text, ss, ms[0]) + MeantMarks(text, ss, ms[1..])
  }

  /** The spans one suggestion becomes. */
  ghost function Meant(text: string, ss: seq<Suggestion>, o: Suggestion): seq<AppliedSpan>
    requires CleanBatch(text, ss)
  {
    var a, b := Landing(text, BatchEdits(text, ss), o.start), Landing(text, BatchEdits(text, ss), o.end);
    if SpoiledIn(ss, o) then []
    else
      match o.kind
      case ForeignWord | Acronym | Toponym | Numeral | OrdinalHeading | DictHit =>
        [AppliedSpan(Pronunciation, a, b, o.replacement, "", 0.0, "")]
      case SkipSpan => [AppliedSpan(Skip, a, b, "", "", 0.0, "")]
      case DialogueSplit => MeantMarks(text, ss, o.segments)
      case _ => []
  }

  ghost function AllMeant(text: string, ss: seq<Suggestion>, os: seq<Suggestion>): seq<AppliedSpan>
    requires CleanBatch(text, ss)
  {
    if os == [] then [] else Meant(text, ss, os[0]) + AllMeant(text, ss, os[1..])
  }

  // ---------- one carried suggestion ----------

  /** The batch is applied: every suggestion that is not spoiled is carried, and still quotes the text. */
  ghost predicate IsCarried(text: string, ss: seq<Suggestion>, o: Suggestion) {
    && CleanBatch(text, ss)
    && var c := Carry(o, LastFirst(ss));
       && (SpoiledIn(ss, o) <==> !c.Kept?)
       && (c.Kept? ==> Carried(text, BatchEdits(text, ss), o, c.item)
                       && Quotes(Expand(text, BatchEdits(text, ss), 0, |text|), c.item))
       && (c.Kept? ==> MarksLand(text, ss, o))
  }

  /** The marks land inside the new text. */
  ghost predicate MarksLand(text: string, ss: seq<Suggestion>, o: Suggestion)
    requires CleanBatch(text, ss)
  {
    forall m :: m in o.segments ==>
      var m' := LandedMark(text, BatchEdits(text, ss), m);
      0 <= m'.start <= m'.end <= |Expand(text, BatchEdits(text, ss), 0, |text|)|
  }

  lemma BatchIsCarried(text: string, ss: seq<Suggestion>, o: Suggestion)
    requires CleanBatch(text, ss) && Sound(text, ss) && Applying(text, ss).Applied?
    requires o in ss && !o.kind.ConversionArtifact?
    ensures IsCarried(text, ss, o)
  {
    hide CleanBatch, Applying, BatchEdits, Expand, SpoiledIn, LastFirst;
    ApplyBlockRaises(text, ss);
    Fate(text, ss, o);
    var c := Carry(o, LastFirst(ss));
    if c.Kept? {
      CarriedQuotes(text, ss, o, c.item);
      forall m | m in o.segments ensures
          var m' := LandedMark(text, BatchEdits(text, ss), m);
          0 <= m'.start <= m'.end <= |Expand(text, BatchEdits(text, ss), 0, |text|)| {
        CarriedMark(text, ss, o, m);
      }
    }
  }

  ghost function NewText(text: string, ss: seq<Suggestion>): string
    requires CleanBatch(text, ss)
  {
    Expand(text, BatchEdits(text, ss), 0, |text|)
  }

  /** The gender suggestions that are left when `os` has been carried. */
  ghost function GendersLeft(text: string, ss: seq<Suggestion>, os: seq<Suggestion>): seq<Suggestion>
    requires CleanBatch(text, ss)
  {
    Genders(NewText(text, ss), CarriedBy(os, LastFirst(ss)))
  }

  lemma QuotedApplies(text: string, o: Suggestion)
    requires Quotes(text, o)
    ensures Slice(text, o.start, o.end) == o.original
  {
  }

  lemma CarriedHead(os: seq<Suggestion>, rs: seq<Suggestion>)
    requires os != []
    ensures CarriedBy(os, rs)
         == (if Carry(os[0], rs).Kept? then [Carry(os[0], rs).item] else []) + CarriedBy(os[1..], rs)
  {
  }

  lemma GendersHead(t: string, o: Suggestion, rest: seq<Suggestion>)
    ensures Genders(t, [o] + rest) == GenderOf(t, o) + Genders(t, rest)
  {
    GendersStep(t, [o] + rest);
    assert ([o] + rest)[1..] == rest;
  }

  lemma GendersLeftStep(text: string, ss: seq<Suggestion>, os: seq<Suggestion>)
    requires os != [] && IsCarried(text, ss, os[0])
    ensures GendersLeft(text, ss, os)
         == (if os[0].kind.SpeakerGender? && !SpoiledIn(ss, os[0]) then [Carry(os[0], LastFirst(ss)).item] else [])
            + GendersLeft(text, ss, os[1..])
  {
    hide LastFirst, SpoiledIn, CarriedBy, Genders, BatchEdits, Expand, MarksLand, CleanBatch;
    var rs := LastFirst(ss);
    CarriedHead(os, rs);
    assert [] + CarriedBy(os[1..], rs) == CarriedBy(os[1..], rs);
    if Carry(os[0], rs).Kept? {
      var o' := Carry(os[0], rs).item;
      GendersHead(NewText(text, ss), o', CarriedBy(os[1..], rs));
      QuotedApplies(NewText(text, ss), o');
    }
  }

  /** `_paint_gender` on one span: the first gender suggestion that lands on it. */
  lemma {:induction false} PaintedGender(text: string, ss: seq<Suggestion>, os: seq<Suggestion>, p: AppliedSpan)
    requires CleanBatch(text, ss) && forall o :: o in os ==> IsCarried(text, ss, o)
    requires p.kind.Dialogue? && p == Plain(Dialogue, p.start, p.end)
    ensures var g := GenderAt(text, ss, os, p.start, p.end);
            PaintOne(p, GendersLeft(text, ss, os))
            == AppliedSpan(Dialogue, p.start, p.end, "", g.gender, g.confidence, g.speaker)
  {
    hide LastFirst, SpoiledIn, BatchEdits, Landing, MarksLand, CleanBatch;
    if os == [] {
      NoGenders(text, ss);
    } else {
      hide GendersLeft, Quotes;
      assert os[0] in os;
      GendersLeftStep(text, ss, os);
      PaintedGender(text, ss, os[1..], p);
      assert [] + GendersLeft(text, ss, os[1..]) == GendersLeft(text, ss, os[1..]);
      PaintHead(p, Carry(os[0], LastFirst(ss)), GendersLeft(text, ss, os[1..]));
    }
  }

  lemma PaintHead(p: AppliedSpan, c: Shifted, rest: seq<Suggestion>)
    requires p.kind.Dialogue?
    ensures c.Kept? ==>
              PaintOne(p, [c.item] + rest)
              == if c.item.start == p.start && c.item.end == p.end
                 then p.(gender := c.item.replacement, confidence := c.item.confidence, speaker := c.item.speaker)
                 else PaintOne(p, rest)
  {
    if c.Kept? { assert ([c.item] + rest)[1..] == rest; }
  }

  lemma NoGenders(text: string, ss: seq<Suggestion>)
    requires CleanBatch(text, ss)
    ensures GendersLeft(text, ss, []) == []
  {
  }

  /** Rewrites carry no gender. */
  lemma {:induction false} GenderAmongOthers(text: string, ss: seq<Suggestion>, os: seq<Suggestion>, start: int,
                                             end: int)
    requires CleanBatch(text, ss)
    ensures GenderAt(text, ss, Filter(os, false), start, end) == GenderAt(text, ss, os, start, end)
  {
    hide CleanBatch, BatchEdits, SpoiledIn, Landing;
    if os != [] {
      GenderAmongOthers(text, ss, os[1..], start, end);
      var rest := Filter(os[1..], false);
      assert os[0].kind.ConversionArtifact? ==> !Marks(text, ss, os[0], start, end);
      assert ([os[0]] + rest)[1..] == rest;
    }
  }

  // ---------- the spans ----------

  lemma {:induction false} PaintedAppend(a: seq<AppliedSpan>, b: seq<AppliedSpan>, genders: seq<Suggestion>)
    ensures Painted(a + b, genders) == Painted(a, genders) + Painted(b, genders)
  {
    hide PaintOne;
    if a == [] {
      assert a + b == b;
    } else {
      assert (a + b)[1..] == a[1..] + b && (a + b)[0] == a[0];
      PaintedAppend(a[1..], b, genders);
    }
  }

  lemma PaintedOne(p: AppliedSpan, genders: seq<Suggestion>)
    ensures Painted([p], genders) == [PaintOne(p, genders)]
    ensures !p.kind.Dialogue? ==> PaintOne(p, genders) == p
  {
    assert [p][1..] == [];
  }

  /** Every other suggestion of the batch is carried. */
  ghost predicate AllCarried(text: string, ss: seq<Suggestion>) {
    CleanBatch(text, ss) && forall o :: o in Filter(ss, false) ==> IsCarried(text, ss, o)
  }

  ghost function TheGenders(text: string, ss: seq<Suggestion>): seq<Suggestion>
    requires CleanBatch(text, ss)
  {
    GendersLeft(text, ss, Filter(ss, false))
  }

  lemma MarkIsMeant(text: string, ss: seq<Suggestion>, m: Mark)
    requires AllCarried(text, ss)
    requires var m' := LandedMark(text, BatchEdits(text, ss), m); 0 <= m'.start <= m'.end <= |NewText(text, ss)|
    ensures Painted(DialogueSpans([LandedMark(text, BatchEdits(text, ss), m)], |NewText(text, ss)|),
                    TheGenders(text, ss))
         == MeantMark(text, ss, m)
  {
    hide CleanBatch, BatchEdits, Expand, Landing, IsCarried, Filter, GendersLeft, GenderAt, PaintOne;
    var m', genders := LandedMark(text, BatchEdits(text, ss), m), TheGenders(text, ss);
    assert [m'][1..] == [];
    var p := Plain(m'.kind, m'.start, m'.end);
    PaintedOne(p, genders);
    if m.kind.Dialogue? {
      PaintedGender(text, ss, Filter(ss, false), p);
      GenderAmongOthers(text, ss, ss, m'.start, m'.end);
    }
  }

  lemma {:induction false} DialogueSpansAppend(a: seq<Mark>, b: seq<Mark>, n: nat)
    ensures DialogueSpans(a + b, n) == DialogueSpans(a, n) + DialogueSpans(b, n)
  {
    if a == [] {
      assert a + b == b;
    } else {
      assert (a + b)[1..] == a[1..] + b && (a + b)[0] == a[0];
      DialogueSpansAppend(a[1..], b, n);
    }
  }

  ghost predicate AllLand(text: string, ss: seq<Suggestion>, ms: seq<Mark>)
    requires CleanBatch(text, ss)
  {
    forall m :: m in ms ==>
      var m' := LandedMark(text, BatchEdits(text, ss), m); 0 <= m'.start <= m'.end <= |NewText(text, ss)|
  }

  lemma {:induction false} MarksAreMeant(text: string, ss: seq<Suggestion>, ms: seq<Mark>)
    requires CleanBatch(text, ss) && AllCarried(text, ss) && AllLand(text, ss, ms)
    ensures Painted(DialogueSpans(LandedMarks(text, BatchEdits(text, ss), ms), |NewText(text, ss)|),
                    TheGenders(text, ss))
         == MeantMarks(text, ss, ms)
  {
    hide CleanBatch, BatchEdits, Expand, LandedMark, AllCarried, TheGenders, NewText, PaintOne, MeantMark, GenderAt;
    var es, n, genders := BatchEdits(text, ss), |NewText(text, ss)|, TheGenders(text, ss);
    if ms != [] {
      assert ms[0] in ms;
      MarksAreMeant(text, ss, ms[1..]);
      MarkIsMeant(text, ss, ms[0]);
      var one, rest := [LandedMark(text, es, ms[0])], LandedMarks(text, es, ms[1..]);
      assert LandedMarks(text, es, ms) == one + rest;
      DialogueSpansAppend(one, rest, n);
      PaintedAppend(DialogueSpans(one, n), DialogueSpans(rest, n), genders);
    }
  }

  /** What a carried suggestion becomes. */
  lemma CarriedIsMeant(text: string, ss: seq<Suggestion>, o: Suggestion)
    requires AllCarried(text, ss) && o in Filter(ss, false) && !SpoiledIn(ss, o)
    ensures Carry(o, LastFirst(ss)).Kept?
    ensures Painted(SpansOf(NewText(text, ss), Carry(o, LastFirst(ss)).item), TheGenders(text, ss))
         == Meant(text, ss, o)
  {
    hide CleanBatch, BatchEdits, Expand, LandedMark, LandedMarks, Landing, Filter, TheGenders, PaintOne, MeantMark;
    hide SpoiledIn, LastFirst, DialogueSpans, MeantMarks;
    assert IsCarried(text, ss, o);
    var t', genders, o' := NewText(text, ss), TheGenders(text, ss), Carry(o, LastFirst(ss)).item;
    QuotedApplies(t', o');
    if o.kind.DialogueSplit? {
      MarksAreMeant(text, ss, o.segments);
      NoMarks(text, ss, o.segments);
    } else if SpansOf(t', o') != [] {
      PaintedOne(SpansOf(t', o')[0], genders);
    }
  }

  lemma NoMarks(text: string, ss: seq<Suggestion>, ms: seq<Mark>)
    requires CleanBatch(text, ss)
    ensures |LandedMarks(text, BatchEdits(text, ss), ms)| == |ms|
    ensures ms == [] ==> MeantMarks(text, ss, ms) == []
  {
  }

  lemma {:induction false} SpansAreMeant(text: string, ss: seq<Suggestion>, os: seq<Suggestion>)
    requires CleanBatch(text, ss) && AllCarried(text, ss) && forall o :: o in os ==> o in Filter(ss, false)
    ensures Painted(AllSpans(NewText(text, ss), CarriedBy(os, LastFirst(ss))), TheGenders(text, ss))
         == AllMeant(text, ss, os)
  {
    hide CleanBatch, NewText, Filter, TheGenders, PaintOne, SpoiledIn, LastFirst, SpansOf, AllCarried, Meant, Carry;
    var t', rs, genders := NewText(text, ss), LastFirst(ss), TheGenders(text, ss);
    if os != [] {
      var o, rest := os[0], CarriedBy(os[1..], rs);
      assert o in os;
      SpansAreMeant(text, ss, os[1..]);
      CarriedHead(os, rs);
      MeantHead(text, ss, o);
      if SpoiledIn(ss, o) {
        assert [] + rest == rest;
        assert [] + AllMeant(text, ss, os[1..]) == AllMeant(text, ss, os[1..]);
      } else {
        CarriedIsMeant(text, ss, o);
        var o' := Carry(o, rs).item;
        assert ([o'] + rest)[1..] == rest;
        AllSpansStep(t', [o'] + rest);
        PaintedAppend(SpansOf(t', o'), AllSpans(t', rest), genders);
      }
    }
  }

  lemma MeantHead(text: string, ss: seq<Suggestion>, o: Suggestion)
    requires AllCarried(text, ss) && o in Filter(ss, false)
    ensures SpoiledIn(ss, o) ==> !Carry(o, LastFirst(ss)).Kept? && Meant(text, ss, o) == []
  {
    hide CleanBatch, SpoiledIn, LastFirst, Filter;
    assert IsCarried(text, ss, o);
  }

  /** Rewrites become no span. */
  lemma {:induction false} MeantAmongOthers(text: string, ss: seq<Suggestion>, os: seq<Suggestion>)
    requires CleanBatch(text, ss)
    ensures AllMeant(text, ss, Filter(os, false)) == AllMeant(text, ss, os)
  {
    hide CleanBatch, SpoiledIn, MeantMarks, Landing;
    if os != [] {
      MeantAmongOthers(text, ss, os[1..]);
      var rest := Filter(os[1..], false);
      if os[0].kind.ConversionArtifact? {
        assert Meant(text, ss, os[0]) == [];
      } else {
        assert ([os[0]] + rest)[1..] == rest;
      }
    }
  }

  /** The kinds in the order of their names. */
  const BY_NAME := [SpanKind.Dialogue, SpanKind.Narration, SpanKind.Pause, SpanKind.Pronunciation, SpanKind.Skip]

  /** By start, then by end, then by the name of the kind. */
  ghost predicate InPlaceOrder(spans: seq<AppliedSpan>) {
    forall i, j :: 0 <= i < j < |spans| ==>
      || spans[i].start < spans[j].start
      || (spans[i].start == spans[j].start && spans[i].end < spans[j].end)
      || (spans[i].start == spans[j].start && spans[i].end == spans[j].end && ByName(spans[i].kind, spans[j].kind))
  }

  ghost predicate ByName(a: SpanKind, b: SpanKind) {
    exists i, j :: 0 <= i <= j < |BY_NAME| && BY_NAME[i] == a && BY_NAME[j] == b
  }

  lemma RankIsByName(a: SpanKind, b: SpanKind)
    ensures Rank(a) <= Rank(b) <==> ByName(a, b)
  {
    assert BY_NAME[Rank(a)] == a && BY_NAME[Rank(b)] == b;
  }

  /** The spans of a batch are exactly those its suggestions become: a reading its pronunciation, a skip its
      gap, a split its stretches, each where its text went and each stretch of dialogue with the first
      gender that was given to it. */
  lemma SpansAreExact(text: string, ss: seq<Suggestion>)
    requires CleanBatch(text, ss) && Sound(text, ss) && Applying(text, ss).Applied?
    ensures multiset(Applying(text, ss).spans) == multiset(AllMeant(text, ss, ss))
    ensures InPlaceOrder(Applying(text, ss).spans)
  {
    FilterIn(ss, false);
    PassOfMeaning(text, ss);
    forall o | o in Filter(ss, false) ensures IsCarried(text, ss, o) { BatchIsCarried(text, ss, o); }
    SpansAreMeant(text, ss, Filter(ss, false));
    MeantAmongOthers(text, ss, ss);
    var painted := AllMeant(text, ss, ss);
    SortKeeps(painted, SpanOrder);
    SortSorts(painted, SpanOrder);
    forall a, b ensures Rank(a) <= Rank(b) <==> ByName(a, b) { RankIsByName(a, b); }
    hide ByName;
    hide CleanBatch, Sound, CarriedBy, LastFirst, Filter, AllMeant, Painted, Sort;
  }

  // ---------- the conflicts ----------

  /** A suggestion there is nothing to do for. */
  predicate IsIdle(o: Suggestion) {
    o.kind.OtherCategory? || (o.kind.DialogueSplit? && o.segments == [])
  }

  /** How many suggestions are spoiled, or idle. */
  ghost function Lost(ss: seq<Suggestion>, os: seq<Suggestion>): nat {
    if os == [] then 0
    else
      var lost := !os[0].kind.ConversionArtifact? && (SpoiledIn(ss, os[0]) || IsIdle(os[0]));
      (if lost then 1 else 0) + Lost(ss, os[1..])
  }

  lemma {:induction false} LostAmongOthers(ss: seq<Suggestion>, os: seq<Suggestion>)
    ensures Lost(ss, Filter(os, false)) == Lost(ss, os)
  {
    hide SpoiledIn, IsIdle;
    if os != [] {
      LostAmongOthers(ss, os[1..]);
      var rest := Filter(os[1..], false);
      assert ([os[0]] + rest)[1..] == rest;
    }
  }

  lemma CarriedIsIdle(text: string, ss: seq<Suggestion>, o: Suggestion)
    requires IsCarried(text, ss, o) && !o.kind.ConversionArtifact? && !SpoiledIn(ss, o)
    ensures Carry(o, LastFirst(ss)).Kept?
    ensures Applies(NewText(text, ss), Carry(o, LastFirst(ss)).item) <==> !IsIdle(o)
    ensures Carried(text, BatchEdits(text, ss), o, Carry(o, LastFirst(ss)).item)
  {
    hide CleanBatch, BatchEdits, Expand, LandedMark, Landing, MarksLand, SpoiledIn, LastFirst;
    QuotedApplies(NewText(text, ss), Carry(o, LastFirst(ss)).item);
    NoMarks(text, ss, o.segments);
  }

  lemma {:induction false} LostCount(text: string, ss: seq<Suggestion>, os: seq<Suggestion>)
    requires CleanBatch(text, ss)
    requires forall o :: o in os ==> !o.kind.ConversionArtifact? && IsCarried(text, ss, o)
    ensures var left := CarriedBy(os, LastFirst(ss));
            |os| - |left| + |Unapplied(NewText(text, ss), left)| == Lost(ss, os)
  {
    hide CleanBatch, NewText, SpoiledIn, LastFirst, Applies, IsIdle, IsCarried, Carry;
    if os != [] {
      var o, rs := os[0], LastFirst(ss);
      var rest := CarriedBy(os[1..], rs);
      assert o in os;
      LostCount(text, ss, os[1..]);
      CarriedHead(os, rs);
      if SpoiledIn(ss, o) {
        SpoiledIsNotKept(text, ss, o);
        assert [] + rest == rest;
      } else {
        CarriedIsIdle(text, ss, o);
        assert ([Carry(o, rs).item] + rest)[1..] == rest;
        UnappliedStep(NewText(text, ss), [Carry(o, rs).item] + rest);
      }
    }
  }

  lemma SpoiledIsNotKept(text: string, ss: seq<Suggestion>, o: Suggestion)
    requires IsCarried(text, ss, o)
    ensures SpoiledIn(ss, o) ==> !Carry(o, LastFirst(ss)).Kept?
  {
    hide CleanBatch, SpoiledIn, LastFirst;
  }

  /** A clean batch has one conflict for each suggestion that a rewrite spoils and for each one there is nothing
      to do for, and no others. */
  lemma ConflictsAreCounted(text: string, ss: seq<Suggestion>)
    requires CleanBatch(text, ss) && Sound(text, ss) && Applying(text, ss).Applied?
    ensures |Applying(text, ss).conflicts| == Lost(ss, ss)
  {
    FilterIn(ss, false);
    PassOfMeaning(text, ss);
    var os := Filter(ss, false);
    forall o | o in os ensures !o.kind.ConversionArtifact? && IsCarried(text, ss, o) { BatchIsCarried(text, ss, o); }
    LostCount(text, ss, os);
    LostAmongOthers(ss, ss);
    hide CleanBatch, Sound, CarriedBy, LastFirst, Filter, Lost, Unapplied, Sort;
  }
}
