/** What `apply_block` means: the rewrites act at the same time, and every other suggestion is
    carried to where its text went. */
module ApplyProofs {
  import opened PyText
  import opened Sorting
  import opened Substitution
  import opened Apply

  /** `original` is the text between the offsets, as `make_suggestion` builds it. */
  predicate Quotes(text: string, s: Suggestion) {
    s.end <= |text| && text[s.start..s.end] == s.original
  }

  /** Rewrites that quote the block and do not overlap, in the order the loop visits them. */
  ghost predicate RightToLeft(text: string, rs: seq<Suggestion>) {
    && (forall i :: 0 <= i < |rs| ==> Quotes(text, rs[i]))
    && (forall i, j :: 0 <= i < j < |rs| ==> rs[j].end <= rs[i].start)
  }

  function Placings(rs: seq<Suggestion>): seq<Placed> {
    seq(|rs|, i requires 0 <= i < |rs| => Placed(rs[i].start, Edit(rs[i].end, rs[i].replacement)))
  }

  ghost function EditsOf(rs: seq<Suggestion>): Edits {
    Collect(Placings(rs))
  }

  lemma EditsAreDisjoint(text: string, rs: seq<Suggestion>)
    requires RightToLeft(text, rs)
    ensures Disjoint(EditsOf(rs), |text|)
  {
    CollectIsDisjoint(Placings(rs), |text|);
  }

  /** The rewrite at the head is the rightmost edit, and the others are the rest of the list. */
  lemma HeadIsRightmost(text: string, rs: seq<Suggestion>)
    requires rs != [] && RightToLeft(text, rs)
    ensures var es := EditsOf(rs);
            && Disjoint(es, |text|)
            && rs[0].start in es && es[rs[0].start] == Edit(rs[0].end, rs[0].replacement)
            && (forall s :: s in es ==> s <= rs[0].start)
            && EditsOf(rs[1..]) == es - {rs[0].start}
  {
    assert Placings(rs)[1..] == Placings(rs[1..]);
    CollectHead(Placings(rs), |text|);
  }

  function After(text: string, r: Suggestion): string
    requires r.end <= |text|
  {
    Put(text, r.start, Edit(r.end, r.replacement))
  }

  lemma SpliceIsPut(text: string, r: Suggestion)
    requires r.end <= |text|
    ensures Splice(text, r.start, r.end, r.replacement) == After(text, r)
    ensures Slice(text, r.start, r.end) == text[r.start..r.end]
  {
  }

  /** Rewrites further left still quote the text once the rightmost one is in place. */
  lemma StillRightToLeft(text: string, rs: seq<Suggestion>)
    requires rs != [] && RightToLeft(text, rs)
    ensures RightToLeft(After(text, rs[0]), rs[1..])
  {
    var t', tail := After(text, rs[0]), rs[1..];
    forall i | 0 <= i < |tail| ensures Quotes(t', tail[i]) {
      assert tail[i] == rs[i + 1] && Quotes(text, rs[i + 1]);
      assert t'[tail[i].start..tail[i].end] == text[tail[i].start..tail[i].end];
    }
  }

  // ---------- one suggestion against the whole batch ----------

  function Carry(o: Suggestion, rs: seq<Suggestion>): Shifted
    decreases |rs|
  {
    if rs == [] then Kept(o)
    else
      match ShiftSuggestion(o, rs[0].start, rs[0].end, rs[0].replacement)
      case Kept(o') => Carry(o', rs[1..])
      case other => other
  }

  /** A rewrite spoils `o` when it overlaps `o` in part, or lies inside `o` and touches a mark. */
  predicate Spoils(r: Suggestion, o: Suggestion) {
    && o.end > r.start && o.start < r.end
    && (!(o.start <= r.start && o.end >= r.end)
        || exists m :: m in o.segments && !Clear(m, r.start, r.end))
  }

  predicate MarksInside(o: Suggestion) {
    forall m :: m in o.segments ==> o.start <= m.start <= m.end <= o.end
  }

  /** Where the boundary `x` of the old text lies in the new text. */
  ghost function Landing(text: string, es: Edits, x: int): int {
    if 0 <= x <= |text| then |Expand(text, es, 0, x)| else x
  }

  ghost function LandedMark(text: string, es: Edits, m: Mark): Mark {
    m.(start := Landing(text, es, m.start), end := Landing(text, es, m.end))
  }

  ghost function LandedMarks(text: string, es: Edits, ms: seq<Mark>): seq<Mark> {
    seq(|ms|, i requires 0 <= i < |ms| => LandedMark(text, es, ms[i]))
  }

  /** `o` after the batch: its offsets and marks land with the text, and what it quotes is the
      expansion of what it quoted. Stated on fields, so that it also fits an emptied suggestion. */
  ghost predicate Carried(text: string, es: Edits, o: Suggestion, o': Suggestion) {
    && o.end <= |text|
    && o'.start == Landing(text, es, o.start)
    && o'.end == Landing(text, es, o.end)
    && o'.original == Expand(text, es, o.start, o.end)
    && o'.segments == LandedMarks(text, es, o.segments)
    && (o'.kind, o'.replacement, o'.confidence, o'.speaker)
    == (o.kind, o.replacement, o.confidence, o.speaker)
  }

  ghost predicate MovedBy(r: Suggestion, o: Suggestion, o': Suggestion) {
    var e := Edit(r.end, r.replacement);
    && o'.start == Moved(r.start, e, o.start)
    && o'.end == Moved(r.start, e, o.end)
    && |o'.segments| == |o.segments|
    && (forall i :: 0 <= i < |o.segments| ==>
          && o'.segments[i] == o.segments[i].(start := Moved(r.start, e, o.segments[i].start),
                                              end := Moved(r.start, e, o.segments[i].end)))
    && (o'.kind, o'.replacement, o'.confidence, o'.speaker)
    == (o.kind, o.replacement, o.confidence, o.speaker)
  }

  /** One rewrite that does not spoil `o`: either `o` is emptied, or its offsets move with the text. */
  lemma ShiftMoves(r: Suggestion, o: Suggestion)
    requires MarksInside(o) && !Spoils(r, o)
    ensures var s := ShiftSuggestion(o, r.start, r.end, r.replacement);
            var e := Edit(r.end, r.replacement);
            && (s.Raises? <==> Moved(r.start, e, o.start) >= Moved(r.start, e, o.end))
            && !s.Dropped?
            && (s.Kept? ==> MovedBy(r, o, s.item))
  {
  }

  lemma ShiftKeepsMarksInside(text: string, r: Suggestion, o: Suggestion)
    requires MarksInside(o) && !Spoils(r, o)
    ensures var s := ShiftSuggestion(o, r.start, r.end, r.replacement);
            s.Kept? ==> MarksInside(s.item)
  {
    ShiftMoves(r, o);
    var s := ShiftSuggestion(o, r.start, r.end, r.replacement);
    hide ShiftSuggestion;
    if s.Kept? {
      forall m | m in s.item.segments ensures s.item.start <= m.start <= m.end <= s.item.end {
        var i :| 0 <= i < |s.item.segments| && s.item.segments[i] == m;
        assert o.segments[i] in o.segments;
      }
    }
  }

  lemma InsideQuotes(text: string, r: Suggestion, o: Suggestion)
    requires Quotes(text, r) && Quotes(text, o)
    requires o.start <= r.start && r.end <= o.end
    ensures var s := RewriteInside(o, r.start, r.end, r.replacement);
            s.Kept? ==> Quotes(After(text, r), s.item)
  {
    var s := RewriteInside(o, r.start, r.end, r.replacement);
    if s.Kept? {
      var i, j := r.start - o.start, r.end - o.start;
      CutTwice(text, o.start, o.end, i, j);
      assert s.item.original == o.original[..i] + r.replacement + o.original[j..];
      assert s.item.original == text[o.start..r.start] + r.replacement + text[r.end..o.end];
      WindowAfter(text, r, o.start, o.end);
    }
  }

  lemma CutTwice(text: string, a: nat, b: nat, i: nat, j: nat)
    requires a <= b <= |text| && i <= j <= b - a
    ensures text[a..b][..i] == text[a..a + i] && text[a..b][j..] == text[a + j..b]
  {
  }

  lemma WindowAfter(text: string, r: Suggestion, a: nat, b: nat)
    requires Quotes(text, r) && a <= r.start && r.end <= b <= |text|
    ensures var b' := b + |r.replacement| - (r.end - r.start);
            b' <= |After(text, r)|
            && After(text, r)[a..b'] == text[a..r.start] + r.replacement + text[r.end..b]
  {
    var t := After(text, r);
    var b' := b + |r.replacement| - (r.end - r.start);
    var front, back := text[..r.start], text[r.end..];
    assert t == front + r.replacement + back;
    var window := front + r.replacement + back[..b - r.end];
    assert t[..b'] == window;
    assert t[a..b'] == t[..b'][a..];
    assert window[a..] == front[a..] + r.replacement + back[..b - r.end];
    assert front[a..] == text[a..r.start] && back[..b - r.end] == text[r.end..b];
  }

  lemma ShiftQuotes(text: string, r: Suggestion, o: Suggestion)
    requires Quotes(text, r) && Quotes(text, o) && MarksInside(o) && !Spoils(r, o)
    ensures var s := ShiftSuggestion(o, r.start, r.end, r.replacement);
            s.Kept? ==> Quotes(After(text, r), s.item)
  {
    var s := ShiftSuggestion(o, r.start, r.end, r.replacement);
    if o.start < r.end && r.start < o.end {
      InsideQuotes(text, r, o);
    } else {
      assert After(text, r)[s.item.start..s.item.end] == text[o.start..o.end];
    }
  }

  /** Being spoiled by a rewrite further left does not depend on whether `r` has been done. */
  lemma SpoilsStable(r: Suggestion, o: Suggestion, o': Suggestion, left: Suggestion)
    requires MarksInside(o) && !Spoils(r, o) && left.end <= r.start
    requires ShiftSuggestion(o, r.start, r.end, r.replacement) == Kept(o')
    ensures Spoils(left, o) <==> Spoils(left, o')
  {
    hide ShiftSuggestion;
    ShiftMoves(r, o);
    assert (exists m :: m in o.segments && !Clear(m, left.start, left.end)) <==>
           (exists m :: m in o'.segments && !Clear(m, left.start, left.end)) by {
      MarksStable(r, o, o', left);
    }
  }

  lemma MarksStable(r: Suggestion, o: Suggestion, o': Suggestion, left: Suggestion)
    requires MarksInside(o) && !Spoils(r, o) && left.end <= r.start && MovedBy(r, o, o')
    ensures (exists m :: m in o.segments && !Clear(m, left.start, left.end)) <==>
            (exists m :: m in o'.segments && !Clear(m, left.start, left.end))
  {
    forall i | 0 <= i < |o.segments|
      ensures Clear(o.segments[i], left.start, left.end) <==> Clear(o'.segments[i], left.start, left.end)
    {
      MarkStable(r, o, o', left, i);
    }
    hide Clear, Spoils, MovedBy, MarksInside;
    if m :| m in o.segments && !Clear(m, left.start, left.end) {
      var i :| 0 <= i < |o.segments| && o.segments[i] == m;
      assert o'.segments[i] in o'.segments;
    }
    if m :| m in o'.segments && !Clear(m, left.start, left.end) {
      var i :| 0 <= i < |o'.segments| && o'.segments[i] == m;
      assert o.segments[i] in o.segments;
    }
  }

  lemma MarkStable(r: Suggestion, o: Suggestion, o': Suggestion, left: Suggestion, i: nat)
    requires MarksInside(o) && !Spoils(r, o) && left.end <= r.start && MovedBy(r, o, o') && i < |o.segments|
    ensures i < |o'.segments|
    ensures Clear(o.segments[i], left.start, left.end) <==> Clear(o'.segments[i], left.start, left.end)
  {
    assert o.segments[i] in o.segments;
  }

  lemma LandingStep(text: string, rs: seq<Suggestion>, x: int)
    requires rs != [] && RightToLeft(text, rs)
    requires 0 <= x <= |text| && (x <= rs[0].start || rs[0].end <= x)
    ensures var e := Edit(rs[0].end, rs[0].replacement);
            Landing(text, EditsOf(rs), x) ==
            Landing(After(text, rs[0]), EditsOf(rs[1..]), Moved(rs[0].start, e, x))
  {
    HeadIsRightmost(text, rs);
    PutRightmost(text, EditsOf(rs), rs[0].start, 0, x);
  }

  lemma CarriedStep(text: string, rs: seq<Suggestion>, o: Suggestion, o': Suggestion, c: Suggestion)
    requires rs != [] && RightToLeft(text, rs)
    requires o.end <= |text| && MarksInside(o) && !Spoils(rs[0], o)
    requires ShiftSuggestion(o, rs[0].start, rs[0].end, rs[0].replacement) == Kept(o')
    requires Carried(After(text, rs[0]), EditsOf(rs[1..]), o', c)
    ensures Carried(text, EditsOf(rs), o, c)
  {
    var r := rs[0];
    ShiftMoves(r, o);
    HeadIsRightmost(text, rs);
    PutRightmost(text, EditsOf(rs), r.start, o.start, o.end);
    LandingStep(text, rs, o.start);
    LandingStep(text, rs, o.end);
    forall i | 0 <= i < |o.segments|
      ensures c.segments[i] == LandedMark(text, EditsOf(rs), o.segments[i])
    {
      assert o.segments[i] in o.segments;
      MarkOutside(r, o, o.segments[i]);
      LandingStep(text, rs, o.segments[i].start);
      LandingStep(text, rs, o.segments[i].end);
    }
  }

  lemma MarkOutside(r: Suggestion, o: Suggestion, m: Mark)
    requires MarksInside(o) && !Spoils(r, o) && m in o.segments
    ensures m.start <= r.start || r.end <= m.start
    ensures m.end <= r.start || r.end <= m.end
  {
    assert o.start <= m.start <= m.end <= o.end;
    if o.end > r.start && o.start < r.end { assert Clear(m, r.start, r.end); }
  }

  ghost predicate Spoiled(rs: seq<Suggestion>, o: Suggestion) {
    exists i :: 0 <= i < |rs| && Spoils(rs[i], o)
  }

  lemma SpoiledStep(text: string, rs: seq<Suggestion>, o: Suggestion, o': Suggestion)
    requires rs != [] && RightToLeft(text, rs) && MarksInside(o) && !Spoils(rs[0], o)
    requires ShiftSuggestion(o, rs[0].start, rs[0].end, rs[0].replacement) == Kept(o')
    ensures Spoiled(rs, o) <==> Spoiled(rs[1..], o')
  {
    forall i | 1 <= i < |rs| ensures Spoils(rs[i], o) <==> Spoils(rs[1..][i - 1], o') {
      SpoilsStable(rs[0], o, o', rs[i]);
    }
    if i :| 0 <= i < |rs| && Spoils(rs[i], o) { assert Spoils(rs[1..][i - 1], o'); }
    if i :| 0 <= i < |rs[1..]| && Spoils(rs[1..][i], o') { assert Spoils(rs[i + 1], o); }
  }

  /** The fate of one suggestion: dropped when a rewrite spoils it, a `ValueError` when the rewrites
      inside it leave none of its text, and otherwise carried to where its text went. */
  lemma {:induction false} CarryMeaning(text: string, rs: seq<Suggestion>, o: Suggestion)
    requires RightToLeft(text, rs) && Quotes(text, o) && MarksInside(o)
    ensures Spoiled(rs, o) ==> Carry(o, rs).Dropped?
    ensures !Spoiled(rs, o) && Expand(text, EditsOf(rs), o.start, o.end) == "" ==> Carry(o, rs).Raises?
    ensures !Spoiled(rs, o) && Expand(text, EditsOf(rs), o.start, o.end) != "" ==>
              Carry(o, rs).Kept? && Carried(text, EditsOf(rs), o, Carry(o, rs).item)
    decreases |rs|
  {
    if rs == [] {
      CarriedUnchanged(text, o);
    } else if !Spoils(rs[0], o) {
      var r := rs[0];
      ShiftMoves(r, o);
      HeadIsRightmost(text, rs);
      PutRightmost(text, EditsOf(rs), r.start, o.start, o.end);
      match ShiftSuggestion(o, r.start, r.end, r.replacement) {
        case Raises =>
          assert forall i :: 0 < i < |rs| ==> rs[i].end <= rs[0].start == o.start;
        case Kept(o') =>
          ShiftQuotes(text, r, o);
          ShiftKeepsMarksInside(text, r, o);
          StillRightToLeft(text, rs);
          CarryMeaning(After(text, r), rs[1..], o');
          SpoiledStep(text, rs, o, o');
          if Carry(o, rs).Kept? { CarriedStep(text, rs, o, o', Carry(o, rs).item); }
      }
    }
  }

  lemma CarriedUnchanged(text: string, o: Suggestion)
    requires Quotes(text, o) && MarksInside(o)
    ensures Carried(text, map[], o, o) && Expand(text, map[], o.start, o.end) != ""
  {
    forall x | 0 <= x <= |text| ensures Landing(text, map[], x) == x {
      ExpandPlain(text, map[], 0, x);
    }
    ExpandPlain(text, map[], o.start, o.end);
  }

  // ---------- the whole pass ----------

  function CarriedBy(os: seq<Suggestion>, rs: seq<Suggestion>): seq<Suggestion> {
    if os == [] then []
    else (match Carry(os[0], rs) case Kept(o) => [o] case _ => []) + CarriedBy(os[1..], rs)
  }

  predicate SomeRaises(os: seq<Suggestion>, rs: seq<Suggestion>) {
    exists i :: 0 <= i < |os| && Carry(os[i], rs).Raises?
  }

  lemma {:induction false} CarriedByStep(os: seq<Suggestion>, rs: seq<Suggestion>)
    requires rs != []
    ensures CarriedBy(os, rs) == CarriedBy(KeptPast(os, rs[0]), rs[1..])
  {
    if os != [] { CarriedByStep(os[1..], rs); }
  }

  lemma {:induction false} SomeRaisesStep(os: seq<Suggestion>, rs: seq<Suggestion>)
    requires rs != []
    ensures SomeRaises(os, rs) <==> RaisesPast(os, rs[0]) || SomeRaises(KeptPast(os, rs[0]), rs[1..])
  {
    if os != [] {
      var tail := os[1..];
      SomeRaisesStep(tail, rs);
      SomeRaisesHead(os, rs);
      assert RaisesPast(os, rs[0]) <==>
        ShiftSuggestion(os[0], rs[0].start, rs[0].end, rs[0].replacement).Raises? || RaisesPast(tail, rs[0])
      by { assert os == [os[0]] + tail; }
      match ShiftSuggestion(os[0], rs[0].start, rs[0].end, rs[0].replacement) {
        case Kept(o) =>
          SomeRaisesHead([o] + KeptPast(tail, rs[0]), rs[1..]);
        case _ =>
      }
    }
  }

  lemma SomeRaisesHead(os: seq<Suggestion>, rs: seq<Suggestion>)
    requires os != []
    ensures SomeRaises(os, rs) <==> Carry(os[0], rs).Raises? || SomeRaises(os[1..], rs)
  {
    if i :| 0 <= i < |os| && Carry(os[i], rs).Raises? {
      assert i > 0 ==> os[1..][i - 1] == os[i];
    }
    if i :| 0 <= i < |os[1..]| && Carry(os[1..][i], rs).Raises? {
      assert os[i + 1] == os[1..][i];
    }
  }

  lemma {:induction false} NoneLost(os: seq<Suggestion>, r: Suggestion)
    requires !RaisesPast(os, r)
    ensures |KeptPast(os, r)| + |DroppedPast(os, r)| == |os|
  {
    if os != [] {
      assert os[0] in os;
      assert forall o :: o in os[1..] ==> o in os;
      NoneLost(os[1..], r);
    }
  }

  /** The rightmost rewrite done, the rest of the batch still expands to the same text. */
  lemma RewriteKeepsExpansion(text: string, rs: seq<Suggestion>)
    requires rs != [] && RightToLeft(text, rs)
    ensures Disjoint(EditsOf(rs), |text|) && Disjoint(EditsOf(rs[1..]), |After(text, rs[0])|)
    ensures Expand(text, EditsOf(rs), 0, |text|)
            == Expand(After(text, rs[0]), EditsOf(rs[1..]), 0, |After(text, rs[0])|)
  {
    HeadIsRightmost(text, rs);
    hide Expand, Disjoint, EditsOf;
    var e := Edit(rs[0].end, rs[0].replacement);
    PutRightmost(text, EditsOf(rs), rs[0].start, 0, |text|);
    assert Moved(rs[0].start, e, 0) == 0 && Moved(rs[0].start, e, |text|) == |After(text, rs[0])|;
  }

  /** The pass treats each suggestion on its own, and loses none: what is not carried is a conflict. */
  lemma {:induction false} PassMeaning(text: string, rs: seq<Suggestion>, os: seq<Suggestion>,
                                       conflicts: seq<Suggestion>)
    requires RightToLeft(text, rs)
    ensures var p := RewritePass(text, rs, os, conflicts);
            && (p.PassRaised? <==> SomeRaises(os, rs))
            && (p.Pass? ==>
                  && p.text == Expand(text, EditsOf(rs), 0, |text|)
                  && p.others == CarriedBy(os, rs)
                  && |p.others| + |p.conflicts| == |os| + |conflicts|)
    decreases |rs|
  {
    hide Expand, KeptPast, DroppedPast, ShiftSuggestion, Disjoint, MarksInside, After;
    if rs == [] {
      ExpandPlain(text, EditsOf(rs), 0, |text|);
      CarriedByNone(os);
    } else {
      RewriteKeepsExpansion(text, rs);
      SpliceIsPut(text, rs[0]);
      StillRightToLeft(text, rs);
      SomeRaisesStep(os, rs);
      if !RaisesPast(os, rs[0]) {
        var t' := After(text, rs[0]);
        CarriedByStep(os, rs);
        NoneLost(os, rs[0]);
        PassMeaning(t', rs[1..], KeptPast(os, rs[0]), conflicts + DroppedPast(os, rs[0]));
      }
    }
  }

  lemma {:induction false} CarriedByNone(os: seq<Suggestion>)
    ensures CarriedBy(os, []) == os && !SomeRaises(os, [])
  {
    if os != [] { CarriedByNone(os[1..]); }
  }

  // ---------- the order of the batch does not matter ----------

  /** Each rewrite quotes the block, none is listed twice, and no two overlap. */
  ghost predicate CleanBatch(text: string, ss: seq<Suggestion>) {
    var rs := Filter(ss, true);
    && (forall r :: r in rs ==> Quotes(text, r))
    && (forall r :: r in rs ==> multiset(rs)[r] == 1)
    && (forall a, b :: a in rs && b in rs && a != b ==> a.end <= b.start || b.end <= a.start)
  }

  /** The rewrites of a batch as edits, whatever their order. */
  ghost function BatchEdits(text: string, ss: seq<Suggestion>): Edits
    requires CleanBatch(text, ss)
  {
    map r | r in Filter(ss, true) :: r.start := Edit(r.end, r.replacement)
  }

  lemma TwiceInMultiset(s: seq<Suggestion>, i: nat, j: nat)
    requires i < j < |s| && s[i] == s[j]
    ensures multiset(s)[s[i]] >= 2
  {
    assert s == s[..i] + [s[i]] + s[i + 1..j] + [s[j]] + s[j + 1..];
  }

  lemma SortedRightToLeft(text: string, ss: seq<Suggestion>)
    requires CleanBatch(text, ss)
    ensures RightToLeft(text, LastFirst(ss))
  {
    hide Sort, Filter;
    var fs := Filter(ss, true);
    var rs := Sort(fs, StartsLater);
    SortKeeps<Suggestion>(fs, StartsLater);
    SortSorts<Suggestion>(fs, StartsLater);
    forall i | 0 <= i < |rs| ensures Quotes(text, rs[i]) {
      assert rs[i] in fs;
    }
    forall i, j | 0 <= i < j < |rs| ensures rs[j].end <= rs[i].start {
      assert rs[i] in fs && rs[j] in fs && StartsLater(rs[i], rs[j]);
      if rs[i] == rs[j] { TwiceInMultiset(rs, i, j); }
    }
  }

  /** The edits are those of the members of `rs`, and no others. */
  ghost predicate DescribesBatch(es: Edits, rs: seq<Suggestion>) {
    && (forall r :: r in rs ==> r.start in es && es[r.start] == Edit(r.end, r.replacement))
    && (forall s :: s in es ==> exists r :: r in rs && r.start == s)
  }

  lemma SameDescription(a: Edits, b: Edits, rs: seq<Suggestion>)
    requires DescribesBatch(a, rs) && DescribesBatch(b, rs)
    ensures a == b
  {
  }

  lemma RewriteIsEdit(text: string, rs: seq<Suggestion>, r: Suggestion)
    requires RightToLeft(text, rs) && r in rs
    ensures r.start in EditsOf(rs) && EditsOf(rs)[r.start] == Edit(r.end, r.replacement)
  {
    CollectDescribes(Placings(rs), |text|);
    var i :| 0 <= i < |rs| && rs[i] == r;
    assert Placings(rs)[i].start == r.start;
  }

  lemma EditIsRewrite(text: string, rs: seq<Suggestion>, s: nat) returns (r: Suggestion)
    requires RightToLeft(text, rs) && s in EditsOf(rs)
    ensures r in rs && r.start == s
  {
    CollectDescribes(Placings(rs), |text|);
    var i :| 0 <= i < |rs| && Placings(rs)[i].start == s;
    r := rs[i];
  }

  lemma EditsOfDescribes(text: string, rs: seq<Suggestion>, members: seq<Suggestion>)
    requires RightToLeft(text, rs)
    requires forall r :: r in members <==> r in rs
    ensures DescribesBatch(EditsOf(rs), members)
  {
    hide RightToLeft, EditsOf;
    forall r | r in members ensures r.start in EditsOf(rs) && EditsOf(rs)[r.start] == Edit(r.end, r.replacement) {
      RewriteIsEdit(text, rs, r);
    }
    forall s | s in EditsOf(rs) ensures exists r :: r in members && r.start == s {
      var r := EditIsRewrite(text, rs, s);
    }
  }

  lemma BatchEditsAreEditsOf(text: string, ss: seq<Suggestion>)
    requires CleanBatch(text, ss)
    ensures BatchEdits(text, ss) == EditsOf(LastFirst(ss))
  {
    var fs := Filter(ss, true);
    SortKeeps<Suggestion>(fs, StartsLater);
    SortedRightToLeft(text, ss);
    EditsOfDescribes(text, LastFirst(ss), fs);
    SameDescription(BatchEdits(text, ss), EditsOf(LastFirst(ss)), fs);
  }

  // ---------- the theorems about `apply_block` ----------

  /** Some rewrite of the batch spoils `o`. */
  ghost predicate SpoiledIn(ss: seq<Suggestion>, o: Suggestion) {
    exists r :: r in ss && r.kind.ConversionArtifact? && Spoils(r, o)
  }

  /** The character at `x` lies in a rewrite of the batch that deletes it. */
  ghost predicate DeletedIn(ss: seq<Suggestion>, x: nat) {
    exists r :: r in ss && r.kind.ConversionArtifact? && r.start <= x < r.end && r.replacement == ""
  }

  /** Every character of `o` is deleted. */
  ghost predicate Emptied(ss: seq<Suggestion>, o: Suggestion) {
    forall x :: o.start <= x < o.end ==> DeletedIn(ss, x)
  }

  lemma SpoiledInIsSpoiled(ss: seq<Suggestion>, o: Suggestion)
    ensures SpoiledIn(ss, o) <==> Spoiled(LastFirst(ss), o)
  {
    var rs := LastFirst(ss);
    FilterIn(ss, true);
    SortKeeps<Suggestion>(Filter(ss, true), StartsLater);
    if r :| r in ss && r.kind.ConversionArtifact? && Spoils(r, o) {
      assert r in Filter(ss, true);
      var i :| 0 <= i < |rs| && rs[i] == r;
    }
    if i :| 0 <= i < |rs| && Spoils(rs[i], o) {
      assert rs[i] in Filter(ss, true);
    }
  }

  ghost predicate DeletedAt(es: Edits, x: nat) {
    exists s :: s in es && s <= x < es[s].end && es[s].text == ""
  }

  /** The expansion of a stretch is empty exactly when deletions cover it from end to end. */
  lemma {:induction false} EmptyExpansion(text: string, es: Edits, from: nat, to: nat)
    requires Disjoint(es, |text|) && from <= to <= |text| && !Straddled(es, from)
    ensures Expand(text, es, from, to) == "" <==> forall x :: from <= x < to ==> DeletedAt(es, x)
    decreases |text| - from
  {
    if from < to {
      if from in es {
        var e := es[from];
        assert !Straddled(es, e.end);
        forall x | from <= x < e.end ensures DeletedAt(es, x) <==> e.text == "" {
          assert forall s :: s in es && s <= x < es[s].end ==> s == from;
        }
        if e.end <= to { EmptyExpansion(text, es, e.end, to); }
        assert DeletedAt(es, from) <==> e.text == "";
      } else {
        assert !DeletedAt(es, from);
      }
    }
  }

  lemma BatchDescribes(text: string, ss: seq<Suggestion>)
    requires CleanBatch(text, ss)
    ensures DescribesBatch(BatchEdits(text, ss), Filter(ss, true))
  {
  }

  lemma DeletedInIsDeletedAt(ss: seq<Suggestion>, es: Edits, x: nat)
    requires DescribesBatch(es, Filter(ss, true))
    ensures DeletedIn(ss, x) <==> DeletedAt(es, x)
  {
    FilterIn(ss, true);
    if r :| r in ss && r.kind.ConversionArtifact? && r.start <= x < r.end && r.replacement == "" {
      assert r in Filter(ss, true);
      assert es[r.start] == Edit(r.end, "");
    }
    if s :| s in es && s <= x < es[s].end && es[s].text == "" {
      var r :| r in Filter(ss, true) && r.start == s;
      assert es[r.start] == Edit(r.end, r.replacement);
    }
  }

  lemma EmptiedIsEmpty(text: string, ss: seq<Suggestion>, o: Suggestion)
    requires CleanBatch(text, ss) && o.end <= |text| && !SpoiledIn(ss, o)
    ensures Emptied(ss, o) <==> Expand(text, BatchEdits(text, ss), o.start, o.end) == ""
  {
    BatchIsDisjoint(text, ss);
    BatchDescribes(text, ss);
    forall x: nat ensures DeletedIn(ss, x) <==> DeletedAt(BatchEdits(text, ss), x) {
      DeletedInIsDeletedAt(ss, BatchEdits(text, ss), x);
    }
    NotStraddled(text, ss, o);
    EmptyExpansion(text, BatchEdits(text, ss), o.start, o.end);
  }

  lemma BatchIsDisjoint(text: string, ss: seq<Suggestion>)
    requires CleanBatch(text, ss)
    ensures Disjoint(BatchEdits(text, ss), |text|)
  {
    BatchEditsAreEditsOf(text, ss);
    SortedRightToLeft(text, ss);
    EditsAreDisjoint(text, LastFirst(ss));
  }

  lemma NotStraddled(text: string, ss: seq<Suggestion>, o: Suggestion)
    requires CleanBatch(text, ss) && o.end <= |text| && !SpoiledIn(ss, o)
    ensures !Straddled(BatchEdits(text, ss), o.start) && !Straddled(BatchEdits(text, ss), o.end)
  {
    var es := BatchEdits(text, ss);
    FilterIn(ss, true);
    forall s | s in es ensures !(s < o.start < es[s].end) && !(s < o.end < es[s].end) {
      var r :| r in Filter(ss, true) && r.start == s;
      assert !Spoils(r, o);
    }
  }

  /** The suggestions the engine builds: a reading quotes the block and its marks lie inside it. */
  ghost predicate Sound(text: string, ss: seq<Suggestion>) {
    forall o :: o in ss && !o.kind.ConversionArtifact? ==> Quotes(text, o) && MarksInside(o)
  }

  lemma {:induction false} CarriedMembers(os: seq<Suggestion>, rs: seq<Suggestion>, o: Suggestion)
    requires o in os && Carry(o, rs).Kept?
    ensures Carry(o, rs).item in CarriedBy(os, rs)
  {
    if os[0] != o { CarriedMembers(os[1..], rs, o); }
  }

  /** The fate of one suggestion, told from the batch as listed. */
  lemma Fate(text: string, ss: seq<Suggestion>, o: Suggestion)
    requires CleanBatch(text, ss) && Quotes(text, o) && MarksInside(o)
    ensures var c := Carry(o, LastFirst(ss));
            && (c.Dropped? <==> SpoiledIn(ss, o))
            && (c.Raises? <==> !SpoiledIn(ss, o) && Emptied(ss, o))
            && (c.Kept? ==> Carried(text, BatchEdits(text, ss), o, c.item))
  {
    SortedRightToLeft(text, ss);
    BatchEditsAreEditsOf(text, ss);
    CarryMeaning(text, LastFirst(ss), o);
    SpoiledInIsSpoiled(ss, o);
    if !SpoiledIn(ss, o) { EmptiedIsEmpty(text, ss, o); }
  }

  lemma PassOfMeaning(text: string, ss: seq<Suggestion>)
    requires CleanBatch(text, ss)
    ensures var p := PassOf(text, ss);
            && (p.PassRaised? <==> SomeRaises(Filter(ss, false), LastFirst(ss)))
            && (p.Pass? ==>
                  && p.text == Expand(text, BatchEdits(text, ss), 0, |text|)
                  && p.others == CarriedBy(Filter(ss, false), LastFirst(ss))
                  && |p.others| + |p.conflicts| == |Filter(ss, false)|)
  {
    SortedRightToLeft(text, ss);
    BatchEditsAreEditsOf(text, ss);
    PassMeaning(text, LastFirst(ss), Filter(ss, false), []);
  }

  /** `apply_block` raises `ValueError` exactly when its rewrites delete all of some other
      suggestion's text without spoiling that suggestion. */
  lemma ApplyBlockRaises(text: string, ss: seq<Suggestion>)
    requires CleanBatch(text, ss) && Sound(text, ss)
    ensures Applying(text, ss).Raised? <==>
            exists o :: o in ss && !o.kind.ConversionArtifact? && !SpoiledIn(ss, o) && Emptied(ss, o)
  {
    var rs, os := LastFirst(ss), Filter(ss, false);
    PassOfMeaning(text, ss);
    FilterIn(ss, false);
    if i :| 0 <= i < |os| && Carry(os[i], rs).Raises? {
      assert os[i] in os;
      Fate(text, ss, os[i]);
    }
    if o :| o in ss && !o.kind.ConversionArtifact? && !SpoiledIn(ss, o) && Emptied(ss, o) {
      Fate(text, ss, o);
      assert o in os;
      var i :| 0 <= i < |os| && os[i] == o;
    }
  }

  /** The text `apply_block` returns is the simultaneous substitution of its rewrites, in whatever
      order they were listed. */
  lemma ApplyBlockText(text: string, ss: seq<Suggestion>)
    requires CleanBatch(text, ss) && Applying(text, ss).Applied?
    ensures Applying(text, ss).text == Expand(text, BatchEdits(text, ss), 0, |text|)
  {
    PassOfMeaning(text, ss);
  }

  /** A suggestion that is carried still quotes the new text at its new offsets. */
  lemma CarriedQuotes(text: string, ss: seq<Suggestion>, o: Suggestion, o': Suggestion)
    requires CleanBatch(text, ss) && !SpoiledIn(ss, o)
    requires Carried(text, BatchEdits(text, ss), o, o')
    ensures Quotes(Expand(text, BatchEdits(text, ss), 0, |text|), o')
  {
    BatchIsDisjoint(text, ss);
    NotStraddled(text, ss, o);
    ExpandWindow(text, BatchEdits(text, ss), o.start, o.end);
  }

  lemma MarkUntouched(ss: seq<Suggestion>, es: Edits, o: Suggestion, m: Mark)
    requires DescribesBatch(es, Filter(ss, true))
    requires MarksInside(o) && !SpoiledIn(ss, o) && m in o.segments
    ensures forall s :: s in es ==> es[s].end <= m.start || m.end <= s
  {
    FilterIn(ss, true);
    forall s | s in es ensures es[s].end <= m.start || m.end <= s {
      var r :| r in Filter(ss, true) && r.start == s;
      assert !Spoils(r, o);
      MarkOutside(r, o, m);
      assert o.end > r.start && o.start < r.end ==> Clear(m, r.start, r.end);
    }
  }

  /** A mark that is carried covers the characters it covered before. */
  lemma CarriedMark(text: string, ss: seq<Suggestion>, o: Suggestion, m: Mark)
    requires CleanBatch(text, ss) && o.end <= |text| && MarksInside(o) && !SpoiledIn(ss, o)
    requires m in o.segments
    ensures var es := BatchEdits(text, ss);
            var t', m' := Expand(text, es, 0, |text|), LandedMark(text, es, m);
            && 0 <= m'.start <= m'.end <= |t'|
            && t'[m'.start..m'.end] == text[m.start..m.end]
  {
    var es := BatchEdits(text, ss);
    BatchIsDisjoint(text, ss);
    BatchDescribes(text, ss);
    MarkUntouched(ss, es, o, m);
    ExpandWindow(text, es, m.start, m.end);
    ExpandPlain(text, es, m.start, m.end);
  }

  /** Every other suggestion that no rewrite spoils reaches the classification step, still quoting
      the text at the offsets where its own text went; a spoiled one does not. None is lost: the rest
      are conflicts. */
  lemma ApplyBlockCarries(text: string, ss: seq<Suggestion>, o: Suggestion)
    requires CleanBatch(text, ss) && Sound(text, ss) && Applying(text, ss).Applied?
    requires o in ss && !o.kind.ConversionArtifact?
    ensures var p := PassOf(text, ss);
            && |p.others| + |p.conflicts| == |Filter(ss, false)|
            && (SpoiledIn(ss, o) <==> Carry(o, LastFirst(ss)).Dropped?)
            && (!SpoiledIn(ss, o) ==>
                  exists o' :: o' in p.others && Carried(text, BatchEdits(text, ss), o, o') && Quotes(p.text, o'))
  {
    PassOfMeaning(text, ss);
    ApplyBlockRaises(text, ss);
    Fate(text, ss, o);
    FilterIn(ss, false);
    if !SpoiledIn(ss, o) {
      var o' := Carry(o, LastFirst(ss)).item;
      CarriedMembers(Filter(ss, false), LastFirst(ss), o);
      CarriedQuotes(text, ss, o, o');
    }
  }

  // ---------- from carried suggestions to emitted spans ----------

  lemma {:induction false} AllSpansMember(text: string, os: seq<Suggestion>, o: Suggestion, p: AppliedSpan)
    requires o in os && p in SpansOf(text, o)
    ensures p in AllSpans(text, os)
  {
    if os[0] != o { AllSpansMember(text, os[1..], o, p); }
  }

  lemma {:induction false} PaintedMember(spans: seq<AppliedSpan>, genders: seq<Suggestion>, p: AppliedSpan)
    requires p in spans
    ensures PaintOne(p, genders) in Painted(spans, genders)
  {
    if spans[0] != p { PaintedMember(spans[1..], genders, p); }
  }

  /** A reading no rewrite spoils becomes a pronunciation span over the text its own text became, and
      what is spoken there is the suggestion's replacement. */
  lemma ReadingIsSpoken(text: string, ss: seq<Suggestion>, o: Suggestion)
    requires CleanBatch(text, ss) && Sound(text, ss) && Applying(text, ss).Applied?
    requires o in ss && IsPronunciation(o.kind) && !SpoiledIn(ss, o)
    ensures var r := Applying(text, ss);
            exists p :: p in r.spans && p.kind == Pronunciation && p.spoken == o.replacement
                     && 0 <= p.start <= p.end <= |r.text|
                     && r.text[p.start..p.end] == Expand(text, BatchEdits(text, ss), o.start, o.end)
  {
    ApplyBlockCarries(text, ss, o);
    var pass := PassOf(text, ss);
    var o' :| o' in pass.others && Carried(text, BatchEdits(text, ss), o, o') && Quotes(pass.text, o');
    var p := Plain(Pronunciation, o'.start, o'.end).(spoken := o'.replacement);
    assert SpansOf(pass.text, o') == [p];
    AllSpansMember(pass.text, pass.others, o', p);
    var genders := Genders(pass.text, pass.others);
    PaintedMember(AllSpans(pass.text, pass.others), genders, p);
    SortKeeps(Painted(AllSpans(pass.text, pass.others), genders), SpanOrder);
    assert p in Applying(text, ss).spans;
  }

  /** `original` is as long as the span, which every caller of `make_suggestion` gets. */
  predicate Measured(o: Suggestion) {
    |o.original| == o.end - o.start
  }

  lemma {:induction false} KeptStayMeasured(os: seq<Suggestion>, r: Suggestion)
    requires forall o :: o in os ==> Measured(o)
    ensures forall o :: o in KeptPast(os, r) ==> Measured(o)
  {
    if os != [] {
      assert Measured(os[0]);
      KeptStayMeasured(os[1..], r);
    }
  }

  lemma {:induction false} PassStaysMeasured(text: string, rs: seq<Suggestion>, os: seq<Suggestion>,
                                             conflicts: seq<Suggestion>)
    requires forall o :: o in os ==> Measured(o)
    ensures var p := RewritePass(text, rs, os, conflicts);
            p.Pass? ==> forall o :: o in p.others ==> Measured(o)
    decreases |rs|
  {
    if rs == [] {
    } else if Slice(text, rs[0].start, rs[0].end) != rs[0].original {
      PassStaysMeasured(text, rs[1..], os, conflicts + [rs[0]]);
    } else if !RaisesPast(os, rs[0]) {
      KeptStayMeasured(os, rs[0]);
      PassStaysMeasured(Splice(text, rs[0].start, rs[0].end, rs[0].replacement), rs[1..],
                        KeptPast(os, rs[0]), conflicts + DroppedPast(os, rs[0]));
    }
  }

  predicate InRange(p: AppliedSpan, n: nat) {
    0 <= p.start <= p.end <= n
  }

  lemma {:induction false} DialogueSpansInRange(ms: seq<Mark>, n: nat)
    ensures forall p :: p in DialogueSpans(ms, n) ==> InRange(p, n)
  {
    if ms != [] { DialogueSpansInRange(ms[1..], n); }
  }

  lemma {:induction false} AllSpansInRange(text: string, os: seq<Suggestion>)
    requires forall o :: o in os ==> Measured(o)
    ensures forall p :: p in AllSpans(text, os) ==> InRange(p, |text|)
  {
    if os != [] {
      assert Measured(os[0]);
      DialogueSpansInRange(os[0].segments, |text|);
      AllSpansInRange(text, os[1..]);
    }
  }

  lemma {:induction false} PaintOneKeepsPlace(p: AppliedSpan, genders: seq<Suggestion>)
    ensures PaintOne(p, genders).start == p.start && PaintOne(p, genders).end == p.end
  {
    if genders != [] { PaintOneKeepsPlace(p, genders[1..]); }
  }

  lemma {:induction false} PaintedInRange(spans: seq<AppliedSpan>, genders: seq<Suggestion>, n: nat)
    requires forall p :: p in spans ==> InRange(p, n)
    ensures forall p :: p in Painted(spans, genders) ==> InRange(p, n)
  {
    if spans != [] {
      assert InRange(spans[0], n);
      PaintOneKeepsPlace(spans[0], genders);
      PaintedInRange(spans[1..], genders, n);
    }
  }

  /** Whatever the batch - overlapping, stale or unordered - every emitted span lies inside the
      returned text. */
  lemma SpansInRange(text: string, ss: seq<Suggestion>)
    requires forall o :: o in ss ==> Measured(o)
    ensures var r := Applying(text, ss);
            r.Applied? ==> forall p :: p in r.spans ==> InRange(p, |r.text|)
  {
    FilterIn(ss, false);
    PassStaysMeasured(text, LastFirst(ss), Filter(ss, false), []);
    var pass := PassOf(text, ss);
    if pass.Pass? {
      var painted := Painted(AllSpans(pass.text, pass.others), Genders(pass.text, pass.others));
      AllSpansInRange(pass.text, pass.others);
      PaintedInRange(AllSpans(pass.text, pass.others), Genders(pass.text, pass.others), |pass.text|);
      SortKeeps(painted, SpanOrder);
    }
  }

  /** A deletion of exactly the text a reading quotes makes `apply_block` raise. */
  lemma DeletionUnderReadingRaises()
    ensures Applying("ab", [Suggestion(ConversionArtifact, 0, 1, "a", "", [], 0.9, ""),
                            Suggestion(Acronym, 0, 1, "a", "A", [], 0.9, "")]).Raised?
  {
    var cut: Suggestion := Suggestion(ConversionArtifact, 0, 1, "a", "", [], 0.9, "");
    var read: Suggestion := Suggestion(Acronym, 0, 1, "a", "A", [], 0.9, "");
    var ss := [cut, read];
    assert Filter(ss[1..], true) == [];
    assert Filter(ss, true) == [cut];
    assert Filter(ss, false) == [read] by { assert Filter(ss[1..], false) == [read]; }
    var only: seq<Suggestion> := [cut];
    assert only[1..] == [];
    assert Sort<Suggestion>(only, StartsLater) == only;
    assert LastFirst(ss) == [cut];
    assert read in [read];
    assert Slice("ab", 0, 1) == "a";
  }
}
