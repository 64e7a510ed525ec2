/** Where the segmenter starts a sentence, told from the text alone. */
module SegmentProofs {
  import opened PyText
  import opened Segment

  /** A whole run of sentence punctuation. */
  ghost predicate RunAt(text: string, i: nat, j: nat) {
    && i < j <= |text| && (forall k :: i <= k < j ==> IsPunct(text[k]))
    && (i > 0 ==> !IsPunct(text[i - 1])) && (j < |text| ==> !IsPunct(text[j]))
  }

  /** Behind `j` come closing quotes up to `g` and then white space up to `c`. */
  ghost predicate SpacedOut(text: string, j: nat, g: nat, c: nat) {
    && j <= g < c < |text| && (forall k :: j <= k < g ==> IsCloser(text[k]))
    && (forall k :: g <= k < c ==> IsSpace(text[k])) && !IsSpace(text[c])
  }

  /** At `c` come opening quotes and then, at `f`, a capital, a digit or a dash. */
  ghost predicate OpensAt(text: string, capital: char -> bool, c: nat, f: nat) {
    && c <= f < |text| && (forall k :: c <= k < f ==> IsOpener(text[k]))
    && !IsOpener(text[f]) && (capital(text[f]) || IsDash(text[f]))
  }

  /** No abbreviation holds the character at `x`. */
  ghost predicate Outside(x: nat, abbrevs: seq<(nat, nat)>) {
    forall k :: 0 <= k < |abbrevs| ==> x < abbrevs[k].0 || abbrevs[k].1 <= x
  }

  ghost predicate Leads(text: string, rules: Rules, i: nat, j: nat, c: nat) {
    && RunAt(text, i, j) && (exists x :: i <= x < j && Outside(x, rules.abbrevs))
    && (exists g :: SpacedOut(text, j, g, c)) && (exists f :: OpensAt(text, rules.capital, c, f))
  }

  /** A run of punctuation that is not all of an abbreviation leads over to `c`. */
  ghost predicate LedTo(text: string, rules: Rules, from: nat, c: nat) {
    exists i, j :: from <= i && Leads(text, rules, i, j, c)
  }

  // ---------- the starts that are found ----------

  lemma SkipIs(text: string, index: nat, skip: char -> bool, r: nat)
    requires index <= r <= |text| && (forall k :: index <= k < r ==> skip(text[k])) && (r < |text| ==> !skip(text[r]))
    ensures SkipWhile(text, index, skip) == r
  {
    hide SkipWhile;
    var n := SkipWhile(text, index, skip);
  }

  lemma SpaceIsNoQuote(c: char)
    ensures IsSpace(c) ==> !IsCloser(c) && !IsOpener(c) && !IsPunct(c)
  {
  }

  lemma NextStartMeans(text: string, j: nat, capital: char -> bool, c: nat)
    requires j <= |text|
    ensures NextStart(text, j, capital) == c <==>
            (exists g :: SpacedOut(text, j, g, c)) && (exists f :: OpensAt(text, capital, c, f))
  {
    hide IsSpace, IsCloser, IsOpener, IsPunct, IsDash;
    if NextStart(text, j, capital) == c {
      assert SpacedOut(text, j, SkipWhile(text, j, IsCloser), c);
      assert OpensAt(text, capital, c, SkipWhile(text, c, IsOpener));
    }
    if g: nat, f: nat :| SpacedOut(text, j, g, c) && OpensAt(text, capital, c, f) {
      SpaceIsNoQuote(text[g]);
      SkipIs(text, j, IsCloser, g);
      SkipIs(text, g, IsSpace, c);
      SkipIs(text, c, IsOpener, f);
    }
  }

  lemma {:induction false} StartsAre(text: string, i: nat, rules: Rules, c: nat)
    requires i <= |text| && (0 < i < |text| && IsPunct(text[i]) ==> !IsPunct(text[i - 1]))
    ensures c in StartsFrom(text, i, rules) <==> LedTo(text, rules, i, c)
    decreases |text| - i
  {
    hide IsPunct, Leads, NextStart, SkipWhile;
    if i == |text| {
      LeadsAhead(text, rules, i, c);
    } else if !IsPunct(text[i]) {
      StartsAre(text, i + 1, rules, c);
      LeadsAhead(text, rules, i, c);
    } else {
      var j := SkipWhile(text, i, IsPunct);
      StartsAre(text, j, rules, c);
      RunHere(text, rules, i, j, c);
      NextStartMeans(text, j, rules.capital, c);
      LeadsHere(text, rules, i, j, c);
    }
  }

  lemma LeadsAhead(text: string, rules: Rules, i: nat, c: nat)
    requires i <= |text| && (i < |text| ==> !IsPunct(text[i]))
    ensures i == |text| ==> !LedTo(text, rules, i, c)
    ensures i < |text| ==> (LedTo(text, rules, i, c) <==> LedTo(text, rules, i + 1, c))
  {
    hide IsPunct, Outside, SpacedOut, OpensAt;
    forall a: nat, b: nat | i <= a && Leads(text, rules, a, b, c) ensures i < a {
    }
  }

  /** Of the runs from `i` on, the first is this one. */
  lemma RunHere(text: string, rules: Rules, i: nat, j: nat, c: nat)
    requires i < |text| && IsPunct(text[i]) && (i > 0 ==> !IsPunct(text[i - 1])) && j == SkipWhile(text, i, IsPunct)
    ensures i < j && RunAt(text, i, j) && (j < |text| ==> !IsPunct(text[j]))
    ensures LedTo(text, rules, i, c) <==> Leads(text, rules, i, j, c) || LedTo(text, rules, j, c)
  {
    hide IsPunct, Outside, SpacedOut, OpensAt;
    forall a: nat, b: nat | i <= a && Leads(text, rules, a, b, c) ensures (a == i && b == j) || j <= a {
    }
  }

  lemma CoveredMeans(i: nat, j: nat, abbrevs: seq<(nat, nat)>)
    ensures Covered(i, j, abbrevs) <==> !exists x :: i <= x < j && Outside(x, abbrevs)
  {
    forall x: nat ensures Outside(x, abbrevs) <==> !InAbbrev(x, abbrevs) {
      if !Outside(x, abbrevs) {
        var k :| 0 <= k < |abbrevs| && abbrevs[k].0 <= x < abbrevs[k].1;
        assert InAbbrev(x, abbrevs);
      }
    }
  }

  lemma LeadsHere(text: string, rules: Rules, i: nat, j: nat, c: nat)
    requires i < j <= |text| && RunAt(text, i, j)
    requires NextStart(text, j, rules.capital) == c <==>
             (exists g :: SpacedOut(text, j, g, c)) && (exists f :: OpensAt(text, rules.capital, c, f))
    ensures c in StartAfter(text, i, j, rules) <==> Leads(text, rules, i, j, c)
  {
    CoveredMeans(i, j, rules.abbrevs);
    hide IsPunct, Covered, SpacedOut, OpensAt, NextStart, Outside;
  }

  // ---------- the spans that are cut ----------

  /** The text in front of `c` ends at `e`. */
  ghost predicate InkEnds(text: string, e: nat, c: nat) {
    0 < e <= c <= |text| && !IsSpace(text[e - 1]) && forall k :: e <= k < c ==> IsSpace(text[k])
  }

  ghost predicate GoodBounds(text: string, bounds: seq<nat>) {
    && bounds != [] && Ascending(bounds) && bounds[|bounds| - 1] == |text|
    && forall k :: 0 <= k < |bounds| - 1 ==> bounds[k] < |text| && !IsSpace(text[bounds[k]])
  }

  /** The spans between bounds that stand on text start there, and end where the text in front of the next
      bound ends. */
  ghost predicate CutAt(text: string, bounds: seq<nat>, spans: seq<SentenceSpan>) {
    && |bounds| == |spans| + 1
    && forall k :: 0 <= k < |spans| ==> spans[k].start == bounds[k] && InkEnds(text, spans[k].end, bounds[k + 1])
  }

  lemma OneCutIs(text: string, begin: nat, end: nat)
    requires begin < end <= |text| && !IsSpace(text[begin])
    ensures var cut := OneCut(text, begin, end);
            |cut| == 1 && cut[0].start == begin && InkEnds(text, cut[0].end, end)
  {
    hide IsSpace;
    var a := TrimLeft(text, begin, end);
    assert a == begin;
    var b := TrimRight(text, a, end);
    forall k | b <= k < end ensures IsSpace(text[k]) { assert text[b..end][k - b] == text[k]; }
  }

  lemma TailBounds(text: string, bounds: seq<nat>)
    requires GoodBounds(text, bounds) && |bounds| > 1
    ensures GoodBounds(text, bounds[1..]) && bounds[0] < bounds[1] <= |text| && !IsSpace(text[bounds[0]])
  {
    hide IsSpace;
    assert |bounds| > 2 ==> bounds[1] < bounds[|bounds| - 1];
  }

  lemma {:induction false} BetweenIs(text: string, bounds: seq<nat>)
    requires GoodBounds(text, bounds)
    ensures forall k :: 0 <= k < |bounds| ==> bounds[k] <= |text|
    ensures CutAt(text, bounds, Between(text, bounds))
  {
    hide IsSpace, OneCut, InkEnds;
    if |bounds| > 1 {
      TailBounds(text, bounds);
      hide GoodBounds;
      BetweenIs(text, bounds[1..]);
      OneCutIs(text, bounds[0], bounds[1]);
    }
  }

  /** The first character that is no white space. */
  ghost predicate FirstInk(text: string, s: nat) {
    s < |text| && !IsSpace(text[s]) && forall k :: 0 <= k < s ==> IsSpace(text[k])
  }

  lemma LedAfterInk(text: string, rules: Rules, first: nat, c: nat)
    requires FirstInk(text, first) && LedTo(text, rules, 0, c)
    ensures first < c < |text| && !IsSpace(text[c])
  {
    hide IsSpace, IsPunct, Outside, OpensAt;
    var i: nat, j: nat :| Leads(text, rules, i, j, c);
    var g: nat :| SpacedOut(text, j, g, c);
    SpaceIsNoQuote(text[i]);
    assert IsPunct(text[i]);
  }

  lemma BoundsAreGood(text: string, first: nat, later: seq<nat>)
    requires FirstInk(text, first) && Ascending(later)
    requires forall k :: 0 <= k < |later| ==> first < later[k] < |text| && !IsSpace(text[later[k]])
    ensures GoodBounds(text, [first] + later + [|text|])
    ensures forall k :: 0 <= k < |later| + 2 ==> ([first] + later + [|text|])[k] <= |text|
  {
    hide IsSpace;
  }

  lemma LaterStarts(text: string, rules: Rules, first: nat) returns (later: seq<nat>)
    requires FirstInk(text, first)
    ensures later == Later(StartsFrom(text, 0, rules), first) && Ascending(later)
    ensures forall k :: 0 <= k < |later| ==> first < later[k] < |text| && !IsSpace(text[later[k]])
    ensures forall c: nat :: c in later <==> LedTo(text, rules, 0, c)
    ensures forall k :: 0 <= k < |StartsFrom(text, 0, rules)| ==> StartsFrom(text, 0, rules)[k] <= |text|
  {
    hide IsSpace, StartsFrom, LedTo, Later;
    var starts := StartsFrom(text, 0, rules);
    later := Later(starts, first);
    StartsAreGood(text, 0, rules);
    LaterAscending(starts, first);
    LaterIn(starts, first);
    LaterAll(text, rules, starts, first);
    forall c: nat ensures c in later <==> LedTo(text, rules, 0, c) { StartsAre(text, 0, rules, c); }
    forall k | 0 <= k < |later| ensures first < later[k] < |text| && !IsSpace(text[later[k]]) {
      assert later[k] in starts;
    }
  }

  /** The bounds: the first text, every start that is led to, and the end. */
  lemma BoundsAre(text: string, rules: Rules) returns (bounds: seq<nat>)
    requires SkipWhile(text, 0, IsSpace) < |text|
    ensures GoodBounds(text, bounds) && |bounds| >= 2 && FirstInk(text, bounds[0])
    ensures forall k :: 0 <= k < |bounds| ==> bounds[k] <= |text|
    ensures (forall k :: 0 <= k < |StartsFrom(text, 0, rules)| ==> StartsFrom(text, 0, rules)[k] <= |text|)
            && Cuts(text, StartsFrom(text, 0, rules)) == Between(text, bounds)
    ensures forall c: nat :: c < |text| ==> (InnerBound(bounds, c) <==> LedTo(text, rules, 0, c))
  {
    hide IsSpace, StartsFrom, LedTo, Between, Later, GoodBounds, InnerBound;
    var first := SkipWhile(text, 0, IsSpace);
    assert FirstInk(text, first);
    var later := LaterStarts(text, rules, first);
    bounds := [first] + later + [|text|];
    BoundsAreGood(text, first, later);
    forall c: nat | c < |text| ensures InnerBound(bounds, c) <==> LedTo(text, rules, 0, c) {
      InBounds(first, later, |text|, c);
    }
  }

  ghost predicate InnerBound(bounds: seq<nat>, c: nat) {
    exists k :: 0 < k < |bounds| && bounds[k] == c
  }

  lemma InBounds(first: nat, later: seq<nat>, n: nat, c: nat)
    requires c < n
    ensures InnerBound([first] + later + [n], c) <==> c in later
  {
    var bounds := [first] + later + [n];
    if c in later {
      var k :| 0 <= k < |later| && later[k] == c;
      assert bounds[k + 1] == c;
    }
    if k :| 0 < k < |bounds| && bounds[k] == c {
      assert k - 1 < |later| && later[k - 1] == c;
    }
  }

  /** Every start comes behind the first text. */
  lemma LaterAll(text: string, rules: Rules, starts: seq<nat>, first: nat)
    requires starts == StartsFrom(text, 0, rules) && FirstInk(text, first)
    ensures forall c: nat :: c in Later(starts, first) <==> c in starts
  {
    hide StartsFrom, FirstInk, LedTo, Later;
    forall c: nat | c in starts ensures c > first {
      StartsAre(text, 0, rules, c);
      LedAfterInk(text, rules, first, c);
    }
    LaterKeeps(starts, first);
  }

  lemma {:induction false} LaterKeeps(starts: seq<nat>, first: nat)
    ensures forall c: nat :: c in Later(starts, first) <==> c in starts && c > first
  {
    if starts != [] { LaterKeeps(starts[1..], first); }
  }

  // ---------- the guard ----------

  ghost predicate StartsAt(spans: seq<SentenceSpan>, s: nat) {
    exists k :: 0 <= k < |spans| && spans[k].start == s
  }

  /** The end of the span in front of span `k`. */
  function EndBefore(end: nat, spans: seq<SentenceSpan>, k: nat): nat
    requires k <= |spans|
  {
    if k == 0 then end else spans[k - 1].end
  }

  ghost predicate StaysAt(end: nat, spans: seq<SentenceSpan>, abbrevs: seq<(nat, nat)>, s: nat, k: nat) {
    k < |spans| && spans[k].start == s && !AbbreviationBoundary(EndBefore(end, spans, k), s, abbrevs)
  }

  /** Some span behind `end` starts at `s`, with no abbreviation that ends in front of it. */
  ghost predicate StaysCut(end: nat, spans: seq<SentenceSpan>, abbrevs: seq<(nat, nat)>, s: nat) {
    exists k :: StaysAt(end, spans, abbrevs, s, k)
  }

  lemma StaysStep(end: nat, spans: seq<SentenceSpan>, abbrevs: seq<(nat, nat)>, s: nat)
    requires spans != []
    ensures StaysCut(end, spans, abbrevs, s) <==>
            (spans[0].start == s && !AbbreviationBoundary(end, s, abbrevs))
            || StaysCut(spans[0].end, spans[1..], abbrevs, s)
  {
    hide AbbreviationBoundary;
    var tail := spans[1..];
    assert StaysAt(end, spans, abbrevs, s, 0) <==> spans[0].start == s && !AbbreviationBoundary(end, s, abbrevs);
    forall k: nat ensures StaysAt(spans[0].end, tail, abbrevs, s, k) <==> StaysAt(end, spans, abbrevs, s, k + 1) {}
    if k: nat :| StaysAt(end, spans, abbrevs, s, k) {
      assert k > 0 ==> StaysAt(end, spans, abbrevs, s, (k - 1) + 1);
      if k > 0 { assert StaysAt(spans[0].end, tail, abbrevs, s, k - 1); }
    }
    if k: nat :| StaysAt(spans[0].end, tail, abbrevs, s, k) { assert StaysAt(end, spans, abbrevs, s, k + 1); }
  }

  lemma StartsAppend(merged: seq<SentenceSpan>, one: SentenceSpan, s: nat)
    ensures StartsAt(merged + [one], s) <==> StartsAt(merged, s) || one.start == s
  {
    var all := merged + [one];
    assert all[|merged|] == one;
    if k :| 0 <= k < |merged| && merged[k].start == s { assert all[k] == merged[k]; }
  }

  lemma {:induction false} GuardStarts(merged: seq<SentenceSpan>, spans: seq<SentenceSpan>, abbrevs: seq<(nat, nat)>,
                                       s: nat)
    requires merged != []
    ensures StartsAt(GuardFrom(merged, spans, abbrevs), s) <==>
            StartsAt(merged, s) || StaysCut(merged[|merged| - 1].end, spans, abbrevs, s)
    decreases |spans|
  {
    hide AbbreviationBoundary, StartsAt;
    if spans != [] {
      hide StaysCut;
      var n := |merged| - 1;
      var last := merged[n];
      var next := if AbbreviationBoundary(last.end, spans[0].start, abbrevs)
                  then merged[..n] + [SentenceSpan(last.start, spans[0].end)] else merged + [spans[0]];
      StaysStep(last.end, spans, abbrevs, s);
      GuardStarts(next, spans[1..], abbrevs, s);
      assert merged == merged[..n] + [last];
      StartsAppend(merged[..n], last, s);
      StartsAppend(merged[..n], SentenceSpan(last.start, spans[0].end), s);
      StartsAppend(merged, spans[0], s);
    }
  }

  lemma GuardMeans(spans: seq<SentenceSpan>, abbrevs: seq<(nat, nat)>, s: nat)
    requires spans != []
    ensures StartsAt(Guard(spans, abbrevs), s) <==>
            spans[0].start == s || StaysCut(spans[0].end, spans[1..], abbrevs, s)
  {
    var first, rest := [spans[0]], spans[1..];
    hide GuardFrom;
    GuardStarts(first, rest, abbrevs, s);
    StartsAppend([], spans[0], s);
    assert [] + [spans[0]] == first;
    if |spans| < 2 || abbrevs == [] {
      NothingGuarded(spans[0].end, rest, abbrevs, s);
      assert spans == first + rest;
      assert StartsAt(spans, s) <==> spans[0].start == s || StartsAt(rest, s) by {
        if k :| 0 <= k < |spans| && spans[k].start == s { assert k > 0 ==> rest[k - 1] == spans[k]; }
        if k :| 0 <= k < |rest| && rest[k].start == s { assert spans[k + 1] == rest[k]; }
      }
    }
  }

  lemma NothingGuarded(end: nat, spans: seq<SentenceSpan>, abbrevs: seq<(nat, nat)>, s: nat)
    requires spans == [] || abbrevs == []
    ensures StaysCut(end, spans, abbrevs, s) <==> StartsAt(spans, s)
  {
    if k: nat :| k < |spans| && spans[k].start == s { assert StaysAt(end, spans, abbrevs, s, k); }
  }

  // ---------- where sentences start ----------

  /** An abbreviation runs over the end of the text in front of `s`. */
  ghost predicate BehindAbbrev(text: string, rules: Rules, s: nat) {
    exists e, k :: InkEnds(text, e, s) && EndsOver(rules.abbrevs, k, e, s)
  }

  /** Abbreviation `k` starts in front of `e` and ends between `e` and `s`. */
  ghost predicate EndsOver(abbrevs: seq<(nat, nat)>, k: int, e: nat, s: nat) {
    0 <= k < |abbrevs| && abbrevs[k].0 < e <= abbrevs[k].1 <= s
  }

  lemma BehindIsBoundary(text: string, rules: Rules, s: nat, e: nat)
    requires InkEnds(text, e, s)
    ensures BehindAbbrev(text, rules, s) <==> AbbreviationBoundary(e, s, rules.abbrevs)
  {
    hide InkEnds;
    if d: nat, k :| InkEnds(text, d, s) && EndsOver(rules.abbrevs, k, d, s) { OneInkEnd(text, d, e, s); }
    if k :| 0 <= k < |rules.abbrevs| && rules.abbrevs[k].0 < e <= rules.abbrevs[k].1 <= s {
      assert EndsOver(rules.abbrevs, k, e, s);
    }
  }

  lemma OneInkEnd(text: string, a: nat, b: nat, c: nat)
    requires InkEnds(text, a, c) && InkEnds(text, b, c)
    ensures a == b
  {
    hide IsSpace;
    var last := (if a < b then b else a) - 1;
    assert !IsSpace(text[last]);
  }

  lemma StaysMeans(text: string, rules: Rules, bounds: seq<nat>, spans: seq<SentenceSpan>, s: nat)
    requires CutAt(text, bounds, spans) && spans != [] && s < |text| && bounds[|bounds| - 1] == |text|
    ensures StaysCut(spans[0].end, spans[1..], rules.abbrevs, s) <==>
            InnerBound(bounds, s) && !BehindAbbrev(text, rules, s)
  {
    hide IsSpace, InkEnds, AbbreviationBoundary, BehindAbbrev;
    forall k | 0 < k < |spans| && bounds[k] == s
      ensures AbbreviationBoundary(spans[k - 1].end, s, rules.abbrevs) <==> BehindAbbrev(text, rules, s) {
      var j := k - 1;
      assert InkEnds(text, spans[j].end, bounds[j + 1]);
      BehindIsBoundary(text, rules, s, spans[j].end);
    }
    var tail := spans[1..];
    forall k: nat | k < |tail|
      ensures StaysAt(spans[0].end, tail, rules.abbrevs, s, k) <==>
              bounds[k + 1] == s && !AbbreviationBoundary(spans[k].end, s, rules.abbrevs)
    {
      assert tail[k] == spans[k + 1] && (k > 0 ==> tail[k - 1] == spans[k]);
    }
    if k: nat :| StaysAt(spans[0].end, tail, rules.abbrevs, s, k) {
      var j := k + 1;
      assert bounds[j] == s;
    }
    if InnerBound(bounds, s) && !BehindAbbrev(text, rules, s) {
      var k :| 0 < k < |bounds| && bounds[k] == s;
      assert StaysAt(spans[0].end, tail, rules.abbrevs, s, k - 1);
    }
  }

  /** A sentence starts at the first text of the block, and wherever a run of punctuation that is not all of an
      abbreviation leads over to a capital, a digit or a dash, unless an abbreviation runs over the end of the
      text in front. Nowhere else. */
  lemma SentenceStartsExactly(text: string, rules: Rules, s: nat)
    requires s < |text|
    ensures StartsAt(Sentences(text, rules), s) <==>
            FirstInk(text, s) || (LedTo(text, rules, 0, s) && !BehindAbbrev(text, rules, s))
  {
    hide IsSpace, LedTo, BehindAbbrev, Cuts, Guard, StartsFrom, Strip, InnerBound;
    if Strip(text) == "" {
      BlankHasNoInk(text, rules, s);
    } else {
      InkIsThere(text);
      StartsAreGood(text, 0, rules);
      var bounds := BoundsAre(text, rules);
      var spans := Between(text, bounds);
      BetweenIs(text, bounds);
      GuardMeans(spans, rules.abbrevs, s);
      StaysMeans(text, rules, bounds, spans, s);
      OneFirstInk(text, bounds[0], s);
    }
  }

  lemma OneFirstInk(text: string, a: nat, b: nat)
    requires FirstInk(text, a)
    ensures FirstInk(text, b) <==> a == b
  {
    hide IsSpace;
  }

  lemma InkIsThere(text: string)
    requires Strip(text) != ""
    ensures SkipWhile(text, 0, IsSpace) < |text|
  {
    hide IsSpace, Strip;
    var a, b := StripCuts(text);
    assert Strip(text) == text[a..b];
    assert text[a] == Strip(text)[0];
  }

  lemma BlankHasNoInk(text: string, rules: Rules, s: nat)
    requires Strip(text) == ""
    ensures !FirstInk(text, s) && !LedTo(text, rules, 0, s)
  {
    hide IsSpace, Strip;
    var a, b := StripCuts(text);
    forall k | 0 <= k < |text| ensures IsSpace(text[k]) {
      assert k < a ==> text[..a][k] == text[k];
      assert k >= b ==> text[b..][k - b] == text[k];
    }
    NothingLeads(text, rules, s);
  }

  lemma NothingLeads(text: string, rules: Rules, s: nat)
    requires forall k :: 0 <= k < |text| ==> IsSpace(text[k])
    ensures !LedTo(text, rules, 0, s)
  {
    forall i: nat, j: nat ensures !RunAt(text, i, j) {
      if i < |text| { SpaceIsNoQuote(text[i]); }
    }
  }
}
