/** `text/segment.py`: sentence spans in order, whatever the upper-case test and the abbreviation
    list say. The gaps between spans are white space. */
module Segment {
  import opened PyText

  datatype SentenceSpan = SentenceSpan(start: nat, end: nat)

  /** What the segmenter reads from Unicode tables (an upper-case letter or a digit) and from its
      abbreviation list (stretches of the text that are abbreviations). */
  datatype Rules = Rules(capital: char -> bool, abbrevs: seq<(nat, nat)>)

  predicate IsPunct(c: char) {
    c == '.' || c == '!' || c == '?' || c == '\U{2026}'
  }

  predicate IsCloser(c: char) {
    c == '"' || c == '\'' || c == '\U{201D}' || c == '\U{00BB}' || c == ')' || c == ']' || c == '}'
  }

  predicate IsOpener(c: char) {
    c == '"' || c == '\'' || c == '\U{201E}' || c == '\U{00AB}' || c == '\U{201C}' || c == '(' || c == '['
  }

  // ---------- cursors ----------

  /** The first position from `index` on where `skip` fails. */
  function SkipWhile(text: string, index: nat, skip: char -> bool): (r: nat)
    requires index <= |text|
    ensures index <= r <= |text|
    ensures forall i :: index <= i < r ==> skip(text[i])
    ensures r < |text| ==> !skip(text[r])
    decreases |text| - index
  {
    if index < |text| && skip(text[index]) then SkipWhile(text, index + 1, skip) else index
  }

  method SkipLoop(text: string, index: nat, skip: char -> bool) returns (cursor: nat)
    requires index <= |text|
    ensures cursor == SkipWhile(text, index, skip)
  {
    cursor := index;
    while cursor < |text| && skip(text[cursor])
      invariant index <= cursor <= |text|
      invariant SkipWhile(text, cursor, skip) == SkipWhile(text, index, skip)
    {
      cursor := cursor + 1;
    }
  }

  function TrimLeft(text: string, start: nat, end: nat): (r: nat)
    requires start <= end <= |text|
    ensures start <= r <= end && AllSpace(text[start..r])
    ensures r < end ==> !IsSpace(text[r])
    decreases |text| - start
  {
    if start < end && IsSpace(text[start]) then
      assert forall r :: start < r <= end ==> text[start..r] == [text[start]] + text[start + 1..r];
      TrimLeft(text, start + 1, end)
    else start
  }

  function TrimRight(text: string, start: nat, end: nat): (r: nat)
    requires start <= end <= |text|
    ensures start <= r <= end && AllSpace(text[r..end])
    ensures r > start ==> !IsSpace(text[r - 1])
    decreases end
  {
    if end > start && IsSpace(text[end - 1]) then
      assert forall r :: 0 <= r < end ==> text[r..end] == text[r..end - 1] + [text[end - 1]];
      TrimRight(text, start, end - 1)
    else end
  }

  /** `_trim`: the stretch without the spaces at its ends. */
  method Trim(text: string, start: nat, end: nat) returns (a: nat, b: nat)
    requires start <= end <= |text|
    ensures a == TrimLeft(text, start, end) && b == TrimRight(text, a, end)
  {
    a, b := start, end;
    while a < b && IsSpace(text[a])
      invariant start <= a <= b && TrimLeft(text, a, end) == TrimLeft(text, start, end)
    {
      a := a + 1;
    }
    while b > a && IsSpace(text[b - 1])
      invariant a <= b <= end && TrimRight(text, a, b) == TrimRight(text, a, end)
    {
      b := b - 1;
    }
  }

  // ---------- where sentences start ----------

  /** `_next_start`: after the punctuation come closing quotes, white space, and then, past opening
      quotes, a capital, a digit or a dash. -1 stands for None. */
  function NextStart(text: string, punctEnd: nat, capital: char -> bool): (r: int)
    requires punctEnd <= |text|
    ensures r != -1 ==> punctEnd < r < |text| && IsSpace(text[r - 1]) && !IsSpace(text[r])
    ensures r != -1 ==> forall i :: punctEnd <= i < r ==> !IsPunct(text[i])
  {
    var gap := SkipWhile(text, punctEnd, IsCloser);
    if gap >= |text| || !IsSpace(text[gap]) then -1
    else
      var content := SkipWhile(text, gap, IsSpace);
      assert content > gap && forall i :: punctEnd <= i < content ==> !IsPunct(text[i]) by {
        assert forall i :: punctEnd <= i < gap ==> IsCloser(text[i]);
        assert forall i :: gap <= i < content ==> IsSpace(text[i]);
      }
      var first := SkipWhile(text, content, IsOpener);
      if first >= |text| then -1
      else if capital(text[first]) || IsDash(text[first]) then content
      else -1
  }

  method NextStartLoop(text: string, punctEnd: nat, capital: char -> bool) returns (r: int)
    requires punctEnd <= |text|
    ensures r == NextStart(text, punctEnd, capital)
  {
    var cursor := SkipLoop(text, punctEnd, IsCloser);
    if cursor >= |text| || !IsSpace(text[cursor]) {
      return -1;
    }
    var content := SkipLoop(text, cursor, IsSpace);
    cursor := SkipLoop(text, content, IsOpener);
    if cursor >= |text| {
      return -1;
    }
    r := if capital(text[cursor]) || IsDash(text[cursor]) then content else -1;
  }

  predicate InAbbrev(index: nat, abbrevs: seq<(nat, nat)>) {
    exists k :: 0 <= k < |abbrevs| && abbrevs[k].0 <= index < abbrevs[k].1
  }

  predicate Covered(start: nat, end: nat, abbrevs: seq<(nat, nat)>) {
    forall index: nat :: start <= index < end ==> InAbbrev(index, abbrevs)
  }

  function StartAfter(text: string, i: nat, j: nat, rules: Rules): seq<nat>
    requires i < j <= |text|
  {
    if Covered(i, j, rules.abbrevs) then []
    else
      var next := NextStart(text, j, rules.capital);
      if next == -1 then [] else [next]
  }

  /** The sentence starts found by the runs of punctuation from `i` on. */
  function StartsFrom(text: string, i: nat, rules: Rules): seq<nat>
    requires i <= |text|
    decreases |text| - i
  {
    if i == |text| then []
    else if !IsPunct(text[i]) then StartsFrom(text, i + 1, rules)
    else
      var j := SkipWhile(text, i, IsPunct);
      StartAfter(text, i, j, rules) + StartsFrom(text, j, rules)
  }

  method StartsLoop(text: string, rules: Rules) returns (starts: seq<nat>)
    ensures starts == StartsFrom(text, 0, rules)
  {
    starts := [];
    var i := 0;
    while i < |text|
      invariant 0 <= i <= |text|
      invariant starts + StartsFrom(text, i, rules) == StartsFrom(text, 0, rules)
      decreases |text| - i
    {
      if !IsPunct(text[i]) {
        i := i + 1;
        continue;
      }
      var j := SkipLoop(text, i, IsPunct);
      Regroup(starts, StartAfter(text, i, j, rules), StartsFrom(text, j, rules), StartsFrom(text, 0, rules));
      if !Covered(i, j, rules.abbrevs) {
        var next := NextStartLoop(text, j, rules.capital);
        if next != -1 {
          starts := starts + [next];
        }
      }
      i := j;
    }
  }

  /** Starts come in order, each after white space and on a character that is not. */
  ghost predicate GoodStarts(text: string, starts: seq<nat>, from: nat) {
    && (forall k :: 0 <= k < |starts| ==>
          from < starts[k] < |text| && IsSpace(text[starts[k] - 1]) && !IsSpace(text[starts[k]]))
    && (forall k, l :: 0 <= k < l < |starts| ==> starts[k] < starts[l])
  }

  lemma {:induction false} SkipPlain(text: string, i: nat, c: nat, rules: Rules)
    requires i <= c <= |text| && forall p :: i <= p < c ==> !IsPunct(text[p])
    ensures StartsFrom(text, i, rules) == StartsFrom(text, c, rules)
    decreases |text| - i
  {
    if i < c { SkipPlain(text, i + 1, c, rules); }
  }

  lemma PrependStart(text: string, c: nat, rest: seq<nat>, from: nat)
    requires GoodStarts(text, rest, c)
    requires from < c < |text| && IsSpace(text[c - 1]) && !IsSpace(text[c])
    ensures GoodStarts(text, [c] + rest, from)
  {
  }

  lemma NoStarts(text: string)
    ensures GoodStarts(text, [], |text|)
  {
  }

  lemma LaterStarts(text: string, starts: seq<nat>, from: nat, later: nat)
    requires GoodStarts(text, starts, later) && from <= later
    ensures GoodStarts(text, starts, from)
  {
  }

  lemma FoundStart(text: string, i: nat, j: nat, rules: Rules)
    requires i < j <= |text| && StartAfter(text, i, j, rules) != []
    ensures var c := StartAfter(text, i, j, rules)[0];
            && StartAfter(text, i, j, rules) == [c]
            && j < c < |text| && IsSpace(text[c - 1]) && !IsSpace(text[c])
            && forall p :: j <= p < c ==> !IsPunct(text[p])
  {
    hide IsSpace, IsPunct;
  }

  lemma {:induction false} StartsAreGood(text: string, i: nat, rules: Rules)
    requires i <= |text|
    ensures GoodStarts(text, StartsFrom(text, i, rules), i)
    decreases |text| - i
  {
    hide IsPunct, IsSpace, SkipWhile, GoodStarts, StartAfter;
    if i == |text| {
      NoStarts(text);
    } else {
      if !IsPunct(text[i]) {
        StartsAreGood(text, i + 1, rules);
        LaterStarts(text, StartsFrom(text, i + 1, rules), i, i + 1);
      } else {
        var j := SkipWhile(text, i, IsPunct);
        var found := StartAfter(text, i, j, rules);
        if found != [] {
          FoundStart(text, i, j, rules);
          SkipPlain(text, j, found[0], rules);
          StartsAreGood(text, found[0], rules);
          PrependStart(text, found[0], StartsFrom(text, found[0], rules), i);
        } else {
          StartsAreGood(text, j, rules);
          LaterStarts(text, StartsFrom(text, j, rules), i, j);
          assert found + StartsFrom(text, j, rules) == StartsFrom(text, j, rules);
        }
      }
    }
  }

  // ---------- cutting ----------

  function Later(starts: seq<nat>, first: nat): seq<nat> {
    if starts == [] then []
    else (if starts[0] > first then [starts[0]] else []) + Later(starts[1..], first)
  }

  /** The trimmed span between two bounds, if anything is left of it. */
  function OneCut(text: string, begin: nat, end: nat): seq<SentenceSpan>
    requires end <= |text|
  {
    if begin > end then [] else
      var a := TrimLeft(text, begin, end);
      var b := TrimRight(text, a, end);
      if a < b then [SentenceSpan(a, b)] else []
  }

  /** The spans between neighbouring bounds. */
  function Between(text: string, bounds: seq<nat>): seq<SentenceSpan>
    requires forall k :: 0 <= k < |bounds| ==> bounds[k] <= |text|
  {
    if |bounds| < 2 then [] else OneCut(text, bounds[0], bounds[1]) + Between(text, bounds[1..])
  }

  /** `_cuts` */
  function Cuts(text: string, starts: seq<nat>): seq<SentenceSpan>
    requires forall k :: 0 <= k < |starts| ==> starts[k] <= |text|
  {
    var first := SkipWhile(text, 0, IsSpace);
    if first >= |text| then []
    else
      LaterIn(starts, first);
      Between(text, [first] + Later(starts, first) + [|text|])
  }

  lemma {:induction false} LaterIn(starts: seq<nat>, first: nat)
    ensures forall k :: 0 <= k < |Later(starts, first)| ==>
              Later(starts, first)[k] in starts && Later(starts, first)[k] > first
  {
    if starts != [] { LaterIn(starts[1..], first); }
  }

  lemma BetweenStep(text: string, bounds: seq<nat>, i: nat)
    requires i + 1 < |bounds| && forall k :: 0 <= k < |bounds| ==> bounds[k] <= |text|
    ensures Between(text, bounds[i..]) == OneCut(text, bounds[i], bounds[i + 1]) + Between(text, bounds[i + 1..])
  {
    hide OneCut;
    var left := bounds[i..];
    assert left[0] == bounds[i] && left[1] == bounds[i + 1] && left[1..] == bounds[i + 1..];
  }

  lemma NothingBetween(text: string, bounds: seq<nat>)
    requires |bounds| < 2 && forall k :: 0 <= k < |bounds| ==> bounds[k] <= |text|
    ensures Between(text, bounds) == []
  {
  }

  method BetweenLoop(text: string, bounds: seq<nat>) returns (spans: seq<SentenceSpan>)
    requires bounds != [] && forall k :: 0 <= k < |bounds| ==> bounds[k] <= |text|
    ensures spans == Between(text, bounds)
  {
    hide IsSpace, TrimLeft, TrimRight, Between;
    spans := [];
    ghost var all := Between(text, bounds);
    var i := 0;
    assert bounds[0..] == bounds;
    while i + 1 < |bounds|
      invariant 0 <= i < |bounds|
      invariant spans + Between(text, bounds[i..]) == all
    {
      var begin, end := bounds[i], bounds[i + 1];
      BetweenStep(text, bounds, i);
      Regroup(spans, OneCut(text, begin, end), Between(text, bounds[i + 1..]), all);
      if begin <= end {
        var a, stop := Trim(text, begin, end);
        if a < stop {
          spans := spans + [SentenceSpan(a, stop)];
        }
      }
      i := i + 1;
    }
    NothingBetween(text, bounds[i..]);
  }

  method CutsLoop(text: string, starts: seq<nat>) returns (spans: seq<SentenceSpan>)
    requires forall k :: 0 <= k < |starts| ==> starts[k] <= |text|
    ensures spans == Cuts(text, starts)
  {
    var first := SkipLoop(text, 0, IsSpace);
    if first >= |text| {
      return [];
    }
    LaterIn(starts, first);
    spans := BetweenLoop(text, [first] + Later(starts, first) + [|text|]);
  }

  // ---------- the abbreviation guard ----------

  predicate AbbreviationBoundary(previousEnd: nat, nextStart: nat, abbrevs: seq<(nat, nat)>) {
    exists k :: 0 <= k < |abbrevs| && abbrevs[k].0 < previousEnd <= abbrevs[k].1 <= nextStart
  }

  function GuardFrom(merged: seq<SentenceSpan>, spans: seq<SentenceSpan>, abbrevs: seq<(nat, nat)>): seq<SentenceSpan>
    requires merged != []
    decreases |spans|
  {
    if spans == [] then merged
    else
      var last := merged[|merged| - 1];
      if AbbreviationBoundary(last.end, spans[0].start, abbrevs) then
        GuardFrom(merged[..|merged| - 1] + [SentenceSpan(last.start, spans[0].end)], spans[1..], abbrevs)
      else GuardFrom(merged + [spans[0]], spans[1..], abbrevs)
  }

  /** `apply_abbreviation_guard` */
  function Guard(spans: seq<SentenceSpan>, abbrevs: seq<(nat, nat)>): seq<SentenceSpan> {
    if |spans| < 2 || abbrevs == [] then spans else GuardFrom([spans[0]], spans[1..], abbrevs)
  }

  method GuardLoop(spans: seq<SentenceSpan>, abbrevs: seq<(nat, nat)>) returns (merged: seq<SentenceSpan>)
    ensures merged == Guard(spans, abbrevs)
  {
    if |spans| < 2 || abbrevs == [] {
      return spans;
    }
    merged := [spans[0]];
    var i := 1;
    while i < |spans|
      invariant 1 <= i <= |spans| && merged != []
      invariant GuardFrom(merged, spans[i..], abbrevs) == Guard(spans, abbrevs)
    {
      var span, previous := spans[i], merged[|merged| - 1];
      assert spans[i..][0] == span && spans[i..][1..] == spans[i + 1..];
      if AbbreviationBoundary(previous.end, span.start, abbrevs) {
        merged := merged[..|merged| - 1] + [SentenceSpan(previous.start, span.end)];
      } else {
        merged := merged + [span];
      }
      i := i + 1;
    }
  }

  function Sentences(text: string, rules: Rules): seq<SentenceSpan> {
    if Strip(text) == "" then []
    else
      StartsAreGood(text, 0, rules);
      Guard(Cuts(text, StartsFrom(text, 0, rules)), rules.abbrevs)
  }

  method Segment(text: string, rules: Rules) returns (spans: seq<SentenceSpan>)
    ensures spans == Sentences(text, rules)
  {
    if Strip(text) == "" {
      return [];
    }
    var starts := StartsLoop(text, rules);
    StartsAreGood(text, 0, rules);
    spans := CutsLoop(text, starts);
    spans := GuardLoop(spans, rules.abbrevs);
  }

  // ---------- what the segmenter promises ----------

  /** `SentenceSegmenter.segment`: spans in order, not empty, without space at their ends, and nothing
      but white space between them. `from` is where the first gap starts. */
  ghost predicate Segmented(text: string, spans: seq<SentenceSpan>, from: nat) {
    if spans == [] then from <= |text| && AllSpace(text[from..])
    else
      && from <= spans[0].start < spans[0].end <= |text|
      && AllSpace(text[from..spans[0].start])
      && !IsSpace(text[spans[0].start]) && !IsSpace(text[spans[0].end - 1])
      && Segmented(text, spans[1..], spans[0].end)
  }

  ghost predicate Ascending(bounds: seq<nat>) {
    forall k, l :: 0 <= k < l < |bounds| ==> bounds[k] < bounds[l]
  }

  lemma OneCutSegmented(text: string, from: nat, begin: nat, end: nat, rest: seq<SentenceSpan>)
    requires from <= begin <= end <= |text| && AllSpace(text[from..begin])
    requires OneCut(text, begin, end) != [] ==> Segmented(text, rest, OneCut(text, begin, end)[0].end)
    requires OneCut(text, begin, end) == [] ==> Segmented(text, rest, from)
    ensures Segmented(text, OneCut(text, begin, end) + rest, from)
  {
    var cut := OneCut(text, begin, end);
    var a := TrimLeft(text, begin, end);
    assert text[from..a] == text[from..begin] + text[begin..a];
    if cut == [] {
      assert cut + rest == rest;
    } else {
      assert (cut + rest)[1..] == rest;
    }
  }

  /** What trimming one stretch leaves behind is white space up to the next bound. */
  lemma OneCutGap(text: string, from: nat, begin: nat, end: nat)
    requires from <= begin <= end <= |text| && AllSpace(text[from..begin])
    ensures var cut := OneCut(text, begin, end);
            if cut == [] then AllSpace(text[from..end])
            else cut[0].end <= end && AllSpace(text[cut[0].end..end])
  {
    var a := TrimLeft(text, begin, end);
    var b := TrimRight(text, a, end);
    if a == b {
      assert text[from..end] == text[from..begin] + text[begin..a] + text[b..end];
    }
  }

  lemma {:induction false} BetweenSegmented(text: string, bounds: seq<nat>, from: nat)
    requires |bounds| >= 1 && Ascending(bounds) && bounds[|bounds| - 1] == |text|
    requires forall k :: 0 <= k < |bounds| ==> bounds[k] <= |text|
    requires from <= bounds[0] && AllSpace(text[from..bounds[0]])
    ensures Segmented(text, Between(text, bounds), from)
  {
    if |bounds| > 1 {
      assert bounds[0] < bounds[1];
      var cut := OneCut(text, bounds[0], bounds[1]);
      OneCutGap(text, from, bounds[0], bounds[1]);
      BetweenSegmented(text, bounds[1..], if cut == [] then from else cut[0].end);
      OneCutSegmented(text, from, bounds[0], bounds[1], Between(text, bounds[1..]));
    }
  }

  lemma {:induction false} LaterAscending(starts: seq<nat>, first: nat)
    requires Ascending(starts)
    ensures Ascending(Later(starts, first))
  {
    if starts != [] {
      LaterAscending(starts[1..], first);
      LaterIn(starts[1..], first);
      var rest := Later(starts[1..], first);
      forall k | 0 <= k < |rest| ensures starts[0] < rest[k] {
        var l :| 0 <= l < |starts[1..]| && starts[1..][l] == rest[k];
        assert starts[0] < starts[l + 1];
      }
    }
  }

  lemma CutsSegmented(text: string, starts: seq<nat>)
    requires GoodStarts(text, starts, 0)
    ensures Segmented(text, Cuts(text, starts), 0)
  {
    var first := SkipWhile(text, 0, IsSpace);
    LaterIn(starts, first);
    LaterAscending(starts, first);
    if first >= |text| {
      assert text[0..] == text;
    } else {
      var bounds := [first] + Later(starts, first) + [|text|];
      forall k | 0 <= k < |Later(starts, first)| ensures Later(starts, first)[k] < |text| {
        assert Later(starts, first)[k] in starts;
      }
      BetweenSegmented(text, bounds, 0);
    }
  }

  /** Swallowing the next span keeps the tiling, because the gap goes along. */
  lemma {:induction false} MergeSegmented(text: string, before: seq<SentenceSpan>, last: SentenceSpan,
                                          next: SentenceSpan, rest: seq<SentenceSpan>, from: nat)
    requires Segmented(text, before + [last] + [next] + rest, from)
    ensures last.start <= next.end
    ensures Segmented(text, before + [SentenceSpan(last.start, next.end)] + rest, from)
  {
    var whole := before + [last] + [next] + rest;
    var joined := before + [SentenceSpan(last.start, next.end)] + rest;
    if before == [] {
      assert whole[1..] == [next] + rest && ([next] + rest)[1..] == rest;
      assert joined[1..] == rest;
    } else {
      assert whole[1..] == before[1..] + [last] + [next] + rest;
      assert joined[1..] == before[1..] + [SentenceSpan(last.start, next.end)] + rest;
      MergeSegmented(text, before[1..], last, next, rest, before[0].end);
    }
  }

  lemma {:induction false} GuardSegmented(text: string, merged: seq<SentenceSpan>, spans: seq<SentenceSpan>,
                                          abbrevs: seq<(nat, nat)>)
    requires merged != [] && Segmented(text, merged + spans, 0)
    ensures Segmented(text, GuardFrom(merged, spans, abbrevs), 0)
    decreases |spans|
  {
    if spans == [] {
      assert merged + spans == merged;
    } else {
      var n := |merged| - 1;
      var last := merged[n];
      assert merged + spans == merged[..n] + [last] + [spans[0]] + spans[1..];
      if AbbreviationBoundary(last.end, spans[0].start, abbrevs) {
        MergeSegmented(text, merged[..n], last, spans[0], spans[1..], 0);
        GuardSegmented(text, merged[..n] + [SentenceSpan(last.start, spans[0].end)], spans[1..], abbrevs);
      } else {
        assert merged + spans == (merged + [spans[0]]) + spans[1..];
        GuardSegmented(text, merged + [spans[0]], spans[1..], abbrevs);
      }
    }
  }

  /** The segmenter keeps its protocol for every text and every table of capitals and abbreviations. */
  lemma SentencesSegmented(text: string, rules: Rules)
    ensures Segmented(text, Sentences(text, rules), 0)
  {
    if Strip(text) == "" {
      var a, b := StripCuts(text);
      assert a == b;
      assert text == text[..a] + text[b..];
      assert text[0..] == text;
    } else {
      StartsAreGood(text, 0, rules);
      var spans := Cuts(text, StartsFrom(text, 0, rules));
      CutsSegmented(text, StartsFrom(text, 0, rules));
      if |spans| >= 2 {
        assert spans == [spans[0]] + spans[1..];
        GuardSegmented(text, [spans[0]], spans[1..], rules.abbrevs);
      }
    }
  }
}
