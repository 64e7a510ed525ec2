/** Where a sentence that is too long is broken: at clause punctuation if that divides it, and otherwise at the
    last space that still fits. */
module ClauseProofs {
  import opened PyText
  import opened Chunker

  ghost predicate OccursAt(text: string, sep: string, i: nat) {
    i + |sep| <= |text| && text[i..i + |sep|] == sep
  }

  ghost predicate Occurs(text: string, sep: string) {
    exists i :: OccursAt(text, sep, i)
  }

  lemma SubSlice(text: string, a: nat, b: nat, i: nat, j: nat)
    requires a <= b <= |text| && i <= j <= b - a
    ensures text[a..b][i..j] == text[a + i..a + j]
  {
    var x, y := text[a..b][i..j], text[a + i..a + j];
    assert forall k :: 0 <= k < |x| ==> x[k] == text[a..b][i + k] == y[k];
  }

  lemma OccursInTail(text: string, sep: string, j: nat)
    requires text != "" && j > 0
    ensures OccursAt(text, sep, j) <==> OccursAt(text[1..], sep, j - 1)
  {
    if j + |sep| <= |text| {
      SubSlice(text, 1, |text|, j - 1, j - 1 + |sep|);
      assert text[1..|text|] == text[1..];
    }
  }

  lemma {:induction false} FindIsFirst(text: string, sep: string)
    requires sep != ""
    ensures forall i: nat :: i < Find(text, sep) ==> !OccursAt(text, sep, i)
    ensures if Find(text, sep) == |text| then !Occurs(text, sep) else OccursAt(text, sep, Find(text, sep))
  {
    if text != "" {
      assert OccursAt(text, sep, 0) <==> sep <= text;
      if !(sep <= text) {
        FindIsFirst(text[1..], sep);
        var i := Find(text[1..], sep);
        hide OccursAt;
        forall j: nat | 0 < j ensures OccursAt(text, sep, j) <==> OccursAt(text[1..], sep, j - 1) {
          OccursInTail(text, sep, j);
        }
      }
    }
  }

  /** `sep.join(parts)` */
  function JoinOn(parts: seq<string>, sep: string): string {
    if parts == [] then "" else if |parts| == 1 then parts[0] else parts[0] + sep + JoinOn(parts[1..], sep)
  }

  ghost predicate NoneIn(parts: seq<string>, sep: string) {
    forall i :: 0 <= i < |parts| ==> !Occurs(parts[i], sep)
  }

  lemma FrontHasNone(text: string, sep: string)
    requires sep != "" && Find(text, sep) < |text|
    ensures !Occurs(text[..Find(text, sep)], sep)
  {
    var k := Find(text, sep);
    FindIsFirst(text, sep);
    hide Find;
    forall i: nat ensures !OccursAt(text[..k], sep, i) {
      if i + |sep| <= k {
        SubSlice(text, 0, k, i, i + |sep|);
        assert text[0..k] == text[..k] && !OccursAt(text, sep, i);
      }
    }
  }

  /** Splitting is undone by joining, and leaves no separator in a part. */
  lemma {:induction false} SplitIsExact(text: string, sep: string)
    requires sep != ""
    ensures SplitOn(text, sep) != [] && JoinOn(SplitOn(text, sep), sep) == text && NoneIn(SplitOn(text, sep), sep)
    decreases |text|
  {
    hide Occurs, Find;
    var k := Find(text, sep);
    FindIsFirst(text, sep);
    if k < |text| {
      FrontHasNone(text, sep);
      var tail := text[k + |sep|..];
      SplitIsExact(tail, sep);
      var rest := SplitOn(tail, sep);
      assert ([text[..k]] + rest)[1..] == rest;
      assert text == text[..k] + sep + tail;
    }
  }

  // ---------- clauses come first ----------

  /** `part` stands somewhere in the text. */
  ghost predicate Within(part: string, text: string) {
    exists a, b :: 0 <= a <= b <= |text| && text[a..b] == part
  }

  lemma WithinTwice(a: string, b: string, c: string)
    requires Within(a, b) && Within(b, c)
    ensures Within(a, c)
  {
    var i, j :| 0 <= i <= j <= |b| && b[i..j] == a;
    var k, l :| 0 <= k <= l <= |c| && c[k..l] == b;
    SubSlice(c, k, l, i, j);
  }

  lemma OccursWithin(part: string, text: string, sep: string)
    requires Within(part, text)
    ensures Occurs(part, sep) ==> Occurs(text, sep)
  {
    var a, b :| 0 <= a <= b <= |text| && text[a..b] == part;
    if i: nat :| OccursAt(part, sep, i) {
      SubSlice(text, a, b, i, i + |sep|);
      assert OccursAt(text, sep, a + i);
    }
  }

  lemma StripWithin(s: string)
    ensures Within(Strip(s), s)
  {
    hide Strip;
    var a, b := StripCuts(s);
  }

  ghost predicate AllWithin(parts: seq<string>, text: string) {
    forall i :: 0 <= i < |parts| ==> Within(parts[i], text)
  }

  lemma {:induction false} SplitWithin(text: string, sep: string, whole: string)
    requires sep != "" && Within(text, whole)
    ensures AllWithin(SplitOn(text, sep), whole)
    decreases |text|
  {
    hide Within, Find;
    var k := Find(text, sep);
    if k < |text| {
      var tail := text[k + |sep|..];
      SliceWithin(text, 0, k);
      SliceWithin(text, k + |sep|, |text|);
      assert text[0..k] == text[..k] && text[k + |sep|..|text|] == tail;
      WithinTwice(text[..k], text, whole);
      WithinTwice(tail, text, whole);
      SplitWithin(tail, sep, whole);
    }
  }

  lemma SliceWithin(text: string, a: nat, b: nat)
    requires a <= b <= |text|
    ensures Within(text[a..b], text)
  {
  }

  lemma {:induction false} NonBlankWithin(parts: seq<string>, i: nat)
    requires i < |NonBlank(parts)|
    ensures exists j :: 0 <= j < |parts| && Within(NonBlank(parts)[i], parts[j])
  {
    hide Within, Strip;
    var here := Strip(parts[0]) != "";
    if here && i == 0 {
      StripWithin(parts[0]);
    } else {
      var k := if here then i - 1 else i;
      NonBlankWithin(parts[1..], k);
      var j :| 0 <= j < |parts[1..]| && Within(NonBlank(parts[1..])[k], parts[1..][j]);
      assert parts[j + 1] == parts[1..][j];
    }
  }

  /** Every piece is a stretch of what was split. */
  lemma {:induction false} PiecesWithin(raw: string, limit: nat)
    ensures AllWithin(SplitOversized(raw, limit), raw)
    decreases |raw|, 1, 0
  {
    hide Within, Strip, ClauseParts, CutAt;
    StripShorter(raw);
    StripWithin(raw);
    var text := Strip(raw);
    if text != "" && |text| > limit {
      ClausePartsShorter(text, 0);
      var parts := ClauseParts(text, 0);
      if parts != [] {
        ClausesWithin(text, 0);
        PartsWithin(parts, limit, |text|, text);
        WithinAll(SplitParts(parts, limit, |text|), text, raw);
      } else {
        var space := CutAt(text, limit);
        if space > 0 { SpaceWithin(raw, text, space, limit); }
      }
    }
  }

  lemma SpaceWithin(raw: string, text: string, space: nat, limit: nat)
    requires Within(text, raw) && space < |text| <= |raw|
    ensures AllWithin(SplitOversized(Strip(text[space + 1..]), limit), raw) && Within(Strip(text[..space]), raw)
    decreases |raw|, 0, 0
  {
    hide Within, Strip, SplitOversized;
    var head, tail := text[..space], text[space + 1..];
    StripShorter(tail);
    SliceWithin(text, 0, space);
    SliceWithin(text, space + 1, |text|);
    assert text[0..space] == head && text[space + 1..|text|] == tail;
    StripWithin(head);
    StripWithin(tail);
    WithinTwice(head, text, raw);
    WithinTwice(tail, text, raw);
    WithinTwice(Strip(head), head, raw);
    WithinTwice(Strip(tail), tail, raw);
    PiecesWithin(Strip(tail), limit);
    WithinAll(SplitOversized(Strip(tail), limit), Strip(tail), raw);
  }

  lemma WithinAll(parts: seq<string>, text: string, raw: string)
    requires AllWithin(parts, text) && Within(text, raw)
    ensures AllWithin(parts, raw)
  {
    hide Within;
    forall i | 0 <= i < |parts| ensures Within(parts[i], raw) { WithinTwice(parts[i], text, raw); }
  }

  lemma {:induction false} ClausesWithin(text: string, k: nat)
    requires k <= |CLAUSES|
    ensures AllWithin(ClauseParts(text, k), text)
    decreases |CLAUSES| - k
  {
    if k < |CLAUSES| {
      ClausesWithin(text, k + 1);
      DividedWithin(text, CLAUSES[k]);
    }
  }

  lemma DividedWithin(text: string, sep: string)
    requires sep != ""
    ensures AllWithin(NonBlank(SplitOn(text, sep)), text)
  {
    hide Within, SplitOn, NonBlank;
    var split := SplitOn(text, sep);
    SliceWithin(text, 0, |text|);
    assert text[0..|text|] == text;
    SplitWithin(text, sep, text);
    forall i | 0 <= i < |NonBlank(split)| ensures Within(NonBlank(split)[i], text) {
      NonBlankWithin(split, i);
      var j :| 0 <= j < |split| && Within(NonBlank(split)[i], split[j]);
      WithinTwice(NonBlank(split)[i], split[j], text);
    }
  }

  lemma {:induction false} PartsWithin(parts: seq<string>, limit: nat, n: nat, whole: string)
    requires (forall i :: 0 <= i < |parts| ==> |parts[i]| < n) && AllWithin(parts, whole)
    ensures AllWithin(SplitParts(parts, limit, n), whole)
    decreases n, 0, |parts|
  {
    hide Within, SplitOversized;
    if parts != [] {
      PiecesWithin(parts[0], limit);
      WithinAll(SplitOversized(parts[0], limit), parts[0], whole);
      PartsWithin(parts[1..], limit, n, whole);
    }
  }

  // ---------- where a long text is broken ----------

  /** The separator divides the text: there is something on both sides of it. */
  ghost predicate Divides(text: string, sep: string)
    requires sep != ""
  {
    |NonBlank(SplitOn(text, sep))| > 1
  }

  /** The first separator that divides the text. */
  ghost predicate FirstToDivide(text: string, k: nat) {
    && k < |CLAUSES| && Divides(text, CLAUSES[k]) && forall j :: 0 <= j < k ==> !Divides(text, CLAUSES[j])
  }

  lemma {:induction false} FirstClauses(text: string, from: nat, k: nat)
    requires FirstToDivide(text, k) && from <= k
    ensures ClauseParts(text, from) == NonBlank(SplitOn(text, CLAUSES[k]))
    decreases k - from
  {
    hide SplitOn, NonBlank;
    if from < k { FirstClauses(text, from + 1, k); }
  }

  lemma {:induction false} NoClauses(text: string, from: nat)
    requires from <= |CLAUSES| && forall j :: from <= j < |CLAUSES| ==> !Divides(text, CLAUSES[j])
    ensures ClauseParts(text, from) == []
    decreases |CLAUSES| - from
  {
    hide SplitOn, NonBlank;
    if from < |CLAUSES| { NoClauses(text, from + 1); }
  }

  lemma {:induction false} PartsHaveNone(parts: seq<string>, limit: nat, n: nat, sep: string)
    requires (forall i :: 0 <= i < |parts| ==> |parts[i]| < n) && NoneIn(parts, sep)
    ensures NoneIn(SplitParts(parts, limit, n), sep)
  {
    hide Occurs, SplitOversized, Within;
    if parts != [] {
      PiecesWithin(parts[0], limit);
      var first := SplitOversized(parts[0], limit);
      forall i | 0 <= i < |first| ensures !Occurs(first[i], sep) { OccursWithin(first[i], parts[0], sep); }
      PartsHaveNone(parts[1..], limit, n, sep);
    }
  }

  lemma DividedHasNone(text: string, sep: string)
    requires sep != ""
    ensures NoneIn(NonBlank(SplitOn(text, sep)), sep)
  {
    hide Occurs, SplitOn, NonBlank, Within;
    var split := SplitOn(text, sep);
    SplitIsExact(text, sep);
    forall i | 0 <= i < |NonBlank(split)| ensures !Occurs(NonBlank(split)[i], sep) {
      NonBlankWithin(split, i);
      var j :| 0 <= j < |split| && Within(NonBlank(split)[i], split[j]);
      OccursWithin(NonBlank(split)[i], split[j], sep);
    }
  }

  /** A text that is too long is first broken at the separators that divide it, in their order: no piece has the
      first such separator in it. */
  lemma ClausesComeFirst(raw: string, limit: nat, k: nat)
    requires |Strip(raw)| > limit && FirstToDivide(Strip(raw), k)
    ensures NoneIn(SplitOversized(raw, limit), CLAUSES[k])
  {
    hide Strip, SplitOn, NonBlank, CutAt, Occurs;
    var text := Strip(raw);
    StripShorter(raw);
    ClausePartsShorter(text, 0);
    FirstClauses(text, 0, k);
    DividedHasNone(text, CLAUSES[k]);
    PartsHaveNone(ClauseParts(text, 0), limit, |text|, CLAUSES[k]);
  }

  /** Semicolons come before commas. */
  lemma SemicolonsBeforeCommas(raw: string, limit: nat)
    requires |Strip(raw)| > limit
    ensures Divides(Strip(raw), ";") ==> NoneIn(SplitOversized(raw, limit), ";")
    ensures !Divides(Strip(raw), ";") && Divides(Strip(raw), ",") ==> NoneIn(SplitOversized(raw, limit), ",")
  {
    hide Strip, SplitOversized, Divides, NoneIn;
    if Divides(Strip(raw), ";") {
      ClausesComeFirst(raw, limit, 0);
    } else if Divides(Strip(raw), ",") {
      ClausesComeFirst(raw, limit, 1);
    }
  }

  /** `c` is the last space up to the limit, or the first space of all if there is none up to the limit. */
  ghost predicate BreaksAt(text: string, limit: nat, c: nat) {
    && 0 < c < |text| && text[c] == ' '
    && if c <= limit then forall k :: c < k <= limit && k < |text| ==> text[k] != ' '
       else forall k :: 0 < k < c ==> text[k] != ' '
  }

  lemma CutIsBreak(text: string, limit: nat, c: nat)
    requires BreaksAt(text, limit, c) && text[0] != ' '
    ensures CutAt(text, limit) == c
  {
    var last, first := LastSpace(text, limit + 1), FirstSpace(text);
    assert last > 0 ==> text[last] == ' ';
    assert first >= 0 ==> text[first] == ' ';
    hide LastSpace, FirstSpace;
  }

  /** A text that is too long and that no separator divides is broken at the last space that fits, or at the
      first one there is, and then goes on in the same way; without a space it stays whole. */
  lemma BreakIsLast(raw: string, limit: nat, c: nat)
    requires |Strip(raw)| > limit && forall k :: 0 <= k < |CLAUSES| ==> !Divides(Strip(raw), CLAUSES[k])
    ensures var text := Strip(raw);
            && (' ' !in text ==> SplitOversized(raw, limit) == [text])
            && (BreaksAt(text, limit, c) ==>
                  && Strip(text[..c]) != ""
                  && SplitOversized(raw, limit) == [Strip(text[..c])] + SplitOversized(Strip(text[c + 1..]), limit))
  {
    hide SplitOn, NonBlank, Divides;
    var text := Strip(raw);
    TextIsTrimmed(raw);
    StripShorter(raw);
    NoClauses(text, 0);
    ClausePartsShorter(text, 0);
    hide Strip, ClauseParts, IsSpace;
    if ' ' !in text {
      assert CutAt(text, limit) <= 0 by { NoSpaceNoCut(text, limit); }
    }
    if BreaksAt(text, limit, c) {
      CutIsBreak(text, limit, c);
      FrontIsInk(text, c);
    }
  }

  lemma TextIsTrimmed(raw: string)
    ensures Strip(raw) != "" ==> !IsSpace(Strip(raw)[0]) && Strip(raw)[0] != ' '
  {
    hide Strip;
    var a, b := StripCuts(raw);
  }

  lemma NoSpaceNoCut(text: string, limit: nat)
    requires ' ' !in text
    ensures CutAt(text, limit) <= 0
  {
    var last, first := LastSpace(text, limit + 1), FirstSpace(text);
  }

  lemma FrontIsInk(text: string, c: nat)
    requires 0 < c <= |text| && !IsSpace(text[0])
    ensures Strip(text[..c]) != ""
  {
    hide Strip, IsSpace;
    var front := text[..c];
    var a, b := StripCuts(front);
  }
}
