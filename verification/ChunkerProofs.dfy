/** What the chunker keeps and how good its packing is. */
module ChunkerProofs {
  import opened PyText
  import opened Said
  import opened Segment
  import opened Chunker

  // ---------- nothing but separators is lost ----------

  predicate IsSeparator(c: char) {
    IsSpace(c) || IsDash(c) || c == ';' || c == ','
  }

  /** A text without its white space and clause characters. */
  function Words(s: string): string {
    Letters(s, InWord)
  }

  predicate InWord(c: char) {
    !IsSeparator(c)
  }

  function Concat(ss: seq<string>): string {
    if ss == [] then "" else ss[0] + Concat(ss[1..])
  }

  lemma WordsAppend(a: string, b: string)
    ensures Words(a + b) == Words(a) + Words(b)
  {
    LettersAppend(a, b, InWord);
  }

  lemma {:induction false} ConcatAppend(a: seq<string>, b: seq<string>)
    ensures Concat(a + b) == Concat(a) + Concat(b)
  {
    if a == [] {
      assert a + b == b;
    } else {
      assert (a + b)[1..] == a[1..] + b;
      ConcatAppend(a[1..], b);
    }
  }

  lemma {:induction false} NoWords(s: string)
    requires forall i :: 0 <= i < |s| ==> IsSeparator(s[i])
    ensures Words(s) == ""
  {
    if s != "" { NoWords(s[1..]); }
  }

  lemma StripWords(s: string)
    ensures Words(Strip(s)) == Words(s)
  {
    StripLetters(s, InWord);
  }

  lemma OneConcat(s: string)
    ensures Concat([s]) == s
  {
    assert [s][1..] == [];
    assert s + "" == s;
  }

  /** Leaving out a separator between two stretches loses no words. */
  lemma SeparatorWords(a: string, sep: string, b: string)
    requires Words(sep) == ""
    ensures Words(a + (sep + b)) == Words(a) + Words(b)
  {
    WordsAppend(a, sep + b);
    WordsAppend(sep, b);
  }

  /** Putting a piece, if it is not blank, in front of a list. */
  lemma PutWords(h: string, rest: seq<string>)
    ensures Words(Concat((if h == "" then [] else [h]) + rest)) == Words(h) + Words(Concat(rest))
  {
    if h == "" {
      assert [] + rest == rest;
    } else {
      ConcatAppend([h], rest);
      OneConcat(h);
      WordsAppend(h, Concat(rest));
    }
  }

  lemma PutFirst(h: string, rest: seq<string>)
    ensures Words(Concat([h] + rest)) == Words(h) + Words(Concat(rest))
  {
    ConcatAppend([h], rest);
    OneConcat(h);
    WordsAppend(h, Concat(rest));
  }

  lemma {:induction false} SplitWords(text: string, sep: string)
    requires sep != "" && Words(sep) == ""
    ensures Words(Concat(SplitOn(text, sep))) == Words(text)
    decreases |text|
  {
    var i := Find(text, sep);
    if i == |text| {
      OneConcat(text);
    } else {
      var head, tail := text[..i], text[i + |sep|..];
      calc {
        Words(Concat(SplitOn(text, sep)));
        Words(Concat([head] + SplitOn(tail, sep)));
        { PutFirst(head, SplitOn(tail, sep)); }
        Words(head) + Words(Concat(SplitOn(tail, sep)));
        { SplitWords(tail, sep); }
        Words(head) + Words(tail);
        { SeparatorWords(head, sep, tail); }
        Words(head + (sep + tail));
        { assert text[i..] == sep + tail; assert text == head + (sep + tail); }
        Words(text);
      }
    }
  }

  lemma {:induction false} NonBlankWords(parts: seq<string>)
    ensures Words(Concat(NonBlank(parts))) == Words(Concat(parts))
  {
    if parts != [] {
      NonBlankWords(parts[1..]);
      StripWords(parts[0]);
      WordsAppend(parts[0], Concat(parts[1..]));
      var rest := NonBlank(parts[1..]);
      if Strip(parts[0]) == "" {
        assert NonBlank(parts) == rest;
      } else {
        assert NonBlank(parts)[1..] == rest;
        WordsAppend(Strip(parts[0]), Concat(rest));
      }
    }
  }

  lemma ClauseIsSeparator(k: nat)
    requires k < |CLAUSES|
    ensures Words(CLAUSES[k]) == ""
  {
    var sep := CLAUSES[k];
    forall i | 0 <= i < |sep| ensures IsSeparator(sep[i]) {
      assert k == 0 || k == 1 || k == 2 || k == 3 || k == 4;
    }
    NoWords(sep);
  }

  lemma {:induction false} ClausePartsWords(text: string, k: nat)
    requires k <= |CLAUSES| && ClauseParts(text, k) != []
    ensures Words(Concat(ClauseParts(text, k))) == Words(text)
    decreases |CLAUSES| - k
  {
    if k < |CLAUSES| {
      var parts := NonBlank(SplitOn(text, CLAUSES[k]));
      if |parts| > 1 {
        ClauseIsSeparator(k);
        SplitWords(text, CLAUSES[k]);
        NonBlankWords(SplitOn(text, CLAUSES[k]));
      } else {
        ClausePartsWords(text, k + 1);
      }
    }
  }

  /** Splitting an oversized sentence loses only white space and clause characters. */
  lemma {:induction false} SplitOversizedWords(raw: string, limit: nat)
    ensures Words(Concat(SplitOversized(raw, limit))) == Words(raw)
    decreases |raw|, 1, 0
  {
    StripShorter(raw);
    StripWords(raw);
    var text := Strip(raw);
    if text == "" {
    } else if |text| <= limit {
      OneConcat(text);
    } else {
      ClausePartsShorter(text, 0);
      var parts := ClauseParts(text, 0);
      if parts != [] {
        SplitPartsWords(parts, limit, |text|);
        ClausePartsWords(text, 0);
      } else {
        var space := CutAt(text, limit);
        if space <= 0 {
          OneConcat(text);
        } else {
          SplitAtSpaceWords(text, space, limit);
        }
      }
    }
  }

  lemma SplitAtSpaceWords(text: string, space: nat, limit: nat)
    requires 0 < space < |text| && text[space] == ' '
    ensures Words(Concat((if Strip(text[..space]) == "" then [] else [Strip(text[..space])])
                         + SplitOversized(Strip(text[space + 1..]), limit))) == Words(text)
    decreases |text|, 0, 0
  {
    var left, right := text[..space], text[space + 1..];
    StripShorter(right);
    calc {
      Words(Concat((if Strip(left) == "" then [] else [Strip(left)]) + SplitOversized(Strip(right), limit)));
      { PutWords(Strip(left), SplitOversized(Strip(right), limit)); }
      Words(Strip(left)) + Words(Concat(SplitOversized(Strip(right), limit)));
      { SplitOversizedWords(Strip(right), limit); StripWords(right); StripWords(left); }
      Words(left) + Words(right);
      { NoWords(" "); SeparatorWords(left, " ", right); }
      Words(left + (" " + right));
      { assert text == left + (" " + right); }
      Words(text);
    }
  }

  lemma {:induction false} SplitPartsWords(parts: seq<string>, limit: nat, n: nat)
    requires forall i :: 0 <= i < |parts| ==> |parts[i]| < n
    ensures Words(Concat(SplitParts(parts, limit, n))) == Words(Concat(parts))
    decreases n, 0, |parts|
  {
    if parts != [] {
      SplitOversizedWords(parts[0], limit);
      SplitPartsWords(parts[1..], limit, n);
      ConcatAppend(SplitOversized(parts[0], limit), SplitParts(parts[1..], limit, n));
      WordsAppend(Concat(SplitOversized(parts[0], limit)), Concat(SplitParts(parts[1..], limit, n)));
      WordsAppend(parts[0], Concat(parts[1..]));
    }
  }

  lemma {:induction false} SplitSentencesWords(sentences: seq<string>, limit: nat)
    ensures Words(Concat(SplitSentences(sentences, limit))) == Words(Concat(sentences))
  {
    if sentences != [] {
      SplitOversizedWords(sentences[0], limit);
      SplitSentencesWords(sentences[1..], limit);
      ConcatAppend(SplitOversized(sentences[0], limit), SplitSentences(sentences[1..], limit));
      WordsAppend(Concat(SplitOversized(sentences[0], limit)), Concat(SplitSentences(sentences[1..], limit)));
      WordsAppend(sentences[0], Concat(sentences[1..]));
    }
  }

  lemma {:induction false} PackWords(current: string, pieces: seq<string>, limit: nat)
    ensures Words(Concat(Pack(current, pieces, limit))) == Words(current) + Words(Concat(pieces))
    decreases |pieces|
  {
    if pieces == [] {
      OneConcat(current);
    } else {
      var p, rest := pieces[0], pieces[1..];
      WordsAppend(p, Concat(rest));
      if current == "" {
        PackWords(p, rest, limit);
      } else if |current| + 1 + |p| <= limit {
        PackWords(current + " " + p, rest, limit);
        WordsAppend(current + " ", p);
        WordsAppend(current, " ");
        NoWords(" ");
      } else {
        PackWords(p, rest, limit);
        ConcatAppend([current], Pack(p, rest, limit));
        OneConcat(current);
        WordsAppend(current, Concat(Pack(p, rest, limit)));
      }
    }
  }

  /** Sentences with nothing but white space between them hold all the words of the text. */
  lemma {:induction false} SentenceWords(text: string, spans: seq<SentenceSpan>, from: nat)
    requires Segmented(text, spans, from) && SpansFit(text, spans) && from <= |text|
    ensures Words(Concat(SentenceTexts(text, spans))) == Words(text[from..])
  {
    if spans == [] {
      NoWords(text[from..]);
    } else {
      var span := spans[0];
      var rest := SentenceTexts(text, spans[1..]);
      var gap, mid, tail := text[from..span.start], text[span.start..span.end], text[span.end..];
      calc {
        Words(Concat(SentenceTexts(text, spans)));
        { PutWords(Strip(mid), rest); }
        Words(Strip(mid)) + Words(Concat(rest));
        { StripWords(mid); SentenceWords(text, spans[1..], span.end); }
        Words(mid) + Words(tail);
        { WordsAppend(mid, tail); NoWords(gap); WordsAppend(gap, mid + tail); }
        Words(gap + (mid + tail));
        { assert text[from..] == gap + (mid + tail); }
        Words(text[from..]);
      }
    }
  }

  /** For any segmenter that keeps its protocol, the chunks of a run hold the run's words, in order,
      and only white space and clause characters are lost. */
  lemma ChunksKeepWords(raw: string, dialogue: bool, limit: nat, spans: seq<SentenceSpan>)
    requires SpansFit(Strip(raw), spans) && Segmented(Strip(raw), spans, 0)
    ensures Words(Concat(Chunks(raw, dialogue, limit, spans))) == Words(raw)
  {
    var text := Strip(raw);
    StripWords(raw);
    if text == "" {
    } else if dialogue && |text| <= limit {
      OneConcat(text);
    } else {
      var found := SentenceTexts(text, spans);
      var sentences := if found == [] then [text] else found;
      SentenceWords(text, spans, 0);
      assert text[0..] == text;
      OneConcat(text);
      SplitSentencesWords(sentences, limit);
      PackWords("", SplitSentences(sentences, limit), limit);
    }
  }

  // ---------- the shape of pieces and chunks ----------

  /** A piece fits the limit, or it is one run with no space to break it at. */
  predicate GoodPiece(p: string, limit: nat) {
    p != "" && Trimmed(p) && (|p| <= limit || ' ' !in p)
  }

  ghost predicate GoodPieces(ps: seq<string>, limit: nat) {
    forall i :: 0 <= i < |ps| ==> GoodPiece(ps[i], limit)
  }

  lemma CutAtIsGood(text: string, limit: nat)
    requires Trimmed(text) && text != "" && |text| > limit
    ensures var space := CutAt(text, limit);
            && (space <= 0 ==> ' ' !in text)
            && (space > 0 ==> GoodPiece(Strip(text[..space]), limit))
  {
    var space := CutAt(text, limit);
    assert IsSpace(' ') && !IsSpace(text[0]);
    if space > 0 {
      var head := text[..space];
      var a, b := StripCuts(head);
      assert head[0] == text[0] && a == 0;
      if space > limit {
        assert ' ' !in head;
      }
      assert Strip(head) == head[a..b];
    }
  }

  lemma {:induction false} SplitOversizedGood(raw: string, limit: nat)
    ensures GoodPieces(SplitOversized(raw, limit), limit)
    decreases |raw|, 1, 0
  {
    hide Strip, CutAt, ClauseParts, IsSpace;
    StripShorter(raw);
    var a, b := StripCuts(raw);
    var text := Strip(raw);
    if text == "" || |text| <= limit {
    } else {
      ClausePartsShorter(text, 0);
      var parts := ClauseParts(text, 0);
      if parts != [] {
        SplitPartsGood(parts, limit, |text|);
      } else {
        CutAtIsGood(text, limit);
        var space := CutAt(text, limit);
        if space > 0 {
          StripShorter(text[space + 1..]);
          SplitOversizedGood(Strip(text[space + 1..]), limit);
        }
      }
    }
  }

  lemma {:induction false} SplitPartsGood(parts: seq<string>, limit: nat, n: nat)
    requires forall i :: 0 <= i < |parts| ==> |parts[i]| < n
    ensures GoodPieces(SplitParts(parts, limit, n), limit)
    decreases n, 0, |parts|
  {
    if parts != [] {
      SplitOversizedGood(parts[0], limit);
      SplitPartsGood(parts[1..], limit, n);
    }
  }

  lemma {:induction false} SplitSentencesGood(sentences: seq<string>, limit: nat)
    ensures GoodPieces(SplitSentences(sentences, limit), limit)
  {
    if sentences != [] {
      SplitOversizedGood(sentences[0], limit);
      SplitSentencesGood(sentences[1..], limit);
    }
  }

  predicate GoodChunk(c: string, limit: nat) {
    c != "" && (|c| <= limit || ' ' !in c)
  }

  lemma {:induction false} PackGood(current: string, pieces: seq<string>, limit: nat)
    requires GoodPieces(pieces, limit) && (current == "" || GoodChunk(current, limit))
    ensures forall i :: 0 <= i < |Pack(current, pieces, limit)| ==> GoodChunk(Pack(current, pieces, limit)[i], limit)
    decreases |pieces|
  {
    if pieces != [] {
      var p, rest := pieces[0], pieces[1..];
      assert GoodPiece(p, limit);
      if current == "" {
        PackGood(p, rest, limit);
      } else if |current| + 1 + |p| <= limit {
        PackGood(current + " " + p, rest, limit);
      } else {
        PackGood(p, rest, limit);
      }
    }
  }

  /** Every chunk fits the limit or is a single run with no space in it. */
  lemma ChunksFit(raw: string, dialogue: bool, limit: nat, spans: seq<SentenceSpan>)
    requires SpansFit(Strip(raw), spans)
    ensures forall i :: 0 <= i < |Chunks(raw, dialogue, limit, spans)| ==>
              GoodChunk(Chunks(raw, dialogue, limit, spans)[i], limit)
  {
    var text := Strip(raw);
    if text != "" && !(dialogue && |text| <= limit) {
      var found := SentenceTexts(text, spans);
      var sentences := if found == [] then [text] else found;
      SplitSentencesGood(sentences, limit);
      PackGood("", SplitSentences(sentences, limit), limit);
    }
  }

  // ---------- the greedy packer is optimal ----------

  /** The pieces of a group joined with single spaces. */
  function JoinLength(group: seq<string>): nat {
    if group == [] then 0
    else if |group| == 1 then |group[0]|
    else |group[0]| + 1 + JoinLength(group[1..])
  }

  function Flatten(groups: seq<seq<string>>): seq<string> {
    if groups == [] then [] else groups[0] + Flatten(groups[1..])
  }

  /** A way to chunk the pieces: neighbouring pieces share a chunk, and a chunk of two or more pieces
      fits the limit. */
  ghost predicate Feasible(groups: seq<seq<string>>, limit: nat) {
    forall i :: 0 <= i < |groups| ==>
      groups[i] != [] && (|groups[i]| >= 2 ==> JoinLength(groups[i]) <= limit)
  }

  /** What the pieces of `group` still need after a chunk that holds something. */
  function Room(group: seq<string>): nat {
    if group == [] then 0 else 1 + |group[0]| + Room(group[1..])
  }

  lemma {:induction false} JoinIsRoom(first: string, rest: seq<string>)
    ensures JoinLength([first] + rest) == |first| + Room(rest)
    decreases |rest|
  {
    assert ([first] + rest)[1..] == rest;
    if rest != [] {
      JoinIsRoom(rest[0], rest[1..]);
      assert [rest[0]] + rest[1..] == rest;
    }
  }

  /** The chunk being filled has room for the rest of its group: no extra chunk is needed for it. */
  lemma {:induction false} AheadFits(current: string, tail: seq<string>, groups: seq<seq<string>>, limit: nat)
    requires current != "" && Feasible(groups, limit)
    requires tail == [] || |current| + Room(tail) <= limit
    requires forall i :: 0 <= i < |tail + Flatten(groups)| ==> (tail + Flatten(groups))[i] != ""
    ensures |Pack(current, tail + Flatten(groups), limit)| <= 1 + |groups|
    decreases |tail + Flatten(groups)|, 1
  {
    var pieces := tail + Flatten(groups);
    if pieces == [] {
    } else if tail != [] {
      assert pieces[1..] == tail[1..] + Flatten(groups);
      assert pieces[0] == tail[0];
      AheadFits(current + " " + tail[0], tail[1..], groups, limit);
    } else {
      assert pieces == Flatten(groups);
      NextGroup(current, groups, limit);
    }
  }

  /** The filling chunk is between two groups of the other way. */
  lemma {:induction false} NextGroup(current: string, groups: seq<seq<string>>, limit: nat)
    requires current != "" && Feasible(groups, limit) && Flatten(groups) != []
    requires forall i :: 0 <= i < |Flatten(groups)| ==> Flatten(groups)[i] != ""
    ensures |Pack(current, Flatten(groups), limit)| <= 1 + |groups|
    decreases |Flatten(groups)|, 0
  {
    var pieces := Flatten(groups);
    assert groups != [] && groups[0] != [];
    var x, tail, later := groups[0][0], groups[0][1..], groups[1..];
    JoinIsRoom(x, tail);
    assert [x] + tail == groups[0];
    assert pieces[0] == x && pieces[1..] == tail + Flatten(later);
    assert Feasible(later, limit);
    if |current| + 1 + |x| <= limit {
      AheadSpills(current + " " + x, tail, x, later, limit);
    } else {
      AheadFits(x, tail, later, limit);
    }
  }

  /** The filling chunk already holds the front of a group that fits on its own: at most one extra
      chunk is needed for the rest of that group. */
  lemma {:induction false} AheadSpills(current: string, tail: seq<string>, x: string,
                                       groups: seq<seq<string>>, limit: nat)
    requires current != "" && Feasible(groups, limit)
    requires tail == [] || |x| + Room(tail) <= limit
    requires forall i :: 0 <= i < |tail + Flatten(groups)| ==> (tail + Flatten(groups))[i] != ""
    ensures |Pack(current, tail + Flatten(groups), limit)| <= 2 + |groups|
    decreases |tail + Flatten(groups)|, 2
  {
    var pieces := tail + Flatten(groups);
    if tail == [] {
      assert pieces == Flatten(groups);
      AheadFits(current, [], groups, limit);
    } else {
      assert pieces[1..] == tail[1..] + Flatten(groups) && pieces[0] == tail[0];
      if |current| + 1 + |tail[0]| <= limit {
        AheadSpills(current + " " + tail[0], tail[1..], x, groups, limit);
      } else {
        AheadFits(tail[0], tail[1..], groups, limit);
      }
    }
  }

  /** The greedy packer makes as few chunks as any way of grouping neighbouring pieces can. */
  lemma PackIsOptimal(pieces: seq<string>, groups: seq<seq<string>>, limit: nat)
    requires Feasible(groups, limit) && Flatten(groups) == pieces
    requires forall i :: 0 <= i < |pieces| ==> pieces[i] != ""
    ensures |Pack("", pieces, limit)| <= |groups|
  {
    if pieces != [] {
      assert groups != [] && groups[0] != [];
      var x, tail, later := groups[0][0], groups[0][1..], groups[1..];
      JoinIsRoom(x, tail);
      assert [x] + tail == groups[0];
      assert pieces[0] == x && pieces[1..] == tail + Flatten(later);
      AheadFits(x, tail, later, limit);
    }
  }

  /** `" ".join(group)` */
  function Join(group: seq<string>): string {
    if group == [] then ""
    else if |group| == 1 then group[0]
    else Join(group[..|group| - 1]) + " " + group[|group| - 1]
  }

  lemma {:induction false} JoinLengthIs(group: seq<string>)
    ensures |Join(group)| == JoinLength(group)
  {
    if |group| >= 2 {
      var n := |group| - 1;
      JoinLengthIs(group[..n]);
      JoinLengthLast(group[..n], group[n]);
      assert group == group[..n] + [group[n]];
    }
  }

  lemma {:induction false} JoinLengthLast(group: seq<string>, p: string)
    requires group != []
    ensures JoinLength(group + [p]) == JoinLength(group) + 1 + |p|
  {
    assert (group + [p])[1..] == group[1..] + [p];
    if |group| > 1 {
      JoinLengthLast(group[1..], p);
    } else {
      assert group[1..] + [p] == [p];
    }
  }

  /** The groups the packer makes, with `group` as the one being filled. */
  function Greedy(group: seq<string>, pieces: seq<string>, limit: nat): seq<seq<string>>
    decreases |pieces|
  {
    if pieces == [] then [group]
    else if JoinLength(group) + 1 + |pieces[0]| <= limit then Greedy(group + [pieces[0]], pieces[1..], limit)
    else [group] + Greedy([pieces[0]], pieces[1..], limit)
  }

  function Joined(groups: seq<seq<string>>): seq<string> {
    if groups == [] then [] else [Join(groups[0])] + Joined(groups[1..])
  }

  /** The packer's chunks are the groups of a feasible grouping, each joined with single spaces. */
  lemma {:induction false} PackIsGreedy(group: seq<string>, pieces: seq<string>, limit: nat)
    requires group != [] && (|group| >= 2 ==> JoinLength(group) <= limit)
    requires Join(group) != "" && forall i :: 0 <= i < |pieces| ==> pieces[i] != ""
    ensures Pack(Join(group), pieces, limit) == Joined(Greedy(group, pieces, limit))
    ensures Flatten(Greedy(group, pieces, limit)) == group + pieces
    ensures Feasible(Greedy(group, pieces, limit), limit)
    ensures |Joined(Greedy(group, pieces, limit))| == |Greedy(group, pieces, limit)|
    decreases |pieces|
  {
    JoinLengthIs(group);
    hide JoinLength, Join, Joined, Flatten, Feasible;
    if pieces == [] {
      OneGroup(group, limit);
      assert group + [] == group;
    } else {
      var p, rest := pieces[0], pieces[1..];
      assert pieces == [p] + rest;
      if JoinLength(group) + 1 + |p| <= limit {
        OneMorePiece(group, p);
        PackIsGreedy(group + [p], rest, limit);
        assert (group + [p]) + rest == group + pieces;
      } else {
        JoinOfOne(p);
        PackIsGreedy([p], rest, limit);
        OneMoreGroup(group, Greedy([p], rest, limit), limit);
      }
    }
  }

  lemma JoinOfOne(p: string)
    ensures Join([p]) == p
  {
  }

  lemma OneMorePiece(group: seq<string>, p: string)
    requires group != [] && Join(group) != ""
    ensures Join(group + [p]) == Join(group) + " " + p && Join(group + [p]) != ""
    ensures JoinLength(group + [p]) == JoinLength(group) + 1 + |p|
  {
    JoinLengthLast(group, p);
    assert (group + [p])[..|group|] == group;
  }

  lemma OneGroup(group: seq<string>, limit: nat)
    requires group != [] && (|group| >= 2 ==> JoinLength(group) <= limit)
    ensures Joined([group]) == [Join(group)] && Flatten([group]) == group && Feasible([group], limit)
  {
    assert [group][1..] == [];
    assert group + [] == group;
  }

  lemma OneMoreGroup(group: seq<string>, later: seq<seq<string>>, limit: nat)
    requires group != [] && (|group| >= 2 ==> JoinLength(group) <= limit) && Feasible(later, limit)
    ensures Joined([group] + later) == [Join(group)] + Joined(later)
    ensures Flatten([group] + later) == group + Flatten(later) && Feasible([group] + later, limit)
  {
    assert ([group] + later)[1..] == later;
  }

  /** Packing reaches the minimum: its own grouping is feasible, and no feasible grouping is shorter. */
  lemma PackIsMinimum(pieces: seq<string>, limit: nat) returns (best: seq<seq<string>>)
    requires forall i :: 0 <= i < |pieces| ==> pieces[i] != ""
    ensures Feasible(best, limit) && Flatten(best) == pieces && Pack("", pieces, limit) == Joined(best)
    ensures forall groups :: Feasible(groups, limit) && Flatten(groups) == pieces ==> |best| <= |groups|
  {
    if pieces == [] {
      best := [];
    } else {
      best := Greedy([pieces[0]], pieces[1..], limit);
      assert pieces == [pieces[0]] + pieces[1..];
      PackIsGreedy([pieces[0]], pieces[1..], limit);
      forall groups | Feasible(groups, limit) && Flatten(groups) == pieces ensures |best| <= |groups| {
        PackIsOptimal(pieces, groups, limit);
      }
    }
  }
}
