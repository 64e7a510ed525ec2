/** `jobs/chunker.py`: a spoken run becomes chunks of at most `limit` characters. Sentences longer than
    the limit break at clause punctuation, then at spaces; pieces are packed greedily. */
module Chunker {
  import opened PyText
  import opened Segment

  // ---------- str.split and str.find ----------

  /** `text.find(sep)`, and |text| when it is not there. */
  function Find(text: string, sep: string): (i: nat)
    requires sep != ""
    ensures i <= |text|
    ensures i < |text| ==> sep <= text[i..]
  {
    if text == "" then 0 else if sep <= text then 0 else Find(text[1..], sep) + 1
  }

  /** `text.split(sep)` */
  function SplitOn(text: string, sep: string): seq<string>
    requires sep != ""
    decreases |text|
  {
    var i := Find(text, sep);
    if i == |text| then [text] else [text[..i]] + SplitOn(text[i + |sep|..], sep)
  }

  /** `text.rfind(" ", 0, hi)`, and -1 when there is none. */
  function LastSpace(text: string, hi: nat): (i: int)
    ensures -1 <= i < |text| && i < hi
    ensures i >= 0 ==> text[i] == ' '
    ensures forall k :: i < k < |text| && k < hi ==> text[k] != ' '
  {
    if hi == 0 then -1
    else if hi <= |text| && text[hi - 1] == ' ' then hi - 1
    else LastSpace(text, hi - 1)
  }

  /** `text.find(" ")`, and -1 when there is none. */
  function FirstSpace(text: string): (i: int)
    ensures -1 <= i < |text|
    ensures i >= 0 ==> text[i] == ' ' && forall k :: 0 <= k < i ==> text[k] != ' '
    ensures i == -1 ==> ' ' !in text
  {
    if text == "" then -1
    else if text[0] == ' ' then 0
    else
      var i := FirstSpace(text[1..]);
      if i == -1 then -1 else i + 1
  }

  // ---------- _split_oversized ----------

  const CLAUSES: seq<string> := [";", ",", " \U{2014} ", " \U{2013} ", " - "]

  /** `[part.strip() for part in parts if part.strip()]` */
  function NonBlank(parts: seq<string>): seq<string> {
    if parts == [] then []
    else (if Strip(parts[0]) == "" then [] else [Strip(parts[0])]) + NonBlank(parts[1..])
  }

  /** The parts at the first separator that leaves more than one; [] when none does. */
  function ClauseParts(text: string, k: nat): seq<string>
    requires k <= |CLAUSES|
    decreases |CLAUSES| - k
  {
    if k == |CLAUSES| then []
    else
      var parts := NonBlank(SplitOn(text, CLAUSES[k]));
      if |parts| > 1 then parts else ClauseParts(text, k + 1)
  }

  lemma {:induction false} SplitShorter(text: string, sep: string)
    requires sep != ""
    ensures forall i :: 0 <= i < |SplitOn(text, sep)| ==> |SplitOn(text, sep)[i]| <= |text|
    ensures |SplitOn(text, sep)| > 1 ==>
              forall i :: 0 <= i < |SplitOn(text, sep)| ==> |SplitOn(text, sep)[i]| < |text|
    decreases |text|
  {
    var i := Find(text, sep);
    if i < |text| {
      var tail := text[i + |sep|..];
      SplitShorter(tail, sep);
      var head, rest := text[..i], SplitOn(tail, sep);
      assert SplitOn(text, sep) == [head] + rest;
      assert |head| < |text| && |tail| < |text|;
      forall k | 0 <= k < |[head] + rest| ensures |([head] + rest)[k]| < |text| {
        if k > 0 { assert |rest[k - 1]| <= |tail|; }
      }
    }
  }

  lemma {:induction false} NonBlankShape(parts: seq<string>, n: nat)
    requires forall i :: 0 <= i < |parts| ==> |parts[i]| < n
    ensures |NonBlank(parts)| <= |parts|
    ensures forall i :: 0 <= i < |NonBlank(parts)| ==>
              |NonBlank(parts)[i]| < n && NonBlank(parts)[i] != "" && Trimmed(NonBlank(parts)[i])
  {
    if parts != [] {
      NonBlankShape(parts[1..], n);
      var a, b := StripCuts(parts[0]);
    }
  }

  lemma {:induction false} NonBlankFewer(parts: seq<string>)
    ensures |NonBlank(parts)| <= |parts|
  {
    if parts != [] { NonBlankFewer(parts[1..]); }
  }

  lemma {:induction false} ClausePartsShorter(text: string, k: nat)
    requires k <= |CLAUSES|
    ensures forall i :: 0 <= i < |ClauseParts(text, k)| ==> |ClauseParts(text, k)[i]| < |text|
    decreases |CLAUSES| - k
  {
    if k < |CLAUSES| {
      var split := SplitOn(text, CLAUSES[k]);
      SplitShorter(text, CLAUSES[k]);
      NonBlankFewer(split);
      if |split| > 1 { NonBlankShape(split, |text|); }
      ClausePartsShorter(text, k + 1);
    }
  }

  /** Where the last resort cuts: the last space that keeps the head within the limit, else the first
      space; 0 or less means that there is none. */
  function CutAt(text: string, limit: nat): (space: int)
    ensures -1 <= space < |text|
    ensures space > 0 ==> text[space] == ' '
  {
    var last := LastSpace(text, limit + 1);
    if last > 0 then last else FirstSpace(text)
  }

  function SplitOversized(raw: string, limit: nat): seq<string>
    decreases |raw|, 1, 0
  {
    StripShorter(raw);
    var text := Strip(raw);
    if text == "" || |text| <= limit then (if text == "" then [] else [text])
    else
      ClausePartsShorter(text, 0);
      var parts := ClauseParts(text, 0);
      if parts != [] then SplitParts(parts, limit, |text|)
      else
        var space := CutAt(text, limit);
        if space <= 0 then [text]
        else
          StripShorter(text[space + 1..]);
          var head := Strip(text[..space]);
          (if head == "" then [] else [head]) + SplitOversized(Strip(text[space + 1..]), limit)
  }

  function SplitParts(parts: seq<string>, limit: nat, n: nat): seq<string>
    requires forall i :: 0 <= i < |parts| ==> |parts[i]| < n
    decreases n, 0, |parts|
  {
    if parts == [] then [] else SplitOversized(parts[0], limit) + SplitParts(parts[1..], limit, n)
  }

  lemma StripShorter(s: string)
    ensures |Strip(s)| <= |s|
  {
    var a, b := StripCuts(s);
  }

  // ---------- packing ----------

  /** The loop's state: `current` is the chunk being filled. */
  function Pack(current: string, pieces: seq<string>, limit: nat): seq<string>
    decreases |pieces|
  {
    if pieces == [] then (if current == "" then [] else [current])
    else if current == "" then Pack(pieces[0], pieces[1..], limit)
    else if |current| + 1 + |pieces[0]| <= limit then
      Pack(current + " " + pieces[0], pieces[1..], limit)
    else [current] + Pack(pieces[0], pieces[1..], limit)
  }

  /** `[span.text.strip() for span in segments if span.text.strip()]` */
  function SentenceTexts(text: string, spans: seq<SentenceSpan>): seq<string>
    requires forall i :: 0 <= i < |spans| ==> spans[i].start <= spans[i].end <= |text|
  {
    if spans == [] then []
    else
      var s := Strip(text[spans[0].start..spans[0].end]);
      (if s == "" then [] else [s]) + SentenceTexts(text, spans[1..])
  }

  function SplitSentences(sentences: seq<string>, limit: nat): seq<string> {
    if sentences == [] then [] else SplitOversized(sentences[0], limit) + SplitSentences(sentences[1..], limit)
  }

  /** A segmenter gives spans inside the text it segments. */
  ghost predicate SpansFit(text: string, spans: seq<SentenceSpan>) {
    forall i :: 0 <= i < |spans| ==> spans[i].start <= spans[i].end <= |text|
  }

  /** `_pieces`, for the spans its segmenter gives for the stripped text. */
  function Chunks(raw: string, dialogue: bool, limit: nat, spans: seq<SentenceSpan>): seq<string>
    requires SpansFit(Strip(raw), spans)
  {
    var text := Strip(raw);
    if text == "" then []
    else if dialogue && |text| <= limit then [text]
    else
      var found := SentenceTexts(text, spans);
      var sentences := if found == [] then [text] else found;
      Pack("", SplitSentences(sentences, limit), limit)
  }

  method PackPieces(current: string, pieces: seq<string>, limit: nat)
    returns (packed: seq<string>, current': string)
    ensures forall rest :: packed + Pack(current', rest, limit) == Pack(current, pieces + rest, limit)
  {
    hide Pack;
    packed, current' := [], current;
    var i := 0;
    assert pieces[0..] == pieces;
    while i < |pieces|
      invariant 0 <= i <= |pieces|
      invariant forall rest :: packed + Pack(current', pieces[i..] + rest, limit) == Pack(current, pieces + rest, limit)
    {
      var piece := pieces[i];
      ghost var before, at := packed, current';
      if current' == "" {
        current' := piece;
      } else if |current'| + 1 + |piece| <= limit {
        current' := current' + " " + piece;
      } else {
        packed := packed + [current'];
        current' := piece;
      }
      i := i + 1;
      forall rest ensures packed + Pack(current', pieces[i..] + rest, limit) == Pack(current, pieces + rest, limit) {
        PackStep(at, piece, pieces[i..] + rest, limit);
        assert pieces[i - 1..] + rest == [piece] + (pieces[i..] + rest);
        assert before + Pack(at, pieces[i - 1..] + rest, limit) == Pack(current, pieces + rest, limit);
        if packed != before {
          Regroup(before, [at], Pack(current', pieces[i..] + rest, limit), Pack(current, pieces + rest, limit));
        }
      }
    }
    assert forall rest: seq<string> :: pieces[|pieces|..] + rest == rest;
  }

  lemma PackStep(current: string, piece: string, rest: seq<string>, limit: nat)
    ensures Pack(current, [piece] + rest, limit) ==
            if current == "" then Pack(piece, rest, limit)
            else if |current| + 1 + |piece| <= limit then Pack(current + " " + piece, rest, limit)
            else [current] + Pack(piece, rest, limit)
  {
    assert ([piece] + rest)[1..] == rest;
  }

  method PackLoop(sentences: seq<string>, limit: nat) returns (packed: seq<string>)
    ensures packed == Pack("", SplitSentences(sentences, limit), limit)
  {
    packed := [];
    var current := "";
    var i := 0;
    while i < |sentences|
      invariant 0 <= i <= |sentences|
      invariant packed + Pack(current, SplitSentences(sentences[i..], limit), limit)
             == Pack("", SplitSentences(sentences, limit), limit)
    {
      assert sentences[i..][0] == sentences[i] && sentences[i..][1..] == sentences[i + 1..];
      ghost var rest := SplitSentences(sentences[i + 1..], limit);
      ghost var at := current;
      var full, now := PackPieces(current, SplitOversized(sentences[i], limit), limit);
      assert full + Pack(now, rest, limit) == Pack(at, SplitOversized(sentences[i], limit) + rest, limit);
      Regroup(packed, full, Pack(now, rest, limit), Pack("", SplitSentences(sentences, limit), limit));
      packed, current := packed + full, now;
      i := i + 1;
    }
    if current != "" {
      packed := packed + [current];
    }
  }

  method PiecesLoop(raw: string, dialogue: bool, limit: nat, spans: seq<SentenceSpan>)
    returns (packed: seq<string>)
    requires SpansFit(Strip(raw), spans)
    ensures packed == Chunks(raw, dialogue, limit, spans)
  {
    var text := Strip(raw);
    if text == "" {
      return [];
    }
    if dialogue && |text| <= limit {
      return [text];
    }
    var sentences := SentenceTexts(text, spans);
    if sentences == [] {
      sentences := [text];
    }
    packed := PackLoop(sentences, limit);
  }
}
