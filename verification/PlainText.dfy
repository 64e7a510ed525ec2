/** `text/plain.py`: the editor shows a chapter as its blocks joined with a blank line, and a commit
    splits that text again. */
module PlainText {
  import opened PyText
  import opened Said

  function JoinPlainText(parts: seq<string>): string {
    if parts == [] then ""
    else if |parts| == 1 then parts[0]
    else parts[0] + "\n\n" + JoinPlainText(parts[1..])
  }

  predicate IsBlank(c: char) {
    c == ' ' || c == '\t'
  }

  function SkipBlank(s: string, i: nat): (k: nat)
    requires i <= |s|
    ensures i <= k <= |s| && forall j :: i <= j < k ==> IsBlank(s[j])
    ensures k < |s| ==> !IsBlank(s[k])
    decreases |s| - i
  {
    if i < |s| && IsBlank(s[i]) then SkipBlank(s, i + 1) else i
  }

  /** The pattern `\n[ \t]*\n` matches at `i`. */
  predicate BlankLineAt(s: string, i: nat) {
    i < |s| && s[i] == '\n' && SkipBlank(s, i + 1) < |s| && s[SkipBlank(s, i + 1)] == '\n'
  }

  function NextBlankLine(s: string, i: nat): (k: nat)
    requires i <= |s|
    ensures i <= k <= |s| && forall j :: i <= j < k ==> !BlankLineAt(s, j)
    ensures k < |s| ==> BlankLineAt(s, k)
    decreases |s| - i
  {
    if i == |s| || BlankLineAt(s, i) then i else NextBlankLine(s, i + 1)
  }

  function SplitBlank(s: string, i: nat): seq<string>
    requires i <= |s|
    decreases |s| - i
  {
    var k := NextBlankLine(s, i);
    if k == |s| then [s[i..]] else [s[i..k]] + SplitBlank(s, SkipBlank(s, k + 1) + 1)
  }

  /** Strip every part and drop the ones that are empty. */
  function Stripped(parts: seq<string>): seq<string> {
    if parts == [] then []
    else (if Strip(parts[0]) == "" then [] else [Strip(parts[0])]) + Stripped(parts[1..])
  }

  function SplitPlainText(text: string): seq<string> {
    Stripped(SplitBlank(Newlines(text), 0))
  }

  // ---------- what a commit can hold ----------

  /** A newline, and another one with nothing but spaces and tabs between them. */
  predicate Encloses(p: string, i: int, k: int) {
    && 0 <= i < k < |p| && p[i] == '\n' && p[k] == '\n'
    && forall j :: i < j < k ==> p[j] == ' ' || p[j] == '\t'
  }

  predicate HasBlankLine(p: string) {
    exists i, k :: 0 <= i < |p| && 0 <= k < |p| && Encloses(p, i, k)
  }

  /** A block that survives the editor: it is not empty, has no space at either end, no CR, and no
      blank line in it. */
  predicate IsPart(p: string) {
    p != "" && Trimmed(p) && '\r' !in p && !HasBlankLine(p)
  }

  lemma BlankLineMeans(p: string, i: nat)
    ensures BlankLineAt(p, i) <==> exists k :: Encloses(p, i, k)
  {
    if BlankLineAt(p, i) { assert Encloses(p, i, SkipBlank(p, i + 1)); }
    if k :| Encloses(p, i, k) { SkipsTo(p, i + 1, k); }
  }

  lemma SkipsTo(p: string, i: nat, k: nat)
    requires i <= k < |p| && !IsBlank(p[k]) && forall j :: i <= j < k ==> IsBlank(p[j])
    ensures SkipBlank(p, i) == k
  {
    hide SkipBlank;
    var n := SkipBlank(p, i);
    assert n < |p| ==> !IsBlank(p[n]);
  }

  /** A text has no blank line if none is found at any place. */
  lemma NoneFound(p: string)
    ensures HasBlankLine(p) <==> exists i: nat :: i < |p| && BlankLineAt(p, i)
  {
    forall i: nat ensures BlankLineAt(p, i) <==> exists k :: Encloses(p, i, k) { BlankLineMeans(p, i); }
    hide BlankLineAt, Encloses;
    if i, k :| 0 <= i < |p| && 0 <= k < |p| && Encloses(p, i, k) { assert BlankLineAt(p, i); }
    if i: nat :| i < |p| && BlankLineAt(p, i) {
      var k :| Encloses(p, i, k);
      EnclosesInside(p, i, k);
    }
  }

  lemma EnclosesInside(p: string, i: int, k: int)
    requires Encloses(p, i, k)
    ensures 0 <= i < |p| && 0 <= k < |p|
  {
  }

  lemma BlankLineStays(s: string, a: nat, b: nat)
    requires a <= b <= |s|
    ensures HasBlankLine(s[a..b]) ==> HasBlankLine(s)
  {
    if i, k :| 0 <= i < b - a && 0 <= k < b - a && Encloses(s[a..b], i, k) { assert Encloses(s, a + i, a + k); }
  }

  lemma {:induction false} SkipBlankWindow(s: string, a: nat, b: nat, i: nat)
    requires a <= b <= |s| && i <= b - a
    ensures SkipBlank(s[a..b], i) < b - a ==> SkipBlank(s, a + i) == a + SkipBlank(s[a..b], i)
    decreases b - a - i
  {
    if i < b - a && IsBlank(s[a + i]) { SkipBlankWindow(s, a, b, i + 1); }
  }

  lemma BlankLineWindow(s: string, a: nat, b: nat, i: nat)
    requires a <= b <= |s| && BlankLineAt(s[a..b], i)
    ensures BlankLineAt(s, a + i)
  {
    SkipBlankWindow(s, a, b, i + 1);
  }

  ghost predicate AllParts(parts: seq<string>) {
    forall k :: 0 <= k < |parts| ==> IsPart(parts[k])
  }

  lemma SliceOfSlice(s: string, a: nat, b: nat, x: nat, y: nat)
    requires a <= b <= |s| && x <= y <= b - a
    ensures s[a..b][x..y] == s[a + x..a + y]
  {
    var inner := s[a..b];
    assert forall k :: 0 <= k < y - x ==> inner[x..y][k] == inner[x + k] == s[a + x + k] == s[a + x..a + y][k];
  }

  /** The stretch between two blank lines, once stripped, is a part or empty. */
  lemma PieceIsPart(s: string, a: nat, b: nat)
    requires a <= b <= |s| && '\r' !in s && Strip(s[a..b]) != ""
    requires forall j :: a <= j < b ==> !BlankLineAt(s, j)
    ensures IsPart(Strip(s[a..b]))
  {
    var x, y := StripCuts(s[a..b]);
    var p := Strip(s[a..b]);
    SliceOfSlice(s, a, b, x, y);
    forall i | 0 <= i < |p| ensures !BlankLineAt(p, i) {
      if BlankLineAt(p, i) { BlankLineWindow(s, a + x, a + y, i); }
    }
    NoneFound(p);
  }

  lemma StrippedStep(piece: string, rest: seq<string>)
    requires Strip(piece) == "" || IsPart(Strip(piece))
    requires AllParts(Stripped(rest))
    ensures AllParts(Stripped([piece] + rest))
  {
    assert ([piece] + rest)[1..] == rest;
    assert Stripped([piece] + rest) == (if Strip(piece) == "" then [] else [Strip(piece)]) + Stripped(rest);
  }

  lemma NothingStripped()
    ensures Stripped([]) == [] && AllParts(Stripped([]))
  {
  }

  lemma {:induction false} SplitGivesParts(s: string, i: nat)
    requires i <= |s| && '\r' !in s
    ensures AllParts(Stripped(SplitBlank(s, i)))
    decreases |s| - i
  {
    hide Strip, IsPart, NextBlankLine, Stripped, SkipBlank, AllParts;
    var k := NextBlankLine(s, i);
    assert k < |s| ==> SkipBlank(s, k + 1) < |s|;
    hide BlankLineAt;
    if Strip(s[i..k]) != "" { PieceIsPart(s, i, k); }
    NothingStripped();
    if k == |s| {
      assert s[i..] == s[i..k];
      StrippedStep(s[i..k], []);
      assert [s[i..k]] + [] == [s[i..k]];
    } else {
      var rest := SplitBlank(s, SkipBlank(s, k + 1) + 1);
      SplitGivesParts(s, SkipBlank(s, k + 1) + 1);
      StrippedStep(s[i..k], rest);
    }
  }

  lemma {:induction false} PartHasNoSplit(p: string)
    requires IsPart(p)
    ensures Strip(p) == p
  {
    assert LStrip(p) == p && RStrip(p) == p;
  }

  /** Inside a part that stands at `i` in `s` no blank line starts. */
  lemma NoBlankLineStarts(s: string, i: nat, p: string, j: nat)
    requires IsPart(p) && i <= j < i + |p| <= |s| && s[i..i + |p|] == p
    ensures !BlankLineAt(s, j)
  {
    NoneFound(p);
    if BlankLineAt(s, j) {
      var b := i + |p|;
      assert s[b - 1] == p[|p| - 1];
      assert s[j] == p[j - i];
      var k := SkipBlank(s, j + 1);
      assert j < b - 1;
      assert !IsBlank(s[b - 1]);
      assert k <= b - 1;
      SkipBlankHere(s, i, b, j + 1 - i);
      assert BlankLineAt(p, j - i);
    }
  }

  lemma {:induction false} SkipBlankHere(s: string, a: nat, b: nat, i: nat)
    requires a <= b <= |s| && i <= b - a && SkipBlank(s, a + i) < b
    ensures SkipBlank(s, a + i) == a + SkipBlank(s[a..b], i)
    decreases b - a - i
  {
    if i < b - a && IsBlank(s[a + i]) { SkipBlankHere(s, a, b, i + 1); }
  }

  ghost predicate TailIs(s: string, i: nat, parts: seq<string>) {
    i <= |s| && s[i..] == JoinPlainText(parts)
  }

  /** The next blank line after a part is the separator that follows it, if one does. */
  lemma NextAfterPart(s: string, i: nat, p: string)
    requires IsPart(p) && i + |p| <= |s| && s[i..i + |p|] == p
    requires i + |p| < |s| ==> BlankLineAt(s, i + |p|)
    ensures NextBlankLine(s, i) == i + |p|
  {
    var k := NextBlankLine(s, i);
    if k < i + |p| { NoBlankLineStarts(s, i, p, k); }
  }

  lemma TailOf(s: string, i: nat, p: string, rest: seq<string>)
    requires TailIs(s, i, [p] + rest) && rest != []
    ensures i + |p| + 2 <= |s| && s[i..i + |p|] == p && BlankLineAt(s, i + |p|)
    ensures SkipBlank(s, i + |p| + 1) == i + |p| + 1 && TailIs(s, i + |p| + 2, rest)
  {
    assert ([p] + rest)[1..] == rest;
    var tail := s[i..];
    assert tail == p + "\n\n" + JoinPlainText(rest);
    assert tail[|p|] == '\n' && tail[|p| + 1] == '\n';
    assert s[i..i + |p|] == tail[..|p|] == p;
    assert s[i + |p| + 2..] == tail[|p| + 2..] == JoinPlainText(rest);
  }

  lemma LastTail(s: string, i: nat, p: string)
    requires TailIs(s, i, [p])
    ensures s[i..] == p && i + |p| == |s| && s[i..i + |p|] == p
  {
  }

  lemma {:induction false} SplitOfJoin(s: string, i: nat, p: string, rest: seq<string>)
    requires IsPart(p) && AllParts(rest) && TailIs(s, i, [p] + rest)
    ensures SplitBlank(s, i) == [p] + rest
    decreases |rest|
  {
    hide IsPart, NextBlankLine, JoinPlainText, BlankLineAt, SkipBlank;
    if rest == [] {
      assert [p] + rest == [p];
      LastTail(s, i, p);
      NextAfterPart(s, i, p);
    } else {
      TailOf(s, i, p, rest);
      NextAfterPart(s, i, p);
      var q, more := rest[0], rest[1..];
      assert rest == [q] + more && IsPart(q) && AllParts(more);
      SplitOfJoin(s, i + |p| + 2, q, more);
    }
  }

  lemma {:induction false} StrippedKeeps(parts: seq<string>)
    requires AllParts(parts)
    ensures Stripped(parts) == parts
  {
    if parts != [] {
      PartHasNoSplit(parts[0]);
      StrippedKeeps(parts[1..]);
    }
  }

  lemma {:induction false} JoinHasNoCr(parts: seq<string>)
    requires AllParts(parts)
    ensures '\r' !in JoinPlainText(parts)
  {
    if |parts| > 1 { JoinHasNoCr(parts[1..]); }
  }

  /** Every commit yields blocks the editor can show and read back. */
  lemma CommitsGiveParts(text: string)
    ensures AllParts(SplitPlainText(text))
  {
    NewlinesHaveNoCr(text);
    SplitGivesParts(Newlines(text), 0);
  }

  /** Showing a chapter and committing the text as it stands gives back its blocks exactly when every
      block is one a commit can hold. */
  lemma EditorRoundTrip(parts: seq<string>)
    ensures SplitPlainText(JoinPlainText(parts)) == parts <==> AllParts(parts)
  {
    CommitsGiveParts(JoinPlainText(parts));
    hide SplitPlainText, JoinPlainText, IsPart;
    if AllParts(parts) { PartsComeBack(parts); }
  }

  lemma PartsComeBack(parts: seq<string>)
    requires AllParts(parts)
    ensures SplitPlainText(JoinPlainText(parts)) == parts
  {
    JoinHasNoCr(parts);
    NewlinesKeep(JoinPlainText(parts));
    if parts == [] {
      NothingSplits();
    } else {
      assert JoinPlainText(parts)[0..] == JoinPlainText(parts);
      assert parts == [parts[0]] + parts[1..];
      hide HasBlankLine, JoinPlainText, SplitBlank, Newlines, Stripped;
      SplitOfJoin(JoinPlainText(parts), 0, parts[0], parts[1..]);
      StrippedKeeps(parts);
    }
  }

  lemma NothingSplits()
    ensures SplitPlainText("") == []
  {
    assert NextBlankLine("", 0) == 0;
    assert SplitBlank("", 0) == [""];
    assert Strip("") == "";
  }

  // ---------- no text is lost ----------

  predicate IsInk(c: char) {
    !IsSpace(c)
  }

  /** The characters of a text that are no white space. */
  function InkOf(text: string): string {
    Letters(text, IsInk)
  }

  function Glued(parts: seq<string>): string {
    if parts == [] then "" else parts[0] + Glued(parts[1..])
  }

  lemma InkAppend(a: string, b: string)
    ensures InkOf(a + b) == InkOf(a) + InkOf(b)
  {
    LettersAppend(a, b, IsInk);
  }

  lemma {:induction false} NewlinesKeepInk(s: string)
    ensures InkOf(Newlines(s)) == InkOf(s)
    decreases |s|
  {
    if s == "" {
    } else if s[0] == '\r' && |s| > 1 && s[1] == '\n' {
      NewlinesKeepInk(s[2..]);
      InkAppend("\n", Newlines(s[2..]));
      InkAppend(s[..2], s[2..]);
      assert s == s[..2] + s[2..] && InkOf(s[..2]) == "" && InkOf("\n") == "" by {
        NoLetters(s[..2], IsInk);
        NoLetters("\n", IsInk);
      }
    } else {
      NewlinesKeepInk(s[1..]);
      assert IsInk('\r') == IsInk('\n') == false;
      assert Newlines(s)[1..] == Newlines(s[1..]);
    }
  }

  lemma {:induction false} SplitKeepsLetters(s: string, i: nat)
    requires i <= |s|
    ensures InkOf(Glued(SplitBlank(s, i))) == InkOf(s[i..])
    decreases |s| - i
  {
    hide InkOf, SkipBlank, BlankLineAt, Glued;
    var k := NextBlankLine(s, i);
    if k == |s| {
      GluedFirst(s[i..], []);
      NothingGlued();
      assert [s[i..]] + [] == [s[i..]] && s[i..] + "" == s[i..];
    } else {
      GapHasNoInk(s, k);
      var n := SkipBlank(s, k + 1) + 1;
      SplitKeepsLetters(s, n);
      var rest := SplitBlank(s, n);
      GluedFirst(s[i..k], rest);
      InkAppend(s[i..k], Glued(rest));
      InkAcross(s, i, k, n);
    }
  }

  lemma NothingGlued()
    ensures Glued([]) == ""
  {
  }

  lemma GluedFirst(first: string, rest: seq<string>)
    ensures Glued([first] + rest) == first + Glued(rest)
  {
    assert ([first] + rest)[1..] == rest;
  }

  lemma InkAcross(s: string, i: nat, k: nat, n: nat)
    requires i <= k <= n <= |s| && InkOf(s[k..n]) == ""
    ensures InkOf(s[i..]) == InkOf(s[i..k]) + InkOf(s[n..])
  {
    hide InkOf;
    InkAppend(s[i..k], s[k..n] + s[n..]);
    InkAppend(s[k..n], s[n..]);
    assert s[i..] == s[i..k] + (s[k..n] + s[n..]);
  }

  lemma GapHasNoInk(s: string, k: nat)
    requires BlankLineAt(s, k)
    ensures SkipBlank(s, k + 1) < |s| && InkOf(s[k..SkipBlank(s, k + 1) + 1]) == ""
  {
    var n := SkipBlank(s, k + 1) + 1;
    forall j | 0 <= j < n - k ensures IsSpace(s[k..n][j]) {
      assert s[k..n][j] == s[k + j];
    }
    NoLetters(s[k..n], IsInk);
  }

  lemma {:induction false} StrippedKeepsInk(parts: seq<string>)
    ensures InkOf(Glued(Stripped(parts))) == InkOf(Glued(parts))
  {
    hide InkOf, Strip;
    if parts != [] {
      StrippedKeepsInk(parts[1..]);
      assert InkOf(Strip(parts[0])) == InkOf(parts[0]) by { StripKeepsInk(parts[0]); }
      InkAppend(parts[0], Glued(parts[1..]));
      var rest := Stripped(parts[1..]);
      if Strip(parts[0]) == "" {
        assert InkOf("") == "" by { NothingIsInk(); }
        assert [] + rest == rest;
      } else {
        assert ([Strip(parts[0])] + rest)[1..] == rest;
        InkAppend(Strip(parts[0]), Glued(rest));
      }
    }
  }

  lemma NothingIsInk()
    ensures InkOf("") == ""
  {
  }

  lemma StripKeepsInk(s: string)
    ensures InkOf(Strip(s)) == InkOf(s)
  {
    StripLetters(s, IsInk);
  }

  /** Splitting loses nothing but white space. */
  lemma SplitKeepsInk(text: string)
    ensures InkOf(Glued(SplitPlainText(text))) == InkOf(text)
  {
    hide InkOf, Newlines, SplitBlank, Stripped;
    var s := Newlines(text);
    NewlinesKeepInk(text);
    SplitKeepsLetters(s, 0);
    StrippedKeepsInk(SplitBlank(s, 0));
    assert s[0..] == s;
  }
}
