/** What a listener hears of spoken runs: characters, each with its chapter and voice slot, and pauses. */
module Said {
  import opened PyText

  datatype RunKind = SilenceRun | DialogueRun | SpeechRun

  datatype SpokenRun = SpokenRun(chapter: string, slot: string, kind: RunKind, text: string)

  datatype Said = Pausing(chapter: string) | Says(chapter: string, slot: string, c: char)

  /** The characters of a text that are kept. */
  function Letters(text: string, keep: char -> bool): string {
    if text == "" then "" else (if keep(text[0]) then [text[0]] else []) + Letters(text[1..], keep)
  }

  function Tagged(chapter: string, slot: string, letters: string): seq<Said> {
    seq(|letters|, i requires 0 <= i < |letters| => Says(chapter, slot, letters[i]))
  }

  function SaidByRun(run: SpokenRun, keep: char -> bool): seq<Said> {
    if run.kind.SilenceRun? then [Pausing(run.chapter)] else Tagged(run.chapter, run.slot, Letters(run.text, keep))
  }

  function SaidByRuns(runs: seq<SpokenRun>, keep: char -> bool): seq<Said> {
    if runs == [] then [] else SaidByRun(runs[0], keep) + SaidByRuns(runs[1..], keep)
  }

  /** What is said, without its chapter and slot. */
  function Spoken(said: seq<Said>): string {
    if said == [] then "" else (if said[0].Says? then [said[0].c] else []) + Spoken(said[1..])
  }

  /** No white space is kept. */
  ghost predicate NoSpaces(keep: char -> bool) {
    forall c :: keep(c) ==> !IsSpace(c)
  }

  lemma {:induction false} LettersAppend(a: string, b: string, keep: char -> bool)
    ensures Letters(a + b, keep) == Letters(a, keep) + Letters(b, keep)
  {
    if a == "" {
      assert a + b == b;
    } else {
      assert (a + b)[1..] == a[1..] + b;
      LettersAppend(a[1..], b, keep);
      var c := if keep(a[0]) then [a[0]] else [];
      assert c + (Letters(a[1..], keep) + Letters(b, keep)) == (c + Letters(a[1..], keep)) + Letters(b, keep);
    }
  }

  lemma {:induction false} NoLetters(s: string, keep: char -> bool)
    requires NoSpaces(keep) && AllSpace(s)
    ensures Letters(s, keep) == ""
  {
    if s != "" { NoLetters(s[1..], keep); }
  }

  lemma StripLetters(s: string, keep: char -> bool)
    requires NoSpaces(keep)
    ensures Letters(Strip(s), keep) == Letters(s, keep)
  {
    hide IsSpace;
    var a, b := StripCuts(s);
    assert s == s[..a] + (s[a..b] + s[b..]);
    LettersAppend(s[..a], s[a..b] + s[b..], keep);
    LettersAppend(s[a..b], s[b..], keep);
    NoLetters(s[..a], keep);
    NoLetters(s[b..], keep);
  }

  lemma TaggedAppend(chapter: string, slot: string, a: string, b: string)
    ensures Tagged(chapter, slot, a + b) == Tagged(chapter, slot, a) + Tagged(chapter, slot, b)
  {
  }

  lemma {:induction false} SaidByRunsAppend(a: seq<SpokenRun>, b: seq<SpokenRun>, keep: char -> bool)
    ensures SaidByRuns(a + b, keep) == SaidByRuns(a, keep) + SaidByRuns(b, keep)
  {
    hide SaidByRun;
    if a == [] {
      assert a + b == b;
    } else {
      assert (a + b)[1..] == a[1..] + b;
      SaidByRunsAppend(a[1..], b, keep);
      var c := SaidByRun(a[0], keep);
      assert c + (SaidByRuns(a[1..], keep) + SaidByRuns(b, keep))
          == (c + SaidByRuns(a[1..], keep)) + SaidByRuns(b, keep);
    }
  }

  lemma SaidByOne(run: SpokenRun, keep: char -> bool)
    ensures SaidByRuns([run], keep) == SaidByRun(run, keep)
  {
    assert [run][1..] == [];
  }

  lemma {:induction false} SpokenAppend(a: seq<Said>, b: seq<Said>)
    ensures Spoken(a + b) == Spoken(a) + Spoken(b)
  {
    if a == [] {
      assert a + b == b;
    } else {
      assert (a + b)[1..] == a[1..] + b && (a + b)[0] == a[0];
      SpokenAppend(a[1..], b);
      var c := if a[0].Says? then [a[0].c] else [];
      assert c + (Spoken(a[1..]) + Spoken(b)) == (c + Spoken(a[1..])) + Spoken(b);
    }
  }

  lemma {:induction false} SpokenTagged(chapter: string, slot: string, letters: string)
    ensures Spoken(Tagged(chapter, slot, letters)) == letters
  {
    if letters != "" {
      SpokenTagged(chapter, slot, letters[1..]);
      assert Tagged(chapter, slot, letters)[1..] == Tagged(chapter, slot, letters[1..]);
    }
  }
}
