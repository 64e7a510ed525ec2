/** `plan_runs`: every spoken run becomes plan items, in order and numbered from 0. */
module Plan {
  import opened PyText
  import opened Said
  import opened Segment
  import opened Chunker
  import opened ChunkerProofs

  /** `silence` items carry no text. The render key is a hash of the other fields and is left out. */
  datatype PlanItem = PlanItem(ordinal: nat, chapter: string, slot: string, spoken: string, silence: bool)

  /** `SentenceSegmenter`: any segmenter that keeps the protocol of `Segmented`. */
  type Segmenter = string -> seq<SentenceSpan>

  ghost predicate KeepsProtocolOn(cutter: Segmenter, text: string) {
    SpansFit(text, cutter(text)) && Segmented(text, cutter(text), 0)
  }

  ghost predicate KeepsProtocol(cutter: Segmenter) {
    forall text :: KeepsProtocolOn(cutter, text)
  }

  function RunItems(run: SpokenRun, pieces: seq<string>, ordinal: nat): seq<PlanItem> {
    if pieces == [] then []
    else [PlanItem(ordinal, run.chapter, run.slot, pieces[0], false)] + RunItems(run, pieces[1..], ordinal + 1)
  }

  /** The pieces of one speech run. */
  function PiecesOf(run: SpokenRun, limit: nat, cutter: Segmenter): seq<string>
    requires KeepsProtocol(cutter)
  {
    assert KeepsProtocolOn(cutter, Strip(run.text));
    Chunks(run.text, run.kind.DialogueRun?, limit, cutter(Strip(run.text)))
  }

  function ItemsOf(run: SpokenRun, pieces: seq<string>, ordinal: nat): seq<PlanItem> {
    if run.kind.SilenceRun? then [PlanItem(ordinal, run.chapter, run.slot, "", true)]
    else RunItems(run, pieces, ordinal)
  }

  /** The items of the plan, given each run's pieces. */
  function Items(runs: seq<SpokenRun>, pieces: seq<seq<string>>, ordinal: nat): seq<PlanItem>
    requires |pieces| == |runs|
  {
    if runs == [] then []
    else
      var first := ItemsOf(runs[0], pieces[0], ordinal);
      first + Items(runs[1..], pieces[1..], ordinal + |first|)
  }

  function AllPieces(runs: seq<SpokenRun>, limit: nat, cutter: Segmenter): (ps: seq<seq<string>>)
    requires KeepsProtocol(cutter)
    ensures |ps| == |runs|
    ensures forall i :: 0 <= i < |runs| ==> ps[i] == PiecesOf(runs[i], limit, cutter)
  {
    seq(|runs|, i requires 0 <= i < |runs| => PiecesOf(runs[i], limit, cutter))
  }

  datatype PlanResult = Planned(items: seq<PlanItem>) | BadLimit

  method RunLoop(run: SpokenRun, pieces: seq<string>, before: seq<PlanItem>) returns (items: seq<PlanItem>)
    ensures items == before + RunItems(run, pieces, |before|)
  {
    items := before;
    var i := 0;
    while i < |pieces|
      invariant 0 <= i <= |pieces| && |items| == |before| + i
      invariant items + RunItems(run, pieces[i..], |items|) == before + RunItems(run, pieces, |before|)
    {
      assert pieces[i..][0] == pieces[i] && pieces[i..][1..] == pieces[i + 1..];
      Regroup(items, [PlanItem(|items|, run.chapter, run.slot, pieces[i], false)],
              RunItems(run, pieces[i + 1..], |items| + 1), before + RunItems(run, pieces, |before|));
      items := items + [PlanItem(|items|, run.chapter, run.slot, pieces[i], false)];
      i := i + 1;
    }
  }

  method OneRun(run: SpokenRun, limit: nat, cutter: Segmenter, before: seq<PlanItem>) returns (items: seq<PlanItem>)
    requires KeepsProtocol(cutter)
    ensures items == before + ItemsOf(run, PiecesOf(run, limit, cutter), |before|)
  {
    if run.kind.SilenceRun? {
      return before + [PlanItem(|before|, run.chapter, run.slot, "", true)];
    }
    assert KeepsProtocolOn(cutter, Strip(run.text));
    var pieces := PiecesLoop(run.text, run.kind.DialogueRun?, limit, cutter(Strip(run.text)));
    items := RunLoop(run, pieces, before);
  }

  lemma ItemsStep(runs: seq<SpokenRun>, pieces: seq<seq<string>>, i: nat, before: seq<PlanItem>, all: seq<PlanItem>)
    requires |pieces| == |runs| && i < |runs|
    requires before + Items(runs[i..], pieces[i..], |before|) == all
    ensures var now := before + ItemsOf(runs[i], pieces[i], |before|);
            now + Items(runs[i + 1..], pieces[i + 1..], |now|) == all
  {
    var first := ItemsOf(runs[i], pieces[i], |before|);
    assert runs[i..][0] == runs[i] && runs[i..][1..] == runs[i + 1..];
    assert pieces[i..][0] == pieces[i] && pieces[i..][1..] == pieces[i + 1..];
    Regroup(before, first, Items(runs[i + 1..], pieces[i + 1..], |before| + |first|), all);
  }

  method PlanRuns(runs: seq<SpokenRun>, limit: int, cutter: Segmenter) returns (r: PlanResult)
    requires KeepsProtocol(cutter)
    ensures limit < 1 ==> r == BadLimit
    ensures limit >= 1 ==> r == Planned(Items(runs, AllPieces(runs, limit, cutter), 0))
  {
    if limit < 1 {
      return BadLimit;
    }
    ghost var pieces := AllPieces(runs, limit, cutter);
    var items: seq<PlanItem> := [];
    var i := 0;
    while i < |runs|
      invariant 0 <= i <= |runs|
      invariant items + Items(runs[i..], pieces[i..], |items|) == Items(runs, pieces, 0)
    {
      ItemsStep(runs, pieces, i, items, Items(runs, pieces, 0));
      items := OneRun(runs[i], limit, cutter, items);
      i := i + 1;
    }
    r := Planned(items);
  }

  // ---------- what a plan says ----------

  function SaidByItem(p: PlanItem): seq<Said> {
    if p.silence then [Pausing(p.chapter)] else Tagged(p.chapter, p.slot, Words(p.spoken))
  }

  function SaidByItems(items: seq<PlanItem>): seq<Said> {
    if items == [] then [] else SaidByItem(items[0]) + SaidByItems(items[1..])
  }

  lemma {:induction false} SaidAppend(a: seq<PlanItem>, b: seq<PlanItem>)
    ensures SaidByItems(a + b) == SaidByItems(a) + SaidByItems(b)
  {
    if a == [] {
      assert a + b == b;
    } else {
      assert (a + b)[1..] == a[1..] + b;
      SaidAppend(a[1..], b);
    }
  }

  lemma {:induction false} RunItemsSay(run: SpokenRun, pieces: seq<string>, ordinal: nat)
    ensures SaidByItems(RunItems(run, pieces, ordinal)) == Tagged(run.chapter, run.slot, Words(Concat(pieces)))
    ensures |RunItems(run, pieces, ordinal)| == |pieces|
  {
    if pieces != [] {
      RunItemsSay(run, pieces[1..], ordinal + 1);
      WordsAppend(pieces[0], Concat(pieces[1..]));
      var items := RunItems(run, pieces, ordinal);
      assert items[1..] == RunItems(run, pieces[1..], ordinal + 1);
    }
  }

  lemma {:induction false} RunItemsNumbered(run: SpokenRun, pieces: seq<string>, ordinal: nat)
    ensures forall i :: 0 <= i < |RunItems(run, pieces, ordinal)| ==>
              RunItems(run, pieces, ordinal)[i].ordinal == ordinal + i
  {
    if pieces != [] { RunItemsNumbered(run, pieces[1..], ordinal + 1); }
  }

  lemma ItemsOfSay(run: SpokenRun, pieces: seq<string>, ordinal: nat)
    requires KeepsItsWords(run, pieces)
    ensures SaidByItems(ItemsOf(run, pieces, ordinal)) == SaidByRun(run, InWord)
  {
    if run.kind.SilenceRun? {
      assert ItemsOf(run, pieces, ordinal)[1..] == [];
    } else {
      RunItemsSay(run, pieces, ordinal);
    }
  }

  ghost predicate KeepsItsWords(run: SpokenRun, pieces: seq<string>) {
    Words(Concat(pieces)) == Words(run.text)
  }

  ghost predicate KeepWords(runs: seq<SpokenRun>, pieces: seq<seq<string>>) {
    |pieces| == |runs| && forall i :: 0 <= i < |runs| ==> KeepsItsWords(runs[i], pieces[i])
  }

  lemma NothingSaid()
    ensures SaidByItems([]) == []
  {
  }

  lemma {:induction false} ItemsSay(runs: seq<SpokenRun>, pieces: seq<seq<string>>, ordinal: nat)
    requires KeepWords(runs, pieces)
    ensures SaidByItems(Items(runs, pieces, ordinal)) == SaidByRuns(runs, InWord)
  {
    hide SaidByItems, SaidByRun, ItemsOf, KeepsItsWords;
    if runs == [] {
      assert SaidByItems([]) == [] by { NothingSaid(); }
    } else {
      assert KeepsItsWords(runs[0], pieces[0]);
      assert KeepWords(runs[1..], pieces[1..]);
      var first := ItemsOf(runs[0], pieces[0], ordinal);
      var rest := Items(runs[1..], pieces[1..], ordinal + |first|);
      SaidAppend(first, rest);
      ItemsOfSay(runs[0], pieces[0], ordinal);
      ItemsSay(runs[1..], pieces[1..], ordinal + |first|);
    }
  }

  lemma {:induction false} ItemsNumbered(runs: seq<SpokenRun>, pieces: seq<seq<string>>, ordinal: nat)
    requires |pieces| == |runs|
    ensures forall i :: 0 <= i < |Items(runs, pieces, ordinal)| ==>
              Items(runs, pieces, ordinal)[i].ordinal == ordinal + i
  {
    if runs != [] {
      var first := ItemsOf(runs[0], pieces[0], ordinal);
      RunItemsNumbered(runs[0], pieces[0], ordinal);
      ItemsNumbered(runs[1..], pieces[1..], ordinal + |first|);
    }
  }

  /** A plan says exactly the words of its runs, in order, each run in its own chapter and slot, with
      each silence in its place; and its items are numbered in plan order. */
  lemma PlanSaysTheRuns(runs: seq<SpokenRun>, limit: nat, cutter: Segmenter)
    requires KeepsProtocol(cutter)
    ensures var items := Items(runs, AllPieces(runs, limit, cutter), 0);
            && SaidByItems(items) == SaidByRuns(runs, InWord)
            && forall i :: 0 <= i < |items| ==> items[i].ordinal == i
  {
    var pieces := AllPieces(runs, limit, cutter);
    forall i | 0 <= i < |runs| ensures KeepsItsWords(runs[i], pieces[i]) {
      var text := Strip(runs[i].text);
      assert KeepsProtocolOn(cutter, text);
      ChunksKeepWords(runs[i].text, runs[i].kind.DialogueRun?, limit, cutter(text));
    }
    ItemsSay(runs, pieces, 0);
    ItemsNumbered(runs, pieces, 0);
  }
}
