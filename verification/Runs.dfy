/** `spoken_runs` in `jobs/planner.py`: the tiles of every block, spoken in order, with neighbouring
    speech of one chapter and one voice slot joined into one run. */
module Runs {
  import opened PyText
  import opened Apply
  import opened Planner
  import opened Said
  import opened Speech

  datatype SourceBlock = SourceBlock(chapter: string, text: string, spans: seq<AppliedSpan>)

  const NARRATOR := "narrator"

  /** The spans are as the span table allows; they may reach past the end of the text. */
  predicate ProperBlock(b: SourceBlock) {
    forall p :: p in b.spans && IsStructural(p) ==> ProperSpan(p)
  }

  /** The slot `assign_slot` chooses for a tile. */
  type Assign = AppliedSpan -> string

  /** What one tile says, before `strip`. */
  function TileText(b: SourceBlock, t: AppliedSpan): string {
    if ProperSpan(t) then SpeakTile(b.text, b.spans, t.start, t.end) else ""
  }

  /** The run one tile asks for, if any. */
  function Piece(b: SourceBlock, t: AppliedSpan, assign: Assign): seq<SpokenRun> {
    if t.kind.Pause? then [SpokenRun(b.chapter, NARRATOR, SilenceRun, "")]
    else
      var said := Strip(TileText(b, t));
      if said == "" then [] else [SpokenRun(b.chapter, assign(t), SpeechRun, said)]
  }

  predicate Joins(last: SpokenRun, next: SpokenRun) {
    last.kind.SpeechRun? && next.kind.SpeechRun? && last.chapter == next.chapter && last.slot == next.slot
  }

  /** `_push_silence` and `_push_speech`. */
  function Push(runs: seq<SpokenRun>, next: SpokenRun): seq<SpokenRun> {
    if runs != [] && Joins(runs[|runs| - 1], next) then
      runs[..|runs| - 1] + [runs[|runs| - 1].(text := runs[|runs| - 1].text + " " + next.text)]
    else runs + [next]
  }

  function PushAll(runs: seq<SpokenRun>, pieces: seq<SpokenRun>): seq<SpokenRun>
    decreases |pieces|
  {
    if pieces == [] then runs else PushAll(Push(runs, pieces[0]), pieces[1..])
  }

  function TilePieces(b: SourceBlock, tiles: seq<AppliedSpan>, assign: Assign): seq<SpokenRun> {
    if tiles == [] then [] else Piece(b, tiles[0], assign) + TilePieces(b, tiles[1..], assign)
  }

  function Pieces(blocks: seq<SourceBlock>, assign: Assign): seq<SpokenRun> {
    if blocks == [] then []
    else TilePieces(blocks[0], Cover(blocks[0].text, blocks[0].spans), assign) + Pieces(blocks[1..], assign)
  }

  lemma {:induction false} PushAllAppend(runs: seq<SpokenRun>, a: seq<SpokenRun>, b: seq<SpokenRun>)
    ensures PushAll(runs, a + b) == PushAll(PushAll(runs, a), b)
    decreases |a|
  {
    hide Push;
    if a == [] {
      assert a + b == b;
    } else {
      assert (a + b)[1..] == a[1..] + b;
      PushAllAppend(Push(runs, a[0]), a[1..], b);
    }
  }

  lemma PushOne(runs: seq<SpokenRun>, next: SpokenRun)
    ensures PushAll(runs, [next]) == Push(runs, next)
  {
    assert [next][1..] == [];
  }

  method BlockRuns(b: SourceBlock, before: seq<SpokenRun>, assign: Assign) returns (runs: seq<SpokenRun>)
    requires ProperBlock(b)
    ensures runs == PushAll(before, TilePieces(b, Cover(b.text, b.spans), assign))
  {
    var tiles := CoverLoop(b.text, b.spans);
    CoverIsProper(b.text, b.spans);
    hide PushAll, Push, SpeakTile, Strip, Cover;
    runs := before;
    ghost var all := PushAll(before, TilePieces(b, tiles, assign));
    var i := 0;
    while i < |tiles|
      invariant 0 <= i <= |tiles|
      invariant PushAll(runs, TilePieces(b, tiles[i..], assign)) == all
    {
      var span := tiles[i];
      ghost var left, at := tiles[i..], runs;
      assert left[0] == span && left[1..] == tiles[i + 1..];
      PushAllAppend(at, Piece(b, span, assign), TilePieces(b, left[1..], assign));
      assert ProperSpan(span);
      i := i + 1;
      if span.kind.Pause? {
        PushOne(at, SpokenRun(b.chapter, NARRATOR, SilenceRun, ""));
        PushSilence(at, b.chapter);
        runs := runs + [SpokenRun(b.chapter, NARRATOR, SilenceRun, "")];
        continue;
      }
      var spoken := SpeakLoop(b.text, b.spans, span.start, span.end);
      if spoken == "" {
        PushNothing(at);
        continue;
      }
      PushOne(at, SpokenRun(b.chapter, assign(span), SpeechRun, spoken));
      runs := PushSpeech(runs, SpokenRun(b.chapter, assign(span), SpeechRun, spoken));
    }
    PushNothing(runs);
  }

  /** `_push_speech`: the run is joined to the last one, or put behind it. */
  method PushSpeech(runs: seq<SpokenRun>, run: SpokenRun) returns (pushed: seq<SpokenRun>)
    requires run.kind.SpeechRun?
    ensures pushed == Push(runs, run)
  {
    if runs != [] {
      var previous := runs[|runs| - 1];
      if previous.kind.SpeechRun? && previous.chapter == run.chapter && previous.slot == run.slot {
        return runs[|runs| - 1 := previous.(text := previous.text + " " + run.text)];
      }
    }
    pushed := runs + [run];
  }

  lemma PushSilence(runs: seq<SpokenRun>, chapter: string)
    ensures Push(runs, SpokenRun(chapter, NARRATOR, SilenceRun, ""))
            == runs + [SpokenRun(chapter, NARRATOR, SilenceRun, "")]
  {
  }

  lemma PushNothing(runs: seq<SpokenRun>)
    ensures PushAll(runs, []) == runs
  {
  }

  method SpokenRuns(blocks: seq<SourceBlock>, assign: Assign) returns (runs: seq<SpokenRun>)
    requires forall b :: b in blocks ==> ProperBlock(b)
    ensures runs == PushAll([], Pieces(blocks, assign))
  {
    hide PushAll, TilePieces, Cover;
    runs := [];
    var i := 0;
    while i < |blocks|
      invariant 0 <= i <= |blocks|
      invariant PushAll(runs, Pieces(blocks[i..], assign)) == PushAll([], Pieces(blocks, assign))
    {
      var block := blocks[i];
      assert blocks[i..][0] == block && blocks[i..][1..] == blocks[i + 1..];
      PushAllAppend(runs, TilePieces(block, Cover(block.text, block.spans), assign), Pieces(blocks[i + 1..], assign));
      runs := BlockRuns(block, runs, assign);
      i := i + 1;
    }
    PushNothing(runs);
  }

  // ---------- what joining keeps ----------

  function SaidByTile(b: SourceBlock, t: AppliedSpan, assign: Assign, keep: char -> bool): seq<Said> {
    if t.kind.Pause? then [Pausing(b.chapter)] else Tagged(b.chapter, assign(t), Letters(TileText(b, t), keep))
  }

  function SaidByTiles(b: SourceBlock, tiles: seq<AppliedSpan>, assign: Assign, keep: char -> bool): seq<Said> {
    if tiles == [] then [] else SaidByTile(b, tiles[0], assign, keep) + SaidByTiles(b, tiles[1..], assign, keep)
  }

  /** What the tiles of the blocks say, one after the other. */
  function SaidByBlocks(blocks: seq<SourceBlock>, assign: Assign, keep: char -> bool): seq<Said> {
    if blocks == [] then []
    else SaidByTiles(blocks[0], Cover(blocks[0].text, blocks[0].spans), assign, keep)
         + SaidByBlocks(blocks[1..], assign, keep)
  }

  lemma PieceSays(b: SourceBlock, t: AppliedSpan, assign: Assign, keep: char -> bool)
    requires NoSpaces(keep)
    ensures SaidByRuns(Piece(b, t, assign), keep) == SaidByTile(b, t, assign, keep)
  {
    hide Strip, NoSpaces, TileText;
    if t.kind.Pause? {
      SaidByOne(SpokenRun(b.chapter, NARRATOR, SilenceRun, ""), keep);
    } else {
      StripLetters(TileText(b, t), keep);
      SaidByOne(SpokenRun(b.chapter, assign(t), SpeechRun, Strip(TileText(b, t))), keep);
    }
  }

  lemma {:induction false} TilePiecesSay(b: SourceBlock, tiles: seq<AppliedSpan>, assign: Assign, keep: char -> bool)
    requires NoSpaces(keep)
    ensures SaidByRuns(TilePieces(b, tiles, assign), keep) == SaidByTiles(b, tiles, assign, keep)
  {
    hide NoSpaces, Piece, SaidByTile, SaidByRun;
    if tiles != [] {
      PieceSays(b, tiles[0], assign, keep);
      TilePiecesSay(b, tiles[1..], assign, keep);
      SaidByRunsAppend(Piece(b, tiles[0], assign), TilePieces(b, tiles[1..], assign), keep);
    }
  }

  lemma {:induction false} PiecesSay(blocks: seq<SourceBlock>, assign: Assign, keep: char -> bool)
    requires NoSpaces(keep)
    ensures SaidByRuns(Pieces(blocks, assign), keep) == SaidByBlocks(blocks, assign, keep)
  {
    hide NoSpaces, TilePieces, SaidByTiles, SaidByRun, Cover;
    if blocks != [] {
      var tiles := Cover(blocks[0].text, blocks[0].spans);
      TilePiecesSay(blocks[0], tiles, assign, keep);
      PiecesSay(blocks[1..], assign, keep);
      SaidByRunsAppend(TilePieces(blocks[0], tiles, assign), Pieces(blocks[1..], assign), keep);
    }
  }

  lemma JoinedSays(last: SpokenRun, next: SpokenRun, keep: char -> bool)
    requires NoSpaces(keep) && Joins(last, next)
    ensures SaidByRun(last.(text := last.text + " " + next.text), keep) == SaidByRun(last, keep) + SaidByRun(next, keep)
  {
    hide Letters, NoSpaces, Tagged;
    LettersAppend(last.text + " ", next.text, keep);
    LettersAppend(last.text, " ", keep);
    NoLetters(" ", keep);
    assert Letters(last.text, keep) + "" == Letters(last.text, keep);
    TaggedAppend(last.chapter, last.slot, Letters(last.text, keep), Letters(next.text, keep));
  }

  lemma PushKeepsSaid(runs: seq<SpokenRun>, next: SpokenRun, keep: char -> bool)
    requires NoSpaces(keep)
    ensures SaidByRuns(Push(runs, next), keep) == SaidByRuns(runs, keep) + SaidByRun(next, keep)
  {
    hide SaidByRun, NoSpaces, SaidByRuns;
    SaidByOne(next, keep);
    if runs != [] && Joins(runs[|runs| - 1], next) {
      var front, last := runs[..|runs| - 1], runs[|runs| - 1];
      var more := last.(text := last.text + " " + next.text);
      JoinedSays(last, next, keep);
      assert runs == front + [last];
      SaidByOne(last, keep);
      SaidByOne(more, keep);
      SaidByRunsAppend(front, [last], keep);
      SaidByRunsAppend(front, [more], keep);
      Regroup(SaidByRuns(front, keep), SaidByRun(last, keep), SaidByRun(next, keep),
              SaidByRuns(Push(runs, next), keep));
    } else {
      SaidByRunsAppend(runs, [next], keep);
    }
  }

  /** No two neighbouring runs could have been joined. */
  ghost predicate Joined(rs: seq<SpokenRun>) {
    forall i :: 0 < i < |rs| ==> !Joins(rs[i - 1], rs[i])
  }

  lemma PushJoins(runs: seq<SpokenRun>, next: SpokenRun)
    requires Joined(runs)
    ensures Joined(Push(runs, next))
  {
    var out := Push(runs, next);
    forall i | 0 < i < |out| ensures !Joins(out[i - 1], out[i]) {
      assert i < |runs| ==> !Joins(runs[i - 1], runs[i]);
    }
  }

  lemma {:induction false} PushAllMeaning(runs: seq<SpokenRun>, pieces: seq<SpokenRun>, keep: char -> bool)
    requires Joined(runs) && NoSpaces(keep)
    ensures Joined(PushAll(runs, pieces))
    ensures SaidByRuns(PushAll(runs, pieces), keep) == SaidByRuns(runs, keep) + SaidByRuns(pieces, keep)
    decreases |pieces|
  {
    hide Joined, Push, NoSpaces, SaidByRun;
    if pieces != [] {
      PushKeepsSaid(runs, pieces[0], keep);
      PushJoins(runs, pieces[0]);
      PushAllMeaning(Push(runs, pieces[0]), pieces[1..], keep);
      Regroup(SaidByRuns(runs, keep), SaidByRun(pieces[0], keep), SaidByRuns(pieces[1..], keep),
              SaidByRuns(runs, keep) + SaidByRuns(pieces, keep));
    }
  }

  /** Every character a tile says that is no white space is heard once, in order, in its tile's slot and
      chapter; every pause tile is heard; and runs are as long as they can be without crossing a slot, a
      chapter or a silence. */
  lemma RunsMeaning(blocks: seq<SourceBlock>, assign: Assign, keep: char -> bool)
    requires NoSpaces(keep)
    ensures var runs := PushAll([], Pieces(blocks, assign));
            Joined(runs) && SaidByRuns(runs, keep) == SaidByBlocks(blocks, assign, keep)
  {
    PushAllMeaning([], Pieces(blocks, assign), keep);
    PiecesSay(blocks, assign, keep);
    assert SaidByRuns([], keep) == [];
  }
}
