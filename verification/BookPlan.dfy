/** From the blocks of a book to its plan: what is rendered is what the blocks say. */
module BookPlan {
  import opened PyText
  import opened Apply
  import opened ChunkerProofs
  import opened Plan
  import opened Planner
  import opened Runs
  import opened Said
  import opened Speech

  /** The structural spans lie in the block, pauses are empty, and every overlay lies in one tile and
      overlaps no other. */
  ghost predicate CleanBlock(b: SourceBlock) {
    && (forall p :: p in b.spans && IsStructural(p) ==> InSpan(p, |b.text|) && (p.kind.Pause? ==> p.start == p.end))
    && CleanOverlays(Select(b.spans, IsOverlay), |b.text|) && OverlaysInTiles(b.text, b.spans)
  }

  /** The blocks one after the other, read with their pronunciations and without what is skipped. */
  ghost function AllTold(blocks: seq<SourceBlock>): string {
    if blocks == [] then "" else Told(blocks[0].text, blocks[0].spans, 0) + AllTold(blocks[1..])
  }

  lemma PauseTileIsEmpty(b: SourceBlock, t: AppliedSpan)
    requires CleanBlock(b) && t in Cover(b.text, b.spans) && t.kind.Pause? && InSpan(t, |b.text|)
    ensures t.start == t.end
  {
    hide OverlaysInTiles, Cover;
    CoverTiles(b.text, b.spans);
    StructureShape(b.spans, |b.text|);
    var ss := Structure(b.spans);
    var i :| 0 <= i < |ss| && ss[i].start <= t.start && t == ss[i].(start := t.start);
    assert ss[i] in ss;
  }

  lemma NothingToSay(text: string, spans: seq<AppliedSpan>, a: nat)
    requires CleanOverlays(Select(spans, IsOverlay), |text|) && a <= |text|
    ensures SpeakTile(text, spans, a, a) == ""
  {
    hide CleanOverlays, Select, IsOverlay;
    var local := Local(spans, a, a);
    LocalClean(spans, a, a, |text|);
    OverlaysNeedRoom(local, 0);
    assert Slice(text, a, a) == "";
    NoSpans();
  }

  lemma OverlaysNeedRoom(ov: seq<AppliedSpan>, n: nat)
    requires CleanOverlays(ov, n)
    ensures ov != [] ==> n > 0
  {
    if ov != [] { assert 0 <= ov[0].start < ov[0].end <= n; }
  }

  lemma NoSpans()
    ensures SpokenForm("", []) == ""
  {
  }

  lemma TileSays(b: SourceBlock, t: AppliedSpan, assign: Assign)
    requires CleanBlock(b) && t in Cover(b.text, b.spans) && InSpan(t, |b.text|)
    ensures Spoken(SaidByTile(b, t, assign, InWord)) == Words(SpeakTile(b.text, b.spans, t.start, t.end))
  {
    hide SpeakTile, Cover, OverlaysInTiles;
    if t.kind.Pause? {
      PauseTileIsEmpty(b, t);
      NothingToSay(b.text, b.spans, t.start);
      assert [Pausing(b.chapter)][1..] == [];
    } else {
      SpokenTagged(b.chapter, assign(t), Letters(TileText(b, t), InWord));
    }
  }

  lemma {:induction false} TilesSay(b: SourceBlock, tiles: seq<AppliedSpan>, assign: Assign)
    requires CleanBlock(b) && TilesInside(tiles, |b.text|) && forall t :: t in tiles ==> t in Cover(b.text, b.spans)
    ensures Spoken(SaidByTiles(b, tiles, assign, InWord)) == Words(SpeakTiles(b.text, b.spans, tiles))
  {
    hide SpeakTile, Cover, CleanBlock, SaidByTile, Letters;
    if tiles == [] {
      assert Words("") == "" by { NoWords(""); }
    } else {
      assert InSpan(tiles[0], |b.text|);
      TileSays(b, tiles[0], assign);
      TilesSay(b, tiles[1..], assign);
      SpokenAppend(SaidByTile(b, tiles[0], assign, InWord), SaidByTiles(b, tiles[1..], assign, InWord));
      WordsAppend(SpeakTile(b.text, b.spans, tiles[0].start, tiles[0].end), SpeakTiles(b.text, b.spans, tiles[1..]));
    }
  }

  lemma BlockSays(b: SourceBlock, assign: Assign)
    requires CleanBlock(b)
    ensures Spoken(SaidByTiles(b, Cover(b.text, b.spans), assign, InWord)) == Words(Told(b.text, b.spans, 0))
  {
    SpokenTileByTile(b.text, b.spans);
    SpokenFormIsTold(b.text, b.spans);
    hide Told, SpokenForm, Cover;
    TilesSay(b, Cover(b.text, b.spans), assign);
  }

  /** The words of clean blocks are those told from left to right, block after block. */
  lemma {:induction false} BlocksSay(blocks: seq<SourceBlock>, assign: Assign)
    requires forall b :: b in blocks ==> CleanBlock(b)
    ensures Spoken(SaidByBlocks(blocks, assign, InWord)) == Words(AllTold(blocks))
  {
    hide CleanBlock, SaidByTiles, Told, Cover, Letters;
    if blocks == [] {
      assert Words("") == "" by { NoWords(""); }
    } else {
      var b := blocks[0];
      BlockSays(b, assign);
      BlocksSay(blocks[1..], assign);
      SpokenAppend(SaidByTiles(b, Cover(b.text, b.spans), assign, InWord), SaidByBlocks(blocks[1..], assign, InWord));
      WordsAppend(Told(b.text, b.spans, 0), AllTold(blocks[1..]));
    }
  }

  lemma WordsAreNoSpaces()
    ensures NoSpaces(InWord)
  {
  }

  /** From blocks to chunks: a plan says exactly the words of the tiles of all blocks, in order, each in its
      chapter and in the slot of its tile, with every pause in its place. For clean blocks these are the
      words of the blocks with every pronunciation in its place and what is skipped left out. */
  lemma PlanSaysTheBook(blocks: seq<SourceBlock>, assign: Assign, limit: nat, cutter: Segmenter)
    requires KeepsProtocol(cutter)
    ensures var runs := PushAll([], Pieces(blocks, assign));
            var said := SaidByItems(Items(runs, AllPieces(runs, limit, cutter), 0));
            && said == SaidByBlocks(blocks, assign, InWord)
            && ((forall b :: b in blocks ==> CleanBlock(b)) ==> Spoken(said) == Words(AllTold(blocks)))
  {
    hide CleanBlock, KeepsProtocol;
    WordsAreNoSpaces();
    RunsMeaning(blocks, assign, InWord);
    PlanSaysTheRuns(PushAll([], Pieces(blocks, assign)), limit, cutter);
    if forall b :: b in blocks ==> CleanBlock(b) { BlocksSay(blocks, assign); }
  }
}
