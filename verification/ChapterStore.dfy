/** `store/chapters.py`: the edits of a book. Each method runs one session: it either commits all of
    its writes or rolls all of them back. */
module ChapterStore {
  import opened BookTables
  import opened ChapterEdits
  import opened IngestEdit
  import opened Ordinals
  import opened Options
  import opened Plain
  import opened PlainText
  import opened PyText
  import opened SplitEdit
  import opened TextEdit
  import opened Versions
  import Apply

  class ChapterStore {
    const db: Tables

    constructor (db: Tables)
      ensures this.db == db
    {
      this.db := db;
    }

    /** `_active_chapter`, which raises unless the chapter is live. */
    method IsActive(c: Id) returns (found: bool)
      requires db.Valid()
      ensures found <==> c in db.order
      ensures found ==> c in db.chapters && db.chapters[c].ordinal == PlaceOf(db.order, c)
    {
      OrderedIsUnique(db.chapters, db.order, db.tombs);
      found := c in db.chapters && db.chapters[c].ordinal >= 0;
    }

    /** `commit_epub`, once the book has been read: a project with edits is not overwritten. */
    method Ingest(book: seq<SourceChapter>) returns (out: Outcome<nat>)
      requires db.Valid()
      modifies db
      ensures db.Valid()
      ensures out == if old(db.chapters) != map[] && old(db.revision) != 0 then Refused(RevisionConflict)
                     else Done(old(db.revision))
      ensures out.Refused? ==> db.State() == old(db.State())
      ensures out.Done? ==> db.State() == WithChapters(Cleared(old(db.State())), book)
      ensures out.Done? ==> |db.order| == |book| && forall k :: 0 <= k < |book| ==> FromSource(db.State(), k, book[k])
    {
      hide Good, WithChapter, FromSource;
      ghost var b := db.State();
      if db.chapters != map[] && db.revision != 0 {
        return Refused(RevisionConflict);
      }
      GoodIsSound(b);
      ClearedIsGood(b);
      ClearChapters();
      var i := 0;
      while i < |book|
        invariant 0 <= i <= |book| && db.Valid() && db.revision == b.revision
        invariant |db.order| == i && db.past != [] && Cleared(b).past != []
        invariant WithChapters(db.State(), book[i..]) == WithChapters(Cleared(b), book)
      {
        assert book[i..][0] == book[i] && book[i..][1..] == book[i + 1..];
        InsertChapter(book[i], i);
        i := i + 1;
      }
      IngestedHolds(b, book);
      out := Done(db.revision);
    }

    /** `_clear_chapters` */
    method ClearChapters()
      requires db.past != []
      modifies db
      ensures db.State() == Cleared(old(db.State()))
    {
      if db.chapters == map[] {
        return;
      }
      var chapters := db.chapters;
      var blocks := db.blocks;
      db.blocks := map v | v in blocks && blocks[v].row.chapter !in chapters :: blocks[v];
      db.chapters := map[];
      db.order, db.tombs, db.past, db.since := [], [], db.past[..|db.past| - 1] + [map[]], map[];
    }

    method InsertChapter(c: SourceChapter, ordinal: nat)
      requires db.Valid() && ordinal == |db.order|
      modifies db
      ensures db.past != [] && db.Valid() && |db.order| == ordinal + 1 && db.revision == old(db.revision)
      ensures db.State() == WithChapter(old(db.State()), c)
    {
      hide Sound, Readable, Minted, Counted, Keyed, NewPieces, Rows, NewTo, Since, CharCount, IngestTitle, Insert;
      ghost var b := db.State();
      WithChapterIsGood(b, c);
      NewPiecesAreNew(b, c);
      NoOrdinal(b);
      var id := db.minted;
      var pieces := NewPieces(c.blocks, id + 1);
      var count := CountPieces(pieces);
      db.AddChapter(id, Chapter(ordinal, IngestTitle(c.title, ordinal), true, count));
      InsertPieces(pieces, id);
      db.minted := db.minted + 1 + |c.blocks|;
      db.since := Since(db.since, Rows(pieces, id, 0), db.revision);
      db.past := db.past[..|db.past| - 1] + [Now(b)[id := pieces]];
      db.order := db.order + [id];
    }

    method InsertPieces(pieces: seq<Piece>, id: Id)
      requires NewTo(db.blocks, pieces)
      modifies db`blocks
      ensures db.blocks == Insert(old(db.blocks), Rows(pieces, id, 0), db.revision)
    {
      hide NewTo, Insert, Rows;
      ghost var t := db.blocks;
      NoRows(t, id, db.revision);
      assert pieces[..0] == [];
      var i := 0;
      while i < |pieces|
        invariant 0 <= i <= |pieces|
        invariant db.blocks == Insert(t, Rows(pieces[..i], id, 0), db.revision)
      {
        NextNewPiece(t, pieces, i, id, db.revision);
        db.AddBlock(Row(pieces[i], id, i));
        i := i + 1;
      }
      assert pieces[..i] == pieces;
    }

    /** `merge`: the later of two neighbours is appended to the earlier one. */
    method Merge(ids: seq<Id>) returns (out: Outcome<nat>)
      requires db.Valid()
      modifies db
      ensures db.Valid()
      ensures out.Refused? <==> MergeError(old(db.State()), ids).Some?
      ensures out.Refused? ==> db.State() == old(db.State()) && MergeError(db.State(), ids) == Some(out.error)
      ensures out.Done? ==> out.value == db.revision
      ensures out.Done? ==> var i, j := PlaceOf(old(db.order), ids[0]), PlaceOf(old(db.order), ids[1]);
                            IsMerge(old(db.State()), db.State(), if i < j then j else i)
    {
      hide Good;
      ghost var b := db.State();
      if |ids| != 2 || ids[0] == ids[1] {
        return Refused(Error.Count);
      }
      var found := IsActive(ids[0]);
      var alsoFound := IsActive(ids[1]);
      if !found || !alsoFound {
        return Refused(ChapterNotFound);
      }
      var first, second := ids[0], ids[1];
      if db.chapters[first].ordinal != db.chapters[second].ordinal + 1
         && db.chapters[second].ordinal != db.chapters[first].ordinal + 1
      {
        return Refused(NotAdjacent);
      }
      if db.chapters[second].ordinal < db.chapters[first].ordinal {
        first, second := second, first;
      }
      ghost var k := PlaceOf(b.order, second);
      assert MergeError(b, ids) == if CannotBury(b, k) then Some(Integrity) else None;
      var saved, savedBlocks, savedRevision := db.chapters, db.blocks, db.revision;
      var ok := MergeRows(first, second);
      if !ok {
        db.chapters, db.blocks, db.revision := saved, savedBlocks, savedRevision;
        return Refused(Integrity);
      }
      out := Done(db.revision);
    }

    method MergeRows(first: Id, second: Id) returns (ok: bool)
      requires db.Valid() && first in db.order && second in db.order
      requires PlaceOf(db.order, second) == PlaceOf(db.order, first) + 1
      modifies db
      ensures ok <==> !CannotBury(old(db.State()), PlaceOf(old(db.order), second))
      ensures !ok ==>
                && db.order == old(db.order) && db.tombs == old(db.tombs) && db.past == old(db.past)
                && db.since == old(db.since) && db.minted == old(db.minted)
      ensures ok ==> db.Valid() && IsMerge(old(db.State()), db.State(), PlaceOf(old(db.order), second))
    {
      hide Ordered, Sound, Readable, Counted, Minted, Keyed, Rewrite, Rows, PieceIds, Without, Merged, Buried', Since;
      ghost var b := db.State();
      ghost var k := PlaceOf(db.order, second);
      MergeIsGood(b, k);
      assert b.order[k - 1] == first && b.order[k] == second;
      MoveBlocks(first, second);
      ok := Bury(second);
      if !ok {
        return;
      }
      FinishMerge(b, k, first, second);
    }

    method FinishMerge(ghost b: Book, ghost k: nat, first: Id, second: Id)
      requires HasPair(b, k) && first == b.order[k - 1] && second == b.order[k] && Good(MergedBook(b, k))
      requires db.chapters == Buried'(b.chapters, b.tombs, second, k) && db.blocks == MergedBook(b, k).blocks
      requires db.minted == b.minted && db.revision == b.revision + 1
      requires db.order == b.order && db.tombs == b.tombs && db.past == b.past
      modifies db
      ensures db.State() == MergedBook(b, k)
    {
      hide Good, Sound, Rewrite, Rows, PieceIds, Without, Merged, Buried', Since, SameTitles;
      ghost var after := Merged(Now(b), first, second);
      db.since := Since(b.since, MergeRowsOf(b, k), db.revision);
      MergedChaptersAre(b, k);
      GoodIsSound(MergedBook(b, k));
      FirstIsMerged(Now(b), first, second);
      db.RefreshCharCount(first, after);
      db.chapters := db.chapters[second := db.chapters[second].(charCount := 0)];
      db.past := db.past + [after];
      db.order, db.tombs := Without(db.order, k), db.tombs + [second];
    }

    /** The new revision and the rows of the merge. */
    method MoveBlocks(first: Id, second: Id)
      requires db.Valid() && first in db.order && second in db.order && first != second
      modifies db`blocks, db`revision
      ensures db.revision == old(db.revision) + 1
      ensures var contents := old(Now(db.State()));
              db.blocks == Rewrite(old(db.blocks), PieceIds(contents[second]),
                                   Rows(contents[second], first, |contents[first]|), db.revision)
    {
      ghost var contents := Now(db.State());
      var kept := db.CurrentBlocks(first, contents);
      var moved := db.CurrentBlocks(second, contents);
      CurrentIsReplaceable(db.blocks, contents, db.since, db.revision, second, moved);
      MovedIsRows(db.blocks, second, contents[second], moved, first, |kept|);
      db.revision := db.revision + 1;
      db.ReversionBlocks(moved, first, |kept|, None);
    }

    /** The removed chapter gets a tombstone and the ones behind it move up. */
    method Bury(second: Id) returns (ok: bool)
      requires Ordered(db.chapters, db.order, db.tombs) && second in db.order
      modifies db`chapters
      ensures ok <==> !CannotBury(db.State(), PlaceOf(db.order, second))
      ensures ok ==> db.chapters == Buried'(old(db.chapters), db.tombs, second, PlaceOf(db.order, second))
    {
      hide Ordered, Without, Buried, Unique, Shifted, Renumbered, Renumbers, Finals;
      ghost var cs, k := db.chapters, PlaceOf(db.order, second);
      BurialIsFree(cs, db.order, db.tombs, k);
      var ordinal := db.chapters[second].ordinal;
      var next := db.NextTombstone();
      ok := db.WriteOrdinals([(second, next)], |db.tombs|);
      if ok {
        ok := db.ShiftOrdinals(ordinal + 1, -1, |db.tombs| + 1);
      }
    }

    /** `reorder`: a permutation of the live chapters. No block row is written. */
    method Reorder(order: seq<Id>) returns (out: Outcome<nat>)
      requires db.Valid()
      modifies db
      ensures db.Valid()
      ensures out.Refused? ==> db.State() == old(db.State())
      ensures out == if multiset(order) != multiset(old(db.order)) then Refused(Order)
                     else if order != old(db.order) && |old(db.tombs)| >= 1_000_000 then Refused(Integrity)
                     else Done(old(db.revision))
      ensures out.Done? ==> IsReorder(old(db.State()), db.State(), order)
    {
      hide Good, Ordered, Unique, Renumbers, Buried, Finals, Renumbered, IsReorder;
      ghost var b := db.State();
      OrderIsUnique(b);
      var current := db.Active();
      LiveIsOrder(b.chapters, b.order, b.tombs, current);
      if multiset(order) != multiset(current) {
        return Refused(Order);
      }
      if order != current {
        ReorderIsGood(b, order);
        ReorderRenumbers(b.chapters, b.order, b.tombs, order);
        var saved := db.chapters;
        var ok := db.WriteOrdinals(Numbered(order), |db.tombs|);
        if !ok {
          db.chapters := saved;
          return Refused(Integrity);
        }
        db.order := order;
      } else {
        SameReorder(b);
      }
      out := Done(db.revision);
    }

    /** `split` at a character offset inside one block. */
    method Split(chapter: Id, block: Id, offset: nat) returns (out: Outcome<nat>)
      requires db.Valid()
      modifies db
      ensures db.Valid()
      ensures out.Refused? <==> SplitError(old(db.State()), chapter, block, offset).Some?
      ensures out.Refused? ==> db.State() == old(db.State())
                               && SplitError(old(db.State()), chapter, block, offset) == Some(out.error)
      ensures out.Done? ==> out.value == db.revision
      ensures out.Done? ==> SplitDone(old(db.State()), db.State(), chapter, block, offset)
    {
      hide Ordered, Sound, Readable, Minted, Counted, SplitDone;
      ghost var b := db.State();
      var found := IsActive(chapter);
      if !found {
        return Refused(ChapterNotFound);
      }
      ghost var pieces := Now(b)[chapter];
      var keys := db.CurrentBlocks(chapter, Now(b));
      var i := FindBlock(db.blocks, keys, block, chapter, pieces);
      if i == |keys| {
        return Refused(BlockNotFound);
      }
      var p := db.blocks[keys[i]].row.piece;
      assert p == pieces[i];
      if offset > |p.text| {
        return Refused(OutOfRange);
      }
      if !Inside(p, offset) && (CutAt(p, i, offset) == 0 || CutAt(p, i, offset) == |keys|) {
        return Refused(EmptySide);
      }
      var saved, savedBlocks, savedRevision := db.chapters, db.blocks, db.revision;
      var ok := WriteSplit(chapter, keys, i, offset);
      if !ok {
        db.chapters, db.blocks, db.revision := saved, savedBlocks, savedRevision;
        return Refused(Integrity);
      }
      SplitIsDone(b, db.State(), chapter, block, offset);
      out := Done(db.revision);
    }

    method WriteSplit(chapter: Id, keys: seq<Version>, i: nat, offset: nat) returns (ok: bool)
      requires db.Valid() && chapter in db.order && CanSplit(db.State(), PlaceOf(db.order, chapter), i, offset)
      requires ReadsBack(db.blocks, chapter, Now(db.State())[chapter], keys)
      modifies db
      ensures ok <==> |old(db.tombs)| < 1_000_000 || PlaceOf(old(db.order), chapter) + 1 == |old(db.order)|
      ensures !ok ==>
                && db.order == old(db.order) && db.tombs == old(db.tombs) && db.past == old(db.past)
                && db.since == old(db.since) && db.minted == old(db.minted)
      ensures ok ==> db.Valid() && IsSplit(old(db.State()), db.State(), PlaceOf(old(db.order), chapter), i, offset)
    {
      hide Ordered, Sound, Readable, Counted, Minted, Keyed, Rewrite, Rows, Halves, LeftOf, TailIds, KeptOf,
           IsSplit, SplitOrder, Since, TitleOf, Unique, Shifted, Buried, Replaceable, ReadsBack, DistinctPieces;
      ghost var b := db.State();
      ghost var k := PlaceOf(db.order, chapter);
      ghost var pieces := Now(b)[chapter];
      SplitIsGood(b, k, i, offset);
      SplitIsReady(b, k, keys);
      var olds := PiecesOf(db.blocks, keys, chapter, pieces);
      var row, created := db.chapters[chapter], db.minted;
      db.revision := db.revision + 1;
      WriteLeft(chapter, olds, keys, i, offset);
      ok := MakeRoom(chapter, TitleOf(row.title, olds, i, offset));
      if !ok {
        return;
      }
      WriteRight(b.blocks, chapter, created, olds, keys, i, offset);
      FinishSplit(b, k, i, offset, chapter, created);
    }

    method FinishSplit(ghost b: Book, ghost k: nat, ghost i: nat, ghost offset: nat, chapter: Id, created: Id)
      requires CanSplit(b, k, i, offset) && chapter == b.order[k] && created == b.minted && created != chapter
      requires Good(SplitBook(b, k, i, offset))
      requires db.chapters == Shifted(b.chapters, k + 1, 1)
                [created := Chapter(k + 1, TitleOf(b.chapters[chapter].title, Now(b)[chapter], i, offset),
                                    b.chapters[chapter].included, 0)]
      requires db.blocks == SplitBook(b, k, i, offset).blocks && db.minted == SplitMinted(b, k, i, offset)
      requires db.revision == b.revision + 1 && db.order == b.order && db.tombs == b.tombs && db.past == b.past
      modifies db
      ensures db.State() == SplitBook(b, k, i, offset)
    {
      hide Good, Sound, Rewrite, Rows, Halves, LeftOf, TailIds, KeptOf, SplitOrder, Since, TitleOf, Shifted,
           SplitMinted;
      ghost var after := SplitAfter(b, k, i, offset);
      db.since := Since(b.since, SplitRows(b, k, i, offset), db.revision);
      GoodIsSound(SplitBook(b, k, i, offset));
      ShiftKeys(b.chapters, k + 1, 1);
      db.RefreshCharCount(chapter, after);
      db.RefreshCharCount(created, after);
      db.past := db.past + [after];
      db.order := SplitOrder(db.order, k, created);
    }

    /** The left half of a divided block keeps its id and its place. */
    method WriteLeft(chapter: Id, pieces: seq<Piece>, keys: seq<Version>, i: nat, offset: nat)
      requires Replaceable(db.blocks, keys, db.revision) && ReadsBack(db.blocks, chapter, pieces, keys)
      requires i < |pieces| && offset <= |pieces[i].text|
      modifies db`blocks
      ensures db.blocks == LeftWritten(old(db.blocks), chapter, pieces, i, offset, db.revision)
    {
      if Inside(pieces[i], offset) {
        MovedText(db.blocks, chapter, pieces, keys, i, pieces[i].text[..offset]);
        assert keys[i..i + 1] == [keys[i]];
        SomeAreReplaceable(db.blocks, keys, i, i + 1, db.revision);
        db.ReversionBlocks([keys[i]], chapter, i, Some([pieces[i].text[..offset]]));
      }
    }

    /** The chapters behind move down and the new chapter's row is added. */
    method MakeRoom(chapter: Id, title: string) returns (ok: bool)
      requires Ordered(db.chapters, db.order, db.tombs) && chapter in db.order && db.minted !in db.chapters
      modifies db`chapters, db`minted
      ensures ok <==> |db.tombs| < 1_000_000 || PlaceOf(db.order, chapter) + 1 == |db.order|
      ensures !ok ==> db.minted == old(db.minted)
      ensures ok ==> db.minted == old(db.minted) + 1 && chapter in old(db.chapters)
      ensures ok ==> db.chapters == Shifted(old(db.chapters), PlaceOf(db.order, chapter) + 1, 1)
                [old(db.minted) := Chapter(PlaceOf(db.order, chapter) + 1, title,
                                           old(db.chapters)[chapter].included, 0)]
    {
      hide Ordered, Unique, Shifted, SplitOrder, Buried;
      ghost var k := PlaceOf(db.order, chapter);
      KthIsLive(db.chapters, db.order, db.tombs, k);
      OrderedIsUnique(db.chapters, db.order, db.tombs);
      var row := db.chapters[chapter];
      var made := Chapter(row.ordinal + 1, title, row.included, 0);
      SplitOrders(db.chapters, db.order, db.tombs, k, db.minted, made);
      ShiftKeys(db.chapters, k + 1, 1);
      ok := db.ShiftOrdinals(row.ordinal + 1, 1, |db.tombs|);
      if ok {
        db.AddChapter(db.minted, made);
        db.minted := db.minted + 1;
      }
    }

    /** The blocks behind the cut move to the new chapter; the right half of a divided block leads. */
    method WriteRight(ghost t: Table, chapter: Id, created: Id, pieces: seq<Piece>, keys: seq<Version>, i: nat,
                      offset: nat)
      requires Replaceable(t, keys, db.revision) && ReadsBack(t, chapter, pieces, keys) && DistinctPieces(pieces)
      requires i < |pieces| && offset <= |pieces[i].text|
      requires db.blocks == LeftWritten(t, chapter, pieces, i, offset, db.revision)
      requires (forall v :: v in t ==> v.id != db.minted) && (forall p :: p in pieces ==> p.id != db.minted)
      modifies db`blocks, db`minted
      ensures KeptOf(pieces, i, offset) <= |pieces|
      ensures db.minted == if Inside(pieces[i], offset) then old(db.minted) + 1 else old(db.minted)
      ensures db.blocks == Rewrite(t, TailIds(pieces, KeptOf(pieces, i, offset)),
                Rows(LeftOf(pieces, i, offset), chapter, KeptOf(pieces, i, offset))
                + Rows(Halves(pieces, i, offset, old(db.minted)).1, created, 0), db.revision)
    {
      hide Replaceable, DistinctPieces;
      ghost var revision, fresh' := db.revision, db.minted;
      var p := pieces[i];
      if Inside(p, offset) {
        var right := p.(id := db.minted, text := p.text[offset..]);
        db.minted := db.minted + 1;
        RightIsNew(t, chapter, pieces, keys, i, offset, created, fresh', revision);
        db.AddBlock(Row(right, created, 0));
        MovedTail(t, db.blocks, chapter, pieces, keys, i + 1, created, 1);
        db.ReversionBlocks(keys[i + 1..], created, 1, None);
        DividedRows(t, pieces, i, offset, chapter, created, fresh', revision);
      } else {
        var cut := CutAt(p, i, offset);
        SomeAreReplaceable(t, keys, cut, |keys|, revision);
        assert keys[cut..|keys|] == keys[cut..];
        MovedTail(t, t, chapter, pieces, keys, cut, created, 0);
        db.ReversionBlocks(keys[cut..], created, 0, None);
        assert Rows([], chapter, cut) + Rows(pieces[cut..], created, 0) == Rows(pieces[cut..], created, 0);
      }
    }

    /** `text` with the plain view: the blocks joined with a blank line. */
    method Text(chapter: Id) returns (out: Outcome<string>)
      requires db.Valid()
      ensures chapter !in db.order ==> out == Refused(ChapterNotFound)
      ensures chapter in db.order ==> chapter in Now(db.State())
                                      && out == Done(JoinPlainText(Texts(Now(db.State())[chapter])))
    {
      hide Ordered, Sound, Readable, Minted, Counted;
      var found := IsActive(chapter);
      if !found {
        return Refused(ChapterNotFound);
      }
      var keys := db.CurrentBlocks(chapter, Now(db.State()));
      var pieces := PiecesOf(db.blocks, keys, chapter, Now(db.State())[chapter]);
      out := Done(JoinPlainText(Texts(pieces)));
    }

    /** `put_text`: a commit of the editor's text. Text that splits into the blocks as they are makes no
        revision, whatever its base. */
    method PutText(chapter: Id, text: string, base: nat, ratio: Ratio) returns (out: Outcome<nat>)
      requires db.Valid()
      modifies db
      ensures db.Valid()
      ensures chapter in old(db.order) ==> chapter in Now(old(db.State()))
      ensures out == if chapter !in old(db.order) then Refused(ChapterNotFound)
                     else if Texts(Now(old(db.State()))[chapter]) == SplitPlainText(text) then Done(old(db.revision))
                     else if old(db.revision) != base then Refused(RevisionConflict)
                     else Done(old(db.revision) + 1)
      ensures out != Done(old(db.revision) + 1) ==> db.State() == old(db.State())
      ensures out == Done(old(db.revision) + 1) ==>
                IsCommit(old(db.State()), db.State(), chapter, SplitPlainText(text), ratio)
    {
      hide Ordered, Sound, Readable, Minted, Counted, IsCommit;
      ghost var b := db.State();
      var texts := SplitPlainText(text);
      var found := IsActive(chapter);
      if !found {
        return Refused(ChapterNotFound);
      }
      var keys := db.CurrentBlocks(chapter, Now(b));
      var olds := PiecesOf(db.blocks, keys, chapter, Now(b)[chapter]);
      if Texts(olds) == texts {
        return Done(db.revision);
      }
      if db.revision != base {
        return Refused(RevisionConflict);
      }
      var assigned' := AssociateBlockIds(Existing(olds), texts, ratio);
      WriteCommit(chapter, keys, olds, texts, assigned', ratio);
      out := Done(db.revision);
    }

    method WriteCommit(chapter: Id, keys: seq<Version>, olds: seq<Piece>, texts: seq<string>,
                       assigned': seq<Option<Id>>, ghost ratio: Ratio)
      requires db.Valid() && chapter in db.order && chapter in Now(db.State())
      requires ReadsBack(db.blocks, chapter, olds, keys) && olds == Now(db.State())[chapter]
      requires |assigned'| == |texts|
      requires Assigns(Existing(olds), Matches(Existing(olds), texts, ratio), assigned')
      modifies db
      ensures db.Valid() && db.revision == old(db.revision) + 1
      ensures IsCommit(old(db.State()), db.State(), chapter, texts, ratio)
    {
      hide Ordered, Sound, Readable, Minted, Counted, Keyed, Rewrite, Rows, Assigns, IsCommit, IsCommitOf, Since,
           Committed,
           ReadsBack, Replaceable, PieceIds, DistinctPieces, SameBut, Close, Insert;
      ghost var b := db.State();
      ghost var news := Committed(olds, texts, assigned', db.minted);
      ghost var minted := db.minted + MintedBy(assigned');
      CommitIsReady(b, chapter, keys, texts, ratio, assigned');
      OldKeys(b, keys);
      db.revision := db.revision + 1;
      db.CloseBlocks(keys);
      MovedIsRows(b.blocks, chapter, olds, keys, chapter, 0);
      InsertCommit(chapter, olds, texts, assigned');
      db.since := Since(b.since, Rows(news, chapter, 0), db.revision);
      var count := CountTexts(texts);
      SumIsCount(news);
      db.chapters := db.chapters[chapter := db.chapters[chapter].(charCount := count)];
      db.past := db.past + [Now(b)[chapter := news]];
      assert db.State() == CommitBook(b, chapter, news, minted) by {
        RewriteIs(b.blocks, keys, olds, news, chapter, db.revision);
      }
      CommitIsCommit(b, chapter, texts, ratio, news, minted);
    }

    /** The rows of a commit, in order; new blocks get new ids. */
    method InsertCommit(chapter: Id, olds: seq<Piece>, texts: seq<string>, assigned': seq<Option<Id>>)
      requires |assigned'| == |texts| && DistinctPieces(Committed(olds, texts, assigned', db.minted))
      requires forall v :: v in db.blocks ==> v.from < db.revision
      modifies db`blocks, db`minted
      ensures db.minted == old(db.minted) + MintedBy(assigned')
      ensures db.blocks == Insert(old(db.blocks), Rows(Committed(olds, texts, assigned', old(db.minted)), chapter, 0),
                                  db.revision)
    {
      hide CommittedPiece, DistinctPieces, Insert;
      ghost var closed, news := db.blocks, Committed(olds, texts, assigned', db.minted);
      ghost var made: seq<Piece> := [];
      var i := 0;
      NoRows(closed, chapter, db.revision);
      while i < |texts|
        invariant 0 <= i == |made| <= |texts|
        invariant made + Committed(olds, texts[i..], assigned'[i..], db.minted) == news
        invariant db.minted + MintedBy(assigned'[i..]) == old(db.minted) + MintedBy(assigned')
        invariant db.blocks == Insert(closed, Rows(made, chapter, 0), db.revision)
      {
        var piece := CommittedPiece(olds, texts[i], assigned'[i], db.minted);
        assert texts[i..][0] == texts[i] && texts[i..][1..] == texts[i + 1..];
        assert assigned'[i..][0] == assigned'[i] && assigned'[i..][1..] == assigned'[i + 1..];
        ghost var m := if assigned'[i].None? then db.minted + 1 else db.minted;
        ghost var rest := Committed(olds, texts[i + 1..], assigned'[i + 1..], m);
        assert made + ([piece] + rest) == news;
        NextPiece(closed, made, piece, rest, chapter, db.revision);
        db.AddBlock(Row(piece, chapter, i));
        if assigned'[i].None? {
          db.minted := db.minted + 1;
        }
        made := made + [piece];
        i := i + 1;
      }
      assert texts[i..] == [] && assigned'[i..] == [] && made == news;
    }

    /** `replace`: literal find and replace in one chapter or in all of them. */
    method Replace(query: string, replacement: string, dryRun: bool, chapter: Option<Id>, all: bool)
      returns (out: Outcome<Replacement>)
      requires db.Valid()
      modifies db
      ensures db.Valid()
      ensures out.Refused? <==> query == "" || (!all && (chapter.None? || chapter.value !in old(db.order)))
      ensures out.Refused? ==>
                out.error == if query == "" then EmptyQuery else if chapter.None? then NoScope else ChapterNotFound
      ensures out.Refused? || out.value.revision.None? ==> db.State() == old(db.State())
      ensures out.Done? ==>
                var scope := if all then old(db.order) else [chapter.value];
                IsReplacement(old(db.State()), db.State(), query, replacement, dryRun, scope, out.value)
    {
      hide Ordered, Sound, Readable, Minted, Counted, IsReplacement, IsRetext, Covers;
      ghost var b := db.State();
      if query == "" {
        return Refused(EmptyQuery);
      }
      if !all && chapter.None? {
        return Refused(NoScope);
      }
      var scope: seq<Id>;
      if all {
        OrderIsUnique(b);
        scope := db.Active();
        LiveIsOrder(b.chapters, b.order, b.tombs, scope);
      } else {
        var found := IsActive(chapter.value);
        if !found {
          return Refused(ChapterNotFound);
        }
        scope := [chapter.value];
      }
      ScopeFits(b, scope);
      var hits, edits := FindHits(scope, query, replacement);
      var preview := if |hits| <= 50 then hits else hits[..50];
      if dryRun || edits == [] {
        NothingReplaced(b, query, replacement, dryRun, scope, edits);
        return Done(Replacement(Total(hits), dryRun, None, preview));
      }
      TouchedAre(b, scope, Replacer(query, replacement), edits);
      WriteEdits(scope, edits, Replacer(query, replacement), TouchedIds(db.blocks, edits));
      out := Done(Replacement(Total(hits), false, Some(db.revision), preview));
      SomethingReplaced(b, db.State(), query, replacement, scope, edits);
    }

    /** The hits and the edits of the chapters in `scope`. */
    method FindHits(scope: seq<Id>, query: string, replacement: string)
      returns (hits: seq<Hit>, edits: seq<Edit>)
      requires db.Valid() && query != "" && (forall c :: c in scope ==> c in Now(db.State()))
      requires forall i, j :: 0 <= i < j < |scope| ==> scope[i] != scope[j]
      ensures hits == HitsIn(Now(db.State()), scope, query)
      ensures Covers(db.blocks, db.since, Now(db.State()), scope, Replacer(query, replacement), edits)
    {
      hide Ordered, Sound, Readable, Minted, Counted, Covers, ReadsBack;
      ghost var contents, f := Now(db.State()), Replacer(query, replacement);
      hits, edits := [], [];
      NoScopeCovers(db.blocks, db.since, contents, f);
      var n := 0;
      while n < |scope|
        invariant 0 <= n <= |scope|
        invariant hits + HitsIn(contents, scope[n..], query) == HitsIn(contents, scope, query)
        invariant Covers(db.blocks, db.since, contents, scope[..n], f, edits)
      {
        var c := scope[n];
        assert scope[n..][0] == c && scope[n..][1..] == scope[n + 1..] && scope[..n + 1] == scope[..n] + [c];
        var keys := db.CurrentBlocks(c, contents);
        var pieces := PiecesOf(db.blocks, keys, c, contents[c]);
        var found, more := ChapterHits(c, pieces, keys, query, replacement);
        CoverOneMore(db.blocks, contents, db.since, db.revision, scope[..n], c, f, keys, edits);
        Regroup(hits, found, HitsIn(contents, scope[n + 1..], query), HitsIn(contents, scope, query));
        hits, edits := hits + found, edits + more;
        n := n + 1;
      }
      assert scope[..n] == scope;
    }

    /** Every edited block is closed and inserted again under the new revision. */
    method WriteEdits(ghost scope: seq<Id>, edits: seq<Edit>, ghost f: Piece -> string, touched: set<Id>)
      requires db.Valid() && Covers(db.blocks, db.since, Now(db.State()), scope, f, edits)
      requires forall e :: e in edits ==> e.key in db.blocks
      requires TouchedIds(db.blocks, edits) <= touched && touched <= Now(db.State()).Keys
      modifies db
      ensures db.Valid() && db.revision == old(db.revision) + 1
      ensures IsRetext(old(db.State()), db.State(), scope, f)
    {
      hide Ordered, Sound, Readable, Minted, Counted, Covers, IsRetext, Rewrite, EditRows, EditKeys, Recounted,
           Retexted, Since;
      ghost var b := db.State();
      RetextIsGood(b, scope, f, edits);
      EditsAreReplaceable(b.blocks, Now(b), b.since, b.revision, scope, f, edits);
      ghost var after := Retexted(Now(b), scope, f);
      db.revision := db.revision + 1;
      RewriteEdits(edits);
      db.since := Since(b.since, EditRows(b.blocks, edits), db.revision);
      GoodIsSound(RetextBook(b, scope, f, edits));
      ContentsHaveChapters(b);
      SameScope(Now(b), scope, f);
      RefreshAll(touched, after);
      RefreshedIsRecounted(b, scope, f, edits, touched);
      db.past := db.past + [after];
      assert db.State() == RetextBook(b, scope, f, edits);
    }

    /** `apply_reading`: accepted suggestions become new texts and spans on a new revision. */
    method ApplyReading(chapter: Id, base: nat, readings: Readings) returns (out: Outcome<Reading>)
      requires db.Valid()
      modifies db
      ensures db.Valid()
      ensures chapter in old(db.order) ==> chapter in Now(old(db.State()))
      ensures out == if chapter !in old(db.order) then Refused(ChapterNotFound)
                     else if old(db.revision) != base then Refused(RevisionConflict)
                     else
                       var pieces := Now(old(db.State()))[chapter];
                       if Raises(readings, pieces) then Refused(ValueError)
                       else Done(Reading(if Changes(readings, pieces) then old(db.revision) + 1 else old(db.revision),
                                         ConflictsOf(readings, pieces)))
      ensures out.Refused? || out.value.revision == old(db.revision) ==> db.State() == old(db.State())
      ensures out.Done? && out.value.revision != old(db.revision) ==>
                IsRetext(old(db.State()), db.State(), [chapter], Reader(readings))
    {
      hide Ordered, Sound, Readable, Minted, Counted, Covers, IsRetext, EditsOf, ConflictsOf, Changes, Raises;
      ghost var b := db.State();
      var found := IsActive(chapter);
      if !found {
        return Refused(ChapterNotFound);
      }
      var keys := db.CurrentBlocks(chapter, Now(b));
      if db.revision != base {
        return Refused(RevisionConflict);
      }
      var pieces := PiecesOf(db.blocks, keys, chapter, Now(b)[chapter]);
      var prepared := Prepare(pieces, keys, readings);
      if prepared.NotPrepared? {
        return Refused(ValueError);
      }
      if !prepared.changed {
        return Done(Reading(db.revision, prepared.conflicts));
      }
      ghost var f := Reader(readings);
      NoScopeCovers(db.blocks, db.since, Now(b), f);
      CoverOneMore(db.blocks, Now(b), db.since, db.revision, [], chapter, f, keys, []);
      assert [] + [chapter] == [chapter] && [] + prepared.edits == prepared.edits;
      OneTouched(b, chapter, f, prepared.edits);
      WriteEdits([chapter], prepared.edits, f, {chapter});
      out := Done(Reading(db.revision, prepared.conflicts));
    }

    method RewriteEdits(edits: seq<Edit>)
      requires (forall e :: e in edits ==> e.key in db.blocks) && Replaceable(db.blocks, EditKeys(edits), db.revision)
      modifies db`blocks
      ensures db.blocks == Rewrite(old(db.blocks), KeyIds(EditKeys(edits)), EditRows(old(db.blocks), edits),
                                   db.revision)
    {
      hide Replaceable, Rewrite;
      ghost var t, keys, rows := db.blocks, EditKeys(edits), EditRows(db.blocks, edits);
      NoEdits(t, db.revision);
      EditRowIds(t, edits, db.revision);
      var i := 0;
      while i < |edits|
        invariant 0 <= i <= |edits|
        invariant db.blocks == Rewrite(t, KeyIds(keys[..i]), rows[..i], db.revision)
      {
        var key, text := edits[i].key, edits[i].text;
        StillReplaceable(t, keys, rows, i, db.revision);
        assert keys[i] == key && edits[i] in edits;
        var row := db.blocks[key].row;
        ghost var u := db.blocks;
        db.ReversionBlocks([key], row.chapter, row.ordinal, Some([text]));
        assert Moved(u, [key], row.chapter, row.ordinal, Some([text])) == [rows[i]];
        RewriteTwice(t, KeyIds(keys[..i]), rows[..i], KeyIds([key]), [rows[i]], db.revision);
        OneMoreEdit(keys, rows, i);
        i := i + 1;
      }
      assert keys[..i] == keys && rows[..i] == rows;
    }

    /** The counts of some chapters are refreshed, in any order. */
    method RefreshAll(touched: set<Id>, ghost contents: Contents)
      requires Sound(db.blocks, contents, db.since, db.revision)
      requires touched <= contents.Keys && touched <= db.chapters.Keys
      modifies db`chapters
      ensures db.chapters == Refreshed(old(db.chapters), touched, contents)
    {
      hide Sound, CharCount;
      var rest := touched;
      while rest != {}
        invariant rest <= touched && db.chapters == Refreshed(old(db.chapters), touched - rest, contents)
        invariant Sound(db.blocks, contents, db.since, db.revision)
      {
        var c :| c in rest;
        db.RefreshCharCount(c, contents);
        rest := rest - {c};
      }
      assert touched - rest == touched;
    }
  }

  // ---------- replace ----------

  lemma SameScope(contents: Contents, scope: seq<Id>, f: Piece -> string)
    ensures Retexted(contents, scope, f).Keys == contents.Keys
  {
  }

  lemma ScopeFits(b: Book, scope: seq<Id>)
    requires Good(b) && (scope == b.order || (|scope| == 1 && scope[0] in b.order))
    ensures forall c :: c in scope ==> c in Now(b)
    ensures forall i, j :: 0 <= i < j < |scope| ==> scope[i] != scope[j]
  {
    hide Sound, Readable;
    OrderedIsUnique(b.chapters, b.order, b.tombs);
  }

  lemma OneTouched(b: Book, chapter: Id, f: Piece -> string, edits: seq<Edit>)
    requires Good(b) && Covers(b.blocks, b.since, Now(b), [chapter], f, edits)
    ensures forall e :: e in edits ==> e.key in b.blocks
    ensures TouchedIds(b.blocks, edits) <= {chapter}
  {
    TouchedAre(b, [chapter], f, edits);
    forall e | e in edits ensures b.blocks[e.key].row.chapter == chapter {
      var i :| 0 <= i < |edits| && edits[i] == e;
      assert b.blocks[e.key].row.chapter in [chapter];
    }
  }

  lemma NoEdits(t: Table, revision: nat)
    ensures Rewrite(t, KeyIds([]), [], revision) == t
  {
    assert Close(t, KeyIds([]), revision) == t;
  }

  lemma EditRowIds(t: Table, edits: seq<Edit>, revision: nat)
    requires (forall e :: e in edits ==> e.key in t) && Replaceable(t, EditKeys(edits), revision)
    ensures forall k :: 0 <= k < |edits| ==> EditRows(t, edits)[k].piece.id == EditKeys(edits)[k].id
  {
    var keys := EditKeys(edits);
    forall k | 0 <= k < |edits| ensures EditRows(t, edits)[k].piece.id == keys[k].id {
      assert keys[k] in keys && edits[k] in edits;
    }
  }

  lemma OneMoreEdit(keys: seq<Version>, rows: seq<Row>, i: nat)
    requires i < |keys| == |rows|
    ensures KeyIds(keys[..i]) + KeyIds([keys[i]]) == KeyIds(keys[..i + 1])
    ensures rows[..i] + [rows[i]] == rows[..i + 1]
  {
    assert keys[..i + 1] == keys[..i] + [keys[i]];
  }

  // ---------- ingest ----------

  lemma NoOrdinal(b: Book)
    requires Good(b)
    ensures b.minted !in b.chapters && b.past != []
    ensures forall d :: d in b.chapters ==> b.chapters[d].ordinal != |b.order|
  {
    hide Sound, Readable;
    assert forall d :: d in b.chapters && b.chapters[d].ordinal >= 0 ==> b.chapters[d].ordinal < |b.order|;
  }

  lemma NextNewPiece(t: Table, pieces: seq<Piece>, i: nat, chapter: Id, revision: nat)
    requires NewTo(t, pieces) && i < |pieces|
    ensures Version(pieces[i].id, revision) !in Insert(t, Rows(pieces[..i], chapter, 0), revision)
    ensures Insert(t, Rows(pieces[..i + 1], chapter, 0), revision)
         == Insert(t, Rows(pieces[..i], chapter, 0), revision)
              [Version(pieces[i].id, revision) := Stored(Row(pieces[i], chapter, i), None)]
  {
    var made := pieces[..i];
    assert pieces[i] in pieces && pieces[..i + 1] == made + [pieces[i]];
    OneMoreRow(t, made, pieces[i], chapter, revision);
    NewKey(t, made, pieces[i], chapter, revision);
  }

  method CountPieces(pieces: seq<Piece>) returns (total: nat)
    ensures total == CharCount(pieces)
  {
    total := 0;
    var i := |pieces|;
    assert pieces[i..] == [];
    while i > 0
      invariant 0 <= i <= |pieces| && total == CharCount(pieces[i..])
    {
      i := i - 1;
      assert pieces[i..][1..] == pieces[i + 1..];
      total := total + Extractable(pieces[i].text);
    }
    assert pieces[0..] == pieces;
  }

  // ---------- put_text ----------

  lemma NoRows(t: Table, chapter: Id, revision: nat)
    ensures Insert(t, Rows([], chapter, 0), revision) == t
  {
  }

  lemma NextPiece(closed: Table, made: seq<Piece>, piece: Piece, rest: seq<Piece>, chapter: Id, revision: nat)
    requires DistinctPieces(made + ([piece] + rest)) && forall v :: v in closed ==> v.from < revision
    ensures Version(piece.id, revision) !in Insert(closed, Rows(made, chapter, 0), revision)
    ensures Insert(closed, Rows(made + [piece], chapter, 0), revision)
         == Insert(closed, Rows(made, chapter, 0), revision)
              [Version(piece.id, revision) := Stored(Row(piece, chapter, |made|), None)]
    ensures (made + [piece]) + rest == made + ([piece] + rest)
  {
    var all := made + ([piece] + rest);
    assert all[|made|] == piece && forall k :: 0 <= k < |made| ==> all[k] == made[k];
    OneMoreRow(closed, made, piece, chapter, revision);
    NewKey(closed, made, piece, chapter, revision);
  }

  lemma OneMoreRow(t: Table, made: seq<Piece>, piece: Piece, chapter: Id, revision: nat)
    ensures Insert(t, Rows(made + [piece], chapter, 0), revision)
         == Insert(t, Rows(made, chapter, 0), revision)
              [Version(piece.id, revision) := Stored(Row(piece, chapter, |made|), None)]
  {
    var rows := Rows(made + [piece], chapter, 0);
    assert rows[..|made|] == Rows(made, chapter, 0) && rows[|made|] == Row(piece, chapter, |made|);
  }

  lemma NewKey(t: Table, made: seq<Piece>, piece: Piece, chapter: Id, revision: nat)
    requires DistinctPieces(made) && (forall k :: 0 <= k < |made| ==> made[k].id != piece.id)
    requires Version(piece.id, revision) !in t
    ensures Version(piece.id, revision) !in Insert(t, Rows(made, chapter, 0), revision)
  {
    var rows := Rows(made, chapter, 0);
    assert DistinctRows(rows);
    InsertIs(t, rows, revision);
    hide Insert;
    forall r | r in rows ensures r.piece.id != piece.id { RowsAre(made, chapter, 0, r); }
  }

  lemma CommitIsReady(b: Book, chapter: Id, keys: seq<Version>, texts: seq<string>, ratio: Ratio, ids: seq<Option<Id>>)
    requires Good(b) && chapter in Now(b) && ReadsBack(b.blocks, chapter, Now(b)[chapter], keys)
    requires |ids| == |texts|
             && Assigns(Existing(Now(b)[chapter]), Matches(Existing(Now(b)[chapter]), texts, ratio), ids)
    ensures var news := Committed(Now(b)[chapter], texts, ids, b.minted);
            && DistinctPieces(news) && Texts(news) == texts && chapter in b.chapters
            && IsCommitOf(Now(b)[chapter], texts, ratio, b.minted, news)
            && Good(CommitBook(b, chapter, news, b.minted + MintedBy(ids)))
            && SameBut(b.chapters, CommitBook(b, chapter, news, b.minted + MintedBy(ids)).chapters)
    ensures Replaceable(b.blocks, keys, b.revision + 1)
  {
    hide Good, Sound, Replaceable, ReadsBack, Assigns, DistinctPieces, Committed, SameBut, CommitBook, PieceIds,
         Matches, Existing, MintedBy, Texts, IsCommitOf;
    GoodIsSound(b);
    CurrentIsReplaceable(b.blocks, Now(b), b.since, b.revision, chapter, keys);
    PiecesMinted(b, chapter);
    CommitFits(Now(b)[chapter], texts, ratio, ids, b.minted);
    CommittedIsCommitOf(Now(b)[chapter], texts, ratio, ids, b.minted);
    var news := Committed(Now(b)[chapter], texts, ids, b.minted);
    CommitIsGood(b, chapter, news, b.minted + MintedBy(ids));
  }

  lemma OldKeys(b: Book, keys: seq<Version>)
    requires Good(b)
    ensures forall v :: v in Close(b.blocks, KeyIds(keys), b.revision + 1) ==> v.from < b.revision + 1
  {
  }

  lemma RewriteIs(t: Table, keys: seq<Version>, olds: seq<Piece>, news: seq<Piece>, chapter: Id, revision: nat)
    requires KeyIds(keys) == PieceIds(olds)
    ensures Insert(Close(t, KeyIds(keys), revision), Rows(news, chapter, 0), revision)
         == Rewrite(t, PieceIds(olds), Rows(news, chapter, 0), revision)
  {
  }

  lemma CommitIsCommit(b: Book, chapter: Id, texts: seq<string>, ratio: Ratio, news: seq<Piece>, minted: nat)
    requires b.past != [] && chapter in Now(b) && chapter in b.chapters && b.minted <= minted
    requires IsCommitOf(Now(b)[chapter], texts, ratio, b.minted, news)
    requires SameBut(b.chapters, CommitBook(b, chapter, news, minted).chapters)
    ensures IsCommit(b, CommitBook(b, chapter, news, minted), chapter, texts, ratio)
  {
    hide SameBut, IsCommitOf, Rewrite, Rows, PieceIds, Since;
    assert Now(CommitBook(b, chapter, news, minted)) == Now(b)[chapter := news];
  }

  method CountTexts(texts: seq<string>) returns (total: nat)
    ensures total == SumTexts(texts)
  {
    total := 0;
    var i := |texts|;
    assert texts[i..] == [];
    while i > 0
      invariant 0 <= i <= |texts| && total == SumTexts(texts[i..])
    {
      i := i - 1;
      assert texts[i..][1..] == texts[i + 1..];
      total := total + Extractable(texts[i]);
    }
    assert texts[0..] == texts;
  }

  // ---------- split ----------

  ghost predicate SplitDone(b: Book, b': Book, chapter: Id, block: Id, offset: nat) {
    && b.past != [] && chapter in Now(b)
    && var k, i := PlaceOf(b.order, chapter), BlockPlace(Now(b)[chapter], block);
       CanSplit(b, k, i, offset) && IsSplit(b, b', k, i, offset)
  }

  lemma SplitIsDone(b: Book, b': Book, chapter: Id, block: Id, offset: nat)
    requires b.past != [] && chapter in Now(b)
    requires CanSplit(b, PlaceOf(b.order, chapter), BlockPlace(Now(b)[chapter], block), offset)
    requires IsSplit(b, b', PlaceOf(b.order, chapter), BlockPlace(Now(b)[chapter], block), offset)
    ensures SplitDone(b, b', chapter, block, offset)
  {
  }

  function LeftWritten(t: Table, chapter: Id, pieces: seq<Piece>, i: nat, offset: nat, revision: nat): Table
    requires i < |pieces| && offset <= |pieces[i].text|
  {
    if Inside(pieces[i], offset) then
      Rewrite(t, {pieces[i].id}, Rows([pieces[i].(text := pieces[i].text[..offset])], chapter, i), revision)
    else t
  }

  lemma SplitIsReady(b: Book, k: nat, keys: seq<Version>)
    requires Good(b) && k < |b.order| && b.order[k] in Now(b)
    requires ReadsBack(b.blocks, b.order[k], Now(b)[b.order[k]], keys)
    ensures Replaceable(b.blocks, keys, b.revision + 1) && DistinctPieces(Now(b)[b.order[k]])
    ensures b.minted !in b.chapters && b.order[k] in b.chapters && b.chapters[b.order[k]].ordinal == k
    ensures forall v :: v in b.blocks ==> v.id != b.minted + 1
    ensures forall p :: p in Now(b)[b.order[k]] ==> p.id != b.minted + 1
  {
    hide Ordered, Sound, Readable, Counted, Minted, Keyed, ReadsBack, Replaceable, DistinctPieces;
    var chapter := b.order[k];
    KthIsLive(b.chapters, b.order, b.tombs, k);
    CurrentIsReplaceable(b.blocks, Now(b), b.since, b.revision, chapter, keys);
    PiecesDiffer(b.blocks, Now(b), b.since, b.revision, chapter);
    NewIds(b, b.minted);
    NewIds(b, b.minted + 1);
    forall j | 0 <= j < |Now(b)[chapter]| ensures Now(b)[chapter][j].id != b.minted + 1 {
      assert Placed(Now(b), Row(Now(b)[chapter][j], chapter, j));
    }
  }

  lemma RightIsNew(t: Table, chapter: Id, pieces: seq<Piece>, keys: seq<Version>, i: nat, offset: nat,
                   created: Id, fresh': Id, revision: nat)
    requires Replaceable(t, keys, revision) && ReadsBack(t, chapter, pieces, keys)
    requires i < |pieces| && Inside(pieces[i], offset) && (forall v :: v in t ==> v.id != fresh')
    requires forall p :: p in pieces ==> p.id != fresh'
    ensures var right := pieces[i].(id := fresh', text := pieces[i].text[offset..]);
            var u := LeftWritten(t, chapter, pieces, i, offset, revision);
            var w := u[Version(fresh', revision) := Stored(Row(right, created, 0), None)];
            && Version(fresh', revision) !in u && w == Rewrite(u, {}, Rows([right], created, 0), revision)
            && Replaceable(w, keys[i + 1..], revision)
            && (forall v :: v in keys[i + 1..] ==> v in t && v in w && w[v] == t[v])
  {
    var left := pieces[i].(text := pieces[i].text[..offset]);
    var right := pieces[i].(id := fresh', text := pieces[i].text[offset..]);
    var u := LeftWritten(t, chapter, pieces, i, offset, revision);
    assert Rows([left], chapter, i) == [Row(left, chapter, i)] && Rows([right], created, 0) == [Row(right, created, 0)];
    InsertIs(Close(t, {left.id}, revision), [Row(left, chapter, i)], revision);
    OneRow(u, Row(right, created, 0), revision);
    TailStillThere(t, keys, i, Row(left, chapter, i), Row(right, created, 0), revision);
  }

  lemma ShiftKeys(cs: Chapters, start: int, delta: int)
    ensures Shifted(cs, start, delta).Keys == cs.Keys
  {
  }

  lemma OneRow(t: Table, row: Row, revision: nat)
    ensures Rewrite(t, {}, [row], revision) == t[Version(row.piece.id, revision) := Stored(row, None)]
  {
    assert Close(t, {}, revision) == t;
    assert Insert(t, [row][..0], revision) == t;
  }

  /** The index of the block with this id, as `next` over the rows finds it. */
  method FindBlock(t: Table, keys: seq<Version>, block: Id, ghost chapter: Id, ghost pieces: seq<Piece>)
    returns (i: nat)
    requires ReadsBack(t, chapter, pieces, keys)
    ensures i == BlockPlace(pieces, block)
  {
    i := 0;
    while i < |keys|
      invariant 0 <= i <= |keys|
      invariant forall j :: 0 <= j < i ==> pieces[j].id != block
    {
      if keys[i].id == block {
        return;
      }
      i := i + 1;
    }
  }

  method PiecesOf(t: Table, keys: seq<Version>, ghost chapter: Id, ghost pieces: seq<Piece>) returns (olds: seq<Piece>)
    requires ReadsBack(t, chapter, pieces, keys)
    ensures olds == pieces
  {
    olds := seq(|keys|, i requires 0 <= i < |keys| => t[keys[i]].row.piece);
  }

  lemma OrderIsUnique(b: Book)
    requires Good(b)
    ensures Ordered(b.chapters, b.order, b.tombs) && Unique(b.chapters) && Buried(b.chapters, |b.tombs|)
  {
    hide Sound, Readable;
    OrderedIsUnique(b.chapters, b.order, b.tombs);
  }

  lemma SameReorder(b: Book)
    ensures IsReorder(b, b, b.order)
  {
  }
}
