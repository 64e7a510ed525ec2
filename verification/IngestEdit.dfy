/** `_clear_chapters` and `_insert_book` of `store/chapters.py`: a book that has no edits yet is read
    in, chapter by chapter, at the current revision. */
module IngestEdit {
  import opened BookTables
  import opened ChapterEdits
  import opened Ordinals
  import opened Options
  import opened PyText
  import opened SplitEdit
  import opened Versions

  datatype SourceBlock = SourceBlock(kind: Kind, level: Option<nat>, text: string, source: Option<string>)

  datatype SourceChapter = SourceChapter(title: string, blocks: seq<SourceBlock>)

  /** A chapter without a title is named after its place. */
  function IngestTitle(title: string, ordinal: nat): string {
    if Strip(title) != "" then Strip(title) else "Chapter " + Decimal(ordinal + 1)
  }

  /** The blocks of a new chapter, with new ids in order. */
  function NewPieces(blocks: seq<SourceBlock>, minted: Id): seq<Piece> {
    seq(|blocks|, i requires 0 <= i < |blocks| =>
      Piece(minted + i, blocks[i].kind, blocks[i].level, blocks[i].text, blocks[i].source))
  }

  /** The book with one more chapter at the end. */
  function WithChapter(b: Book, c: SourceChapter): Book
    requires b.past != []
  {
    var id, pieces := b.minted, NewPieces(c.blocks, b.minted + 1);
    Book(b.chapters[id := Chapter(|b.order|, IngestTitle(c.title, |b.order|), true, CharCount(pieces))],
         Insert(b.blocks, Rows(pieces, id, 0), b.revision), b.revision, b.minted + 1 + |c.blocks|,
         b.order + [id], b.tombs, b.past[..|b.past| - 1] + [Now(b)[id := pieces]],
         Since(b.since, Rows(pieces, id, 0), b.revision))
  }

  function WithChapters(b: Book, cs: seq<SourceChapter>): Book
    requires b.past != []
    decreases cs
  {
    if cs == [] then b else WithChapters(WithChapter(b, cs[0]), cs[1..])
  }

  /** The book without its chapters. */
  function Cleared(b: Book): Book
    requires b.past != []
  {
    if b.chapters == map[] then b
    else
      b.(chapters := map[], blocks := map v | v in b.blocks && b.blocks[v].row.chapter !in b.chapters :: b.blocks[v],
         order := [], tombs := [], past := b.past[..|b.past| - 1] + [map[]], since := map[])
  }

  lemma NoChaptersNoOrder(b: Book)
    requires Good(b) && b.chapters == map[]
    ensures b.order == [] && Now(b).Keys == {}
  {
    hide Sound, Readable, Minted;
    if b.order != [] { KthIsLive(b.chapters, b.order, b.tombs, 0); }
    assert forall c :: c !in Now(b);
  }

  /** Before the first edit every row is open, so clearing leaves none. */
  lemma AllRowsHaveChapters(b: Book)
    requires Good(b) && b.revision == 0
    ensures forall v :: v in b.blocks ==> b.blocks[v].row.chapter in b.chapters
  {
    hide Readable, Ordered;
    ContentsHaveChapters(b);
    forall v | v in b.blocks ensures b.blocks[v].row.chapter in b.chapters {
      assert b.blocks[v].until.None?;
      assert Placed(Now(b), b.blocks[v].row);
    }
  }

  lemma EmptyIsGood(minted: nat)
    ensures Good(Book(map[], map[], 0, minted, [], [], [map[]], map[]))
  {
  }

  lemma ClearedIsGood(b: Book)
    requires Good(b) && (b.chapters == map[] || b.revision == 0)
    ensures Good(Cleared(b)) && Cleared(b).order == [] && Now(Cleared(b)).Keys == {}
  {
    hide Sound, Readable, Minted, Counted, Keyed, Ordered;
    if b.chapters == map[] {
      NoChaptersNoOrder(b);
    } else {
      AllRowsHaveChapters(b);
      assert Cleared(b).blocks == map[];
      assert b.past[..|b.past| - 1] + [map[]] == [map[]];
      EmptyIsGood(b.minted);
    }
  }

  lemma NewPiecesAre(blocks: seq<SourceBlock>, minted: Id)
    ensures DistinctPieces(NewPieces(blocks, minted))
    ensures forall p :: p in NewPieces(blocks, minted) ==> minted <= p.id < minted + |blocks|
  {
  }

  ghost predicate NewTo(t: Table, pieces: seq<Piece>) {
    DistinctPieces(pieces) && forall p :: p in pieces ==> forall v :: v in t ==> v.id != p.id
  }

  lemma AddedAre(t: Table, revision: nat, c: Id, pieces: seq<Piece>)
    requires NewTo(t, pieces)
    ensures DistinctRows(Rows(pieces, c, 0))
    ensures forall v :: v in t ==> v.id !in IdsOf(Rows(pieces, c, 0))
    ensures forall v :: v in Insert(t, Rows(pieces, c, 0), revision) && v !in t ==>
              v.from == revision && exists i :: 0 <= i < |pieces| && pieces[i].id == v.id
                                             && Insert(t, Rows(pieces, c, 0), revision)[v]
                                             == Stored(Row(pieces[i], c, i), None)
  {
    var rows := Rows(pieces, c, 0);
    assert DistinctRows(rows);
    InsertIs(t, rows, revision);
    forall r | r in rows ensures r.piece in pieces { RowsAre(pieces, c, 0, r); }
    forall v | v in Insert(t, rows, revision) && v !in t
      ensures exists i :: 0 <= i < |pieces| && pieces[i].id == v.id
                       && Insert(t, rows, revision)[v] == Stored(Row(pieces[i], c, i), None)
    {
      var r :| r in rows && r.piece.id == v.id;
      var i :| 0 <= i < |rows| && rows[i] == r;
      assert pieces[i].id == v.id;
    }
  }

  lemma AddedRowIsPlaced(t: Table, contents: Contents, since: map<Id, nat>, revision: nat, c: Id, pieces: seq<Piece>,
                         v: Version)
    requires Current(t, contents, since) && c !in contents && NewTo(t, pieces)
    requires v in Insert(t, Rows(pieces, c, 0), revision) && Insert(t, Rows(pieces, c, 0), revision)[v].until.None?
    ensures Placed(contents[c := pieces], Insert(t, Rows(pieces, c, 0), revision)[v].row)
    ensures v.id in Since(since, Rows(pieces, c, 0), revision)
            && Since(since, Rows(pieces, c, 0), revision)[v.id] == v.from
  {
    var rows := Rows(pieces, c, 0);
    AddedAre(t, revision, c, pieces);
    InsertIs(t, rows, revision);
    if v in t {
      assert Placed(contents, t[v].row);
    } else {
      var i :| 0 <= i < |pieces| && pieces[i].id == v.id
          && Insert(t, rows, revision)[v] == Stored(Row(pieces[i], c, i), None);
      assert rows[i] in rows;
    }
  }

  lemma PlacedRowIsOpen(t: Table, contents: Contents, since: map<Id, nat>, revision: nat, c: Id, pieces: seq<Piece>,
                        row: Row)
    requires Current(t, contents, since) && c !in contents && NewTo(t, pieces) && Placed(contents[c := pieces], row)
    ensures OpenAt(Insert(t, Rows(pieces, c, 0), revision), Since(since, Rows(pieces, c, 0), revision), row)
  {
    var rows := Rows(pieces, c, 0);
    AddedAre(t, revision, c, pieces);
    InsertIs(t, rows, revision);
    RowsAre(pieces, c, 0, row);
    if row !in rows {
      assert OpenAt(t, since, row);
    }
  }

  lemma AddedIsCurrent(t: Table, contents: Contents, since: map<Id, nat>, revision: nat, c: Id, pieces: seq<Piece>)
    requires Current(t, contents, since) && c !in contents && NewTo(t, pieces)
    ensures Current(Insert(t, Rows(pieces, c, 0), revision), contents[c := pieces],
                    Since(since, Rows(pieces, c, 0), revision))
  {
    hide Insert, Rows, Since, NewTo, Placed, OpenAt;
    var u, after := Insert(t, Rows(pieces, c, 0), revision), contents[c := pieces];
    forall v | v in u && u[v].until.None?
      ensures Placed(after, u[v].row) && v.id in Since(since, Rows(pieces, c, 0), revision)
              && Since(since, Rows(pieces, c, 0), revision)[v.id] == v.from
    {
      AddedRowIsPlaced(t, contents, since, revision, c, pieces, v);
    }
    forall row | Placed(after, row) ensures OpenAt(u, Since(since, Rows(pieces, c, 0), revision), row) {
      PlacedRowIsOpen(t, contents, since, revision, c, pieces, row);
    }
  }

  /** Rows of new blocks for a new chapter can be added at the current revision. */
  lemma AddedIsSound(t: Table, contents: Contents, since: map<Id, nat>, revision: nat, c: Id, pieces: seq<Piece>)
    requires Sound(t, contents, since, revision) && c !in contents && NewTo(t, pieces)
    ensures Sound(Insert(t, Rows(pieces, c, 0), revision), contents[c := pieces],
                  Since(since, Rows(pieces, c, 0), revision), revision)
  {
    hide Current, Apart, Dated, NewTo;
    AddedIsCurrent(t, contents, since, revision, c, pieces);
    AddedIsApart(t, revision, c, pieces);
  }

  lemma AddedIsApart(t: Table, revision: nat, c: Id, pieces: seq<Piece>)
    requires Dated(t, revision) && Apart(t) && NewTo(t, pieces)
    ensures Apart(Insert(t, Rows(pieces, c, 0), revision)) && Dated(Insert(t, Rows(pieces, c, 0), revision), revision)
  {
    AddedAre(t, revision, c, pieces);
    hide NewTo;
    InsertIs(t, Rows(pieces, c, 0), revision);
  }

  lemma AddedKeepsPast(t: Table, rows: seq<Row>, revision: nat, r: nat)
    requires DistinctRows(rows) && r < revision && forall v :: v in t ==> v.id !in IdsOf(rows)
    ensures VisibleAt(Insert(t, rows, revision), r) == VisibleAt(t, r)
  {
    InsertIs(t, rows, revision);
  }

  lemma LastRevisionRewritten(t: Table, u: Table, past: seq<Contents>, after: Contents)
    requires past != [] && Readable(t, past) && Shows(VisibleAt(u, |past| - 1), after)
    requires forall r :: 0 <= r < |past| - 1 ==> VisibleAt(u, r) == VisibleAt(t, r)
    ensures Readable(u, past[..|past| - 1] + [after])
  {
  }

  lemma WithChapterIsReadable(b: Book, c: SourceChapter)
    requires Good(b) && Sound(WithChapter(b, c).blocks, Now(WithChapter(b, c)), WithChapter(b, c).since, b.revision)
    ensures Readable(WithChapter(b, c).blocks, WithChapter(b, c).past)
  {
    hide Ordered, Minted, Counted, Keyed, Sound, Readable, Shows, NewPieces, Rows, NewTo, VisibleAt, Insert, Since;
    var b' := WithChapter(b, c);
    CurrentIsShown(b'.blocks, Now(b'), b'.since, b.revision);
    forall r | 0 <= r < b.revision ensures VisibleAt(b'.blocks, r) == VisibleAt(b.blocks, r) {
      ChapterKeepsPast(b, c, r);
    }
    LastRevisionRewritten(b.blocks, b'.blocks, b.past, Now(b'));
  }

  lemma ChapterKeepsPast(b: Book, c: SourceChapter, r: nat)
    requires Good(b) && r < b.revision
    ensures VisibleAt(WithChapter(b, c).blocks, r) == VisibleAt(b.blocks, r)
  {
    hide Good, Rows, NewPieces, VisibleAt, NewTo;
    NewPiecesAreNew(b, c);
    AddedAre(b.blocks, b.revision, b.minted, NewPieces(c.blocks, b.minted + 1));
    AddedKeepsPast(b.blocks, Rows(NewPieces(c.blocks, b.minted + 1), b.minted, 0), b.revision, r);
  }

  lemma NewPiecesAreNew(b: Book, c: SourceChapter)
    requires Good(b)
    ensures NewTo(b.blocks, NewPieces(c.blocks, b.minted + 1))
  {
    hide Sound, Readable, Ordered;
    NewPiecesAre(c.blocks, b.minted + 1);
  }

  lemma WithChapterKeeps(b: Book, c: SourceChapter)
    requires Good(b)
    ensures Ordered(WithChapter(b, c).chapters, b.order + [b.minted], b.tombs)
    ensures Keyed(b.order + [b.minted], Now(WithChapter(b, c)))
            && Counted(WithChapter(b, c).chapters, Now(WithChapter(b, c)))
  {
    hide Sound, Readable, CharCount, Insert, Since, NewPieces, IngestTitle;
    AppendedIsOrdered(b.chapters, b.order, b.tombs, b.minted, WithChapter(b, c).chapters[b.minted]);
    hide Ordered;
  }

  lemma AppendedIsOrdered(cs: Chapters, order: seq<Id>, tombs: seq<Id>, id: Id, row: Chapter)
    requires Ordered(cs, order, tombs) && id !in cs && row.ordinal == |order|
    ensures Ordered(cs[id := row], order + [id], tombs)
  {
    var after, order' := cs[id := row], order + [id];
    forall i | 0 <= i < |order'| ensures order'[i] in after && after[order'[i]].ordinal == i {
      if i < |order| { assert order'[i] == order[i]; }
    }
    forall c | c in after && after[c].ordinal >= 0
      ensures after[c].ordinal < |order'| && order'[after[c].ordinal] == c
    {
      if c != id { assert order'[cs[c].ordinal] == order[cs[c].ordinal]; }
    }
  }

  lemma WithChapterIsGood(b: Book, c: SourceChapter)
    requires Good(b)
    ensures Good(WithChapter(b, c))
  {
    hide Ordered, Sound, Readable, Keyed, Counted, NewPieces, Since, IngestTitle, Rows, NewTo;
    var pieces := NewPieces(c.blocks, b.minted + 1);
    NewIds(b, b.minted);
    NewPiecesAreNew(b, c);
    NewPiecesAre(c.blocks, b.minted + 1);
    AddedIsSound(b.blocks, Now(b), b.since, b.revision, b.minted, pieces);
    assert Now(WithChapter(b, c)) == Now(b)[b.minted := pieces];
    WithChapterKeeps(b, c);
    WithChapterIsReadable(b, c);
    AddedAre(b.blocks, b.revision, b.minted, pieces);
    forall p | p in pieces ensures p.id < b.minted + 1 + |c.blocks| {
    }
  }

  // ---------- what a book that was read in holds ----------

  /** Chapter `k` of the book is this chapter of the source: its title, or its place when the title is blank, and
      its blocks with their kinds, levels, texts and sources. */
  ghost predicate FromSource(b: Book, k: nat, c: SourceChapter) {
    && b.past != [] && k < |b.order| && b.order[k] in b.chapters && b.order[k] in Now(b)
    && var row, pieces := b.chapters[b.order[k]], Now(b)[b.order[k]];
       && row.ordinal == k && row.included
       && row.title == (if Strip(c.title) == "" then "Chapter " + Decimal(k + 1) else Strip(c.title))
       && |pieces| == |c.blocks|
       && forall i :: 0 <= i < |pieces| ==>
            && pieces[i].kind == c.blocks[i].kind && pieces[i].level == c.blocks[i].level
            && pieces[i].text == c.blocks[i].text && pieces[i].source == c.blocks[i].source
  }

  /** The chapters of the first book stand unchanged at the start of the second. */
  ghost predicate Extends(b: Book, b': Book) {
    && b.past != [] && b'.past != [] && b.order <= b'.order
    && (forall c :: c in b.chapters ==> c in b'.chapters && b'.chapters[c] == b.chapters[c])
    && (forall c :: c in Now(b) ==> c in Now(b') && Now(b')[c] == Now(b)[c])
  }

  lemma OneChapterHolds(b: Book, c: SourceChapter)
    requires Good(b) && b.past != []
    ensures Extends(b, WithChapter(b, c)) && FromSource(WithChapter(b, c), |b.order|, c)
  {
    hide Ordered, Sound, Readable, Keyed, Counted, Insert, Rows, Since, CharCount, Strip, Decimal;
    NewIds(b, b.minted);
    var b' := WithChapter(b, c);
    assert Now(b') == Now(b)[b.minted := NewPieces(c.blocks, b.minted + 1)];
    assert b.order <= b'.order && b'.order[|b.order|] == b.minted;
  }

  lemma StillFromSource(b: Book, b': Book, k: nat, c: SourceChapter)
    requires Extends(b, b') && FromSource(b, k, c)
    ensures FromSource(b', k, c)
  {
    hide Strip, Decimal;
    assert b'.order[k] == b.order[k];
  }

  lemma ExtendsTwice(a: Book, b: Book, c: Book)
    requires Extends(a, b) && Extends(b, c)
    ensures Extends(a, c)
  {
  }

  lemma {:induction false} ChaptersHold(b: Book, cs: seq<SourceChapter>)
    requires Good(b) && b.past != []
    ensures var b' := WithChapters(b, cs);
            && Extends(b, b') && |b'.order| == |b.order| + |cs|
            && forall k :: 0 <= k < |cs| ==> FromSource(b', |b.order| + k, cs[k])
    decreases cs
  {
    hide Good, Extends, FromSource, WithChapter;
    if cs == [] {
      ExtendsItself(b);
    } else {
      var b1 := WithChapter(b, cs[0]);
      WithChapterIsGood(b, cs[0]);
      OneChapterHolds(b, cs[0]);
      PastIsThere(b1);
      ChaptersHold(b1, cs[1..]);
      OneMoreInOrder(b, cs[0]);
      var b' := WithChapters(b1, cs[1..]);
      ExtendsTwice(b, b1, b');
      StillFromSource(b1, b', |b.order|, cs[0]);
      forall k | 0 < k < |cs| ensures FromSource(b', |b.order| + k, cs[k]) {
        assert cs[1..][k - 1] == cs[k];
      }
    }
  }

  lemma ExtendsItself(b: Book)
    requires b.past != []
    ensures Extends(b, b)
  {
  }

  lemma OneMoreInOrder(b: Book, c: SourceChapter)
    requires b.past != []
    ensures |WithChapter(b, c).order| == |b.order| + 1
  {
  }

  lemma PastIsThere(b: Book)
    requires Good(b)
    ensures b.past != []
  {
    hide Ordered, Sound, Keyed, Counted;
  }

  lemma ClearedStarts(b: Book)
    requires Good(b) && (b.chapters == map[] || b.revision == 0)
    ensures Good(Cleared(b)) && Cleared(b).past != [] && Cleared(b).order == []
  {
    PastIsThere(b);
    ClearedIsGood(b);
    hide Good;
  }

  /** A book that is read in holds the chapters of the source and nothing else. */
  lemma IngestedHolds(b: Book, cs: seq<SourceChapter>)
    requires Good(b) && (b.chapters == map[] || b.revision == 0)
    ensures var b' := WithChapters(Cleared(b), cs);
            |b'.order| == |cs| && forall k :: 0 <= k < |cs| ==> FromSource(b', k, cs[k])
  {
    hide Good, FromSource, Extends, Cleared, WithChapters;
    PastIsThere(b);
    ClearedStarts(b);
    var start := Cleared(b);
    ChaptersHold(start, cs);
    forall k | 0 <= k < |cs| ensures FromSource(WithChapters(start, cs), k, cs[k]) {
      assert FromSource(WithChapters(start, cs), |start.order| + k, cs[k]);
    }
  }
}
