/** `split` of `store/chapters.py`, on the block lists and the order of the chapters. */
module SplitEdit {
  import opened BookTables
  import opened ChapterEdits
  import opened Ordinals
  import opened Options
  import opened PyText
  import opened Versions

  function BlockPlace(pieces: seq<Piece>, id: Id): (k: nat)
    ensures k <= |pieces| && (k < |pieces| ==> pieces[k].id == id)
    ensures forall i :: 0 <= i < k ==> pieces[i].id != id
  {
    if pieces == [] || pieces[0].id == id then 0 else 1 + BlockPlace(pieces[1..], id)
  }

  /** The offset falls inside the text of the block. */
  predicate Inside(p: Piece, offset: nat) {
    0 < offset < |p.text|
  }

  /** `_split_point`: the first block that moves, when no block is divided. */
  function CutAt(p: Piece, index: nat, offset: nat): nat {
    if offset == 0 then index else index + 1
  }

  /** The two block lists of a split. A divided block keeps its id on the left. */
  function Halves(pieces: seq<Piece>, i: nat, offset: nat, fresh': Id): (seq<Piece>, seq<Piece>)
    requires i < |pieces| && offset <= |pieces[i].text|
  {
    var p := pieces[i];
    if Inside(p, offset) then
      (pieces[..i] + [p.(text := p.text[..offset])],
       [p.(id := fresh', text := p.text[offset..])] + pieces[i + 1..])
    else
      (pieces[..CutAt(p, i, offset)], pieces[CutAt(p, i, offset)..])
  }

  /** `_split_title` */
  function SplitTitle(original: string, rightText: Option<string>, rightBlocks: seq<Piece>,
                      headKind: Option<Kind>): string
  {
    if headKind == Some(Heading) && rightText.Some? && rightText.value != "" && Strip(rightText.value) != original then
      Strip(rightText.value)
    else if rightBlocks != [] && rightBlocks[0].kind == Heading
            && Strip(rightBlocks[0].text) != "" && Strip(rightBlocks[0].text) != original then
      Strip(rightBlocks[0].text)
    else
      original + " (2)"
  }

  function TitleOf(original: string, pieces: seq<Piece>, i: nat, offset: nat): string
    requires i < |pieces| && offset <= |pieces[i].text|
  {
    var p := pieces[i];
    if Inside(p, offset) then SplitTitle(original, Some(p.text[offset..]), pieces[i + 1..], Some(p.kind))
    else SplitTitle(original, None, pieces[CutAt(p, i, offset)..], None)
  }

  /** The new chapter never has the title of the old one, and it has no title at all if and only if the
      block that is divided is a heading whose right half is white space. */
  lemma EmptyTitleExactly(original: string, pieces: seq<Piece>, i: nat, offset: nat)
    requires i < |pieces| && offset <= |pieces[i].text|
    ensures TitleOf(original, pieces, i, offset) != original
    ensures TitleOf(original, pieces, i, offset) == "" <==>
              Inside(pieces[i], offset) && pieces[i].kind == Heading && Strip(pieces[i].text[offset..]) == ""
                  && original != ""
  {
    hide Strip;
    assert |original + " (2)"| > |original|;
  }

  /** The text of a heading, when it can give the second chapter its title. */
  ghost predicate Names(p: Piece, original: string) {
    p.kind == Heading && Strip(p.text) != "" && Strip(p.text) != original
  }

  /** The second chapter is named after the heading it starts with; when a block is divided and its second half is
      no such heading, after a heading right behind it; and otherwise after the first chapter. A heading's
      second half that is blank still counts. */
  lemma TitleIsFirstHeading(original: string, pieces: seq<Piece>, i: nat, offset: nat, fresh': Id)
    requires i < |pieces| && offset <= |pieces[i].text|
    ensures var right, title := Halves(pieces, i, offset, fresh').1, TitleOf(original, pieces, i, offset);
            if right != [] && Names(right[0], original) then title == Strip(right[0].text)
            else if Inside(pieces[i], offset) && right[0].kind == Heading && Strip(right[0].text) != original then
              title == ""
            else if Inside(pieces[i], offset) && |right| > 1 && Names(right[1], original) then
              title == Strip(right[1].text)
            else title == original + " (2)"
  {
    hide Strip;
    var right := Halves(pieces, i, offset, fresh').1;
    if Inside(pieces[i], offset) {
      assert right[0].kind == pieces[i].kind && right[0].text == pieces[i].text[offset..] && right[0].text != "";
      assert right[1..] == pieces[i + 1..];
      assert |right| > 1 ==> right[1] == pieces[i + 1];
    }
  }

  /** A heading with a space at its end, divided before the space. */
  lemma SplitLosesTitle(id: Id, original: string)
    requires original != ""
    ensures var pieces := [Piece(id, Heading, Some(1), "I ", None)];
            Inside(pieces[0], 1) && TitleOf(original, pieces, 0, 1) == ""
  {
    var pieces := [Piece(id, Heading, Some(1), "I ", None)];
    EmptyTitleExactly(original, pieces, 0, 1);
    assert "I "[1..] == " " && " "[1..] == "";
    assert LStrip(" ") == LStrip("") == "";
  }

  ghost function SplitError(b: Book, chapter: Id, block: Id, offset: nat): Option<Error>
    requires b.past != [] && Keyed(b.order, Now(b))
  {
    if chapter !in b.order then Some(ChapterNotFound)
    else
      var pieces := Now(b)[chapter];
      var i := BlockPlace(pieces, block);
      if i == |pieces| then Some(BlockNotFound)
      else if offset > |pieces[i].text| then Some(OutOfRange)
      else if !Inside(pieces[i], offset)
          && (CutAt(pieces[i], i, offset) == 0 || CutAt(pieces[i], i, offset) == |pieces|) then
        Some(EmptySide)
      else if |b.tombs| >= 1_000_000 && PlaceOf(b.order, chapter) + 1 < |b.order| then Some(Integrity)
      else None
  }

  function SplitContents(contents: Contents, chapter: Id, created: Id, halves: (seq<Piece>, seq<Piece>)): Contents {
    contents[chapter := halves.0][created := halves.1]
  }

  ghost predicate CanSplit(b: Book, k: nat, i: nat, offset: nat) {
    && b.past != [] && k < |b.order| && b.order[k] in Now(b) && b.order[k] in b.chapters
    && i < |Now(b)[b.order[k]]| && offset <= |Now(b)[b.order[k]][i].text|
  }

  /** The chapter at `k` was split in its block `i`; the new chapter comes right behind it. */
  ghost predicate IsSplit(b: Book, b': Book, k: nat, i: nat, offset: nat)
    requires CanSplit(b, k, i, offset)
  {
    var chapter, created := b.order[k], b.minted;
    var pieces := Now(b)[chapter];
    && b'.revision == b.revision + 1
    && b'.past == b.past + [SplitContents(Now(b), chapter, created, Halves(pieces, i, offset, b.minted + 1))]
    && b'.order == b.order[..k + 1] + [created] + b.order[k + 1..] && b'.tombs == b.tombs
    && b'.chapters.Keys == b.chapters.Keys + {created} && SameTitles(b.chapters, b'.chapters)
    && b'.chapters[created].title == TitleOf(b.chapters[chapter].title, pieces, i, offset)
    && b'.chapters[created].included == b.chapters[chapter].included
  }

  // ---------- the rewrite ----------

  function TailIds(pieces: seq<Piece>, k: nat): set<Id>
    requires k <= |pieces|
  {
    PieceIds(pieces[k..])
  }

  lemma InTail(t: Table, contents: Contents, since: map<Id, nat>, revision: nat, row: Row, c: Id, k: nat)
    requires Sound(t, contents, since, revision) && Placed(contents, row) && c in contents && k <= |contents[c]|
    ensures row.piece.id in TailIds(contents[c], k) <==> row.chapter == c && row.ordinal >= k
  {
    var pieces := contents[c];
    if row.piece.id in TailIds(pieces, k) {
      var p :| p in pieces[k..] && p.id == row.piece.id;
      var j :| 0 <= j < |pieces[k..]| && pieces[k..][j] == p;
      NoBlockTwice(t, contents, since, revision, row, Row(p, c, k + j));
    }
    if row.chapter == c && row.ordinal >= k { assert pieces[k..][row.ordinal - k] == row.piece; }
  }

  lemma RowsAre(pieces: seq<Piece>, chapter: Id, start: nat, row: Row)
    ensures row in Rows(pieces, chapter, start) <==>
            row.chapter == chapter && start <= row.ordinal < start + |pieces|
                && row.piece == pieces[row.ordinal - start]
  {
    var rows := Rows(pieces, chapter, start);
    if row.chapter == chapter && start <= row.ordinal < start + |pieces| && row.piece == pieces[row.ordinal - start] {
      assert rows[row.ordinal - start] == row;
    }
  }

  /** Ids that may stand in the new rows: those of the closed blocks, and new ones. */
  ghost predicate Fresh(t: Table, gone: set<Id>, pieces: seq<Piece>) {
    forall p :: p in pieces ==> p.id in gone || (forall v :: v in t ==> v.id != p.id)
  }

  lemma RowsDiffer(ls: seq<Piece>, rs: seq<Piece>, chapter: Id, k: nat, created: Id)
    requires DistinctPieces(ls + rs)
    ensures DistinctRows(Rows(ls, chapter, k) + Rows(rs, created, 0))
  {
    var rows := Rows(ls, chapter, k) + Rows(rs, created, 0);
    forall i | 0 <= i < |rows| ensures rows[i].piece == (ls + rs)[i] {
    }
  }

  lemma SplitLeads(t: Table, contents: Contents, since: map<Id, nat>, revision: nat,
                   chapter: Id, created: Id, k: nat, ls: seq<Piece>, rs: seq<Piece>)
    requires Sound(t, contents, since, revision) && chapter in contents && created !in contents
    requires k <= |contents[chapter]| && DistinctPieces(ls + rs) && Fresh(t, TailIds(contents[chapter], k), ls + rs)
    ensures Leads(t, contents, SplitContents(contents, chapter, created, (contents[chapter][..k] + ls, rs)),
                  TailIds(contents[chapter], k), Rows(ls, chapter, k) + Rows(rs, created, 0))
  {
    var pieces := contents[chapter];
    var after := SplitContents(contents, chapter, created, (pieces[..k] + ls, rs));
    var gone := TailIds(pieces, k);
    var rows := Rows(ls, chapter, k) + Rows(rs, created, 0);
    RowsDiffer(ls, rs, chapter, k, created);
    forall j | 0 <= j < |rows| ensures Placed(after, rows[j]) && rows[j].piece in ls + rs {
      if j < |ls| { assert rows[j] == Row(ls[j], chapter, k + j); }
      else { assert rows[j] == Row(rs[j - |ls|], created, j - |ls|); }
    }
    forall row | Placed(after, row) ensures row in rows || (Placed(contents, row) && row.piece.id !in gone) {
      RowsAre(ls, chapter, k, row);
      RowsAre(rs, created, 0, row);
      if row !in rows { InTail(t, contents, since, revision, row, chapter, k); }
    }
    forall row | Placed(contents, row) && row.piece.id !in gone ensures Placed(after, row) {
      InTail(t, contents, since, revision, row, chapter, k);
    }
  }

  // ---------- the pieces of a split ----------

  /** How many blocks of the left half are not rewritten. */
  function KeptOf(pieces: seq<Piece>, i: nat, offset: nat): nat
    requires i < |pieces| && offset <= |pieces[i].text|
  {
    if Inside(pieces[i], offset) then i else CutAt(pieces[i], i, offset)
  }

  /** What is rewritten in the old chapter: the left half of a divided block. */
  function LeftOf(pieces: seq<Piece>, i: nat, offset: nat): seq<Piece>
    requires i < |pieces| && offset <= |pieces[i].text|
  {
    if Inside(pieces[i], offset) then [pieces[i].(text := pieces[i].text[..offset])] else []
  }

  lemma HalvesAre(pieces: seq<Piece>, i: nat, offset: nat, fresh': Id)
    requires i < |pieces| && offset <= |pieces[i].text|
    ensures KeptOf(pieces, i, offset) <= |pieces|
    ensures Halves(pieces, i, offset, fresh').0 == pieces[..KeptOf(pieces, i, offset)] + LeftOf(pieces, i, offset)
  {
  }

  lemma HalvesFit(t: Table, pieces: seq<Piece>, i: nat, offset: nat, fresh': Id)
    requires i < |pieces| && offset <= |pieces[i].text| && DistinctPieces(pieces)
    requires (forall v :: v in t ==> v.id != fresh') && (forall p :: p in pieces ==> p.id != fresh')
    ensures var ls, rs := LeftOf(pieces, i, offset), Halves(pieces, i, offset, fresh').1;
            DistinctPieces(ls + rs) && Fresh(t, TailIds(pieces, KeptOf(pieces, i, offset)), ls + rs)
  {
    var ls, rs := LeftOf(pieces, i, offset), Halves(pieces, i, offset, fresh').1;
    if Inside(pieces[i], offset) {
      DividedFits(t, pieces, i, ls[0], rs[0], fresh');
      assert ls == [ls[0]] && rs == [rs[0]] + pieces[i + 1..];
    } else {
      assert ls + rs == pieces[KeptOf(pieces, i, offset)..];
    }
  }

  lemma DividedFits(t: Table, pieces: seq<Piece>, i: nat, left: Piece, right: Piece, fresh': Id)
    requires i < |pieces| && DistinctPieces(pieces) && left.id == pieces[i].id && right.id == fresh'
    requires (forall v :: v in t ==> v.id != fresh') && (forall p :: p in pieces ==> p.id != fresh')
    ensures DistinctPieces([left] + ([right] + pieces[i + 1..]))
    ensures Fresh(t, TailIds(pieces, i), [left] + ([right] + pieces[i + 1..]))
  {
    var all, tail := [left] + ([right] + pieces[i + 1..]), pieces[i..];
    forall j | 2 <= j < |all| ensures all[j] == pieces[i + j - 1] && all[j] in pieces && all[j] in tail {
      assert all[j] == pieces[i + 1..][j - 2];
      assert tail[j - 1] == all[j];
    }
    assert pieces[i] in pieces && tail[0] == pieces[i] && tail[0] in tail;
  }

  // ---------- the order of the chapters ----------

  function SplitOrder(order: seq<Id>, k: nat, created: Id): seq<Id>
    requires k < |order|
  {
    order[..k + 1] + [created] + order[k + 1..]
  }

  /** The chapters behind make room and the new one takes its place. */
  lemma SplitOrders(cs: Chapters, order: seq<Id>, tombs: seq<Id>, k: nat, created: Id, row: Chapter)
    requires Ordered(cs, order, tombs) && k < |order| && created !in cs && row.ordinal == k + 1
    ensures Unique(Shifted(cs, k + 1, 1))
    ensures forall c :: c in cs ==> Shifted(cs, k + 1, 1)[c].ordinal != k + 1
    ensures Ordered(Shifted(cs, k + 1, 1)[created := row], SplitOrder(order, k, created), tombs)
    ensures (forall c :: c in cs ==> cs[c].ordinal < k + 1) <==> k + 1 == |order|
  {
    SplitIsUnique(cs, order, tombs, k);
    SplitPlaces(cs, order, tombs, k, created, row);
    hide Unique;
    var after := Shifted(cs, k + 1, 1)[created := row];
    forall c | c in after && after[c].ordinal < 0
      ensures -1 - after[c].ordinal < |tombs| && tombs[-1 - after[c].ordinal] == c
    {
      assert c in cs && after[c] == cs[c];
    }
    forall c | c in after && after[c].ordinal >= 0
      ensures after[c].ordinal < |order| + 1 && SplitOrder(order, k, created)[after[c].ordinal] == c
    {
      if c != created { assert order[cs[c].ordinal] == c; }
    }
  }

  lemma SplitIsUnique(cs: Chapters, order: seq<Id>, tombs: seq<Id>, k: nat)
    requires Ordered(cs, order, tombs) && k < |order|
    ensures Unique(Shifted(cs, k + 1, 1))
    ensures forall c :: c in cs ==> Shifted(cs, k + 1, 1)[c].ordinal != k + 1
    ensures (forall c :: c in cs ==> cs[c].ordinal < k + 1) <==> k + 1 == |order|
  {
    OrderedIsUnique(cs, order, tombs);
    if k + 1 < |order| { assert cs[order[k + 1]].ordinal == k + 1; }
  }

  lemma SplitPlaces(cs: Chapters, order: seq<Id>, tombs: seq<Id>, k: nat, created: Id, row: Chapter)
    requires Ordered(cs, order, tombs) && k < |order| && created !in cs && row.ordinal == k + 1
    ensures var after, order' := Shifted(cs, k + 1, 1)[created := row], SplitOrder(order, k, created);
            forall i :: 0 <= i < |order'| ==> order'[i] in after && after[order'[i]].ordinal == i
  {
    var after := Shifted(cs, k + 1, 1)[created := row];
    var order' := SplitOrder(order, k, created);
    forall i | 0 <= i < |order'| ensures order'[i] in after && after[order'[i]].ordinal == i {
      assert order'[i] == if i <= k then order[i] else if i == k + 1 then created else order[i - 1];
    }
  }

  lemma SplitKeyed(order: seq<Id>, contents: Contents, k: nat, created: Id, halves: (seq<Piece>, seq<Piece>))
    requires Keyed(order, contents) && k < |order|
    ensures Keyed(SplitOrder(order, k, created), SplitContents(contents, order[k], created, halves))
  {
    assert order == order[..k + 1] + order[k + 1..];
    assert order[k] in order;
    forall c ensures c in SplitOrder(order, k, created) <==> c in order || c == created {
    }
  }

  // ---------- the book after a split ----------

  function SplitChapters(b: Book, k: nat, i: nat, offset: nat): Chapters
    requires CanSplit(b, k, i, offset)
  {
    var chapter, created := b.order[k], b.minted;
    var row := b.chapters[chapter];
    var halves := Halves(Now(b)[chapter], i, offset, b.minted + 1);
    var made := Chapter(k + 1, TitleOf(row.title, Now(b)[chapter], i, offset), row.included, 0);
    var cs := Shifted(b.chapters, k + 1, 1)[created := made];
    cs[chapter := cs[chapter].(charCount := CharCount(halves.0))][created := made.(charCount := CharCount(halves.1))]
  }

  function SplitRows(b: Book, k: nat, i: nat, offset: nat): seq<Row>
    requires CanSplit(b, k, i, offset)
  {
    var pieces := Now(b)[b.order[k]];
    Rows(LeftOf(pieces, i, offset), b.order[k], KeptOf(pieces, i, offset))
    + Rows(Halves(pieces, i, offset, b.minted + 1).1, b.minted, 0)
  }

  function SplitAfter(b: Book, k: nat, i: nat, offset: nat): Contents
    requires CanSplit(b, k, i, offset)
  {
    SplitContents(Now(b), b.order[k], b.minted, Halves(Now(b)[b.order[k]], i, offset, b.minted + 1))
  }

  function SplitMinted(b: Book, k: nat, i: nat, offset: nat): nat
    requires CanSplit(b, k, i, offset)
  {
    if Inside(Now(b)[b.order[k]][i], offset) then b.minted + 2 else b.minted + 1
  }

  function SplitBook(b: Book, k: nat, i: nat, offset: nat): Book
    requires CanSplit(b, k, i, offset)
  {
    var pieces := Now(b)[b.order[k]];
    NextBook(b, TailIds(pieces, KeptOf(pieces, i, offset)), SplitRows(b, k, i, offset), SplitAfter(b, k, i, offset),
             SplitChapters(b, k, i, offset), SplitMinted(b, k, i, offset),
             SplitOrder(b.order, k, b.minted), b.tombs)
  }

  lemma SplitChaptersAre(b: Book, k: nat, i: nat, offset: nat)
    requires CanSplit(b, k, i, offset) && b.minted !in b.chapters
    requires b.order[k] in b.chapters && b.chapters[b.order[k]].ordinal == k
    ensures var cs := SplitChapters(b, k, i, offset);
            var row := Chapter(k + 1, cs[b.minted].title, cs[b.minted].included, cs[b.minted].charCount);
            var bare := Shifted(b.chapters, k + 1, 1)[b.minted := row];
            && cs.Keys == b.chapters.Keys + {b.minted} == bare.Keys
            && (forall c :: c in bare ==> cs[c].ordinal == bare[c].ordinal)
    ensures SameTitles(b.chapters, SplitChapters(b, k, i, offset))
  {
    hide CharCount, Halves, TitleOf;
  }

  lemma SplitIsOrdered(b: Book, k: nat, i: nat, offset: nat)
    requires CanSplit(b, k, i, offset) && b.minted !in b.chapters && Ordered(b.chapters, b.order, b.tombs)
    ensures Ordered(SplitChapters(b, k, i, offset), SplitOrder(b.order, k, b.minted), b.tombs)
  {
    hide Ordered, SplitChapters, Unique, SplitOrder, Halves;
    KthIsLive(b.chapters, b.order, b.tombs, k);
    SplitChaptersAre(b, k, i, offset);
    var cs := SplitChapters(b, k, i, offset);
    var row := Chapter(k + 1, cs[b.minted].title, cs[b.minted].included, cs[b.minted].charCount);
    SplitOrders(b.chapters, b.order, b.tombs, k, b.minted, row);
    SameOrdinals(Shifted(b.chapters, k + 1, 1)[b.minted := row], cs, SplitOrder(b.order, k, b.minted), b.tombs);
  }

  lemma SplitIsCounted(b: Book, k: nat, i: nat, offset: nat)
    requires CanSplit(b, k, i, offset) && b.minted !in b.chapters && Counted(b.chapters, Now(b))
    ensures Counted(SplitChapters(b, k, i, offset), SplitAfter(b, k, i, offset))
  {
    hide CharCount, Halves, TitleOf;
  }

  lemma SplitRowsMinted(b: Book, k: nat, i: nat, offset: nat)
    requires CanSplit(b, k, i, offset) && Good(b)
    ensures forall r :: r in SplitRows(b, k, i, offset) ==> r.piece.id < SplitMinted(b, k, i, offset)
  {
    hide Good, Rows, Now;
    var pieces := Now(b)[b.order[k]];
    forall j | 0 <= j < |pieces| ensures pieces[j].id < b.minted {
      PlacedIsMinted(b, Row(pieces[j], b.order[k], j));
    }
    forall r | r in SplitRows(b, k, i, offset) ensures r.piece.id < SplitMinted(b, k, i, offset) {
      RowsAre(LeftOf(pieces, i, offset), b.order[k], KeptOf(pieces, i, offset), r);
      RowsAre(Halves(pieces, i, offset, b.minted + 1).1, b.minted, 0, r);
    }
  }

  lemma NewIds(b: Book, fresh': Id)
    requires Good(b) && fresh' >= b.minted
    ensures fresh' !in b.chapters && fresh' !in Now(b)
    ensures forall v :: v in b.blocks ==> v.id != fresh'
    ensures forall row :: Placed(Now(b), row) ==> row.piece.id != fresh'
  {
    hide Sound, Readable;
    OrderedIsUnique(b.chapters, b.order, b.tombs);
    forall row | Placed(Now(b), row) ensures row.piece.id != fresh' { PlacedIsMinted(b, row); }
  }

  lemma SplitIsSplit(b: Book, k: nat, i: nat, offset: nat)
    requires CanSplit(b, k, i, offset) && b.minted !in b.chapters
    requires b.chapters[b.order[k]].ordinal == k
    ensures IsSplit(b, SplitBook(b, k, i, offset), k, i, offset)
  {
    hide CharCount, Halves, TitleOf, Rewrite, Since, SplitRows, TailIds, KeptOf, SplitMinted;
    SplitChaptersAre(b, k, i, offset);
  }

  lemma SplitIsGood(b: Book, k: nat, i: nat, offset: nat)
    requires Good(b) && CanSplit(b, k, i, offset)
    ensures Good(SplitBook(b, k, i, offset)) && IsSplit(b, SplitBook(b, k, i, offset), k, i, offset)
  {
    hide Ordered, Sound, Readable, Leads, Counted, Minted, Keyed, Rewrite, Rows, TailIds, Halves, LeftOf, KeptOf,
         SplitContents, SplitOrder, SameTitles, TitleOf, DistinctPieces, Fresh, SplitRows;
    var chapter, pieces := b.order[k], Now(b)[b.order[k]];
    NewIds(b, b.minted);
    NewIds(b, b.minted + 1);
    KthIsLive(b.chapters, b.order, b.tombs, k);
    SplitChaptersAre(b, k, i, offset);
    SplitIsOrdered(b, k, i, offset);
    SplitIsSplit(b, k, i, offset);
    SplitIsCounted(b, k, i, offset);
    SplitKeyed(b.order, Now(b), k, b.minted, Halves(pieces, i, offset, b.minted + 1));
    SplitRowsMinted(b, k, i, offset);
    SplitLeadsHere(b, k, i, offset);
    MintedOnce(b, SplitChapters(b, k, i, offset), SplitMinted(b, k, i, offset));
    NextIsGood(b, TailIds(pieces, KeptOf(pieces, i, offset)), SplitRows(b, k, i, offset), SplitAfter(b, k, i, offset),
               SplitChapters(b, k, i, offset), SplitMinted(b, k, i, offset), SplitOrder(b.order, k, b.minted), b.tombs);
  }

  lemma MintedOnce(b: Book, cs: Chapters, minted: nat)
    requires Minted(b.chapters, b.blocks, b.minted) && b.minted < minted
    requires cs.Keys == b.chapters.Keys + {b.minted}
    ensures forall c :: c in cs ==> c < minted
  {
    forall c | c in cs ensures c < minted {
      assert c in cs.Keys;
    }
  }

  lemma SplitLeadsHere(b: Book, k: nat, i: nat, offset: nat)
    requires Good(b) && CanSplit(b, k, i, offset)
    ensures KeptOf(Now(b)[b.order[k]], i, offset) <= |Now(b)[b.order[k]]|
    ensures var pieces := Now(b)[b.order[k]];
            Leads(b.blocks, Now(b), SplitAfter(b, k, i, offset),
                  TailIds(pieces, KeptOf(pieces, i, offset)), SplitRows(b, k, i, offset))
  {
    hide Ordered, Sound, Readable, Leads, Counted, Minted, Keyed, TailIds, DistinctPieces, Fresh, Rows, SplitContents,
         LeftOf, KeptOf, Halves;
    var chapter, pieces := b.order[k], Now(b)[b.order[k]];
    var halves := Halves(pieces, i, offset, b.minted + 1);
    NewIds(b, b.minted);
    NewIds(b, b.minted + 1);
    PiecesDiffer(b.blocks, Now(b), b.since, b.revision, chapter);
    forall p | p in pieces ensures p.id != b.minted + 1 {
      var j :| 0 <= j < |pieces| && pieces[j] == p;
      assert Placed(Now(b), Row(p, chapter, j));
    }
    HalvesAre(pieces, i, offset, b.minted + 1);
    HalvesFit(b.blocks, pieces, i, offset, b.minted + 1);
    SplitLeads(b.blocks, Now(b), b.since, b.revision, chapter, b.minted, KeptOf(pieces, i, offset),
               LeftOf(pieces, i, offset), halves.1);
    assert (pieces[..KeptOf(pieces, i, offset)] + LeftOf(pieces, i, offset), halves.1) == halves;
  }

  // ---------- what a split keeps ----------

  function TextOf(pieces: seq<Piece>): string {
    if pieces == [] then "" else pieces[0].text + TextOf(pieces[1..])
  }

  lemma {:induction false} ExtractableJoins(a: string, b: string)
    ensures Extractable(a + b) == Extractable(a) + Extractable(b)
  {
    hide IsSpace;
    if a == "" {
      assert a + b == b;
    } else {
      assert (a + b)[1..] == a[1..] + b;
      ExtractableJoins(a[1..], b);
    }
  }

  lemma {:induction false} CountIsExtractable(pieces: seq<Piece>)
    ensures CharCount(pieces) == Extractable(TextOf(pieces))
  {
    hide IsSpace;
    if pieces != [] {
      CountIsExtractable(pieces[1..]);
      ExtractableJoins(pieces[0].text, TextOf(pieces[1..]));
    }
  }

  /** The count of a chapter is the number of characters of its text that are no white space. */
  lemma CharCountIsInk(pieces: seq<Piece>)
    ensures CharCount(pieces) == |InkFrom(TextOf(pieces), 0)|
  {
    CountIsExtractable(pieces);
    ExtractableIsInk(TextOf(pieces), 0);
    assert TextOf(pieces)[0..] == TextOf(pieces);
  }

  lemma {:induction false} TextJoins(xs: seq<Piece>, ys: seq<Piece>)
    ensures TextOf(xs + ys) == TextOf(xs) + TextOf(ys)
  {
    if xs == [] {
      assert xs + ys == ys;
    } else {
      assert (xs + ys)[1..] == xs[1..] + ys;
      TextJoins(xs[1..], ys);
    }
  }

  lemma DividedText(front: seq<Piece>, p: Piece, left: Piece, right: Piece, back: seq<Piece>)
    requires p.text == left.text + right.text
    ensures TextOf(front + [left]) + TextOf([right] + back) == TextOf(front + ([p] + back))
  {
    TextJoins(front, [p] + back);
    TextJoins([p], back);
    TextJoins(front, [left]);
    TextJoins([right], back);
    assert TextOf([p]) == p.text && TextOf([left]) == left.text && TextOf([right]) == right.text;
    hide TextOf;
    var x, y := TextOf(front), TextOf(back);
    assert (x + left.text) + (right.text + y) == x + ((left.text + right.text) + y);
  }

  /** And the reader's characters of the halves are together those of the chapter. */
  lemma SplitKeepsCount(pieces: seq<Piece>, i: nat, offset: nat, fresh': Id)
    requires i < |pieces| && offset <= |pieces[i].text|
    ensures var halves := Halves(pieces, i, offset, fresh');
            CharCount(halves.0) + CharCount(halves.1) == CharCount(pieces)
  {
    var p := pieces[i];
    if Inside(p, offset) {
      var left, right := p.(text := p.text[..offset]), p.(id := fresh', text := p.text[offset..]);
      var front, back := pieces[..i], pieces[i + 1..];
      assert pieces == front + ([p] + back) && p.text == left.text + right.text;
      CharCountJoins(front, [p] + back);
      CharCountJoins(front, [left]);
      OneMoreCount(p, back);
      OneMoreCount(right, back);
      OneMoreCount(left, []);
      assert [left] + [] == [left];
      ExtractableJoins(left.text, right.text);
    } else {
      var cut := CutAt(p, i, offset);
      assert pieces == pieces[..cut] + pieces[cut..];
      CharCountJoins(pieces[..cut], pieces[cut..]);
    }
  }

  lemma OneMoreCount(p: Piece, rest: seq<Piece>)
    ensures CharCount([p] + rest) == Extractable(p.text) + CharCount(rest)
  {
    assert ([p] + rest)[1..] == rest;
  }

  /** A split cuts the text of the chapter at the offset in its block, and no piece is made empty: the halves of a
      divided block keep its kind, level and source, and only the second one has a new id. */
  lemma SplitCutsThere(pieces: seq<Piece>, i: nat, offset: nat, fresh': Id)
    requires i < |pieces| && offset <= |pieces[i].text|
    ensures var (ls, rs) := Halves(pieces, i, offset, fresh');
            var p := pieces[i];
            && TextOf(ls) == TextOf(pieces[..i]) + p.text[..offset]
            && TextOf(rs) == p.text[offset..] + TextOf(pieces[i + 1..])
            && (if offset == 0 then ls == pieces[..i] && rs == pieces[i..]
                else if offset == |p.text| then ls == pieces[..i + 1] && rs == pieces[i + 1..]
                else ls == pieces[..i] + [Piece(p.id, p.kind, p.level, p.text[..offset], p.source)]
                     && rs == [Piece(fresh', p.kind, p.level, p.text[offset..], p.source)] + pieces[i + 1..])
  {
    var p := pieces[i];
    var (ls, rs) := Halves(pieces, i, offset, fresh');
    if Inside(p, offset) {
      var left, right := p.(text := p.text[..offset]), p.(id := fresh', text := p.text[offset..]);
      TextJoins(pieces[..i], [left]);
      TextOfOne(left);
      assert rs[1..] == pieces[i + 1..];
    } else if offset == 0 {
      assert p.text[..0] == "" && p.text[0..] == p.text && TextOf(pieces[..i]) + "" == TextOf(pieces[..i]);
      assert rs[0] == p && rs[1..] == pieces[i + 1..];
    } else {
      assert ls == pieces[..i] + [p] && p.text[..offset] == p.text && p.text[offset..] == "";
      TextJoins(pieces[..i], [p]);
      TextOfOne(p);
    }
  }

  lemma TextOfOne(p: Piece)
    ensures TextOf([p]) == p.text
  {
    assert [p][1..] == [] && p.text + "" == p.text;
  }

  /** A split at any legal offset keeps the characters of the chapter, in order. */
  lemma SplitKeepsText(pieces: seq<Piece>, i: nat, offset: nat, fresh': Id)
    requires i < |pieces| && offset <= |pieces[i].text|
    ensures var halves := Halves(pieces, i, offset, fresh');
            TextOf(halves.0) + TextOf(halves.1) == TextOf(pieces)
  {
    var p := pieces[i];
    if Inside(p, offset) {
      var left, right := p.(text := p.text[..offset]), p.(id := fresh', text := p.text[offset..]);
      assert pieces == pieces[..i] + ([p] + pieces[i + 1..]);
      assert p.text == left.text + right.text;
      DividedText(pieces[..i], p, left, right, pieces[i + 1..]);
    } else {
      var cut := CutAt(p, i, offset);
      assert pieces == pieces[..cut] + pieces[cut..];
      TextJoins(pieces[..cut], pieces[cut..]);
    }
  }

  /** Merging right after a split at a block boundary restores the block lists and the order. */
  lemma MergeUndoesSplit(b: Book, b1: Book, b2: Book, k: nat, i: nat, offset: nat)
    requires Good(b) && CanSplit(b, k, i, offset) && !Inside(Now(b)[b.order[k]][i], offset)
    requires IsSplit(b, b1, k, i, offset) && IsMerge(b1, b2, k + 1)
    ensures Now(b2) == Now(b) && b2.order == b.order
    ensures SameTitles(b.chapters, b2.chapters)
  {
    hide Good;
    NewIds(b, b.minted);
    var chapter, pieces := b.order[k], Now(b)[b.order[k]];
    assert pieces == pieces[..CutAt(pieces[i], i, offset)] + pieces[CutAt(pieces[i], i, offset)..];
    assert b1.order[k] == chapter && b1.order[k + 1] == b.minted;
    assert b2.order == b.order;
  }

  // ---------- the writes of a split ----------

  lemma MovedText(t: Table, chapter: Id, pieces: seq<Piece>, keys: seq<Version>, i: nat, text: string)
    requires ReadsBack(t, chapter, pieces, keys) && i < |keys|
    ensures keys[i] in t
            && Moved(t, [keys[i]], chapter, i, Some([text])) == Rows([pieces[i].(text := text)], chapter, i)
    ensures KeyIds([keys[i]]) == {pieces[i].id}
  {
    assert [keys[i]][0] == keys[i];
  }

  /** The blocks from `i` on, read before and moved after the left half was written. */
  lemma MovedTail(t: Table, u: Table, chapter: Id, pieces: seq<Piece>, keys: seq<Version>, i: nat, created: Id,
                  start: nat)
    requires ReadsBack(t, chapter, pieces, keys) && i <= |keys|
    requires forall v :: v in keys[i..] ==> v in t && v in u && u[v] == t[v]
    ensures Moved(u, keys[i..], created, start, None) == Rows(pieces[i..], created, start)
    ensures KeyIds(keys[i..]) == TailIds(pieces, i)
  {
    var ks, ps := keys[i..], pieces[i..];
    forall j | 0 <= j < |ks| ensures ks[j].id == ps[j].id && u[ks[j]].row.piece == ps[j] {
      assert ks[j] in ks && ks[j] == keys[i + j] && ps[j] == pieces[i + j];
    }
    SameIds(ks, ps);
  }

  lemma SameIds(ks: seq<Version>, ps: seq<Piece>)
    requires |ks| == |ps| && forall j :: 0 <= j < |ks| ==> ks[j].id == ps[j].id
    ensures KeyIds(ks) == PieceIds(ps)
  {
    forall id | id in PieceIds(ps) ensures id in KeyIds(ks) {
      var p :| p in ps && p.id == id;
      var j :| 0 <= j < |ps| && ps[j] == p;
      assert ks[j] in ks;
    }
    forall id | id in KeyIds(ks) ensures id in PieceIds(ps) {
      var v :| v in ks && v.id == id;
      var j :| 0 <= j < |ks| && ks[j] == v;
      assert ps[j] in ps;
    }
  }

  /** The tail of a chapter can be moved after its divided block was rewritten and the right half was
      inserted. */
  lemma TailStillThere(t: Table, keys: seq<Version>, i: nat, left: Row, right: Row, revision: nat)
    requires Replaceable(t, keys, revision) && i < |keys|
    requires left.piece.id == keys[i].id && (forall v :: v in t ==> v.id != right.piece.id)
    ensures var u := Rewrite(Rewrite(t, {keys[i].id}, [left], revision), {}, [right], revision);
            && Replaceable(u, keys[i + 1..], revision)
            && (forall v :: v in keys[i + 1..] ==> v in t && u[v] == t[v])
    ensures IdsOf([left, right]) !! KeyIds(keys[i + 1..])
    ensures left.piece.id != right.piece.id
  {
    var tail := keys[i + 1..];
    SomeAreReplaceable(t, keys, i + 1, |keys|, revision);
    assert keys[i] in keys;
    forall v | v in tail ensures v.id != keys[i].id && v.id != right.piece.id {
      var j :| 0 <= j < |tail| && tail[j] == v;
      assert keys[i + 1 + j] == v;
    }
    RewriteTwice(t, {keys[i].id}, [left], {}, [right], revision);
    assert {keys[i].id} + {} == {keys[i].id} && [left] + [right] == [left, right];
    ReplaceableAfter(t, tail, {keys[i].id}, [left, right], revision);
  }

  /** All the writes of a divided block are one rewrite. */
  lemma DividedRows(t: Table, pieces: seq<Piece>, i: nat, offset: nat, chapter: Id, created: Id, fresh': Id,
                    revision: nat)
    requires i < |pieces| && Inside(pieces[i], offset) && DistinctPieces(pieces)
    requires forall p :: p in pieces ==> p.id != fresh'
    ensures var p := pieces[i];
            var left, right := p.(text := p.text[..offset]), p.(id := fresh', text := p.text[offset..]);
            Rewrite(Rewrite(Rewrite(t, {p.id}, Rows([left], chapter, i), revision), {}, Rows([right], created, 0),
                            revision),
                    TailIds(pieces, i + 1), Rows(pieces[i + 1..], created, 1), revision)
            == Rewrite(t, TailIds(pieces, i), Rows([left], chapter, i) + Rows([right] + pieces[i + 1..], created, 0),
                       revision)
  {
    var p := pieces[i];
    var left, right := p.(text := p.text[..offset]), p.(id := fresh', text := p.text[offset..]);
    var ls, rs, tail := Rows([left], chapter, i), Rows([right], created, 0), Rows(pieces[i + 1..], created, 1);
    RightRows(right, pieces[i + 1..], created);
    TailDiffers(pieces, i, fresh');
    assert IdsOf(ls) <= {p.id} && IdsOf(ls + rs) <= {p.id, fresh'} by {
      assert ls == [Row(left, chapter, i)] && rs == [Row(right, created, 0)];
      assert ls + rs == [Row(left, chapter, i), Row(right, created, 0)];
    }
    hide Rewrite, TailIds, DistinctPieces, Rows, IdsOf;
    RewriteTwice(t, {p.id}, ls, {}, rs, revision);
    assert {p.id} + {} == {p.id};
    RewriteTwice(t, {p.id}, ls + rs, TailIds(pieces, i + 1), tail, revision);
    assert (ls + rs) + tail == ls + (rs + tail);
  }

  lemma RightRows(right: Piece, rest: seq<Piece>, created: Id)
    ensures Rows([right] + rest, created, 0) == Rows([right], created, 0) + Rows(rest, created, 1)
  {
  }

  lemma TailDiffers(pieces: seq<Piece>, i: nat, fresh': Id)
    requires i < |pieces| && DistinctPieces(pieces) && forall p :: p in pieces ==> p.id != fresh'
    ensures {pieces[i].id, fresh'} !! TailIds(pieces, i + 1)
    ensures {pieces[i].id} + TailIds(pieces, i + 1) == TailIds(pieces, i)
  {
    var tail := pieces[i + 1..];
    forall p | p in tail ensures p.id != pieces[i].id && p.id != fresh' {
      var j :| 0 <= j < |tail| && tail[j] == p;
      assert pieces[i + 1 + j] == p;
    }
    assert pieces[i..] == [pieces[i]] + tail;
  }
}
