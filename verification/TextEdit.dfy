/** The edits of `store/chapters.py` that change texts in place: a commit of the editor's text, literal
    find and replace, and accepted readings. */
module TextEdit {
  import opened BookTables
  import opened ChapterEdits
  import opened Ordinals
  import opened Options
  import opened Plain
  import opened PyText
  import opened SplitEdit
  import opened Versions
  import Apply

  // ---------- new texts for blocks that keep their place ----------

  function Retext(pieces: seq<Piece>, f: Piece -> string): seq<Piece> {
    seq(|pieces|, i requires 0 <= i < |pieces| => pieces[i].(text := f(pieces[i])))
  }

  /** The chapters of `scope` with new texts. */
  function Retexted(contents: Contents, scope: seq<Id>, f: Piece -> string): Contents {
    map c | c in contents :: if c in scope then Retext(contents[c], f) else contents[c]
  }

  /** Only character counts change in the chapter table. */
  ghost predicate SameBut(before: Chapters, after: Chapters) {
    && before.Keys == after.Keys
    && forall c :: c in before ==> after[c] == before[c].(charCount := after[c].charCount)
  }

  /** A new revision that changed no more than the texts of `scope`. */
  ghost predicate IsRetext(b: Book, b': Book, scope: seq<Id>, f: Piece -> string)
    requires b.past != []
  {
    && b'.revision == b.revision + 1 && b'.minted == b.minted
    && b'.past == b.past + [Retexted(Now(b), scope, f)]
    && b'.order == b.order && b'.tombs == b.tombs && SameBut(b.chapters, b'.chapters)
  }

  datatype Edit = Edit(key: Version, text: string)

  function EditKeys(edits: seq<Edit>): seq<Version> {
    seq(|edits|, i requires 0 <= i < |edits| => edits[i].key)
  }

  function EditRows(t: Table, edits: seq<Edit>): seq<Row>
    requires forall e :: e in edits ==> e.key in t
  {
    seq(|edits|, i requires 0 <= i < |edits| =>
      var row := t[edits[i].key].row; row.(piece := row.piece.(text := edits[i].text)))
  }

  ghost predicate DistinctEdits(edits: seq<Edit>) {
    forall i, j :: 0 <= i < j < |edits| ==> edits[i].key.id != edits[j].key.id
  }

  /** The edits are exactly the blocks of `scope` whose text changes. */
  ghost predicate Covers(t: Table, since: map<Id, nat>, contents: Contents, scope: seq<Id>, f: Piece -> string,
                         edits: seq<Edit>)
  {
    && (forall i :: 0 <= i < |edits| ==>
          && edits[i].key in t && t[edits[i].key].until.None? && Placed(contents, t[edits[i].key].row)
          && t[edits[i].key].row.chapter in scope && t[edits[i].key].row.piece.id == edits[i].key.id
          && edits[i].text == f(t[edits[i].key].row.piece) != t[edits[i].key].row.piece.text)
    && DistinctEdits(edits)
    && (forall row :: Placed(contents, row) && row.chapter in scope && f(row.piece) != row.piece.text ==>
          HasEdit(edits, row.piece.id))
  }

  predicate HasEdit(edits: seq<Edit>, id: Id) {
    id in KeyIds(EditKeys(edits))
  }

  lemma EditOf(edits: seq<Edit>, id: Id) returns (i: nat)
    requires HasEdit(edits, id)
    ensures i < |edits| && edits[i].key.id == id
  {
    var v :| v in EditKeys(edits) && v.id == id;
    i :| 0 <= i < |edits| && EditKeys(edits)[i] == v;
  }

  lemma HereIsEdit(edits: seq<Edit>, i: nat)
    requires i < |edits|
    ensures HasEdit(edits, edits[i].key.id)
  {
    assert EditKeys(edits)[i] in EditKeys(edits);
  }

  lemma RetextPlaces(contents: Contents, scope: seq<Id>, f: Piece -> string, row: Row)
    ensures Placed(contents, row) ==>
              Placed(Retexted(contents, scope, f),
                     if row.chapter in scope then row.(piece := row.piece.(text := f(row.piece))) else row)
  {
  }

  lemma RetextLeads(t: Table, contents: Contents, since: map<Id, nat>, revision: nat,
                    scope: seq<Id>, f: Piece -> string, edits: seq<Edit>)
    requires Sound(t, contents, since, revision) && Covers(t, since, contents, scope, f, edits)
    ensures forall e :: e in edits ==> e.key in t
    ensures Leads(t, contents, Retexted(contents, scope, f), KeyIds(EditKeys(edits)), EditRows(t, edits))
  {
    var after, gone, rows := Retexted(contents, scope, f), KeyIds(EditKeys(edits)), EditRows(t, edits);
    forall k | 0 <= k < |rows| ensures Placed(after, rows[k]) && rows[k].piece.id in gone {
      RetextPlaces(contents, scope, f, t[edits[k].key].row);
      HereIsEdit(edits, k);
    }
    forall row | Placed(after, row) ensures row in rows || (Placed(contents, row) && row.piece.id !in gone) {
      EditedOrKept(t, contents, since, revision, scope, f, edits, row);
    }
    forall row | Placed(contents, row) && row.piece.id !in gone ensures Placed(after, row) {
      RetextPlaces(contents, scope, f, row);
      assert row.chapter in scope ==> f(row.piece) == row.piece.text;
      assert row.piece.(text := row.piece.text) == row.piece;
    }
  }

  lemma EditedOrKept(t: Table, contents: Contents, since: map<Id, nat>, revision: nat,
                     scope: seq<Id>, f: Piece -> string, edits: seq<Edit>, row: Row)
    requires Sound(t, contents, since, revision) && Covers(t, since, contents, scope, f, edits)
    requires forall e :: e in edits ==> e.key in t
    requires Placed(Retexted(contents, scope, f), row)
    ensures row in EditRows(t, edits) || (Placed(contents, row) && !HasEdit(edits, row.piece.id))
  {
    var old' := Row(contents[row.chapter][row.ordinal], row.chapter, row.ordinal);
    assert Placed(contents, old') && old'.piece.id == row.piece.id;
    if HasEdit(edits, row.piece.id) {
      var i := EditOf(edits, row.piece.id);
      NoBlockTwice(t, contents, since, revision, old', t[edits[i].key].row);
      assert EditRows(t, edits)[i] == row;
    } else {
      assert row.chapter in scope ==> f(old'.piece) == old'.piece.text;
      assert old'.piece.(text := old'.piece.text) == old'.piece;
    }
  }

  /** After some of the edits the other blocks can still be replaced. */
  lemma StillReplaceable(t: Table, keys: seq<Version>, rows: seq<Row>, i: nat, revision: nat)
    requires Replaceable(t, keys, revision) && i < |keys| == |rows|
    requires forall k :: 0 <= k < |rows| ==> rows[k].piece.id == keys[k].id
    ensures var u := Rewrite(t, KeyIds(keys[..i]), rows[..i], revision);
            && Replaceable(u, [keys[i]], revision) && keys[i] in t && u[keys[i]] == t[keys[i]]
            && IdsOf(rows[..i]) !! KeyIds([keys[i]])
  {
    NotYetInserted(keys, rows, i);
    OneMoreKey(keys, i);
    assert keys[i..i + 1] == [keys[i]];
    SomeAreReplaceable(t, keys, i, i + 1, revision);
    ReplaceableAfter(t, [keys[i]], KeyIds(keys[..i]), rows[..i], revision);
    assert keys[i] in [keys[i]];
  }

  // ---------- committing the editor's text ----------

  function Existing(pieces: seq<Piece>): seq<(nat, string)> {
    seq(|pieces|, i requires 0 <= i < |pieces| => (pieces[i].id, pieces[i].text))
  }

  function Texts(pieces: seq<Piece>): seq<string> {
    seq(|pieces|, i requires 0 <= i < |pieces| => pieces[i].text)
  }

  /** One block of a commit: it keeps the kind and the source of the block whose id it keeps. */
  function CommittedPiece(old': seq<Piece>, text: string, id: Option<Id>, minted: Id): Piece {
    match id
    case None => Piece(minted, Paragraph, None, text, None)
    case Some(id) =>
      var k := BlockPlace(old', id);
      if k < |old'| then old'[k].(text := text) else Piece(id, Paragraph, None, text, None)
  }

  function Committed(old': seq<Piece>, texts: seq<string>, ids: seq<Option<Id>>, minted: Id): seq<Piece>
    requires |ids| == |texts|
  {
    if texts == [] then []
    else [CommittedPiece(old', texts[0], ids[0], minted)]
         + Committed(old', texts[1..], ids[1..], if ids[0].None? then minted + 1 else minted)
  }

  function MintedBy(ids: seq<Option<Id>>): nat {
    if ids == [] then 0 else (if ids[0].None? then 1 else 0) + MintedBy(ids[1..])
  }

  lemma {:induction false} CommittedIs(old': seq<Piece>, texts: seq<string>, ids: seq<Option<Id>>, minted: Id)
    requires |ids| == |texts|
    ensures var news := Committed(old', texts, ids, minted);
            && |news| == |texts|
            && (forall i :: 0 <= i < |news| ==> news[i].text == texts[i])
            && (forall i :: 0 <= i < |news| && ids[i].Some? ==> news[i].id == ids[i].value)
            && (forall i :: 0 <= i < |news| && ids[i].None? ==> minted <= news[i].id < minted + MintedBy(ids))
            && (forall i, j :: 0 <= i < j < |news| && ids[i].None? && ids[j].None? ==> news[i].id != news[j].id)
  {
    if texts != [] {
      var m := if ids[0].None? then minted + 1 else minted;
      CommittedIs(old', texts[1..], ids[1..], m);
      var news, rest := Committed(old', texts, ids, minted), Committed(old', texts[1..], ids[1..], m);
      assert forall i :: 0 < i < |news| ==> news[i] == rest[i - 1] && ids[i] == ids[1..][i - 1];
    }
  }

  /** A matched text is the old block with that id in everything but the text. Any other text is a new
      paragraph that comes from no place in the book. */
  ghost predicate KeepsBlock(old': seq<Piece>, text: string, id: Option<Id>, minted: Id, p: Piece) {
    && p.text == text
    && (id.Some? ==> exists k :: 0 <= k < |old'| && old'[k].id == id.value && p == old'[k].(text := text))
    && (id.None? ==> p.id >= minted && p.kind.Paragraph? && p.level.None? && p.source.None?)
  }

  /** The editor's blocks, each kept or new, as the stable matching says. */
  ghost predicate IsCommitOf(old': seq<Piece>, texts: seq<string>, ratio: Ratio, minted: Id, news: seq<Piece>) {
    DistinctPieces(news) && exists ids: seq<Option<Id>> ::
      && |ids| == |texts| == |news| && Assigns(Existing(old'), Matches(Existing(old'), texts, ratio), ids)
      && forall n :: 0 <= n < |news| ==> KeepsBlock(old', texts[n], ids[n], minted, news[n])
  }

  ghost predicate IsCommit(b: Book, b': Book, chapter: Id, texts: seq<string>, ratio: Ratio)
    requires b.past != [] && chapter in Now(b)
  {
    && b'.revision == b.revision + 1 && b.minted <= b'.minted
    && b'.past != [] && chapter in Now(b')
    && b'.past == b.past + [Now(b)[chapter := Now(b')[chapter]]]
    && IsCommitOf(Now(b)[chapter], texts, ratio, b.minted, Now(b')[chapter])
    && b'.order == b.order && b'.tombs == b.tombs && SameBut(b.chapters, b'.chapters)
  }

  lemma CommitIdsFit(old': seq<Piece>, texts: seq<string>, ratio: Ratio, ids: seq<Option<Id>>, minted: Id)
    requires |ids| == |texts| && DistinctPieces(old') && (forall p :: p in old' ==> p.id < minted)
    requires Assigns(Existing(old'), Matches(Existing(old'), texts, ratio), ids)
    ensures forall i, j :: 0 <= i < j < |ids| && ids[i].Some? && ids[j].Some? ==> ids[i] != ids[j]
    ensures forall i :: 0 <= i < |ids| && ids[i].Some? ==> ids[i].value in PieceIds(old') && ids[i].value < minted
  {
    var existing := Existing(old');
    assert DistinctIds(existing);
    IdsAreInjective(existing, texts, ratio, ids);
    forall i | 0 <= i < |ids| && ids[i].Some? ensures ids[i].value in PieceIds(old') && ids[i].value < minted {
      var k :| 0 <= k < |existing| && existing[k].0 == ids[i].value;
      assert old'[k] in old' && old'[k].id == ids[i].value;
    }
  }

  /** The ids of a commit are the chapter's own or new, and none is used twice. */
  lemma CommitFits(old': seq<Piece>, texts: seq<string>, ratio: Ratio, ids: seq<Option<Id>>, minted: Id)
    requires |ids| == |texts| && DistinctPieces(old') && (forall p :: p in old' ==> p.id < minted)
    requires Assigns(Existing(old'), Matches(Existing(old'), texts, ratio), ids)
    ensures var news := Committed(old', texts, ids, minted);
            && DistinctPieces(news) && Texts(news) == texts
            && forall p :: p in news ==> p.id < minted + MintedBy(ids) && (p.id in PieceIds(old') || p.id >= minted)
  {
    CommitIdsFit(old', texts, ratio, ids, minted);
    CommittedIs(old', texts, ids, minted);
    var news := Committed(old', texts, ids, minted);
    forall p | p in news ensures p.id < minted + MintedBy(ids) && (p.id in PieceIds(old') || p.id >= minted) {
      var i :| 0 <= i < |news| && news[i] == p;
      assert ids[i].Some? || ids[i].None?;
    }
  }

  lemma {:induction false} CommittedKeeps(old': seq<Piece>, texts: seq<string>, ids: seq<Option<Id>>, minted: Id)
    requires |ids| == |texts| && forall i :: 0 <= i < |ids| && ids[i].Some? ==> ids[i].value in PieceIds(old')
    ensures var news := Committed(old', texts, ids, minted);
            |news| == |texts| && forall n :: 0 <= n < |news| ==> KeepsBlock(old', texts[n], ids[n], minted, news[n])
  {
    if texts != [] {
      var m := if ids[0].None? then minted + 1 else minted;
      CommittedKeeps(old', texts[1..], ids[1..], m);
      var news, rest := Committed(old', texts, ids, minted), Committed(old', texts[1..], ids[1..], m);
      assert forall n :: 0 < n < |news| ==> news[n] == rest[n - 1] && ids[n] == ids[1..][n - 1];
      if ids[0].Some? { PieceOfId(old', ids[0].value); }
    }
  }

  lemma PieceOfId(old': seq<Piece>, id: Id)
    requires id in PieceIds(old')
    ensures BlockPlace(old', id) < |old'|
  {
    var p :| p in old' && p.id == id;
    var k :| 0 <= k < |old'| && old'[k] == p;
  }

  lemma CommittedIsCommitOf(old': seq<Piece>, texts: seq<string>, ratio: Ratio, ids: seq<Option<Id>>, minted: Id)
    requires |ids| == |texts| && DistinctPieces(old') && (forall p :: p in old' ==> p.id < minted)
    requires Assigns(Existing(old'), Matches(Existing(old'), texts, ratio), ids)
    ensures IsCommitOf(old', texts, ratio, minted, Committed(old', texts, ids, minted))
  {
    hide KeepsBlock, Committed, Assigns, Matches, DistinctPieces;
    CommitIdsFit(old', texts, ratio, ids, minted);
    CommitFits(old', texts, ratio, ids, minted);
    CommittedKeeps(old', texts, ids, minted);
  }

  /** A commit that changes one text leaves every other block as it was. The block of that text is kept
      if and only if the texts are similar enough; otherwise it is a new paragraph. */
  lemma OneTextCommitted(old': seq<Piece>, texts: seq<string>, ratio: Ratio, minted: Id, news: seq<Piece>, i: nat)
    requires IsCommitOf(old', texts, ratio, minted, news) && IsRatio(ratio) && DistinctPieces(old')
    requires |texts| == |old'| && i < |texts| && forall j :: 0 <= j < |texts| && j != i ==> texts[j] == old'[j].text
    ensures |news| == |old'| && forall j :: 0 <= j < |news| && j != i ==> news[j] == old'[j]
    ensures news[i].text == texts[i]
    ensures if ratio(old'[i].text, texts[i]) >= 0.6 then news[i] == old'[i].(text := texts[i])
            else news[i].id >= minted && news[i].kind.Paragraph? && news[i].level.None? && news[i].source.None?
  {
    var ids: seq<Option<Id>> :|
      && |ids| == |texts| == |news| && Assigns(Existing(old'), Matches(Existing(old'), texts, ratio), ids)
      && forall n :: 0 <= n < |news| ==> KeepsBlock(old', texts[n], ids[n], minted, news[n]);
    OneTextMatched(Existing(old'), texts, ratio, ids, i);
    hide Assigns, Matches;
    forall j | 0 <= j < |news| && j != i ensures news[j] == old'[j] {
      KeptAt(old', texts[j], ids[j], minted, news[j], j);
    }
    if ids[i].Some? { KeptAt(old', texts[i], ids[i], minted, news[i], i); }
  }

  lemma KeptAt(old': seq<Piece>, text: string, id: Option<Id>, minted: Id, p: Piece, j: nat)
    requires KeepsBlock(old', text, id, minted, p) && DistinctPieces(old') && j < |old'| && id == Some(old'[j].id)
    ensures p == old'[j].(text := text)
  {
    var k :| 0 <= k < |old'| && old'[k].id == id.value && p == old'[k].(text := text);
    assert k == j;
  }

  /** One chapter's blocks are all replaced. */
  lemma CommitLeads(t: Table, contents: Contents, since: map<Id, nat>, revision: nat, chapter: Id, news: seq<Piece>)
    requires Sound(t, contents, since, revision) && chapter in contents
    requires DistinctPieces(news) && Fresh(t, PieceIds(contents[chapter]), news)
    ensures Leads(t, contents, contents[chapter := news], PieceIds(contents[chapter]), Rows(news, chapter, 0))
  {
    var after, gone, rows := contents[chapter := news], PieceIds(contents[chapter]), Rows(news, chapter, 0);
    forall k | 0 <= k < |rows| ensures rows[k].piece in news {
      assert rows[k].piece == news[k];
    }
    forall row | Placed(after, row) ensures row in rows || (Placed(contents, row) && row.piece.id !in gone) {
      RowsAre(news, chapter, 0, row);
      if row.chapter != chapter { IdsStayApart(t, contents, since, revision, row, chapter); }
    }
    forall row | Placed(contents, row) && row.piece.id !in gone ensures Placed(after, row) {
      IdsStayApart(t, contents, since, revision, row, chapter);
    }
  }

  // ---------- literal replacement ----------

  /** `text.count(query)`: matches that do not overlap, from the left. */
  function CountOf(text: string, query: string): nat
    requires query != ""
  {
    if |text| < |query| then 0
    else if text[..|query|] == query then 1 + CountOf(text[|query|..], query)
    else CountOf(text[1..], query)
  }

  /** `text.replace(query, replacement)` */
  function ReplaceAll(text: string, query: string, replacement: string): string
    requires query != ""
  {
    if |text| < |query| then text
    else if text[..|query|] == query then replacement + ReplaceAll(text[|query|..], query, replacement)
    else [text[0]] + ReplaceAll(text[1..], query, replacement)
  }

  /** Without a match nothing changes. */
  lemma {:induction false} NothingToReplace(text: string, query: string, replacement: string)
    requires query != "" && CountOf(text, query) == 0
    ensures ReplaceAll(text, query, replacement) == text
  {
    if |text| >= |query| {
      NothingToReplace(text[1..], query, replacement);
      assert text == [text[0]] + text[1..];
    }
  }

  /** Replacing a text by itself changes nothing, so it makes no revision. */
  lemma {:induction false} ReplacedByItself(text: string, query: string)
    requires query != ""
    ensures ReplaceAll(text, query, query) == text
  {
    if |text| >= |query| {
      if text[..|query|] == query {
        ReplacedByItself(text[|query|..], query);
        assert text == text[..|query|] + text[|query|..];
      } else {
        ReplacedByItself(text[1..], query);
        assert text == [text[0]] + text[1..];
      }
    }
  }

  lemma OneMore(n: nat, d: int)
    ensures (1 + n) * d == d + n * d
  {
  }

  /** Every match changes the length by the same amount. */
  lemma {:induction false} ReplacedLength(text: string, query: string, replacement: string)
    requires query != ""
    ensures |ReplaceAll(text, query, replacement)| == |text| + CountOf(text, query) * (|replacement| - |query|)
  {
    if |text| >= |query| {
      if text[..|query|] == query {
        var rest := text[|query|..];
        ReplacedLength(rest, query, replacement);
        OneMore(CountOf(rest, query), |replacement| - |query|);
        assert |ReplaceAll(text, query, replacement)| == |replacement| + |ReplaceAll(rest, query, replacement)|;
      } else {
        ReplacedLength(text[1..], query, replacement);
        assert CountOf(text, query) == CountOf(text[1..], query);
      }
    }
  }

  // ---------- the book after such an edit ----------

  function Recounted(cs: Chapters, contents: Contents): Chapters {
    map c | c in cs :: if c in contents then cs[c].(charCount := CharCount(contents[c])) else cs[c]
  }

  function RetextBook(b: Book, scope: seq<Id>, f: Piece -> string, edits: seq<Edit>): Book
    requires b.past != [] && forall e :: e in edits ==> e.key in b.blocks
  {
    var after := Retexted(Now(b), scope, f);
    NextBook(b, KeyIds(EditKeys(edits)), EditRows(b.blocks, edits), after,
             Recounted(b.chapters, after), b.minted, b.order, b.tombs)
  }

  lemma RecountedIs(cs: Chapters, contents: Contents, order: seq<Id>, tombs: seq<Id>)
    requires Ordered(cs, order, tombs) && forall c :: c in contents ==> c in cs
    ensures Ordered(Recounted(cs, contents), order, tombs) && Counted(Recounted(cs, contents), contents)
    ensures SameBut(cs, Recounted(cs, contents)) && Recounted(cs, contents).Keys == cs.Keys
  {
    hide CharCount;
  }

  lemma EditRowsMinted(b: Book, scope: seq<Id>, f: Piece -> string, edits: seq<Edit>)
    requires Good(b) && Covers(b.blocks, b.since, Now(b), scope, f, edits)
    requires forall e :: e in edits ==> e.key in b.blocks
    ensures forall r :: r in EditRows(b.blocks, edits) ==> r.piece.id < b.minted
  {
    hide Good, Now;
    forall i | 0 <= i < |edits| ensures edits[i].key in b.blocks && b.blocks[edits[i].key].row.piece.id < b.minted {
      assert edits[i] in edits;
      PlacedIsMinted(b, b.blocks[edits[i].key].row);
    }
  }

  lemma SameKeys(order: seq<Id>, contents: Contents, after: Contents)
    requires Keyed(order, contents) && after.Keys == contents.Keys
    ensures Keyed(order, after)
  {
    assert forall c :: c in after <==> c in after.Keys;
    assert forall c :: c in contents <==> c in contents.Keys;
  }

  lemma RetextIsGood(b: Book, scope: seq<Id>, f: Piece -> string, edits: seq<Edit>)
    requires Good(b) && Covers(b.blocks, b.since, Now(b), scope, f, edits)
    ensures forall e :: e in edits ==> e.key in b.blocks
    ensures Good(RetextBook(b, scope, f, edits)) && IsRetext(b, RetextBook(b, scope, f, edits), scope, f)
  {
    hide Ordered, Sound, Readable, Leads, Counted, Minted, Keyed, Rewrite, EditRows, EditKeys, Recounted, SameBut,
         Covers;
    var after := Retexted(Now(b), scope, f);
    RetextLeads(b.blocks, Now(b), b.since, b.revision, scope, f, edits);
    ContentsHaveChapters(b);
    RecountedIs(b.chapters, after, b.order, b.tombs);
    EditRowsMinted(b, scope, f, edits);
    SameKeys(b.order, Now(b), after);
    OldChaptersMinted(b, Recounted(b.chapters, after));
    NextIsGood(b, KeyIds(EditKeys(edits)), EditRows(b.blocks, edits), after,
               Recounted(b.chapters, after), b.minted, b.order, b.tombs);
  }

  function CommitBook(b: Book, chapter: Id, news: seq<Piece>, minted: nat): Book
    requires b.past != [] && chapter in Now(b) && chapter in b.chapters
  {
    NextBook(b, PieceIds(Now(b)[chapter]), Rows(news, chapter, 0), Now(b)[chapter := news],
             b.chapters[chapter := b.chapters[chapter].(charCount := CharCount(news))], minted, b.order, b.tombs)
  }

  lemma PiecesMinted(b: Book, chapter: Id)
    requires Good(b) && chapter in Now(b)
    ensures DistinctPieces(Now(b)[chapter]) && forall p :: p in Now(b)[chapter] ==> p.id < b.minted
  {
    PiecesDiffer(b.blocks, Now(b), b.since, b.revision, chapter);
    hide Good;
    forall j | 0 <= j < |Now(b)[chapter]| ensures Now(b)[chapter][j].id < b.minted {
      PlacedIsMinted(b, Row(Now(b)[chapter][j], chapter, j));
    }
  }

  lemma CountOneChapter(cs: Chapters, contents: Contents, chapter: Id, news: seq<Piece>)
    requires Counted(cs, contents) && chapter in contents && chapter in cs
    ensures var cs' := cs[chapter := cs[chapter].(charCount := CharCount(news))];
            Counted(cs', contents[chapter := news]) && SameBut(cs, cs') && cs'.Keys == cs.Keys
  {
    hide CharCount;
    var cs' := cs[chapter := cs[chapter].(charCount := CharCount(news))];
    forall c | c in contents[chapter := news]
      ensures c in cs' && cs'[c].charCount == CharCount(contents[chapter := news][c])
    {
      if c != chapter { assert c in contents && cs'[c] == cs[c]; }
    }
    assert cs'.Keys == cs.Keys;
    hide Counted;
    forall c | c in cs ensures cs'[c] == cs[c].(charCount := cs'[c].charCount) {
    }
  }

  lemma CommitIsOrdered(b: Book, chapter: Id, news: seq<Piece>)
    requires Good(b) && chapter in Now(b) && chapter in b.chapters
    ensures var cs := b.chapters[chapter := b.chapters[chapter].(charCount := CharCount(news))];
            && Ordered(cs, b.order, b.tombs) && Counted(cs, Now(b)[chapter := news]) && SameBut(b.chapters, cs)
            && (forall c :: c in cs ==> c < b.minted) && Keyed(b.order, Now(b)[chapter := news])
  {
    hide Sound, Readable, CharCount, Ordered, Counted, Keyed;
    var cs := b.chapters[chapter := b.chapters[chapter].(charCount := CharCount(news))];
    CountOneChapter(b.chapters, Now(b), chapter, news);
    SameOrdinals(b.chapters, cs, b.order, b.tombs);
    SameKeys(b.order, Now(b), Now(b)[chapter := news]);
  }

  lemma NewsAreFresh(b: Book, chapter: Id, news: seq<Piece>)
    requires Good(b) && chapter in Now(b)
    requires forall p :: p in news ==> p.id in PieceIds(Now(b)[chapter]) || p.id >= b.minted
    ensures Fresh(b.blocks, PieceIds(Now(b)[chapter]), news)
  {
    hide Sound, Readable, Ordered;
  }

  lemma CommitIsGood(b: Book, chapter: Id, news: seq<Piece>, minted: nat)
    requires Good(b) && chapter in Now(b) && DistinctPieces(news) && b.minted <= minted
    requires forall p :: p in news ==> p.id < minted && (p.id in PieceIds(Now(b)[chapter]) || p.id >= b.minted)
    ensures chapter in b.chapters && Good(CommitBook(b, chapter, news, minted))
    ensures SameBut(b.chapters, CommitBook(b, chapter, news, minted).chapters)
  {
    hide Ordered, Sound, Readable, Leads, Counted, Minted, Keyed, Rewrite, Rows, SameBut, PieceIds, DistinctPieces,
         Fresh;
    ContentsHaveChapters(b);
    CommitIsOrdered(b, chapter, news);
    NewsAreFresh(b, chapter, news);
    CommitLeads(b.blocks, Now(b), b.since, b.revision, chapter, news);
    forall r | r in Rows(news, chapter, 0) ensures r.piece.id < minted {
      RowsAre(news, chapter, 0, r);
      assert r.piece in news;
    }
    NextIsGood(b, PieceIds(Now(b)[chapter]), Rows(news, chapter, 0), Now(b)[chapter := news],
               b.chapters[chapter := b.chapters[chapter].(charCount := CharCount(news))], minted, b.order, b.tombs);
  }

  // ---------- collecting the edits ----------

  /** The edits of one chapter, from its rows in order. */
  function EditsOf(pieces: seq<Piece>, keys: seq<Version>, f: Piece -> string): seq<Edit>
    requires |pieces| == |keys|
  {
    if pieces == [] then []
    else
      (if f(pieces[0]) == pieces[0].text then [] else [Edit(keys[0], f(pieces[0]))])
      + EditsOf(pieces[1..], keys[1..], f)
  }

  ghost predicate IsEdit(pieces: seq<Piece>, keys: seq<Version>, f: Piece -> string, e: Edit, i: int)
    requires |pieces| == |keys|
  {
    0 <= i < |pieces| && e == Edit(keys[i], f(pieces[i])) && f(pieces[i]) != pieces[i].text
  }

  lemma {:induction false} EditsAre(pieces: seq<Piece>, keys: seq<Version>, f: Piece -> string)
    requires |pieces| == |keys|
    ensures forall e :: e in EditsOf(pieces, keys, f) ==> exists i :: IsEdit(pieces, keys, f, e, i)
    ensures forall i :: 0 <= i < |pieces| && f(pieces[i]) != pieces[i].text ==>
              Edit(keys[i], f(pieces[i])) in EditsOf(pieces, keys, f)
  {
    if pieces != [] {
      var rest := EditsOf(pieces[1..], keys[1..], f);
      EditsAre(pieces[1..], keys[1..], f);
      forall e | e in EditsOf(pieces, keys, f) ensures exists i :: IsEdit(pieces, keys, f, e, i) {
        if e in rest {
          var i :| IsEdit(pieces[1..], keys[1..], f, e, i);
          assert IsEdit(pieces, keys, f, e, i + 1);
        } else {
          assert IsEdit(pieces, keys, f, e, 0);
        }
      }
      forall i | 0 <= i < |pieces| && f(pieces[i]) != pieces[i].text
        ensures Edit(keys[i], f(pieces[i])) in EditsOf(pieces, keys, f)
      {
        if i > 0 { assert pieces[1..][i - 1] == pieces[i] && keys[1..][i - 1] == keys[i]; }
      }
    }
  }

  lemma FirstEdit(first: Edit, rest: seq<Edit>)
    requires DistinctEdits(rest) && forall j :: 0 <= j < |rest| ==> rest[j].key.id != first.key.id
    ensures DistinctEdits([first] + rest)
  {
    var all := [first] + rest;
    assert forall i :: 0 < i < |all| ==> all[i] == rest[i - 1];
  }

  lemma {:induction false} EditsDiffer(pieces: seq<Piece>, keys: seq<Version>, f: Piece -> string)
    requires |pieces| == |keys| && forall i, j :: 0 <= i < j < |keys| ==> keys[i].id != keys[j].id
    ensures DistinctEdits(EditsOf(pieces, keys, f))
  {
    if pieces != [] {
      var rest := EditsOf(pieces[1..], keys[1..], f);
      EditsDiffer(pieces[1..], keys[1..], f);
      EditsAre(pieces[1..], keys[1..], f);
      forall j | 0 <= j < |rest| ensures rest[j].key.id != keys[0].id {
        assert rest[j] in rest;
        var i :| IsEdit(pieces[1..], keys[1..], f, rest[j], i);
        assert keys[i + 1] == rest[j].key;
      }
      FirstEdit(Edit(keys[0], f(pieces[0])), rest);
    }
  }

  lemma NoScopeCovers(t: Table, since: map<Id, nat>, contents: Contents, f: Piece -> string)
    ensures Covers(t, since, contents, [], f, [])
  {
  }

  /** Edits of one more chapter. */
  lemma CoverOneMore(t: Table, contents: Contents, since: map<Id, nat>, revision: nat, scope: seq<Id>, c: Id,
                     f: Piece -> string, keys: seq<Version>, edits: seq<Edit>)
    requires Sound(t, contents, since, revision) && c in contents && c !in scope
    requires ReadsBack(t, c, contents[c], keys) && Covers(t, since, contents, scope, f, edits)
    ensures Covers(t, since, contents, scope + [c], f, edits + EditsOf(contents[c], keys, f))
  {
    var pieces, more := contents[c], EditsOf(contents[c], keys, f);
    CurrentIsReplaceable(t, contents, since, revision, c, keys);
    EditsDiffer(pieces, keys, f);
    EditsAre(pieces, keys, f);
    forall e | e in more
      ensures e.key in t && t[e.key].until.None? && Placed(contents, t[e.key].row) && t[e.key].row.chapter == c
      ensures t[e.key].row.piece.id == e.key.id && e.text == f(t[e.key].row.piece) != t[e.key].row.piece.text
    {
      var i :| IsEdit(pieces, keys, f, e, i);
      assert t[keys[i]] == Stored(Row(pieces[i], c, i), None);
    }
    var all := edits + more;
    forall i, j | 0 <= i < |edits| && 0 <= j < |more| ensures edits[i].key.id != more[j].key.id {
      assert more[j] in more;
      NoBlockTwice(t, contents, since, revision, t[edits[i].key].row, t[more[j].key].row);
    }
    forall row | Placed(contents, row) && row.chapter in scope + [c] && f(row.piece) != row.piece.text
      ensures HasEdit(all, row.piece.id)
    {
      EditIsThere(pieces, keys, f, edits, row, c);
    }
    forall i | 0 <= i < |all|
      ensures all[i].key in t && t[all[i].key].until.None? && Placed(contents, t[all[i].key].row)
      ensures t[all[i].key].row.chapter in scope + [c] && t[all[i].key].row.piece.id == all[i].key.id
      ensures all[i].text == f(t[all[i].key].row.piece) != t[all[i].key].row.piece.text
    {
      if i >= |edits| { assert all[i] == more[i - |edits|] && all[i] in more; }
    }
  }

  lemma {:induction false} EditIsThere(pieces: seq<Piece>, keys: seq<Version>, f: Piece -> string, edits: seq<Edit>,
                                       row: Row, c: Id)
    requires |pieces| == |keys| && forall i :: 0 <= i < |pieces| ==> keys[i].id == pieces[i].id
    requires f(row.piece) != row.piece.text
    requires if row.chapter == c then row.ordinal < |pieces| && pieces[row.ordinal] == row.piece
             else HasEdit(edits, row.piece.id)
    ensures HasEdit(edits + EditsOf(pieces, keys, f), row.piece.id)
  {
    var all := edits + EditsOf(pieces, keys, f);
    if row.chapter == c {
      EditsAre(pieces, keys, f);
      var more := EditsOf(pieces, keys, f);
      var i :| 0 <= i < |more| && more[i] == Edit(keys[row.ordinal], f(row.piece));
      assert all[|edits| + i] == more[i];
      HereIsEdit(all, |edits| + i);
    } else {
      var i := EditOf(edits, row.piece.id);
      assert all[i] == edits[i];
      HereIsEdit(all, i);
    }
  }

  lemma EditsAreReplaceable(t: Table, contents: Contents, since: map<Id, nat>, revision: nat,
                            scope: seq<Id>, f: Piece -> string, edits: seq<Edit>)
    requires Sound(t, contents, since, revision) && Covers(t, since, contents, scope, f, edits)
    ensures Replaceable(t, EditKeys(edits), revision + 1)
  {
    var keys := EditKeys(edits);
    forall v | v in keys ensures v in t && t[v].until.None? && t[v].row.piece.id == v.id {
      var i :| 0 <= i < |edits| && keys[i] == v;
    }
  }

  /** A chapter without an edit keeps its texts. */
  lemma UneditedKeeps(t: Table, contents: Contents, since: map<Id, nat>, revision: nat,
                      scope: seq<Id>, f: Piece -> string, edits: seq<Edit>, c: Id)
    requires Sound(t, contents, since, revision) && Covers(t, since, contents, scope, f, edits) && c in contents
    requires forall e :: e in edits ==> e.key in t && t[e.key].row.chapter != c
    ensures Retexted(contents, scope, f)[c] == contents[c]
  {
    if c in scope {
      forall i | 0 <= i < |contents[c]| ensures f(contents[c][i]) == contents[c][i].text {
        var row := Row(contents[c][i], c, i);
        assert Placed(contents, row);
        if HasEdit(edits, row.piece.id) {
          var j := EditOf(edits, row.piece.id);
          assert edits[j] in edits;
          NoBlockTwice(t, contents, since, revision, row, t[edits[j].key].row);
        }
      }
      assert forall p: Piece :: p.(text := p.text) == p;
    }
  }

  // ---------- the hits of a replacement ----------

  datatype Hit = Hit(chapter: Id, block: Id, count: nat)

  function BlockHits(c: Id, pieces: seq<Piece>, query: string): seq<Hit>
    requires query != ""
  {
    if pieces == [] then []
    else
      var n := CountOf(pieces[0].text, query);
      (if n == 0 then [] else [Hit(c, pieces[0].id, n)]) + BlockHits(c, pieces[1..], query)
  }

  function HitsIn(contents: Contents, scope: seq<Id>, query: string): seq<Hit>
    requires query != "" && forall c :: c in scope ==> c in contents
  {
    if scope == [] then []
    else BlockHits(scope[0], contents[scope[0]], query) + HitsIn(contents, scope[1..], query)
  }

  function Total(hits: seq<Hit>): nat {
    if hits == [] then 0 else hits[0].count + Total(hits[1..])
  }

  function SumTexts(texts: seq<string>): nat {
    if texts == [] then 0 else Extractable(texts[0]) + SumTexts(texts[1..])
  }

  lemma {:induction false} SumIsCount(pieces: seq<Piece>)
    ensures SumTexts(Texts(pieces)) == CharCount(pieces)
  {
    if pieces != [] {
      SumIsCount(pieces[1..]);
      assert Texts(pieces)[1..] == Texts(pieces[1..]);
    }
  }

  function Replacer(query: string, replacement: string): Piece -> string
    requires query != ""
  {
    (p: Piece) => ReplaceAll(p.text, query, replacement)
  }

  /** `ReplaceOutcome`; the preview shows at most fifty hits. */
  datatype Replacement = Replacement(count: nat, dryRun: bool, revision: Option<nat>, preview: seq<Hit>)

  ghost predicate IsReplacement(b: Book, b': Book, query: string, replacement: string, dryRun: bool,
                                scope: seq<Id>, out: Replacement)
    requires query != "" && b.past != []
  {
    && (forall c :: c in scope ==> c in Now(b))
    && var hits, f := HitsIn(Now(b), scope, query), Replacer(query, replacement);
       && out.count == Total(hits) && out.dryRun == dryRun
       && out.preview == (if |hits| <= 50 then hits else hits[..50])
       && (out.revision.None? <==> dryRun || Retexted(Now(b), scope, f) == Now(b))
       && (out.revision.Some? ==> out.revision == Some(b'.revision) && IsRetext(b, b', scope, f))
  }

  /** There is an edit exactly when some text changes. */
  lemma EditsMeanChange(b: Book, scope: seq<Id>, f: Piece -> string, edits: seq<Edit>)
    requires Good(b) && Covers(b.blocks, b.since, Now(b), scope, f, edits)
    ensures edits == [] <==> Retexted(Now(b), scope, f) == Now(b)
  {
    var contents, after := Now(b), Retexted(Now(b), scope, f);
    if edits == [] {
      forall c | c in contents ensures after[c] == contents[c] {
        UneditedKeeps(b.blocks, contents, b.since, b.revision, scope, f, edits, c);
      }
    } else {
      var row := b.blocks[edits[0].key].row;
      RetextPlaces(contents, scope, f, row);
      assert after[row.chapter][row.ordinal].text != contents[row.chapter][row.ordinal].text;
    }
  }

  lemma NothingReplaced(b: Book, query: string, replacement: string, dryRun: bool, scope: seq<Id>, edits: seq<Edit>)
    requires Good(b) && query != "" && (forall c :: c in scope ==> c in Now(b)) && (dryRun || edits == [])
    requires Covers(b.blocks, b.since, Now(b), scope, Replacer(query, replacement), edits)
    ensures var hits := HitsIn(Now(b), scope, query);
            IsReplacement(b, b, query, replacement, dryRun, scope,
                          Replacement(Total(hits), dryRun, None, if |hits| <= 50 then hits else hits[..50]))
  {
    hide Good, Covers, Retexted;
    EditsMeanChange(b, scope, Replacer(query, replacement), edits);
  }

  lemma SomethingReplaced(b: Book, b': Book, query: string, replacement: string, scope: seq<Id>, edits: seq<Edit>)
    requires Good(b) && query != "" && (forall c :: c in scope ==> c in Now(b)) && edits != []
    requires Covers(b.blocks, b.since, Now(b), scope, Replacer(query, replacement), edits)
    requires IsRetext(b, b', scope, Replacer(query, replacement))
    ensures var hits := HitsIn(Now(b), scope, query);
            IsReplacement(b, b', query, replacement, false, scope,
                          Replacement(Total(hits), false, Some(b'.revision), if |hits| <= 50 then hits else hits[..50]))
  {
    hide Good, Covers, Retexted, IsRetext;
    EditsMeanChange(b, scope, Replacer(query, replacement), edits);
  }

  /** The hits and the edits of one chapter. */
  method ChapterHits(c: Id, pieces: seq<Piece>, keys: seq<Version>, query: string, replacement: string)
    returns (hits: seq<Hit>, edits: seq<Edit>)
    requires |pieces| == |keys| && query != ""
    ensures hits == BlockHits(c, pieces, query) && edits == EditsOf(pieces, keys, Replacer(query, replacement))
  {
    ghost var f := Replacer(query, replacement);
    hits, edits := [], [];
    var i := 0;
    while i < |pieces|
      invariant 0 <= i <= |pieces|
      invariant hits + BlockHits(c, pieces[i..], query) == BlockHits(c, pieces, query)
      invariant edits + EditsOf(pieces[i..], keys[i..], f) == EditsOf(pieces, keys, f)
    {
      var p, k := pieces[i], keys[i];
      assert pieces[i..][0] == p && pieces[i..][1..] == pieces[i + 1..];
      assert keys[i..][0] == k && keys[i..][1..] == keys[i + 1..];
      var count := CountOf(p.text, query);
      if count == 0 {
        NothingToReplace(p.text, query, replacement);
      } else {
        Regroup(hits, [Hit(c, p.id, count)], BlockHits(c, pieces[i + 1..], query), BlockHits(c, pieces, query));
        hits := hits + [Hit(c, p.id, count)];
        var updated := ReplaceAll(p.text, query, replacement);
        if updated != p.text {
          Regroup(edits, [Edit(k, updated)], EditsOf(pieces[i + 1..], keys[i + 1..], f), EditsOf(pieces, keys, f));
          edits := edits + [Edit(k, updated)];
        }
      }
      i := i + 1;
    }
  }

  // ---------- the chapters that were touched ----------

  function TouchedIds(t: Table, edits: seq<Edit>): set<Id>
    requires forall e :: e in edits ==> e.key in t
  {
    set e | e in edits :: t[e.key].row.chapter
  }

  lemma TouchedAre(b: Book, scope: seq<Id>, f: Piece -> string, edits: seq<Edit>)
    requires Good(b) && Covers(b.blocks, b.since, Now(b), scope, f, edits)
    ensures forall e :: e in edits ==> e.key in b.blocks
    ensures TouchedIds(b.blocks, edits) <= Retexted(Now(b), scope, f).Keys
            && TouchedIds(b.blocks, edits) <= b.chapters.Keys
  {
    ContentsHaveChapters(b);
    forall e | e in edits ensures e.key in b.blocks && b.blocks[e.key].row.chapter in Now(b) {
      var i :| 0 <= i < |edits| && edits[i] == e;
    }
  }

  /** The counts of the touched chapters are fresh. */
  function Refreshed(cs: Chapters, touched: set<Id>, contents: Contents): Chapters {
    map c | c in cs :: if c in touched && c in contents then cs[c].(charCount := CharCount(contents[c])) else cs[c]
  }

  lemma RefreshedIsRecounted(b: Book, scope: seq<Id>, f: Piece -> string, edits: seq<Edit>, touched: set<Id>)
    requires Good(b) && Covers(b.blocks, b.since, Now(b), scope, f, edits)
    requires (forall e :: e in edits ==> e.key in b.blocks) && TouchedIds(b.blocks, edits) <= touched
    ensures var after := Retexted(Now(b), scope, f);
            Refreshed(b.chapters, touched, after) == Recounted(b.chapters, after)
  {
    hide Readable, Ordered, Covers, CharCount;
    var after := Retexted(Now(b), scope, f);
    forall c | c in after && c !in touched ensures after[c] == Now(b)[c] {
      assert forall e :: e in edits ==> b.blocks[e.key].row.chapter in TouchedIds(b.blocks, edits);
      UneditedKeeps(b.blocks, Now(b), b.since, b.revision, scope, f, edits, c);
    }
  }

  // ---------- accepted readings ----------

  type Readings = map<Id, seq<Apply.Suggestion>>

  datatype Reading = Reading(revision: nat, conflicts: seq<(Id, string)>)

  function ReadingOf(readings: Readings, p: Piece): Apply.ApplyResult {
    Apply.Applying(p.text, if p.id in readings then readings[p.id] else [])
  }

  function Reader(readings: Readings): Piece -> string {
    (p: Piece) => if ReadingOf(readings, p).Applied? then ReadingOf(readings, p).text else p.text
  }

  predicate Raises(readings: Readings, pieces: seq<Piece>) {
    pieces != [] && (ReadingOf(readings, pieces[0]).Raised? || Raises(readings, pieces[1..]))
  }

  /** A reading is stored when a text changes or a span was made. */
  predicate Stores(readings: Readings, p: Piece) {
    ReadingOf(readings, p).Applied? && (ReadingOf(readings, p).text != p.text || ReadingOf(readings, p).spans != [])
  }

  predicate Changes(readings: Readings, pieces: seq<Piece>) {
    pieces != [] && (Stores(readings, pieces[0]) || Changes(readings, pieces[1..]))
  }

  function Named(id: Id, conflicts: seq<Apply.Suggestion>): seq<(Id, string)> {
    seq(|conflicts|, i requires 0 <= i < |conflicts| => (id, conflicts[i].original))
  }

  function ConflictsOf(readings: Readings, pieces: seq<Piece>): seq<(Id, string)> {
    if pieces == [] then []
    else
      (if ReadingOf(readings, pieces[0]).Applied? then Named(pieces[0].id, ReadingOf(readings, pieces[0]).conflicts)
       else [])
      + ConflictsOf(readings, pieces[1..])
  }

  datatype Prepared = NotPrepared | Prepared(edits: seq<Edit>, conflicts: seq<(Id, string)>, changed: bool)

  /** `apply_block` on every block of a chapter; the first one that raises ends the session. */
  method Prepare(pieces: seq<Piece>, keys: seq<Version>, readings: Readings) returns (out: Prepared)
    requires |pieces| == |keys|
    ensures out.NotPrepared? <==> Raises(readings, pieces)
    ensures out.Prepared? ==>
              && out.edits == EditsOf(pieces, keys, Reader(readings))
              && out.conflicts == ConflictsOf(readings, pieces) && (out.changed <==> Changes(readings, pieces))
  {
    hide Apply.Applying, Raises, EditsOf, ConflictsOf, Changes, Named;
    ghost var f := Reader(readings);
    ghost var allEdits, allConflicts := EditsOf(pieces, keys, f), ConflictsOf(readings, pieces);
    var edits, conflicts, changed := [], [], false;
    var i := 0;
    assert pieces[0..] == pieces && keys[0..] == keys;
    while i < |pieces|
      invariant 0 <= i <= |pieces|
      invariant Raises(readings, pieces[i..]) <==> Raises(readings, pieces)
      invariant edits + EditsOf(pieces[i..], keys[i..], f) == allEdits
      invariant conflicts + ConflictsOf(readings, pieces[i..]) == allConflicts
      invariant changed || Changes(readings, pieces[i..]) <==> Changes(readings, pieces)
    {
      var p, k := pieces[i], keys[i];
      PrepareStep(pieces, keys, i, readings);
      var result := Apply.ApplyBlock(p.text, if p.id in readings then readings[p.id] else []);
      if result.Raised? {
        return NotPrepared;
      }
      Regroup(conflicts, Named(p.id, result.conflicts), ConflictsOf(readings, pieces[i + 1..]), allConflicts);
      conflicts := conflicts + Named(p.id, result.conflicts);
      if result.text != p.text || result.spans != [] {
        changed := true;
      }
      if result.text != p.text {
        Regroup(edits, [Edit(k, result.text)], EditsOf(pieces[i + 1..], keys[i + 1..], f), allEdits);
        edits := edits + [Edit(k, result.text)];
      }
      i := i + 1;
    }
    assert pieces[i..] == [] && keys[i..] == [];
    NothingToPrepare(readings);
    assert edits + [] == edits && conflicts + [] == conflicts;
    out := Prepared(edits, conflicts, changed);
  }

  lemma NothingToPrepare(readings: Readings)
    ensures !Raises(readings, []) && !Changes(readings, [])
    ensures EditsOf([], [], Reader(readings)) == [] && ConflictsOf(readings, []) == []
  {
  }

  lemma PrepareStep(pieces: seq<Piece>, keys: seq<Version>, i: nat, readings: Readings)
    requires |pieces| == |keys| && i < |pieces|
    ensures var p, result := pieces[i], ReadingOf(readings, pieces[i]);
            var left, rest, f := pieces[i..], pieces[i + 1..], Reader(readings);
            && (Raises(readings, left) <==> result.Raised? || Raises(readings, rest))
            && (Changes(readings, left) <==> Stores(readings, p) || Changes(readings, rest))
            && (result.Applied? ==>
                  && ConflictsOf(readings, left) == Named(p.id, result.conflicts) + ConflictsOf(readings, rest)
                  && EditsOf(left, keys[i..], f)
                     == (if result.text == p.text then EditsOf(rest, keys[i + 1..], f)
                         else [Edit(keys[i], result.text)] + EditsOf(rest, keys[i + 1..], f)))
  {
    hide Apply.Applying, Named;
    assert pieces[i..][0] == pieces[i] && pieces[i..][1..] == pieces[i + 1..];
    assert keys[i..][0] == keys[i] && keys[i..][1..] == keys[i + 1..];
    var f := Reader(readings);
    if ReadingOf(readings, pieces[i]).Applied? {
      assert f(pieces[i]) == ReadingOf(readings, pieces[i]).text;
      assert [] + EditsOf(pieces[i + 1..], keys[i + 1..], f) == EditsOf(pieces[i + 1..], keys[i + 1..], f);
    }
  }
}
