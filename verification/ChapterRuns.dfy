/** Whole runs of edits over the chapter store. */
module ChapterRuns {
  import opened BookTables
  import opened ChapterEdits
  import C = ChapterStore
  import opened IngestEdit
  import opened Ordinals
  import opened Options
  import opened Plain
  import opened PlainText
  import opened PyText
  import opened SplitEdit
  import opened TextEdit
  import opened Versions

  datatype Command =
    | DoIngest(book: seq<SourceChapter>)
    | DoMerge(ids: seq<Id>)
    | DoSplit(chapter: Id, block: Id, offset: nat)
    | DoReorder(order: seq<Id>)
    | DoPutText(chapter: Id, text: string, base: nat)
    | DoReplace(query: string, replacement: string, dryRun: bool, scope: Option<Id>, all: bool)
    | DoApply(chapter: Id, base: nat, readings: Readings)

  /** The later book has the revisions of the earlier one as its first, and its removed chapters. */
  ghost predicate Follows(b: Book, b': Book) {
    && b.revision <= b'.revision && |b.past| <= |b'.past| && b'.past[..|b.past|] == b.past
    && |b.tombs| <= |b'.tombs| && b'.tombs[..|b.tombs|] == b.tombs
  }

  /** A book that was edited has chapters, so it is never ingested again. */
  ghost predicate Reached(b: Book) {
    b.revision > 0 ==> b.order != []
  }

  lemma FollowsOn(a: Book, b: Book, c: Book)
    requires Follows(a, b) && Follows(b, c)
    ensures Follows(a, c)
  {
    assert c.past[..|b.past|][..|a.past|] == c.past[..|a.past|];
    assert c.tombs[..|b.tombs|][..|a.tombs|] == c.tombs[..|a.tombs|];
  }

  lemma MergeFollows(b: Book, b': Book, k: nat)
    requires IsMerge(b, b', k)
    ensures Follows(b, b') && b'.order != []
  {
  }

  lemma SplitFollows(b: Book, b': Book, chapter: Id, block: Id, offset: nat)
    requires C.SplitDone(b, b', chapter, block, offset)
    ensures Follows(b, b') && b'.order != []
  {
    hide Halves, SplitContents, TitleOf, SameTitles;
  }

  lemma RetextFollows(b: Book, b': Book, scope: seq<Id>, f: Piece -> string)
    requires b.past != [] && IsRetext(b, b', scope, f)
    ensures Follows(b, b') && b'.order == b.order
  {
    hide Retexted, SameBut;
  }

  lemma NoScope(b: Book, f: Piece -> string)
    requires b.past != []
    ensures Retexted(Now(b), [], f) == Now(b)
  {
  }

  lemma CommitFollows(b: Book, b': Book, chapter: Id, texts: seq<string>, ratio: Ratio)
    requires b.past != [] && chapter in Now(b) && IsCommit(b, b', chapter, texts, ratio)
    ensures Follows(b, b') && b'.order == b.order
  {
    hide IsCommitOf, SameBut;
  }

  lemma SameFollows(b: Book)
    ensures Follows(b, b)
  {
  }

  method Step(store: C.ChapterStore, command: Command, ratio: Ratio)
    requires store.db.Valid() && Reached(store.db.State())
    modifies store.db
    ensures store.db.Valid() && Reached(store.db.State())
    ensures old(store.db.revision) > 0 || !command.DoIngest? ==> Follows(old(store.db.State()), store.db.State())
  {
    hide Good, Follows, IsMerge, IsRetext, IsCommit, C.SplitDone;
    ghost var b := store.db.State();
    GoodIsSound(b);
    SameFollows(b);
    match command
    case DoIngest(book) =>
      var out := store.Ingest(book);
      if out.Done? { IngestKeepsRevision(b, book); }
    case DoMerge(ids) =>
      var out := store.Merge(ids);
      if out.Done? {
        ghost var i, j := PlaceOf(b.order, ids[0]), PlaceOf(b.order, ids[1]);
        MergeFollows(b, store.db.State(), if i < j then j else i);
      }
    case DoSplit(chapter, block, offset) =>
      var out := store.Split(chapter, block, offset);
      if out.Done? { SplitFollows(b, store.db.State(), chapter, block, offset); }
    case DoReorder(order) =>
      var out := store.Reorder(order);
      if out.Done? { ReorderFollows(b, store.db.State(), order); }
    case DoPutText(chapter, text, base) =>
      var out := store.PutText(chapter, text, base, ratio);
      if out == Done(b.revision + 1) { CommitFollows(b, store.db.State(), chapter, SplitPlainText(text), ratio); }
    case DoReplace(query, replacement, dryRun, scope, all) =>
      var out := store.Replace(query, replacement, dryRun, scope, all);
      if out.Done? && out.value.revision.Some? {
        NoScope(b, Replacer(query, replacement));
        RetextFollows(b, store.db.State(), if all then b.order else [scope.value], Replacer(query, replacement));
      }
    case DoApply(chapter, base, readings) =>
      var out := store.ApplyReading(chapter, base, readings);
      if out.Done? && out.value.revision != b.revision {
        RetextFollows(b, store.db.State(), [chapter], Reader(readings));
      }
  }

  lemma ReorderFollows(b: Book, b': Book, order: seq<Id>)
    requires IsReorder(b, b', order)
    ensures Follows(b, b')
  {
  }

  lemma {:induction false} ChaptersKeepRevision(b: Book, cs: seq<SourceChapter>)
    requires b.past != []
    ensures WithChapters(b, cs).revision == b.revision
    decreases cs
  {
    if cs != [] { ChaptersKeepRevision(WithChapter(b, cs[0]), cs[1..]); }
  }

  lemma IngestKeepsRevision(b: Book, cs: seq<SourceChapter>)
    requires Good(b) && Reached(b) && (b.chapters == map[] || b.revision == 0)
    ensures b.revision == 0 && WithChapters(Cleared(b), cs).revision == 0
  {
    hide Sound, Readable, Minted, Counted, Keyed, WithChapter;
    if b.order != [] { assert b.order[0] in b.chapters; }
    ChaptersKeepRevision(Cleared(b), cs);
  }

  /** In every run the book stays valid and, from its first edit on, no revision that was made is ever
      lost: only a book that was not edited can be ingested again. */
  method Run(store: C.ChapterStore, commands: seq<Command>, ratio: Ratio)
    requires store.db.Valid() && Reached(store.db.State())
    modifies store.db
    ensures store.db.Valid() && Reached(store.db.State())
    ensures old(store.db.revision) > 0 || (forall i :: 0 <= i < |commands| ==> !commands[i].DoIngest?) ==>
              Follows(old(store.db.State()), store.db.State())
  {
    hide Good;
    ghost var b := store.db.State();
    var i := 0;
    while i < |commands|
      invariant 0 <= i <= |commands| && store.db.Valid() && Reached(store.db.State())
      invariant b.revision > 0 || (forall j :: 0 <= j < i ==> !commands[j].DoIngest?) ==> Follows(b, store.db.State())
    {
      ghost var before := store.db.State();
      Step(store, commands[i], ratio);
      if b.revision > 0 || (forall j :: 0 <= j <= i ==> !commands[j].DoIngest?) {
        assert Follows(b, before) && Follows(before, store.db.State());
        FollowsOn(b, before, store.db.State());
      }
      i := i + 1;
    }
  }

  /** Every store that commands can reach from an empty project is valid. */
  method RunFromScratch(commands: seq<Command>, ratio: Ratio) returns (store: C.ChapterStore)
    ensures fresh(store) && fresh(store.db) && store.db.Valid() && Reached(store.db.State())
  {
    hide Good;
    var db := new Tables();
    store := new C.ChapterStore(db);
    Run(store, commands, ratio);
  }

  /** History is immutable: the rows (id, chapter, ordinal, kind, text, ...) visible at a revision are
      the same ever after. */
  lemma HistoryIsImmutable(b: Book, b': Book, r: nat)
    requires Good(b) && Good(b') && Follows(b, b') && r <= b.revision
    ensures VisibleAt(b'.blocks, r).Values == VisibleAt(b.blocks, r).Values
  {
    hide Ordered, Sound, Keyed, Minted, Counted, VisibleAt;
    assert b'.past[..|b.past|][r] == b'.past[r];
    SameRows(VisibleAt(b.blocks, r), VisibleAt(b'.blocks, r), b.past[r]);
  }

  lemma SameRows(x: map<Version, Row>, y: map<Version, Row>, contents: Contents)
    requires Shows(x, contents) && Shows(y, contents)
    ensures x.Values == y.Values
  {
    forall row ensures row in x.Values <==> Placed(contents, row) { ShowsPlaced(x, contents, row); }
    forall row ensures row in y.Values <==> Placed(contents, row) { ShowsPlaced(y, contents, row); }
  }

  lemma ShowsPlaced(x: map<Version, Row>, contents: Contents, row: Row)
    requires Shows(x, contents)
    ensures row in x.Values <==> Placed(contents, row)
  {
  }

  predicate SamePlace(visible: map<Version, Row>, v: Version, w: Version)
    requires v in visible && w in visible
  {
    visible[v].chapter == visible[w].chapter && visible[v].ordinal == visible[w].ordinal
  }

  predicate StandsAt(visible: map<Version, Row>, chapter: Id, n: int) {
    exists w :: w in visible && visible[w].chapter == chapter && visible[w].ordinal == n
  }

  /** At every revision each block id has at most one row, and the rows of a chapter are numbered
      0, 1, ... without a gap. */
  lemma EveryRevisionIsOrderly(b: Book, r: nat, v: Version)
    requires Good(b) && r <= b.revision && v in VisibleAt(b.blocks, r)
    ensures forall w :: w in VisibleAt(b.blocks, r) && w.id == v.id ==> w == v
    ensures forall n :: 0 <= n < VisibleAt(b.blocks, r)[v].ordinal ==>
              StandsAt(VisibleAt(b.blocks, r), VisibleAt(b.blocks, r)[v].chapter, n)
    ensures forall w :: w in VisibleAt(b.blocks, r) && SamePlace(VisibleAt(b.blocks, r), v, w) ==> w == v
  {
    hide Ordered, Sound, Keyed, Minted, Counted, VisibleAt;
    var visible := VisibleAt(b.blocks, r);
    assert Shows(visible, b.past[r]);
    forall n | 0 <= n < visible[v].ordinal ensures StandsAt(visible, visible[v].chapter, n) {
      assert Placed(b.past[r], Row(b.past[r][visible[v].chapter][n], visible[v].chapter, n));
    }
  }

  /** No key is used twice: two rows of one block have intervals that do not overlap. */
  lemma IntervalsAreDisjoint(b: Book, v: Version, w: Version)
    requires Good(b) && v in b.blocks && w in b.blocks && v.id == w.id && v != w
    ensures var u := if v.from < w.from then v else w;
            var later := if v.from < w.from then w else v;
            && b.blocks[u].until.Some? && u.from < b.blocks[u].until.value <= later.from
    ensures b.blocks[v].until.Some? || b.blocks[w].until.Some?
  {
    hide Ordered, Keyed, Minted, Counted, Readable, Current;
  }

  /** What the editor shows of a chapter and gets back unchanged makes no revision exactly when every
      block is one a commit can hold. */
  lemma UnchangedTextIsNoCommit(pieces: seq<Piece>)
    ensures Texts(pieces) == SplitPlainText(JoinPlainText(Texts(pieces))) <==> AllParts(Texts(pieces))
  {
    EditorRoundTrip(Texts(pieces));
  }

  /** A split inside a block of such a chapter leaves two such chapters exactly when there is no white
      space on either side of the cut. */
  lemma SplitRoundTripsExactly(pieces: seq<Piece>, i: nat, offset: nat, fresh': Id)
    requires i < |pieces| && Inside(pieces[i], offset) && AllParts(Texts(pieces))
    ensures var halves := Halves(pieces, i, offset, fresh');
            AllParts(Texts(halves.0)) && AllParts(Texts(halves.1)) <==>
            !IsSpace(pieces[i].text[offset - 1]) && !IsSpace(pieces[i].text[offset])
  {
    hide IsSpace, IsPart;
    var p := pieces[i];
    var (ls, rs) := Halves(pieces, i, offset, fresh');
    TextsAt(pieces);
    TextsAt(ls);
    TextsAt(rs);
    HalfParts(p.text, offset);
    assert ls[i].text == p.text[..offset] && rs[0].text == p.text[offset..];
    forall k | 0 <= k < |ls| && k != i ensures IsPart(ls[k].text) {
      assert ls[k] == pieces[k] && IsPart(Texts(pieces)[k]);
    }
    forall k | 0 < k < |rs| ensures IsPart(rs[k].text) {
      assert rs[k] == pieces[i + k] && IsPart(Texts(pieces)[i + k]);
    }
    assert IsPart(Texts(pieces)[i]);
    assert AllParts(Texts(ls)) <==> IsPart(p.text[..offset]) by {
      if AllParts(Texts(ls)) { assert IsPart(Texts(ls)[i]); }
    }
    assert AllParts(Texts(rs)) <==> IsPart(p.text[offset..]) by {
      if AllParts(Texts(rs)) { assert IsPart(Texts(rs)[0]); }
    }
  }

  lemma {:induction false} TextsAt(pieces: seq<Piece>)
    ensures |Texts(pieces)| == |pieces| && forall k :: 0 <= k < |pieces| ==> Texts(pieces)[k] == pieces[k].text
  {
    if pieces != [] { TextsAt(pieces[1..]); }
  }

  lemma HalfParts(text: string, offset: nat)
    requires 0 < offset < |text| && IsPart(text)
    ensures IsPart(text[..offset]) <==> !IsSpace(text[offset - 1])
    ensures IsPart(text[offset..]) <==> !IsSpace(text[offset])
  {
    hide IsSpace, HasBlankLine;
    BlankLineStays(text, 0, offset);
    BlankLineStays(text, offset, |text|);
    assert text[0..offset] == text[..offset] && text[offset..|text|] == text[offset..];
  }

  /** The block `a b` divided behind its space: what the editor shows of the left chapter does not split
      back into its block. */
  lemma SplitBreaksRoundTrip(p: Piece, fresh': Id)
    requires p.text == "a b"
    ensures var left := Halves([p], 0, 2, fresh').0;
            AllParts(Texts([p])) && Texts(left) != SplitPlainText(JoinPlainText(Texts(left)))
  {
    TextsAt([p]);
    assert IsPart("a b");
    SplitRoundTripsExactly([p], 0, 2, fresh');
    var (left, right) := Halves([p], 0, 2, fresh');
    assert "a b"[..2] == "a ";
    assert left == [p.(text := "a ")];
    TextsAt(left);
    assert !IsPart(Texts(left)[0]);
    UnchangedTextIsNoCommit(left);
  }
}
