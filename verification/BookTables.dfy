/** `store/chapters.py`: the tables of a project and the writes that every edit is made of. */
module BookTables {
  import opened Ordinals
  import opened Options
  import opened PyText
  import opened Versions

  // ---------- pieces, rows and keys ----------

  function Rows(pieces: seq<Piece>, chapter: Id, start: nat): seq<Row> {
    seq(|pieces|, i requires 0 <= i < |pieces| => Row(pieces[i], chapter, start + i))
  }

  function PieceIds(pieces: seq<Piece>): set<Id> {
    set p | p in pieces :: p.id
  }

  function KeyIds(keys: seq<Version>): set<Id> {
    set v | v in keys :: v.id
  }

  /** The rows that `_reversion_blocks` inserts. */
  function Moved(t: Table, keys: seq<Version>, chapter: Id, start: nat, texts: Option<seq<string>>): seq<Row>
    requires forall v :: v in keys ==> v in t
    requires texts.Some? ==> |texts.value| == |keys|
  {
    seq(|keys|, i requires 0 <= i < |keys| =>
      var piece := t[keys[i]].row.piece;
      Row(if texts.None? then piece else piece.(text := texts.value[i]), chapter, start + i))
  }

  /** The keys are those of the open rows of one chapter, in order. */
  ghost predicate ReadsBack(t: Table, chapter: Id, pieces: seq<Piece>, keys: seq<Version>) {
    && |keys| == |pieces|
    && forall i :: 0 <= i < |keys| ==>
         keys[i].id == pieces[i].id && keys[i] in t && t[keys[i]] == Stored(Row(pieces[i], chapter, i), None)
  }

  /** Rows that are open and the only open row of their block. */
  ghost predicate Replaceable(t: Table, keys: seq<Version>, revision: nat) {
    && (forall v :: v in keys ==> v in t && t[v].until.None? && t[v].row.piece.id == v.id)
    && (forall v, w :: v in keys && w in t && w.id == v.id && t[w].until.None? ==> w == v)
    && (forall v :: v in keys ==> Version(v.id, revision) !in t)
    && (forall i, j :: 0 <= i < j < |keys| ==> keys[i].id != keys[j].id)
  }

  lemma CloseOne(t: Table, ids: set<Id>, v: Version, revision: nat)
    requires v in t && t[v].until.None? && v.id !in ids
    requires forall w :: w in t && w.id == v.id && t[w].until.None? ==> w == v
    ensures v in Close(t, ids, revision) && Close(t, ids, revision)[v] == t[v]
    ensures Close(t, ids + {v.id}, revision) == Close(t, ids, revision)[v := t[v].(until := Some(revision))]
  {
  }

  lemma OneMoreKey(keys: seq<Version>, i: nat)
    requires i < |keys| && forall i, j :: 0 <= i < j < |keys| ==> keys[i].id != keys[j].id
    ensures keys[i].id !in KeyIds(keys[..i]) && KeyIds(keys[..i + 1]) == KeyIds(keys[..i]) + {keys[i].id}
  {
    assert keys[..i + 1] == keys[..i] + [keys[i]];
  }

  lemma MovedIsRows(t: Table, chapter: Id, pieces: seq<Piece>, keys: seq<Version>, target: Id, start: nat)
    requires ReadsBack(t, chapter, pieces, keys)
    ensures forall v :: v in keys ==> v in t
    ensures Moved(t, keys, target, start, None) == Rows(pieces, target, start)
    ensures KeyIds(keys) == PieceIds(pieces)
  {
    forall id | id in PieceIds(pieces) ensures id in KeyIds(keys) {
      var p :| p in pieces && p.id == id;
      var i :| 0 <= i < |pieces| && pieces[i] == p;
      assert keys[i] in keys;
    }
    forall id | id in KeyIds(keys) ensures id in PieceIds(pieces) {
      var v :| v in keys && v.id == id;
      var i :| 0 <= i < |keys| && keys[i] == v;
      assert pieces[i] in pieces;
    }
  }

  /** The open rows of a chapter can be replaced in the next revision. */
  lemma CurrentIsReplaceable(t: Table, contents: Contents, since: map<Id, nat>, revision: nat,
                             chapter: Id, keys: seq<Version>)
    requires Sound(t, contents, since, revision) && chapter in contents
    requires ReadsBack(t, chapter, contents[chapter], keys)
    ensures Replaceable(t, keys, revision + 1)
  {
    forall i, j | 0 <= i < j < |keys| ensures keys[i].id != keys[j].id {
      NoBlockTwice(t, contents, since, revision, t[keys[i]].row, t[keys[j]].row);
    }
  }

  lemma SomeAreReplaceable(t: Table, keys: seq<Version>, a: nat, b: nat, revision: nat)
    requires Replaceable(t, keys, revision) && a <= b <= |keys|
    ensures Replaceable(t, keys[a..b], revision)
  {
    assert forall v :: v in keys[a..b] ==> v in keys;
  }

  /** A rewrite of other blocks leaves these as they are. */
  lemma ReplaceableAfter(t: Table, keys: seq<Version>, gone: set<Id>, rows: seq<Row>, revision: nat)
    requires Replaceable(t, keys, revision) && DistinctRows(rows)
    requires KeyIds(keys) !! gone && KeyIds(keys) !! IdsOf(rows)
    ensures Replaceable(Rewrite(t, gone, rows, revision), keys, revision)
    ensures forall v :: v in keys ==> v in t && Rewrite(t, gone, rows, revision)[v] == t[v]
  {
    InsertIs(Close(t, gone, revision), rows, revision);
    forall v | v in keys ensures v.id !in gone && v.id !in IdsOf(rows) {
      assert v.id in KeyIds(keys);
    }
  }

  // ---------- characters ----------

  /** Characters a reader would speak. */
  function Extractable(text: string): nat {
    if text == "" then 0 else (if IsSpace(text[0]) then 0 else 1) + Extractable(text[1..])
  }

  /** The places of a text, from `k` on, that hold no white space. */
  function InkFrom(text: string, k: nat): set<nat> {
    set i: nat | k <= i < |text| && !IsSpace(text[i])
  }

  /** The count of a text is the number of its characters that are no white space. */
  lemma {:induction false} ExtractableIsInk(text: string, k: nat)
    requires k <= |text|
    ensures Extractable(text[k..]) == |InkFrom(text, k)|
    decreases |text| - k
  {
    hide IsSpace;
    if k < |text| {
      ExtractableIsInk(text, k + 1);
      assert text[k..][0] == text[k] && text[k..][1..] == text[k + 1..];
      assert InkFrom(text, k) == InkFrom(text, k + 1) + if IsSpace(text[k]) then {} else {k};
    } else {
      assert InkFrom(text, k) == {};
    }
  }

  function CharCount(pieces: seq<Piece>): nat {
    if pieces == [] then 0 else Extractable(pieces[0].text) + CharCount(pieces[1..])
  }

  lemma {:induction false} CharCountJoins(xs: seq<Piece>, ys: seq<Piece>)
    ensures CharCount(xs + ys) == CharCount(xs) + CharCount(ys)
  {
    if xs == [] {
      assert xs + ys == ys;
    } else {
      assert (xs + ys)[1..] == xs[1..] + ys;
      CharCountJoins(xs[1..], ys);
    }
  }

  lemma {:induction false} ExtractableJoins(a: string, b: string)
    ensures Extractable(a + b) == Extractable(a) + Extractable(b)
  {
    if a == "" {
      assert a + b == b;
    } else {
      assert (a + b)[1..] == a[1..] + b;
      ExtractableJoins(a[1..], b);
    }
  }

  // ---------- the state of a project ----------

  ghost predicate Minted(chapters: Chapters, blocks: Table, minted: nat) {
    && (forall c :: c in chapters ==> c < minted)
    && (forall v :: v in blocks ==> v.id < minted)
  }

  ghost predicate Counted(chapters: Chapters, contents: Contents) {
    forall c :: c in contents ==> c in chapters && chapters[c].charCount == CharCount(contents[c])
  }

  ghost predicate Keyed(order: seq<Id>, contents: Contents) {
    forall c :: c in contents <==> c in order
  }

  /** The tables together with what they stand for: the live chapters in narration order, the removed
      ones in the order they were removed, the block lists at every revision so far, and the revision
      at which the open row of each block began. */
  datatype Book = Book(
    chapters: Chapters, blocks: Table, revision: nat, minted: nat,
    order: seq<Id>, tombs: seq<Id>, past: seq<Contents>, since: map<Id, nat>)

  function Now(b: Book): Contents
    requires b.past != []
  {
    b.past[|b.past| - 1]
  }

  /** The state between two edits. */
  ghost predicate Good(b: Book) {
    && |b.past| == b.revision + 1
    && Ordered(b.chapters, b.order, b.tombs)
    && Sound(b.blocks, Now(b), b.since, b.revision)
    && Readable(b.blocks, b.past)
    && Keyed(b.order, Now(b))
    && Minted(b.chapters, b.blocks, b.minted)
    && Counted(b.chapters, Now(b))
  }

  /** The book after a rewrite of blocks and a renumbering of chapters. */
  function NextBook(b: Book, gone: set<Id>, rows: seq<Row>, after: Contents,
                    chapters: Chapters, minted: nat, order: seq<Id>, tombs: seq<Id>): Book
  {
    Book(chapters, Rewrite(b.blocks, gone, rows, b.revision + 1), b.revision + 1, minted,
         order, tombs, b.past + [after], Since(b.since, rows, b.revision + 1))
  }

  /** A rewrite that leads on, with the chapters brought up to date, gives the next state. */
  lemma NextIsGood(b: Book, gone: set<Id>, rows: seq<Row>, after: Contents,
                   chapters: Chapters, minted: nat, order: seq<Id>, tombs: seq<Id>)
    requires Good(b) && Leads(b.blocks, Now(b), after, gone, rows)
    requires Ordered(chapters, order, tombs) && Keyed(order, after) && Counted(chapters, after)
    requires b.minted <= minted && (forall c :: c in chapters ==> c < minted)
    requires forall r :: r in rows ==> r.piece.id < minted
    ensures Good(NextBook(b, gone, rows, after, chapters, minted, order, tombs))
  {
    hide Ordered, Keyed, Counted, Leads, Sound, Readable, Rewrite;
    RewriteIsMinted(b, after, gone, rows, minted);
    RewriteIsSound(b.blocks, Now(b), b.since, after, gone, rows, b.revision);
    RewriteIsReadable(b.blocks, b.past, b.since, after, gone, rows, b.revision);
    assert Now(NextBook(b, gone, rows, after, chapters, minted, order, tombs)) == after;
  }

  lemma RewriteIsMinted(b: Book, after: Contents, gone: set<Id>, rows: seq<Row>, minted: nat)
    requires Good(b) && b.minted <= minted && Leads(b.blocks, Now(b), after, gone, rows)
    requires forall r :: r in rows ==> r.piece.id < minted
    ensures forall v :: v in Rewrite(b.blocks, gone, rows, b.revision + 1) ==> v.id < minted
  {
    InsertIs(Close(b.blocks, gone, b.revision + 1), rows, b.revision + 1);
  }

  /** Blocks that stand in a chapter have ids that were minted. */
  lemma PlacedIsMinted(b: Book, row: Row)
    requires Good(b) && Placed(Now(b), row)
    ensures row.piece.id < b.minted
  {
    assert OpenAt(b.blocks, b.since, row);
  }

  datatype Error =
    | Order | Count | ChapterNotFound | NotAdjacent | BlockNotFound | OutOfRange | EmptySide
    | RevisionConflict | EmptyQuery | NoScope | ValueError
    | Integrity // the UNIQUE constraint refused a row

  datatype Outcome<T> = Done(value: T) | Refused(error: Error)

  class Tables {
    var chapters: Chapters
    var blocks: Table
    var revision: nat
    var minted: nat

    ghost var order: seq<Id>
    ghost var tombs: seq<Id>
    ghost var past: seq<Contents>
    ghost var since: map<Id, nat>

    constructor ()
      ensures Valid()
      ensures chapters == map[] && blocks == map[] && revision == 0 && minted == 0
      ensures order == [] && tombs == [] && past == [map[]] && since == map[]
    {
      chapters, blocks, revision, minted := map[], map[], 0, 0;
      order, tombs, past, since := [], [], [map[]], map[];
    }

    ghost function State(): Book
      reads this
    {
      Book(chapters, blocks, revision, minted, order, tombs, past, since)
    }

    ghost predicate Valid()
      reads this
    {
      Good(State())
    }

    // ---------- queries ----------

    /** `_active` */
    method Active() returns (rows: seq<Id>)
      requires Unique(chapters)
      ensures ListsLive(chapters, rows)
    {
      rows := LiveRows(chapters);
    }

    /** `_current_blocks` */
    method CurrentBlocks(chapter: Id, ghost contents: Contents) returns (keys: seq<Version>)
      requires Sound(blocks, contents, since, revision) && chapter in contents
      ensures ReadsBack(blocks, chapter, contents[chapter], keys)
    {
      OpenRowsAreThere(blocks, contents, since, revision, chapter);
      keys := OpenRows(blocks, chapter, contents[chapter]);
    }

    // ---------- writes ----------

    /** `_add_block`: the key of the new row must not be taken. */
    method AddBlock(row: Row)
      requires Version(row.piece.id, revision) !in blocks
      modifies `blocks
      ensures blocks == old(blocks)[Version(row.piece.id, revision) := Stored(row, None)]
    {
      blocks := blocks[Version(row.piece.id, revision) := Stored(row, None)];
    }

    /** A new chapter row; its ordinal must be free. */
    method AddChapter(c: Id, row: Chapter)
      requires c !in chapters && forall d :: d in chapters ==> chapters[d].ordinal != row.ordinal
      modifies `chapters
      ensures chapters == old(chapters)[c := row]
    {
      chapters := chapters[c := row];
    }

    /** `_reversion_blocks` */
    method ReversionBlocks(keys: seq<Version>, chapter: Id, start: nat, texts: Option<seq<string>>)
      requires Replaceable(blocks, keys, revision) && (texts.Some? ==> |texts.value| == |keys|)
      modifies `blocks
      ensures blocks == Rewrite(old(blocks), KeyIds(keys), Moved(old(blocks), keys, chapter, start, texts), revision)
    {
      ghost var t := blocks;
      CloseBlocks(keys);
      InsertBlocks(keys, chapter, start, texts, t);
    }

    method CloseBlocks(keys: seq<Version>)
      requires Replaceable(blocks, keys, revision)
      modifies `blocks
      ensures blocks == Close(old(blocks), KeyIds(keys), revision)
    {
      ghost var t := blocks;
      var i := 0;
      while i < |keys|
        invariant 0 <= i <= |keys|
        invariant blocks == Close(t, KeyIds(keys[..i]), revision)
      {
        OneMoreKey(keys, i);
        assert keys[i] in keys;
        CloseOne(t, KeyIds(keys[..i]), keys[i], revision);
        blocks := blocks[keys[i] := blocks[keys[i]].(until := Some(revision))];
        i := i + 1;
      }
      assert keys[..i] == keys;
    }

    method InsertBlocks(keys: seq<Version>, chapter: Id, start: nat, texts: Option<seq<string>>, ghost t: Table)
      requires Replaceable(t, keys, revision) && (texts.Some? ==> |texts.value| == |keys|)
      requires blocks == Close(t, KeyIds(keys), revision)
      modifies `blocks
      ensures blocks == Rewrite(t, KeyIds(keys), Moved(t, keys, chapter, start, texts), revision)
    {
      hide Replaceable, Close, Insert;
      KeysAreThere(t, keys, chapter, start, texts, revision);
      ghost var closed := blocks;
      ghost var rows := Moved(t, keys, chapter, start, texts);
      NothingInserted(closed, revision);
      assert rows[..0] == [];
      var i := 0;
      while i < |keys|
        invariant 0 <= i <= |keys|
        invariant blocks == Insert(closed, rows[..i], revision)
      {
        InsertNext(t, closed, keys, rows, i, revision);
        var piece := blocks[keys[i]].row.piece;
        var text := if texts.None? then piece.text else texts.value[i];
        assert Row(piece.(text := text), chapter, start + i) == rows[i];
        AddBlock(Row(piece.(text := text), chapter, start + i));
        i := i + 1;
      }
      assert rows[..i] == rows;
    }

    /** `_flush`: the pending ordinals are written row by row, in any order, and the UNIQUE constraint
        is checked at each write. */
    method Flush(pending: map<Id, int>) returns (ok: bool)
      requires Unique(chapters) && pending.Keys <= chapters.Keys
      modifies `chapters
      ensures ok ==> chapters == Renumbered(old(chapters), pending) && Unique(chapters)
      ensures Free(old(chapters), pending) ==> ok
    {
      ghost var before := chapters;
      var rest := pending.Keys;
      while rest != {}
        invariant rest <= pending.Keys && chapters == PartWritten(before, pending, rest) && Unique(chapters)
      {
        var c :| c in rest;
        if exists d :: d in chapters && d != c && chapters[d].ordinal == pending[c] {
          return false;
        }
        WriteOne(before, pending, rest, c);
        chapters := chapters[c := chapters[c].(ordinal := pending[c])];
        rest := rest - {c};
      }
      return true;
    }

    /** `_write_ordinals`: first every row moves to a temporary ordinal, then to its place. */
    method WriteOrdinals(pairs: seq<(Id, int)>, ghost removed: nat) returns (ok: bool)
      requires Renumbers(chapters, pairs) && Buried(chapters, removed)
      modifies `chapters
      ensures ok <==> pairs == [] || removed < 1_000_000
      ensures ok ==> chapters == Renumbered(old(chapters), Finals(pairs))
    {
      ghost var before := chapters;
      PendingAre(pairs);
      if pairs == [] {
        return true;
      }
      var temps := PendingOrdinals(pairs, true);
      if removed < 1_000_000 { TempsAreFree(before, pairs, removed); } else { TempsCollide(before, pairs, removed); }
      ok := Flush(temps);
      if !ok {
        return;
      }
      FinalsAreFree(before, pairs);
      RenumberTwice(before, Temps(pairs), Finals(pairs));
      var finals := PendingOrdinals(pairs, false);
      ok := Flush(finals);
    }

    /** `_shift_ordinals` */
    method ShiftOrdinals(start: nat, delta: int, ghost removed: nat) returns (ok: bool)
      requires start + delta >= 0 && Unique(chapters) && Unique(Shifted(chapters, start, delta))
      requires Buried(chapters, removed)
      modifies `chapters
      ensures ok <==> (forall c :: c in old(chapters) ==> old(chapters)[c].ordinal < start) || removed < 1_000_000
      ensures ok ==> chapters == Shifted(old(chapters), start, delta)
    {
      var rows := Active();
      var pairs := PairsToShift(chapters, rows, start, delta);
      PairsShift(chapters, rows, start, delta);
      ShiftIsRenumbering(chapters, start, delta, pairs);
      ShiftsNothing(chapters, start, delta, pairs);
      ok := WriteOrdinals(pairs, removed);
    }

    /** `_next_tombstone` */
    method NextTombstone() returns (next: int)
      requires Ordered(chapters, order, tombs)
      ensures next == -1 - |tombs|
    {
      var least := 0;
      var rest := chapters.Keys;
      while rest != {}
        invariant rest <= chapters.Keys && least <= 0
        invariant forall c :: c in chapters && c !in rest ==> least <= chapters[c].ordinal
        invariant least < 0 ==> exists c :: c in chapters && chapters[c].ordinal == least
      {
        var c :| c in rest;
        if chapters[c].ordinal < least {
          least := chapters[c].ordinal;
        }
        rest := rest - {c};
      }
      if |tombs| > 0 { assert chapters[tombs[|tombs| - 1]].ordinal == -|tombs|; }
      next := least - 1;
    }

    /** `_refresh_char_count` */
    method RefreshCharCount(chapter: Id, ghost contents: Contents)
      requires Sound(blocks, contents, since, revision) && chapter in contents && chapter in chapters
      modifies `chapters
      ensures chapters == old(chapters)[chapter := old(chapters)[chapter].(charCount := CharCount(contents[chapter]))]
    {
      var keys := CurrentBlocks(chapter, contents);
      ghost var pieces := contents[chapter];
      var total, i := 0, |keys|;
      assert pieces[i..] == [];
      while i > 0
        invariant 0 <= i <= |keys| && total == CharCount(pieces[i..])
      {
        i := i - 1;
        assert pieces[i..][1..] == pieces[i + 1..];
        total := total + Extractable(blocks[keys[i]].row.piece.text);
      }
      assert pieces[0..] == pieces;
      chapters := chapters[chapter := chapters[chapter].(charCount := total)];
    }
  }

  // ---------- steps of the writes ----------

  lemma KeysAreThere(t: Table, keys: seq<Version>, chapter: Id, start: nat, texts: Option<seq<string>>, revision: nat)
    requires Replaceable(t, keys, revision) && (texts.Some? ==> |texts.value| == |keys|)
    ensures forall v :: v in keys ==> v in t
    ensures forall k :: 0 <= k < |keys| ==> Moved(t, keys, chapter, start, texts)[k].piece.id == keys[k].id
  {
    assert forall k :: 0 <= k < |keys| ==> keys[k] in keys;
  }

  lemma NothingInserted(t: Table, revision: nat)
    ensures Insert(t, [], revision) == t
  {
  }

  lemma NotYetInserted(keys: seq<Version>, rows: seq<Row>, i: nat)
    requires i < |keys| == |rows| && forall k :: 0 <= k < |rows| ==> rows[k].piece.id == keys[k].id
    requires forall i, j :: 0 <= i < j < |keys| ==> keys[i].id != keys[j].id
    ensures DistinctRows(rows[..i]) && keys[i].id !in IdsOf(rows[..i])
  {
    assert forall k :: 0 <= k < i ==> rows[..i][k].piece.id == keys[k].id;
    forall r | r in rows[..i] ensures r.piece.id != keys[i].id {
      var k :| 0 <= k < i && rows[..i][k] == r;
    }
  }

  lemma InsertNext(t: Table, closed: Table, keys: seq<Version>, rows: seq<Row>, i: nat, revision: nat)
    requires Replaceable(t, keys, revision) && i < |keys| == |rows|
    requires closed == Close(t, KeyIds(keys), revision)
    requires forall k :: 0 <= k < |rows| ==> rows[k].piece.id == keys[k].id
    ensures rows[..i + 1][..i] == rows[..i]
    ensures keys[i] in Insert(closed, rows[..i], revision)
    ensures Insert(closed, rows[..i], revision)[keys[i]].row == t[keys[i]].row
    ensures Version(keys[i].id, revision) !in Insert(closed, rows[..i], revision)
    ensures Insert(closed, rows[..i + 1], revision)
         == Insert(closed, rows[..i], revision)[Version(keys[i].id, revision) := Stored(rows[i], None)]
  {
    NotYetInserted(keys, rows, i);
    InsertIs(closed, rows[..i], revision);
    var v := keys[i];
    assert v in keys && v in closed && closed[v].row == t[v].row;
    assert Version(v.id, revision) !in t;
  }

  function PartWritten(cs: Chapters, pending: map<Id, int>, rest: set<Id>): Chapters {
    map c | c in cs :: if c in pending && c !in rest then cs[c].(ordinal := pending[c]) else cs[c]
  }

  lemma WriteOne(cs: Chapters, pending: map<Id, int>, rest: set<Id>, c: Id)
    requires c in rest && c in pending && c in cs
    ensures PartWritten(cs, pending, rest - {c})
         == PartWritten(cs, pending, rest)[c := PartWritten(cs, pending, rest)[c].(ordinal := pending[c])]
  {
  }

  lemma PendingHere(pairs: seq<(Id, int)>, i: nat)
    requires DistinctPairs(pairs) && i < |pairs|
    ensures IndexOf(pairs, pairs[i].0) == i
    ensures pairs[i].0 in Temps(pairs) && Temps(pairs)[pairs[i].0] == TEMP_ORDINAL - i
    ensures pairs[i].0 in Finals(pairs) && Finals(pairs)[pairs[i].0] == pairs[i].1
  {
    assert pairs[i] in pairs;
  }

  /** The ordinals that a flush has to write. */
  method PendingOrdinals(pairs: seq<(Id, int)>, temporary: bool) returns (pending: map<Id, int>)
    requires DistinctPairs(pairs)
    ensures pending == if temporary then Temps(pairs) else Finals(pairs)
  {
    hide Temps, Finals, DistinctPairs;
    ghost var whole := if temporary then Temps(pairs) else Finals(pairs);
    pending := map[];
    PendingAre(pairs);
    var i := 0;
    while i < |pairs|
      invariant 0 <= i <= |pairs|
      invariant forall c :: c in pending <==> IndexOf(pairs, c) < i
      invariant forall c :: c in pending ==> pending[c] == whole[c]
    {
      ListedHere(pairs, i);
      PendingHere(pairs, i);
      pending := pending[pairs[i].0 := if temporary then TEMP_ORDINAL - i else pairs[i].1];
      i := i + 1;
    }
  }

  method PairsToShift(cs: Chapters, rows: seq<Id>, start: int, delta: int) returns (pairs: seq<(Id, int)>)
    requires forall c :: c in rows ==> c in cs
    ensures pairs == ShiftPairs(cs, rows, start, delta)
  {
    pairs := [];
    var i := 0;
    while i < |rows|
      invariant 0 <= i <= |rows|
      invariant pairs + ShiftPairs(cs, rows[i..], start, delta) == ShiftPairs(cs, rows, start, delta)
    {
      assert rows[i..][0] == rows[i] && rows[i..][1..] == rows[i + 1..];
      if cs[rows[i]].ordinal >= start {
        var pair := (rows[i], cs[rows[i]].ordinal + delta);
        Regroup(pairs, [pair], ShiftPairs(cs, rows[i + 1..], start, delta), ShiftPairs(cs, rows, start, delta));
        pairs := pairs + [pair];
      }
      i := i + 1;
    }
  }

  // ---------- select ... order by ordinal ----------

  ghost predicate Picked(cs: Chapters, rest: set<Id>, rows: seq<Id>) {
    && (forall c :: c in rest || c in rows <==> c in cs && cs[c].ordinal >= 0)
    && (forall c, d :: c in rows && d in rest ==> cs[c].ordinal < cs[d].ordinal)
    && (forall i, j :: 0 <= i < j < |rows| ==> cs[rows[i]].ordinal < cs[rows[j]].ordinal)
  }

  lemma PickLeast(cs: Chapters, rest: set<Id>, rows: seq<Id>, c: Id)
    requires Unique(cs) && Picked(cs, rest, rows)
    requires c in rest && forall d :: d in rest ==> cs[c].ordinal <= cs[d].ordinal
    ensures Picked(cs, rest - {c}, rows + [c])
  {
    forall d ensures d in rest - {c} || d in rows + [c] <==> d in cs && cs[d].ordinal >= 0 {
      assert d in rows + [c] <==> d in rows || d == c;
    }
    assert forall i :: 0 <= i < |rows| ==> rows[i] in rows;
  }

  method LiveRows(cs: Chapters) returns (rows: seq<Id>)
    requires Unique(cs)
    ensures ListsLive(cs, rows)
  {
    rows := [];
    var rest := set c | c in cs && cs[c].ordinal >= 0;
    while rest != {}
      invariant Picked(cs, rest, rows)
    {
      Least(cs, rest);
      var c :| c in rest && forall d :: d in rest ==> cs[c].ordinal <= cs[d].ordinal;
      PickLeast(cs, rest, rows, c);
      rest := rest - {c};
      rows := rows + [c];
    }
  }

  ghost predicate Waiting(t: Table, rest: set<Version>, row: Row) {
    exists v :: v in rest && v in t && v.id == row.piece.id && t[v] == Stored(row, None)
  }

  /** The rows in `rest` are those of the pieces from `n` on. */
  ghost predicate Remaining(t: Table, chapter: Id, pieces: seq<Piece>, rest: set<Version>, n: nat) {
    && (forall v :: v in rest ==> v in t && n <= t[v].row.ordinal < |pieces|)
    && (forall v :: v in rest ==> v.id == pieces[t[v].row.ordinal].id)
    && (forall v :: v in rest ==> t[v] == Stored(Row(pieces[t[v].row.ordinal], chapter, t[v].row.ordinal), None))
    && (forall i {:trigger pieces[i]} :: n <= i < |pieces| ==> Waiting(t, rest, Row(pieces[i], chapter, i)))
    && (forall v, w :: v in rest && w in rest && v.id == w.id ==> v == w)
  }

  lemma OpenRowsAreThere(t: Table, contents: Contents, since: map<Id, nat>, revision: nat, chapter: Id)
    requires Sound(t, contents, since, revision) && chapter in contents
    ensures Remaining(t, chapter, contents[chapter],
                      set v | v in t && t[v].row.chapter == chapter && t[v].until.None?, 0)
  {
    var pieces := contents[chapter];
    var rest := set v | v in t && t[v].row.chapter == chapter && t[v].until.None?;
    forall v | v in rest
      ensures t[v].row.ordinal < |pieces| && t[v].row.piece == pieces[t[v].row.ordinal]
    {
      assert Placed(contents, t[v].row);
    }
    forall i | 0 <= i < |pieces| ensures Waiting(t, rest, Row(pieces[i], chapter, i)) {
      assert Placed(contents, Row(pieces[i], chapter, i));
      assert OpenAt(t, since, Row(pieces[i], chapter, i));
      assert Version(pieces[i].id, since[pieces[i].id]) in rest;
    }
  }

  lemma SomeWait(t: Table, chapter: Id, pieces: seq<Piece>, rest: set<Version>, n: nat)
    requires Remaining(t, chapter, pieces, rest, n) && n < |pieces|
    ensures exists v :: v in rest && v in t && t[v].row.ordinal == n
  {
    assert Waiting(t, rest, Row(pieces[n], chapter, n));
  }

  lemma TakeFirst(t: Table, chapter: Id, pieces: seq<Piece>, rest: set<Version>, n: nat, v: Version)
    requires Remaining(t, chapter, pieces, rest, n) && v in rest && t[v].row.ordinal == n
    ensures Remaining(t, chapter, pieces, rest - {v}, n + 1)
  {
    forall w | w in rest - {v} ensures t[w].row.ordinal != n {
      assert w.id != v.id;
    }
    forall i | n + 1 <= i < |pieces| ensures Waiting(t, rest - {v}, Row(pieces[i], chapter, i)) {
      assert Waiting(t, rest, Row(pieces[i], chapter, i));
      var w :| w in rest && w in t && w.id == pieces[i].id && t[w] == Stored(Row(pieces[i], chapter, i), None);
      assert w in rest - {v};
    }
  }

  lemma NextKey(t: Table, chapter: Id, pieces: seq<Piece>, rest: set<Version>, keys: seq<Version>, v: Version)
    requires Remaining(t, chapter, pieces, rest, |keys|) && v in rest && t[v].row.ordinal == |keys| < |pieces|
    requires ReadsBack(t, chapter, pieces[..|keys|], keys)
    ensures ReadsBack(t, chapter, pieces[..|keys| + 1], keys + [v])
  {
    assert pieces[..|keys| + 1] == pieces[..|keys|] + [pieces[|keys|]];
  }

  method OpenRows(t: Table, chapter: Id, ghost pieces: seq<Piece>) returns (keys: seq<Version>)
    requires Remaining(t, chapter, pieces, set v | v in t && t[v].row.chapter == chapter && t[v].until.None?, 0)
    ensures ReadsBack(t, chapter, pieces, keys)
  {
    keys := [];
    var rest := set v | v in t && t[v].row.chapter == chapter && t[v].until.None?;
    while rest != {}
      invariant |keys| <= |pieces| && Remaining(t, chapter, pieces, rest, |keys|)
      invariant ReadsBack(t, chapter, pieces[..|keys|], keys)
    {
      ghost var w :| w in rest;
      assert |keys| <= t[w].row.ordinal;
      SomeWait(t, chapter, pieces, rest, |keys|);
      var v :| v in rest && forall w :: w in rest ==> t[v].row.ordinal <= t[w].row.ordinal;
      NextKey(t, chapter, pieces, rest, keys, v);
      TakeFirst(t, chapter, pieces, rest, |keys|, v);
      rest := rest - {v};
      keys := keys + [v];
    }
    if |keys| < |pieces| { SomeWait(t, chapter, pieces, rest, |keys|); }
    assert pieces[..|keys|] == pieces;
  }

  /** A set of chapters that is not empty has one with the least ordinal. */
  lemma {:induction false} Least(cs: Chapters, rest: set<Id>)
    requires rest != {} && forall c :: c in rest ==> c in cs
    ensures exists c :: c in rest && forall d :: d in rest ==> cs[c].ordinal <= cs[d].ordinal
  {
    var c :| c in rest;
    if rest != {c} {
      Least(cs, rest - {c});
      var e :| e in rest - {c} && forall d :: d in rest - {c} ==> cs[e].ordinal <= cs[d].ordinal;
      var least := if cs[c].ordinal <= cs[e].ordinal then c else e;
      assert least in rest && forall d :: d in rest ==> d == c || d in rest - {c};
    }
  }
}
