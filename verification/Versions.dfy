/** The block table of `store/chapters.py`: every edit closes the rows it replaces and inserts rows of
    the next revision under the key `block:revision`. */
module Versions {
  import opened Options

  type Id = nat

  datatype Kind = Paragraph | Heading | Blockquote | ListItem | Caption

  /** What stays with a block when its row is rewritten. */
  datatype Piece = Piece(id: Id, kind: Kind, level: Option<nat>, text: string, source: Option<string>)

  /** Where a block stands. */
  datatype Row = Row(piece: Piece, chapter: Id, ordinal: nat)

  /** The primary key `version_id`. */
  datatype Version = Version(id: Id, from: nat)

  datatype Stored = Stored(row: Row, until: Option<nat>)

  type Table = map<Version, Stored>

  /** The block lists of the live chapters. */
  type Contents = map<Id, seq<Piece>>

  predicate Placed(contents: Contents, row: Row) {
    && row.chapter in contents
    && row.ordinal < |contents[row.chapter]|
    && contents[row.chapter][row.ordinal] == row.piece
  }

  // ---------- closing and inserting rows ----------

  function Close(t: Table, gone: set<Id>, revision: nat): Table {
    map v | v in t :: if v.id in gone && t[v].until.None? then t[v].(until := Some(revision)) else t[v]
  }

  function Insert(t: Table, rows: seq<Row>, revision: nat): Table {
    if rows == [] then t
    else
      var n := |rows| - 1;
      Insert(t, rows[..n], revision)[Version(rows[n].piece.id, revision) := Stored(rows[n], None)]
  }

  function IdsOf(rows: seq<Row>): set<Id> {
    set r | r in rows :: r.piece.id
  }

  ghost predicate DistinctRows(rows: seq<Row>) {
    forall i, j :: 0 <= i < j < |rows| ==> rows[i].piece.id != rows[j].piece.id
  }

  function Rewrite(t: Table, gone: set<Id>, rows: seq<Row>, revision: nat): Table {
    Insert(Close(t, gone, revision), rows, revision)
  }

  lemma {:induction false} InsertIs(t: Table, rows: seq<Row>, revision: nat)
    requires DistinctRows(rows)
    ensures forall v :: v in Insert(t, rows, revision) <==> v in t || (v.from == revision && v.id in IdsOf(rows))
    ensures forall k :: 0 <= k < |rows| ==>
              Version(rows[k].piece.id, revision) in Insert(t, rows, revision)
              && Insert(t, rows, revision)[Version(rows[k].piece.id, revision)] == Stored(rows[k], None)
    ensures forall v :: v in t && !(v.from == revision && v.id in IdsOf(rows)) ==> Insert(t, rows, revision)[v] == t[v]
  {
    if rows != [] {
      var n := |rows| - 1;
      InsertIs(t, rows[..n], revision);
      assert IdsOf(rows) == IdsOf(rows[..n]) + {rows[n].piece.id} by {
        assert rows == rows[..n] + [rows[n]];
      }
    }
  }

  lemma {:induction false} InsertAppend(t: Table, xs: seq<Row>, ys: seq<Row>, revision: nat)
    ensures Insert(Insert(t, xs, revision), ys, revision) == Insert(t, xs + ys, revision)
  {
    if ys == [] {
      assert xs + ys == xs;
    } else {
      var n := |ys| - 1;
      InsertAppend(t, xs, ys[..n], revision);
      assert (xs + ys)[..|xs + ys| - 1] == xs + ys[..n];
    }
  }

  lemma {:induction false} CloseInsert(t: Table, rows: seq<Row>, gone: set<Id>, revision: nat)
    requires IdsOf(rows) !! gone
    ensures Close(Insert(t, rows, revision), gone, revision) == Insert(Close(t, gone, revision), rows, revision)
  {
    if rows != [] {
      var n := |rows| - 1;
      assert rows[n].piece.id in IdsOf(rows);
      assert IdsOf(rows[..n]) <= IdsOf(rows);
      CloseInsert(t, rows[..n], gone, revision);
    }
  }

  /** Two rewrites of different blocks in one revision are one rewrite. */
  lemma RewriteTwice(t: Table, gone: set<Id>, rows: seq<Row>, more: set<Id>, others: seq<Row>, revision: nat)
    requires IdsOf(rows) !! more
    ensures Rewrite(Rewrite(t, gone, rows, revision), more, others, revision)
         == Rewrite(t, gone + more, rows + others, revision)
  {
    CloseInsert(Close(t, gone, revision), rows, more, revision);
    assert Close(Close(t, gone, revision), more, revision) == Close(t, gone + more, revision);
    InsertAppend(Close(t, gone + more, revision), rows, others, revision);
  }

  // ---------- the table and what it shows ----------

  /** The rows that were current at a revision. */
  function VisibleAt(t: Table, r: nat): map<Version, Row> {
    map v | v in t && v.from <= r && (t[v].until.None? || r < t[v].until.value) :: t[v].row
  }

  ghost predicate OpenAt(t: Table, since: map<Id, nat>, row: Row) {
    && row.piece.id in since
    && Version(row.piece.id, since[row.piece.id]) in t
    && t[Version(row.piece.id, since[row.piece.id])] == Stored(row, None)
  }

  /** A row was valid over a non-empty interval of past revisions. */
  ghost predicate Dated(t: Table, revision: nat) {
    forall v :: v in t ==>
      && v.from <= revision && t[v].row.piece.id == v.id
      && (t[v].until.Some? ==> v.from < t[v].until.value <= revision)
  }

  /** The intervals of one block do not overlap. */
  ghost predicate Apart(t: Table) {
    forall v, w :: v in t && w in t && v.id == w.id && v.from < w.from ==>
      t[v].until.Some? && t[v].until.value <= w.from
  }

  /** The open rows are exactly the rows of the live block lists. */
  ghost predicate Current(t: Table, contents: Contents, since: map<Id, nat>) {
    && (forall v :: v in t && t[v].until.None? ==>
          Placed(contents, t[v].row) && v.id in since && since[v.id] == v.from)
    && (forall row :: Placed(contents, row) ==> OpenAt(t, since, row))
  }

  ghost predicate Sound(t: Table, contents: Contents, since: map<Id, nat>, revision: nat) {
    Dated(t, revision) && Apart(t) && Current(t, contents, since)
  }

  /** What a rewrite has to look like to lead from one set of block lists to the next. */
  ghost predicate Leads(t: Table, contents: Contents, after: Contents, gone: set<Id>, rows: seq<Row>) {
    && DistinctRows(rows)
    && (forall k :: 0 <= k < |rows| ==> Placed(after, rows[k]))
    && (forall k :: 0 <= k < |rows| ==> rows[k].piece.id in gone || (forall v :: v in t ==> v.id != rows[k].piece.id))
    && (forall row :: Placed(after, row) ==> row in rows || (Placed(contents, row) && row.piece.id !in gone))
    && (forall row :: Placed(contents, row) && row.piece.id !in gone ==> Placed(after, row))
  }

  function Since(since: map<Id, nat>, rows: seq<Row>, revision: nat): map<Id, nat> {
    map id | id in since.Keys + IdsOf(rows) :: if id in IdsOf(rows) then revision else since[id]
  }

  lemma RewriteIsDated(t: Table, gone: set<Id>, rows: seq<Row>, revision: nat)
    requires Dated(t, revision) && DistinctRows(rows)
    ensures Dated(Rewrite(t, gone, rows, revision + 1), revision + 1)
  {
    InsertIs(Close(t, gone, revision + 1), rows, revision + 1);
  }

  lemma RewriteIsApart(t: Table, contents: Contents, after: Contents, gone: set<Id>, rows: seq<Row>, revision: nat)
    requires Dated(t, revision) && Apart(t) && Leads(t, contents, after, gone, rows)
    ensures Apart(Rewrite(t, gone, rows, revision + 1))
  {
    InsertIs(Close(t, gone, revision + 1), rows, revision + 1);
    var u := Rewrite(t, gone, rows, revision + 1);
    forall v, w | v in u && w in u && v.id == w.id && v.from < w.from
      ensures u[v].until.Some? && u[v].until.value <= w.from
    {
      assert v in t;
      if w.from == revision + 1 {
        var r :| r in rows && r.piece.id == w.id;
        assert w.id in gone;
      }
    }
  }

  lemma RewriteIsCurrent(t: Table, contents: Contents, since: map<Id, nat>, after: Contents,
                         gone: set<Id>, rows: seq<Row>, revision: nat)
    requires Dated(t, revision) && Current(t, contents, since) && Leads(t, contents, after, gone, rows)
    ensures Current(Rewrite(t, gone, rows, revision + 1), after, Since(since, rows, revision + 1))
  {
    InsertIs(Close(t, gone, revision + 1), rows, revision + 1);
    OpenIsPlaced(t, contents, since, after, gone, rows, revision);
    PlacedIsOpen(t, contents, since, after, gone, rows, revision);
  }

  lemma OpenIsPlaced(t: Table, contents: Contents, since: map<Id, nat>, after: Contents,
                     gone: set<Id>, rows: seq<Row>, revision: nat)
    requires Dated(t, revision) && Current(t, contents, since) && Leads(t, contents, after, gone, rows)
    ensures var u, then' := Rewrite(t, gone, rows, revision + 1), Since(since, rows, revision + 1);
            forall v :: v in u && u[v].until.None? ==> Placed(after, u[v].row) && v.id in then' && then'[v.id] == v.from
  {
    InsertIs(Close(t, gone, revision + 1), rows, revision + 1);
    var u := Rewrite(t, gone, rows, revision + 1);
    var then' := Since(since, rows, revision + 1);
    forall v | v in u && u[v].until.None?
      ensures Placed(after, u[v].row) && v.id in then' && then'[v.id] == v.from
    {
      if v.from == revision + 1 {
        var r :| r in rows && r.piece.id == v.id;
      } else {
        assert v in t && t[v].until.None? && v.id !in gone;
        assert Placed(contents, t[v].row);
        assert v.id !in IdsOf(rows);
      }
    }
  }

  lemma PlacedIsOpen(t: Table, contents: Contents, since: map<Id, nat>, after: Contents,
                     gone: set<Id>, rows: seq<Row>, revision: nat)
    requires Dated(t, revision) && Current(t, contents, since) && Leads(t, contents, after, gone, rows)
    ensures var u, then' := Rewrite(t, gone, rows, revision + 1), Since(since, rows, revision + 1);
            forall row :: Placed(after, row) ==> OpenAt(u, then', row)
  {
    InsertIs(Close(t, gone, revision + 1), rows, revision + 1);
    forall row | Placed(after, row)
      ensures OpenAt(Rewrite(t, gone, rows, revision + 1), Since(since, rows, revision + 1), row)
    {
      if row !in rows {
        assert OpenAt(t, since, row);
        assert row.piece.id !in IdsOf(rows);
      }
    }
  }

  lemma RewriteIsSound(t: Table, contents: Contents, since: map<Id, nat>, after: Contents,
                       gone: set<Id>, rows: seq<Row>, revision: nat)
    requires Sound(t, contents, since, revision) && Leads(t, contents, after, gone, rows)
    ensures Sound(Rewrite(t, gone, rows, revision + 1), after, Since(since, rows, revision + 1), revision + 1)
  {
    RewriteIsDated(t, gone, rows, revision);
    RewriteIsApart(t, contents, after, gone, rows, revision);
    RewriteIsCurrent(t, contents, since, after, gone, rows, revision);
  }

  /** No rewrite changes what an earlier revision shows. */
  lemma RewriteKeepsHistory(t: Table, gone: set<Id>, rows: seq<Row>, revision: nat, r: nat)
    requires Dated(t, revision) && DistinctRows(rows) && r <= revision
    ensures VisibleAt(Rewrite(t, gone, rows, revision + 1), r) == VisibleAt(t, r)
  {
    InsertIs(Close(t, gone, revision + 1), rows, revision + 1);
  }

  // ---------- reading a revision back ----------

  /** The rows are exactly those of the block lists, and no block stands twice. */
  ghost predicate Shows(visible: map<Version, Row>, contents: Contents) {
    && (forall v :: v in visible ==> Placed(contents, visible[v]) && visible[v].piece.id == v.id)
    && (forall row :: Placed(contents, row) ==> exists v :: v in visible && visible[v] == row)
    && (forall v, w :: v in visible && w in visible && v.id == w.id ==> v == w)
  }

  /** Every revision so far can be read back as it was. */
  ghost predicate Readable(t: Table, past: seq<Contents>) {
    forall r :: 0 <= r < |past| ==> Shows(VisibleAt(t, r), past[r])
  }

  lemma CurrentIsShown(t: Table, contents: Contents, since: map<Id, nat>, revision: nat)
    requires Sound(t, contents, since, revision)
    ensures Shows(VisibleAt(t, revision), contents)
  {
    var visible := VisibleAt(t, revision);
    forall row | Placed(contents, row) ensures exists v :: v in visible && visible[v] == row {
      assert OpenAt(t, since, row);
      assert Version(row.piece.id, since[row.piece.id]) in visible;
    }
  }

  lemma OneMoreRevision(t: Table, u: Table, past: seq<Contents>, after: Contents)
    requires Readable(t, past) && Shows(VisibleAt(u, |past|), after)
    requires forall r :: 0 <= r < |past| ==> VisibleAt(u, r) == VisibleAt(t, r)
    ensures Readable(u, past + [after])
  {
  }

  lemma RewriteIsReadable(t: Table, past: seq<Contents>, since: map<Id, nat>, after: Contents,
                          gone: set<Id>, rows: seq<Row>, revision: nat)
    requires |past| == revision + 1 && Readable(t, past)
    requires Sound(t, past[revision], since, revision) && Leads(t, past[revision], after, gone, rows)
    ensures Readable(Rewrite(t, gone, rows, revision + 1), past + [after])
  {
    var u := Rewrite(t, gone, rows, revision + 1);
    RewriteIsSound(t, past[revision], since, after, gone, rows, revision);
    CurrentIsShown(u, after, Since(since, rows, revision + 1), revision + 1);
    forall r | 0 <= r < |past| ensures VisibleAt(u, r) == VisibleAt(t, r) {
      RewriteKeepsHistory(t, gone, rows, revision, r);
    }
    OneMoreRevision(t, u, past, after);
  }

  /** A block list shows no block twice, whichever chapters it stands in. */
  lemma NoBlockTwice(t: Table, contents: Contents, since: map<Id, nat>, revision: nat, a: Row, b: Row)
    requires Sound(t, contents, since, revision) && Placed(contents, a) && Placed(contents, b)
    ensures a.piece.id == b.piece.id ==> a == b
  {
    assert OpenAt(t, since, a) && OpenAt(t, since, b);
  }

  /** What a revision shows determines the block lists, up to chapters that have none. */
  lemma ShownDetermines(visible: map<Version, Row>, a: Contents, b: Contents, c: Id)
    requires Shows(visible, a) && Shows(visible, b) && c in a && c in b
    ensures a[c] == b[c]
  {
    ShownInOrder(visible, a, b, c);
    ShownInOrder(visible, b, a, c);
  }

  lemma ShownInOrder(visible: map<Version, Row>, a: Contents, b: Contents, c: Id)
    requires Shows(visible, a) && Shows(visible, b) && c in a && c in b
    ensures a[c] <= b[c]
  {
    hide Shows;
    forall i | 0 <= i < |a[c]| ensures i < |b[c]| && a[c][i] == b[c][i] {
      ShownAt(visible, a, b, c, i);
    }
    assert |a[c]| <= |b[c]| by {
      if a[c] != [] { ShownAt(visible, a, b, c, |a[c]| - 1); }
    }
  }

  lemma ShownAt(visible: map<Version, Row>, a: Contents, b: Contents, c: Id, i: nat)
    requires Shows(visible, a) && Shows(visible, b) && c in a && c in b && i < |a[c]|
    ensures i < |b[c]| && a[c][i] == b[c][i]
  {
    assert Placed(a, Row(a[c][i], c, i));
  }
}
