/** What the edits of `store/chapters.py` do to the block lists and to the order of the chapters, and
    why each leads from one sound state to the next. */
module ChapterEdits {
  import opened BookTables
  import opened Ordinals
  import opened Options
  import opened Versions

  // ---------- helpers ----------

  /** A block stands in one chapter only. */
  lemma IdsStayApart(t: Table, contents: Contents, since: map<Id, nat>, revision: nat, row: Row, d: Id)
    requires Sound(t, contents, since, revision) && Placed(contents, row) && d in contents
    ensures row.piece.id in PieceIds(contents[d]) <==> row.chapter == d
  {
    if row.piece.id in PieceIds(contents[d]) {
      var p :| p in contents[d] && p.id == row.piece.id;
      var j :| 0 <= j < |contents[d]| && contents[d][j] == p;
      NoBlockTwice(t, contents, since, revision, row, Row(p, d, j));
    }
  }

  ghost predicate DistinctPieces(pieces: seq<Piece>) {
    forall i, j :: 0 <= i < j < |pieces| ==> pieces[i].id != pieces[j].id
  }

  lemma PiecesDiffer(t: Table, contents: Contents, since: map<Id, nat>, revision: nat, c: Id)
    requires Sound(t, contents, since, revision) && c in contents
    ensures DistinctPieces(contents[c])
  {
    forall i, j | 0 <= i < j < |contents[c]| ensures contents[c][i].id != contents[c][j].id {
      NoBlockTwice(t, contents, since, revision, Row(contents[c][i], c, i), Row(contents[c][j], c, j));
    }
  }

  // ---------- merge ----------

  /** The later chapter's blocks follow the earlier one's. */
  function Merged(contents: Contents, first: Id, second: Id): Contents
    requires first in contents && second in contents
  {
    map c | c in contents && c != second :: if c == first then contents[first] + contents[second] else contents[c]
  }

  /** The merged chapter counts what the two counted. */
  lemma MergeKeepsCount(contents: Contents, first: Id, second: Id)
    requires first in contents && second in contents && first != second
    ensures CharCount(Merged(contents, first, second)[first])
            == CharCount(contents[first]) + CharCount(contents[second])
  {
    CharCountJoins(contents[first], contents[second]);
  }

  lemma MergeLeads(t: Table, contents: Contents, since: map<Id, nat>, revision: nat, first: Id, second: Id)
    requires Sound(t, contents, since, revision) && first in contents && second in contents && first != second
    ensures Leads(t, contents, Merged(contents, first, second),
                  PieceIds(contents[second]), Rows(contents[second], first, |contents[first]|))
  {
    var after := Merged(contents, first, second);
    var gone := PieceIds(contents[second]);
    var start := |contents[first]|;
    var rows := Rows(contents[second], first, start);
    PiecesDiffer(t, contents, since, revision, second);
    assert DistinctRows(rows);
    forall k | 0 <= k < |rows| ensures rows[k].piece.id in gone && Placed(after, rows[k]) {
      assert contents[second][k] in contents[second];
    }
    hide Sound;
    forall row | Placed(after, row) ensures row in rows || (Placed(contents, row) && row.piece.id !in gone) {
      if row.chapter == first && row.ordinal >= start {
        assert row == rows[row.ordinal - start];
      } else {
        IdsStayApart(t, contents, since, revision, row, second);
      }
    }
    forall row | Placed(contents, row) && row.piece.id !in gone ensures Placed(after, row) {
      IdsStayApart(t, contents, since, revision, row, second);
    }
  }

  function Without<T>(s: seq<T>, k: nat): seq<T>
    requires k < |s|
  {
    s[..k] + s[k + 1..]
  }

  /** The removed chapter gets the next tombstone and the chapters behind it move up. */
  lemma MergeOrders(cs: Chapters, order: seq<Id>, tombs: seq<Id>, k: nat)
    requires Ordered(cs, order, tombs) && k < |order|
    ensures var buried := Renumbered(cs, map[order[k] := -1 - |tombs|]);
            && Unique(buried) && Buried(buried, |tombs| + 1)
            && Ordered(Shifted(buried, k + 1, -1), Without(order, k), tombs + [order[k]])
            && ((forall c :: c in buried ==> buried[c].ordinal < k + 1) <==> k + 1 == |order|)
  {
    var buried := Renumbered(cs, map[order[k] := -1 - |tombs|]);
    OrderedIsUnique(cs, order, tombs);
    assert Unique(buried);
    if |tombs| + 1 >= 1_000_000 {
      if |tombs| + 1 == 1_000_000 { assert buried[order[k]].ordinal == TEMP_ORDINAL; }
      else { assert buried[tombs[999_999]].ordinal == TEMP_ORDINAL; }
    }
    if k + 1 < |order| { assert buried[order[k + 1]].ordinal == k + 1; }
    MergeOrdered(cs, order, tombs, k);
  }

  lemma MergeOrdered(cs: Chapters, order: seq<Id>, tombs: seq<Id>, k: nat)
    requires Ordered(cs, order, tombs) && k < |order|
    ensures Ordered(Shifted(Renumbered(cs, map[order[k] := -1 - |tombs|]), k + 1, -1),
                    Without(order, k), tombs + [order[k]])
  {
    var after := Shifted(Renumbered(cs, map[order[k] := -1 - |tombs|]), k + 1, -1);
    assert after.Keys == cs.Keys;
    hide Ordered, MergedOrdinal;
    forall c | c in cs ensures after[c].ordinal == MergedOrdinal(cs[c].ordinal, k, |tombs|) {
      MovedByMerge(cs, order, tombs, k, c);
    }
    hide Shifted, Renumbered;
    MovedIsOrdered(cs, order, tombs, k, after);
  }

  lemma MovedIsOrdered(cs: Chapters, order: seq<Id>, tombs: seq<Id>, k: nat, after: Chapters)
    requires Ordered(cs, order, tombs) && k < |order| && after.Keys == cs.Keys
    requires forall c :: c in cs ==> after[c].ordinal == MergedOrdinal(cs[c].ordinal, k, |tombs|)
    ensures Ordered(after, Without(order, k), tombs + [order[k]])
  {
    var order', tombs' := Without(order, k), tombs + [order[k]];
    forall i | 0 <= i < |order'| ensures order'[i] in after && after[order'[i]].ordinal == i {
      assert order'[i] == if i < k then order[i] else order[i + 1];
    }
    forall i | 0 <= i < |tombs'| ensures tombs'[i] in after && after[tombs'[i]].ordinal == -1 - i {
      assert tombs'[i] == if i < |tombs| then tombs[i] else order[k];
    }
    forall c | c in after && after[c].ordinal >= 0
      ensures after[c].ordinal < |order'| && order'[after[c].ordinal] == c
    {
      assert order[cs[c].ordinal] == c;
    }
  }

  /** Where a merge moves an ordinal. */
  function MergedOrdinal(ordinal: int, k: nat, tombs: nat): int {
    if ordinal == k then -1 - tombs else if ordinal > k then ordinal - 1 else ordinal
  }

  lemma MovedByMerge(cs: Chapters, order: seq<Id>, tombs: seq<Id>, k: nat, c: Id)
    requires Ordered(cs, order, tombs) && k < |order| && c in cs
    ensures Shifted(Renumbered(cs, map[order[k] := -1 - |tombs|]), k + 1, -1)[c].ordinal
         == MergedOrdinal(cs[c].ordinal, k, |tombs|)
  {
    assert c == order[k] <==> cs[c].ordinal == k;
  }

  /** The place of a chapter in the order, or its length. */
  function PlaceOf(order: seq<Id>, c: Id): (k: nat)
    ensures k <= |order| && (k < |order| ==> order[k] == c)
    ensures k < |order| <==> c in order
  {
    if order == [] || order[0] == c then 0 else 1 + PlaceOf(order[1..], c)
  }

  /** Titles and the include flags of the chapters that were there before. */
  ghost predicate SameTitles(before: Chapters, after: Chapters) {
    forall c :: c in before ==>
      c in after && after[c].title == before[c].title && after[c].included == before[c].included
  }

  /** Why a merge is refused. The last case counts the removed chapters against the temporary
      ordinals. */
  ghost function MergeError(b: Book, ids: seq<Id>): Option<Error> {
    if |ids| != 2 || ids[0] == ids[1] then Some(Error.Count)
    else if ids[0] !in b.order || ids[1] !in b.order then Some(ChapterNotFound)
    else
      var i, j := PlaceOf(b.order, ids[0]), PlaceOf(b.order, ids[1]);
      if i != j + 1 && j != i + 1 then Some(NotAdjacent)
      else if CannotBury(b, if i < j then j else i) then Some(Integrity)
      else None
  }

  ghost predicate CannotBury(b: Book, k: nat) {
    |b.tombs| + (if k + 1 < |b.order| then 1 else 0) >= 1_000_000
  }

  /** The chapter at `k` was appended to the one in front of it. */
  ghost predicate IsMerge(b: Book, b': Book, k: nat) {
    && 0 < k < |b.order| && b.past != []
    && b.order[k - 1] in Now(b) && b.order[k] in Now(b)
    && b'.revision == b.revision + 1
    && b'.past == b.past + [Merged(Now(b), b.order[k - 1], b.order[k])]
    && b'.order == Without(b.order, k) && b'.tombs == b.tombs + [b.order[k]]
    && b'.chapters.Keys == b.chapters.Keys && SameTitles(b.chapters, b'.chapters)
  }

  function Buried'(cs: Chapters, tombs: seq<Id>, second: Id, k: nat): Chapters {
    Shifted(Renumbered(cs, map[second := -1 - |tombs|]), k + 1, -1)
  }

  lemma KthIsLive(cs: Chapters, order: seq<Id>, tombs: seq<Id>, k: nat)
    requires Ordered(cs, order, tombs) && k < |order|
    ensures order[k] in cs && cs[order[k]].ordinal == k
  {
  }

  /** Both renumberings of a merge meet their preconditions. */
  lemma BurialIsFree(cs: Chapters, order: seq<Id>, tombs: seq<Id>, k: nat)
    requires Ordered(cs, order, tombs) && k < |order|
    ensures order[k] in cs && cs[order[k]].ordinal == k
    ensures var pairs, buried := [(order[k], -1 - |tombs|)], Renumbered(cs, map[order[k] := -1 - |tombs|]);
            && Renumbers(cs, pairs) && Buried(cs, |tombs|) && Renumbered(cs, Finals(pairs)) == buried
            && Unique(buried) && Unique(Shifted(buried, k + 1, -1)) && Buried(buried, |tombs| + 1)
            && ((forall c :: c in buried ==> buried[c].ordinal < k + 1) <==> k + 1 == |order|)
  {
    hide Ordered, Shifted, Renumbers, Finals, Renumbered, Unique, Buried, Without;
    KthIsLive(cs, order, tombs, k);
    OrderedIsUnique(cs, order, tombs);
    MergeOrders(cs, order, tombs, k);
    OnePair(cs, order[k], -1 - |tombs|);
    OrderedIsUnique(Shifted(Renumbered(cs, map[order[k] := -1 - |tombs|]), k + 1, -1),
                    Without(order, k), tombs + [order[k]]);
  }

  ghost predicate HasPair(b: Book, k: nat) {
    && b.past != [] && 0 < k < |b.order|
    && b.order[k - 1] in Now(b) && b.order[k] in Now(b)
    && b.order[k - 1] in b.chapters && b.order[k] in b.chapters && b.order[k - 1] != b.order[k]
  }

  function MergeRowsOf(b: Book, k: nat): seq<Row>
    requires HasPair(b, k)
  {
    Rows(Now(b)[b.order[k]], b.order[k - 1], |Now(b)[b.order[k - 1]]|)
  }

  function MergedChapters(b: Book, k: nat): Chapters
    requires HasPair(b, k)
  {
    var first, second := b.order[k - 1], b.order[k];
    var moved := Buried'(b.chapters, b.tombs, second, k);
    var count := CharCount(Merged(Now(b), first, second)[first]);
    moved[first := moved[first].(charCount := count)][second := moved[second].(charCount := 0)]
  }

  function MergedBook(b: Book, k: nat): Book
    requires HasPair(b, k)
  {
    var first, second := b.order[k - 1], b.order[k];
    NextBook(b, PieceIds(Now(b)[second]), MergeRowsOf(b, k), Merged(Now(b), first, second),
             MergedChapters(b, k), b.minted, Without(b.order, k), b.tombs + [second])
  }

  lemma PairIsThere(b: Book, k: nat)
    requires Good(b) && 0 < k < |b.order|
    ensures HasPair(b, k)
    ensures forall i, j :: 0 <= i < j < |b.order| ==> b.order[i] != b.order[j]
  {
    hide Sound, Readable, Minted, Counted;
    assert b.order[k - 1] in b.order && b.order[k] in b.order;
    OrderedIsUnique(b.chapters, b.order, b.tombs);
  }

  lemma MergedChaptersAre(b: Book, k: nat)
    requires HasPair(b, k)
    ensures var cs := Buried'(b.chapters, b.tombs, b.order[k], k);
            && MergedChapters(b, k).Keys == b.chapters.Keys == cs.Keys
            && forall c :: c in cs ==> MergedChapters(b, k)[c].ordinal == cs[c].ordinal
    ensures SameTitles(b.chapters, MergedChapters(b, k))
  {
    hide CharCount, Merged;
  }

  lemma MergeIsOrdered(b: Book, k: nat)
    requires HasPair(b, k) && Ordered(b.chapters, b.order, b.tombs)
    ensures Ordered(MergedChapters(b, k), Without(b.order, k), b.tombs + [b.order[k]])
  {
    hide Ordered, MergedChapters, Without, Buried, Unique;
    MergedChaptersAre(b, k);
    MergeOrders(b.chapters, b.order, b.tombs, k);
    SameOrdinals(Buried'(b.chapters, b.tombs, b.order[k], k), MergedChapters(b, k),
                 Without(b.order, k), b.tombs + [b.order[k]]);
  }

  lemma MergeIsCounted(b: Book, k: nat)
    requires HasPair(b, k) && Counted(b.chapters, Now(b))
    ensures Counted(MergedChapters(b, k), Merged(Now(b), b.order[k - 1], b.order[k]))
  {
    hide CharCount;
  }

  lemma MergeIsGood(b: Book, k: nat)
    requires Good(b) && 0 < k < |b.order|
    ensures HasPair(b, k) && Good(MergedBook(b, k)) && IsMerge(b, MergedBook(b, k), k)
  {
    hide Ordered, Sound, Readable, Leads, Counted, Minted, Keyed,
         Rewrite, Buried', Rows, PieceIds, MergedChapters, Without, Merged, SameTitles;
    PairIsThere(b, k);
    var first, second := b.order[k - 1], b.order[k];
    MergedChaptersAre(b, k);
    MergeIsOrdered(b, k);
    MergeIsCounted(b, k);
    MergedRowsMinted(b, k);
    MergeLeads(b.blocks, Now(b), b.since, b.revision, first, second);
    MergeKeyed(b.order, Now(b), first, k);
    OldChaptersMinted(b, MergedChapters(b, k));
    NextIsGood(b, PieceIds(Now(b)[second]), MergeRowsOf(b, k), Merged(Now(b), first, second),
               MergedChapters(b, k), b.minted, Without(b.order, k), b.tombs + [second]);
  }

  lemma GoodIsSound(b: Book)
    requires Good(b)
    ensures |b.past| == b.revision + 1
    ensures Sound(b.blocks, Now(b), b.since, b.revision)
  {
  }

  lemma ContentsHaveChapters(b: Book)
    requires Good(b)
    ensures forall c :: c in Now(b) ==> c in b.chapters
  {
    hide Sound, Readable, Ordered;
  }

  lemma FirstIsMerged(contents: Contents, first: Id, second: Id)
    requires first in contents && second in contents && first != second
    ensures first in Merged(contents, first, second)
  {
  }

  lemma OldChaptersMinted(b: Book, cs: Chapters)
    requires Good(b) && cs.Keys == b.chapters.Keys
    ensures forall c :: c in cs ==> c < b.minted
  {
  }

  lemma MergedRowsMinted(b: Book, k: nat)
    requires HasPair(b, k) && Good(b)
    ensures forall r :: r in MergeRowsOf(b, k) ==> r.piece.id < b.minted
  {
    hide Good;
    var pieces := Now(b)[b.order[k]];
    forall i | 0 <= i < |pieces| ensures pieces[i].id < b.minted {
      PlacedIsMinted(b, Row(pieces[i], b.order[k], i));
    }
  }

  lemma MergeKeyed(order: seq<Id>, contents: Contents, first: Id, k: nat)
    requires Keyed(order, contents) && k < |order| && first in contents && first != order[k]
    requires forall i, j :: 0 <= i < j < |order| ==> order[i] != order[j]
    ensures Keyed(Without(order, k), Merged(contents, first, order[k]))
  {
    var rest := Without(order, k);
    forall c ensures c in rest <==> c in order && c != order[k] {
      if c in order && c != order[k] {
        var i :| 0 <= i < |order| && order[i] == c;
        assert rest[if i < k then i else i - 1] == c;
      }
    }
  }

  /** The order does not depend on anything but the ordinals. */
  lemma SameOrdinals(cs: Chapters, cs': Chapters, order: seq<Id>, tombs: seq<Id>)
    requires Ordered(cs, order, tombs) && cs'.Keys == cs.Keys
    requires forall c :: c in cs ==> cs'[c].ordinal == cs[c].ordinal
    ensures Ordered(cs', order, tombs)
  {
  }

  lemma OnePair(cs: Chapters, c: Id, ordinal: int)
    requires c in cs && cs[c].ordinal >= 0 && Unique(cs) && Unique(Renumbered(cs, map[c := ordinal]))
    ensures Renumbers(cs, [(c, ordinal)]) && Finals([(c, ordinal)]) == map[c := ordinal]
  {
    hide Unique;
    var pairs := [(c, ordinal)];
    PendingAre(pairs);
    assert pairs[0] == (c, ordinal) && IndexOf(pairs, c) == 0;
    forall d ensures Lists(pairs, d) <==> d == c {
      if Lists(pairs, d) { assert pairs[IndexOf(pairs, d)] == pairs[0]; }
    }
    assert Finals(pairs) == map[c := ordinal];
  }

  // ---------- reorder ----------

  /** Only the ordinals of the chapters change. */
  ghost predicate IsReorder(b: Book, b': Book, order: seq<Id>) {
    && b' == b.(chapters := b'.chapters, order := order)
    && b'.chapters.Keys == b.chapters.Keys
    && forall c :: c in b.chapters ==> b'.chapters[c] == b.chapters[c].(ordinal := b'.chapters[c].ordinal)
  }

  function Numbered(order: seq<Id>): seq<(Id, int)> {
    seq(|order|, i requires 0 <= i < |order| => (order[i], i))
  }

  lemma {:induction false} Unrepeated(order: seq<Id>)
    requires forall c :: c in order ==> multiset(order)[c] == 1
    ensures forall i, j :: 0 <= i < j < |order| ==> order[i] != order[j]
  {
    forall i, j | 0 <= i < j < |order| ensures order[i] != order[j] {
      var left, right := order[..j], order[j..];
      assert order == left + right;
      assert left[i] in multiset(left) && right[0] in multiset(right);
      assert order[i] in order;
    }
  }

  lemma {:induction false} CountedOnce(order: seq<Id>)
    requires forall i, j :: 0 <= i < j < |order| ==> order[i] != order[j]
    ensures forall c :: c in order ==> multiset(order)[c] == 1
  {
    if order != [] {
      var n := |order| - 1;
      assert order == order[..n] + [order[n]];
      CountedOnce(order[..n]);
    }
  }

  lemma PermutationIsPlain(order: seq<Id>, new': seq<Id>)
    requires multiset(new') == multiset(order) && forall i, j :: 0 <= i < j < |order| ==> order[i] != order[j]
    ensures forall c :: c in new' <==> c in order
    ensures forall i, j :: 0 <= i < j < |new'| ==> new'[i] != new'[j]
  {
    CountedOnce(order);
    assert forall c :: c in new' <==> c in multiset(new');
    assert forall c :: c in order <==> c in multiset(order);
    Unrepeated(new');
  }

  /** A permutation of the live chapters renumbers them. */
  lemma ReorderRenumbers(cs: Chapters, order: seq<Id>, tombs: seq<Id>, new': seq<Id>)
    requires Ordered(cs, order, tombs) && multiset(new') == multiset(order)
    ensures Renumbers(cs, Numbered(new')) && Ordered(Renumbered(cs, Finals(Numbered(new'))), new', tombs)
  {
    OrderedIsUnique(cs, order, tombs);
    PermutationIsPlain(order, new');
    NumberedIsOrdered(cs, order, tombs, new');
    OrderedIsUnique(Renumbered(cs, Finals(Numbered(new'))), new', tombs);
    hide Ordered, Unique, Renumbered, Finals, Buried;
    ListsLiveChapters(cs, order, new');
  }

  lemma ListsLiveChapters(cs: Chapters, order: seq<Id>, new': seq<Id>)
    requires (forall c :: c in order <==> c in cs && cs[c].ordinal >= 0) && forall c :: c in new' <==> c in order
    requires forall i, j :: 0 <= i < j < |new'| ==> new'[i] != new'[j]
    ensures DistinctPairs(Numbered(new'))
    ensures forall i :: 0 <= i < |new'| ==>
              && Numbered(new')[i].0 in cs && cs[Numbered(new')[i].0].ordinal >= 0 && Numbered(new')[i].1 >= 0
  {
    forall i | 0 <= i < |new'| ensures new'[i] in cs && cs[new'[i]].ordinal >= 0 {
      assert new'[i] in new';
    }
  }

  lemma NumberedIsOrdered(cs: Chapters, order: seq<Id>, tombs: seq<Id>, new': seq<Id>)
    requires Ordered(cs, order, tombs) && forall c :: c in new' <==> c in order
    requires forall i, j :: 0 <= i < j < |new'| ==> new'[i] != new'[j]
    ensures Ordered(Renumbered(cs, Finals(Numbered(new'))), new', tombs)
  {
    hide Ordered, Numbered, Finals, Lists, IndexOf;
    var pairs := Numbered(new');
    var after := Renumbered(cs, Finals(pairs));
    OrderedIsUnique(cs, order, tombs);
    forall i | 0 <= i < |new'| ensures new'[i] in after && after[new'[i]].ordinal == i {
      NumberedAt(new', i);
      assert new'[i] in order;
    }
    forall c | c in cs && c !in new' ensures after[c] == cs[c] {
      OnlyNumbered(new', c);
    }
    PlacedIsOrdered(cs, order, tombs, new', after);
  }

  /** The live chapters have new places, and the removed ones are as they were. */
  lemma PlacedIsOrdered(cs: Chapters, order: seq<Id>, tombs: seq<Id>, new': seq<Id>, after: Chapters)
    requires Ordered(cs, order, tombs) && after.Keys == cs.Keys && forall c :: c in new' <==> c in order
    requires forall i :: 0 <= i < |new'| ==> new'[i] in after && after[new'[i]].ordinal == i
    requires forall c :: c in cs && c !in new' ==> after[c] == cs[c]
    ensures Ordered(after, new', tombs)
  {
    OrderedIsUnique(cs, order, tombs);
    hide Unique, Buried;
    forall i | 0 <= i < |tombs| ensures tombs[i] in after && after[tombs[i]].ordinal == -1 - i {
      assert tombs[i] !in order;
    }
    forall c | c in after ensures c in new' <==> after[c].ordinal >= 0 {
      if c in new' {
        var i :| 0 <= i < |new'| && new'[i] == c;
      }
    }
    forall c | c in after && after[c].ordinal >= 0 ensures after[c].ordinal < |new'| && new'[after[c].ordinal] == c {
      var i :| 0 <= i < |new'| && new'[i] == c;
    }
  }

  lemma NumberedAt(new': seq<Id>, i: nat)
    requires i < |new'| && forall j, k :: 0 <= j < k < |new'| ==> new'[j] != new'[k]
    ensures new'[i] in Finals(Numbered(new')) && Finals(Numbered(new'))[new'[i]] == i
  {
    var pairs := Numbered(new');
    PendingAre(pairs);
    hide IndexOf;
    var k := IndexOf(pairs, new'[i]);
    assert pairs[i] == (new'[i], i);
    assert k <= i && pairs[k].0 == new'[k];
    assert k == i;
  }

  lemma OnlyNumbered(new': seq<Id>, c: Id)
    ensures c in Finals(Numbered(new')) ==> c in new'
  {
    var pairs := Numbered(new');
    PendingAre(pairs);
    if Lists(pairs, c) { assert pairs[IndexOf(pairs, c)].0 == new'[IndexOf(pairs, c)]; }
  }

  lemma OnlyOrdinalsChange(cs: Chapters, pending: map<Id, int>)
    ensures var cs' := Renumbered(cs, pending);
            cs'.Keys == cs.Keys && forall c :: c in cs ==> cs'[c] == cs[c].(ordinal := cs'[c].ordinal)
  {
  }

  lemma ReorderIsGood(b: Book, new': seq<Id>)
    requires Good(b) && multiset(new') == multiset(b.order)
    ensures var cs := Renumbered(b.chapters, Finals(Numbered(new')));
            Good(b.(chapters := cs, order := new')) && IsReorder(b, b.(chapters := cs, order := new'), new')
  {
    hide Sound, Readable, Finals, Numbered, Ordered, Renumbers, Renumbered, Keyed;
    ReorderRenumbers(b.chapters, b.order, b.tombs, new');
    OnlyOrdinalsChange(b.chapters, Finals(Numbered(new')));
    PermutationIsKeyed(b.order, new', Now(b));
  }

  lemma PermutationIsKeyed(order: seq<Id>, new': seq<Id>, contents: Contents)
    requires Keyed(order, contents) && multiset(new') == multiset(order)
    ensures Keyed(new', contents)
  {
    assert forall c :: c in new' <==> c in multiset(new');
    assert forall c :: c in order <==> c in multiset(order);
  }
}
