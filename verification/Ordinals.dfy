/** The chapter table of `store/chapters.py` and its UNIQUE ordinals: live chapters count up from 0,
    chapters that merge removed count down from -1. */
module Ordinals {
  import opened Versions

  datatype Chapter = Chapter(ordinal: int, title: string, included: bool, charCount: nat)

  type Chapters = map<Id, Chapter>

  const TEMP_ORDINAL: int := -1_000_000

  ghost predicate Unique(cs: Chapters) {
    forall a, b :: a in cs && b in cs && cs[a].ordinal == cs[b].ordinal ==> a == b
  }

  function Renumbered(cs: Chapters, pending: map<Id, int>): Chapters {
    map c | c in cs :: if c in pending then cs[c].(ordinal := pending[c]) else cs[c]
  }

  /** No write of the flush can meet another row, whatever the order of the writes. */
  ghost predicate Free(cs: Chapters, pending: map<Id, int>) {
    forall c, d :: c in pending && d in cs && c != d ==>
      pending[c] != cs[d].ordinal && (d in pending ==> pending[c] != pending[d])
  }

  // ---------- the two phases of a renumbering ----------

  /** The place of a chapter in the list, or its length. */
  function IndexOf(pairs: seq<(Id, int)>, c: Id): (k: nat)
    ensures k <= |pairs| && (k < |pairs| ==> pairs[k].0 == c)
    ensures forall i :: 0 <= i < k ==> pairs[i].0 != c
  {
    if pairs == [] || pairs[0].0 == c then 0 else 1 + IndexOf(pairs[1..], c)
  }

  predicate Lists(pairs: seq<(Id, int)>, c: Id) {
    IndexOf(pairs, c) < |pairs|
  }

  function Listed(pairs: seq<(Id, int)>): set<Id> {
    set p | p in pairs :: p.0
  }

  /** The ordinals of the first phase. */
  function Temps(pairs: seq<(Id, int)>): map<Id, int> {
    map c | c in Listed(pairs) && Lists(pairs, c) :: TEMP_ORDINAL - IndexOf(pairs, c)
  }

  /** The ordinals of the second phase. */
  function Finals(pairs: seq<(Id, int)>): map<Id, int> {
    map c | c in Listed(pairs) && Lists(pairs, c) :: pairs[IndexOf(pairs, c)].1
  }

  ghost predicate DistinctPairs(pairs: seq<(Id, int)>) {
    forall i, j :: 0 <= i < j < |pairs| ==> pairs[i].0 != pairs[j].0
  }

  lemma ListedAre(pairs: seq<(Id, int)>, c: Id)
    ensures c in Listed(pairs) <==> Lists(pairs, c)
  {
    if Lists(pairs, c) { assert pairs[IndexOf(pairs, c)] in pairs; }
  }

  lemma PendingAre(pairs: seq<(Id, int)>)
    ensures forall c :: c in Temps(pairs) <==> Lists(pairs, c)
    ensures forall c :: c in Finals(pairs) <==> Lists(pairs, c)
  {
    forall c ensures c in Listed(pairs) <==> Lists(pairs, c) { ListedAre(pairs, c); }
  }

  /** What a caller of `_write_ordinals` provides. */
  ghost predicate Renumbers(cs: Chapters, pairs: seq<(Id, int)>) {
    && DistinctPairs(pairs)
    && (forall i :: 0 <= i < |pairs| ==> pairs[i].0 in cs && cs[pairs[i].0].ordinal >= 0)
    && (forall i :: 0 <= i < |pairs| ==> pairs[i].1 >= 0 || |pairs| == 1)
    && Unique(cs) && Unique(Renumbered(cs, Finals(pairs)))
  }

  /** The lowest ordinal is `-t`, and with a million removed chapters one of them holds the first
      temporary ordinal. */
  ghost predicate Buried(cs: Chapters, t: nat) {
    && (forall c :: c in cs ==> cs[c].ordinal >= 0 - t)
    && (t >= 1_000_000 ==> exists c :: c in cs && cs[c].ordinal == TEMP_ORDINAL)
  }

  /** Below a million removed chapters the temporary ordinals are free. */
  lemma TempsAreFree(cs: Chapters, pairs: seq<(Id, int)>, t: nat)
    requires Renumbers(cs, pairs) && Buried(cs, t) && t < 1_000_000
    ensures Free(cs, Temps(pairs))
  {
    PendingAre(pairs);
  }

  /** With a million removed chapters they are not. */
  lemma TempsCollide(cs: Chapters, pairs: seq<(Id, int)>, t: nat)
    requires Renumbers(cs, pairs) && Buried(cs, t) && t >= 1_000_000 && pairs != []
    ensures !Unique(Renumbered(cs, Temps(pairs)))
  {
    PendingAre(pairs);
    var c :| c in cs && cs[c].ordinal == TEMP_ORDINAL;
    var moved := Renumbered(cs, Temps(pairs));
    var d := pairs[0].0;
    assert IndexOf(pairs, d) == 0 && moved[d].ordinal == TEMP_ORDINAL;
    assert !Lists(pairs, c);
    assert moved[c].ordinal == TEMP_ORDINAL && c != d;
  }

  lemma RenumberTwice(cs: Chapters, first: map<Id, int>, second: map<Id, int>)
    requires forall c :: c in first <==> c in second
    ensures Renumbered(Renumbered(cs, first), second) == Renumbered(cs, second)
  {
  }

  /** From the temporary ordinals every row can move to its place. */
  lemma FinalsAreFree(cs: Chapters, pairs: seq<(Id, int)>)
    requires Renumbers(cs, pairs)
    ensures Free(Renumbered(cs, Temps(pairs)), Finals(pairs))
  {
    assert forall d :: d in Renumbered(cs, Temps(pairs)) ==> d in cs;
    hide Renumbers, Renumbered, Finals, Temps;
    forall c, d | c in Finals(pairs) && d in Renumbered(cs, Temps(pairs)) && c != d
      ensures Finals(pairs)[c] != Renumbered(cs, Temps(pairs))[d].ordinal
      ensures d in Finals(pairs) ==> Finals(pairs)[c] != Finals(pairs)[d]
    {
      FinalIsFree(cs, pairs, c, d);
    }
  }

  lemma FinalIsFree(cs: Chapters, pairs: seq<(Id, int)>, c: Id, d: Id)
    requires Renumbers(cs, pairs) && c in Finals(pairs) && d in cs && c != d
    ensures Finals(pairs)[c] != Renumbered(cs, Temps(pairs))[d].ordinal
    ensures d in Finals(pairs) ==> Finals(pairs)[c] != Finals(pairs)[d]
  {
    PendingAre(pairs);
    var there := Renumbered(cs, Finals(pairs));
    assert c in there && d in there;
    assert there[c].ordinal != there[d].ordinal;
  }

  // ---------- the order of the chapters ----------

  /** Live chapters are numbered 0, 1, ... in `order`; removed ones -1, -2, ... in `tombs`. */
  ghost predicate Ordered(cs: Chapters, order: seq<Id>, tombs: seq<Id>) {
    && (forall i :: 0 <= i < |order| ==> order[i] in cs && cs[order[i]].ordinal == i)
    && (forall i :: 0 <= i < |tombs| ==> tombs[i] in cs && cs[tombs[i]].ordinal == -1 - i)
    && (forall c :: c in cs && cs[c].ordinal >= 0 ==> cs[c].ordinal < |order| && order[cs[c].ordinal] == c)
    && (forall c :: c in cs && cs[c].ordinal < 0 ==> -1 - cs[c].ordinal < |tombs| && tombs[-1 - cs[c].ordinal] == c)
  }

  lemma OrderedIsUnique(cs: Chapters, order: seq<Id>, tombs: seq<Id>)
    requires Ordered(cs, order, tombs)
    ensures Unique(cs) && Buried(cs, |tombs|)
    ensures forall i, j :: 0 <= i < j < |order| ==> order[i] != order[j]
    ensures forall c :: c in order <==> c in cs && cs[c].ordinal >= 0
  {
    if |tombs| >= 1_000_000 { assert cs[tombs[999_999]].ordinal == TEMP_ORDINAL; }
  }

  /** The chapters that `_active` lists, in order. */
  ghost predicate ListsLive(cs: Chapters, rows: seq<Id>) {
    && (forall i :: 0 <= i < |rows| ==> rows[i] in cs && cs[rows[i]].ordinal >= 0)
    && (forall i, j :: 0 <= i < j < |rows| ==> cs[rows[i]].ordinal < cs[rows[j]].ordinal)
    && (forall c :: c in cs && cs[c].ordinal >= 0 ==> c in rows)
  }

  lemma LiveIsOrder(cs: Chapters, order: seq<Id>, tombs: seq<Id>, rows: seq<Id>)
    requires Ordered(cs, order, tombs) && ListsLive(cs, rows)
    ensures rows == order
  {
    if rows != [] {
      var c := rows[|rows| - 1];
      RankIsOrdinal(cs, order, tombs, rows, |rows| - 1);
      assert c in cs && cs[c].ordinal == |rows| - 1;
      assert |rows| <= |order|;
    }
    if order != [] {
      var d := order[|order| - 1];
      assert d in cs && d in rows;
      var k :| 0 <= k < |rows| && rows[k] == d;
      RankIsOrdinal(cs, order, tombs, rows, k);
      assert |order| <= |rows|;
    }
    forall i | 0 <= i < |rows| ensures order[i] == rows[i] {
      var c := rows[i];
      assert c in cs && cs[c].ordinal == i;
    }
  }

  lemma {:induction false} RankIsOrdinal(cs: Chapters, order: seq<Id>, tombs: seq<Id>, rows: seq<Id>, i: nat)
    requires Ordered(cs, order, tombs) && ListsLive(cs, rows) && i < |rows|
    ensures forall k :: 0 <= k <= i ==> cs[rows[k]].ordinal == k
  {
    if i > 0 { RankIsOrdinal(cs, order, tombs, rows, i - 1); }
    assert i > 0 ==> cs[rows[i - 1]].ordinal < cs[rows[i]].ordinal;
    assert i < |order| ==> order[i] in rows;
  }

  function Shifted(cs: Chapters, start: int, delta: int): Chapters {
    map c | c in cs :: if cs[c].ordinal >= start then cs[c].(ordinal := cs[c].ordinal + delta) else cs[c]
  }

  /** The pairs of `_shift_ordinals`. */
  function ShiftPairs(cs: Chapters, rows: seq<Id>, start: int, delta: int): seq<(Id, int)>
    requires forall c :: c in rows ==> c in cs
  {
    if rows == [] then []
    else
      (if cs[rows[0]].ordinal >= start then [(rows[0], cs[rows[0]].ordinal + delta)] else [])
      + ShiftPairs(cs, rows[1..], start, delta)
  }

  lemma {:induction false} ShiftPairsAre(cs: Chapters, rows: seq<Id>, start: int, delta: int, p: (Id, int))
    requires forall c :: c in rows ==> c in cs
    ensures p in ShiftPairs(cs, rows, start, delta) <==>
            p.0 in rows && cs[p.0].ordinal >= start && p.1 == cs[p.0].ordinal + delta
  {
    if rows != [] { ShiftPairsAre(cs, rows[1..], start, delta, p); }
  }

  lemma {:induction false} ShiftPairsDiffer(cs: Chapters, rows: seq<Id>, start: int, delta: int)
    requires forall c :: c in rows ==> c in cs
    requires forall i, j :: 0 <= i < j < |rows| ==> rows[i] != rows[j]
    ensures DistinctPairs(ShiftPairs(cs, rows, start, delta))
  {
    if rows != [] {
      var rest := ShiftPairs(cs, rows[1..], start, delta);
      ShiftPairsDiffer(cs, rows[1..], start, delta);
      forall i | 0 <= i < |rest| ensures rest[i].0 != rows[0] {
        ShiftPairsAre(cs, rows[1..], start, delta, rest[i]);
      }
    }
  }

  ghost predicate Shifts(cs: Chapters, start: int, delta: int, pairs: seq<(Id, int)>) {
    && DistinctPairs(pairs)
    && (forall i :: 0 <= i < |pairs| ==> pairs[i].0 in cs && pairs[i].1 == cs[pairs[i].0].ordinal + delta)
    && (forall c :: c in cs ==> (Lists(pairs, c) <==> cs[c].ordinal >= start))
  }

  lemma PairsShift(cs: Chapters, rows: seq<Id>, start: nat, delta: int)
    requires ListsLive(cs, rows)
    ensures forall c :: c in rows ==> c in cs
    ensures Shifts(cs, start, delta, ShiftPairs(cs, rows, start, delta))
  {
    var pairs := ShiftPairs(cs, rows, start, delta);
    forall i | 0 <= i < |pairs|
      ensures pairs[i].0 in cs && pairs[i].1 == cs[pairs[i].0].ordinal + delta
    {
      ShiftPairsAre(cs, rows, start, delta, pairs[i]);
    }
    ShiftPairsDiffer(cs, rows, start, delta);
    forall c | c in cs ensures Lists(pairs, c) <==> cs[c].ordinal >= start {
      ShiftPairsAre(cs, rows, start, delta, (c, cs[c].ordinal + delta));
      if Lists(pairs, c) { ShiftPairsAre(cs, rows, start, delta, pairs[IndexOf(pairs, c)]); }
    }
  }

  lemma ShiftIsRenumbering(cs: Chapters, start: nat, delta: int, pairs: seq<(Id, int)>)
    requires start + delta >= 0 && Unique(cs) && Unique(Shifted(cs, start, delta))
    requires Shifts(cs, start, delta, pairs)
    ensures Renumbered(cs, Finals(pairs)) == Shifted(cs, start, delta)
    ensures Renumbers(cs, pairs)
  {
    hide Unique;
    PendingAre(pairs);
    forall c | c in cs ensures Renumbered(cs, Finals(pairs))[c] == Shifted(cs, start, delta)[c] {
      RenumberedOne(cs, start, delta, pairs, c);
    }
    assert Renumbered(cs, Finals(pairs)) == Shifted(cs, start, delta);
    forall i | 0 <= i < |pairs| ensures cs[pairs[i].0].ordinal >= start {
      ListedHere(pairs, i);
    }
    hide Renumbered, Shifted, Finals, Temps, Lists;
  }

  lemma RenumberedOne(cs: Chapters, start: nat, delta: int, pairs: seq<(Id, int)>, c: Id)
    requires Shifts(cs, start, delta, pairs) && c in cs
    ensures Renumbered(cs, Finals(pairs))[c] == Shifted(cs, start, delta)[c]
  {
    PendingAre(pairs);
    if Lists(pairs, c) { assert pairs[IndexOf(pairs, c)].1 == cs[c].ordinal + delta; }
  }

  lemma ShiftsNothing(cs: Chapters, start: nat, delta: int, pairs: seq<(Id, int)>)
    requires Shifts(cs, start, delta, pairs)
    ensures pairs == [] <==> forall c :: c in cs ==> cs[c].ordinal < start
  {
    if pairs == [] {
      forall c | c in cs ensures cs[c].ordinal < start { assert !Lists(pairs, c); }
    } else {
      ListedHere(pairs, 0);
      assert cs[pairs[0].0].ordinal >= start;
    }
  }

  lemma ListedHere(pairs: seq<(Id, int)>, i: nat)
    requires i < |pairs|
    ensures Lists(pairs, pairs[i].0)
  {
  }
}
