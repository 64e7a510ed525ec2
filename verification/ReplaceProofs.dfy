/** What find and replace finds: the matches from the left, which do not overlap, block by block. */
module ReplaceProofs {
  import opened BookTables
  import opened ClauseProofs
  import opened TextEdit
  import opened Versions
  import Chunker

  /** `query` does not occur in front of the place where `front` ends. */
  ghost predicate NoneBefore(front: string, query: string) {
    forall i: nat :: i < |front| ==> !OccursAt(front + query, query, i)
  }

  /** The stretches between the matches: each match is the first one behind the match before it. */
  ghost predicate Leftmost(parts: seq<string>, query: string) {
    && parts != [] && (forall i :: 0 <= i < |parts| - 1 ==> NoneBefore(parts[i], query))
    && !Occurs(parts[|parts| - 1], query)
  }

  lemma OccursHere(text: string, query: string)
    ensures OccursAt(text, query, 0) <==> |query| <= |text| && text[..|query|] == query
  {
  }

  lemma NothingFound(text: string, query: string, replacement: string)
    requires query != "" && !Occurs(text, query)
    ensures CountOf(text, query) == 0 && ReplaceAll(text, query, replacement) == text
  {
    NoCount(text, query);
    NothingToReplace(text, query, replacement);
  }

  lemma {:induction false} NoCount(text: string, query: string)
    requires query != "" && !Occurs(text, query)
    ensures CountOf(text, query) == 0
  {
    hide Occurs;
    if |text| >= |query| {
      TailHasNone(text, query);
      NoCount(text[1..], query);
    }
  }

  lemma TailHasNone(text: string, query: string)
    requires text != "" && !Occurs(text, query)
    ensures !Occurs(text[1..], query) && !(|query| <= |text| && text[..|query|] == query)
  {
    OccursHere(text, query);
    forall i: nat ensures !OccursAt(text[1..], query, i) { OccursInTail(text, query, i + 1); }
  }

  /** Up to the first match the text is copied. */
  lemma {:induction false} FirstMatch(front: string, query: string, rest: string, replacement: string)
    requires query != "" && NoneBefore(front, query)
    ensures var text := front + query + rest;
            && ReplaceAll(text, query, replacement) == front + replacement + ReplaceAll(rest, query, replacement)
            && CountOf(text, query) == 1 + CountOf(rest, query)
  {
    var text := front + query + rest;
    if front == "" {
      assert text[..|query|] == query && text[|query|..] == rest;
      assert front + replacement == replacement;
    } else {
      FrontSkips(front, query, rest);
      FirstMatch(front[1..], query, rest, replacement);
      var tail := ReplaceAll(rest, query, replacement);
      assert [front[0]] + (front[1..] + replacement + tail) == front + replacement + tail;
    }
  }

  lemma FrontSkips(front: string, query: string, rest: string)
    requires query != "" && front != "" && NoneBefore(front, query)
    ensures var text := front + query + rest;
            && |text| >= |query| && text[..|query|] != query && text[0] == front[0]
            && text[1..] == front[1..] + query + rest
    ensures NoneBefore(front[1..], query)
  {
    var whole, text := front + query, front + query + rest;
    assert !OccursAt(whole, query, 0);
    assert text[..|query|] == whole[..|query|] == whole[0..0 + |query|];
    forall i: nat | i < |front[1..]| ensures !OccursAt(front[1..] + query, query, i) {
      OccursInTail(whole, query, i + 1);
      assert whole[1..] == front[1..] + query;
    }
  }

  /** Replacing puts the replacement in place of every match, and the count is that of the matches. */
  lemma {:induction false} ReplaceIsJoin(parts: seq<string>, query: string, replacement: string)
    requires query != "" && Leftmost(parts, query)
    ensures ReplaceAll(JoinOn(parts, query), query, replacement) == JoinOn(parts, replacement)
    ensures CountOf(JoinOn(parts, query), query) == |parts| - 1
  {
    hide NoneBefore, Occurs, ReplaceAll, CountOf;
    if |parts| == 1 {
      NothingFound(parts[0], query, replacement);
    } else {
      ReplaceIsJoin(parts[1..], query, replacement);
      FirstMatch(parts[0], query, JoinOn(parts[1..], query), replacement);
    }
  }

  /** Every text is made up of its matches and what stands between them. */
  lemma {:induction false} HasParts(text: string, query: string) returns (parts: seq<string>)
    requires query != ""
    ensures Leftmost(parts, query) && JoinOn(parts, query) == text
    decreases |text|
  {
    hide NoneBefore, Occurs;
    if Occurs(text, query) {
      var k := FirstOccurrence(text, query);
      var rest := HasParts(text[k + |query|..], query);
      parts := [text[..k]] + rest;
      assert parts[1..] == rest && text == text[..k] + query + text[k + |query|..];
    } else {
      parts := [text];
    }
  }

  lemma FirstOccurrence(text: string, query: string) returns (k: nat)
    requires query != "" && Occurs(text, query)
    ensures k + |query| <= |text| && text[k..k + |query|] == query && NoneBefore(text[..k], query)
  {
    k := Chunker.Find(text, query);
    FindIsFirst(text, query);
    hide Chunker.Find, Occurs;
    BeforeFirst(text, query, k);
  }

  lemma BeforeFirst(text: string, query: string, k: nat)
    requires OccursAt(text, query, k) && forall i: nat :: i < k ==> !OccursAt(text, query, i)
    ensures NoneBefore(text[..k], query)
  {
    var whole := text[..k] + query;
    assert whole == text[0..k + |query|];
    forall i: nat | i < k ensures !OccursAt(whole, query, i) {
      SubSlice(text, 0, k + |query|, i, i + |query|);
      assert !OccursAt(text, query, i);
    }
  }

  // ---------- what is reported ----------

  /** The matches in these blocks. */
  function PieceMatches(pieces: seq<Piece>, query: string): nat
    requires query != ""
  {
    if pieces == [] then 0 else CountOf(pieces[0].text, query) + PieceMatches(pieces[1..], query)
  }

  /** The matches in these chapters. */
  function ScopeMatches(contents: Contents, scope: seq<Id>, query: string): nat
    requires query != "" && forall c :: c in scope ==> c in contents
  {
    if scope == [] then 0 else PieceMatches(contents[scope[0]], query) + ScopeMatches(contents, scope[1..], query)
  }

  /** The block has matches, and the hit counts them. */
  ghost predicate HitFor(h: Hit, contents: Contents, c: Id, i: int, query: string)
    requires query != "" && c in contents
  {
    0 <= i < |contents[c]| && h == Hit(c, contents[c][i].id, CountOf(contents[c][i].text, query)) && h.count > 0
  }

  lemma {:induction false} TotalAppend(a: seq<Hit>, b: seq<Hit>)
    ensures Total(a + b) == Total(a) + Total(b)
  {
    if a == [] {
      assert a + b == b;
    } else {
      assert (a + b)[1..] == a[1..] + b;
      TotalAppend(a[1..], b);
    }
  }

  lemma {:induction false} BlockHitsAre(c: Id, pieces: seq<Piece>, query: string, h: Hit)
    requires query != ""
    ensures Total(BlockHits(c, pieces, query)) == PieceMatches(pieces, query)
    ensures h in BlockHits(c, pieces, query) <==> exists i :: HitFor(h, map[c := pieces], c, i, query)
  {
    hide CountOf;
    if pieces != [] {
      var n := CountOf(pieces[0].text, query);
      var one := if n == 0 then [] else [Hit(c, pieces[0].id, n)];
      BlockHitsAre(c, pieces[1..], query, h);
      TotalAppend(one, BlockHits(c, pieces[1..], query));
      assert Total(one) == n by { if n != 0 { assert one[1..] == []; } }
      HitForTail(h, c, pieces, query);
    }
  }

  lemma HitForTail(h: Hit, c: Id, pieces: seq<Piece>, query: string)
    requires query != "" && pieces != []
    ensures var n := CountOf(pieces[0].text, query);
            (exists i :: HitFor(h, map[c := pieces], c, i, query)) <==>
            (n > 0 && h == Hit(c, pieces[0].id, n)) || exists i :: HitFor(h, map[c := pieces[1..]], c, i, query)
  {
    hide CountOf;
    var whole, tail := map[c := pieces], map[c := pieces[1..]];
    assert HitFor(h, whole, c, 0, query) <==>
           CountOf(pieces[0].text, query) > 0 && h == Hit(c, pieces[0].id, CountOf(pieces[0].text, query));
    if i :| HitFor(h, whole, c, i, query) { assert i > 0 ==> HitFor(h, tail, c, i - 1, query); }
    if i :| HitFor(h, tail, c, i, query) { assert HitFor(h, whole, c, i + 1, query); }
  }

  /** The hits are the blocks with matches, each with their number, and the total is that of all matches. */
  lemma {:induction false} HitsAreExact(contents: Contents, scope: seq<Id>, query: string, h: Hit)
    requires query != "" && forall c :: c in scope ==> c in contents
    ensures Total(HitsIn(contents, scope, query)) == ScopeMatches(contents, scope, query)
    ensures h in HitsIn(contents, scope, query) <==>
            exists c, i :: c in scope && HitFor(h, contents, c, i, query)
  {
    hide CountOf;
    if scope != [] {
      var c, first := scope[0], BlockHits(scope[0], contents[scope[0]], query);
      HitsAreExact(contents, scope[1..], query, h);
      BlockHitsAre(c, contents[c], query, h);
      TotalAppend(first, HitsIn(contents, scope[1..], query));
      assert forall i :: HitFor(h, map[c := contents[c]], c, i, query) <==> HitFor(h, contents, c, i, query);
      assert forall d :: d in scope <==> d == c || d in scope[1..];
    }
  }

  /** The conflicts of a chapter's suggestions: each by its block and by the text it quotes. */
  lemma {:induction false} ConflictsAreExact(readings: Readings, pieces: seq<Piece>, x: (Id, string))
    ensures x in ConflictsOf(readings, pieces) <==>
            exists i, k :: 0 <= i < |pieces| && ConflictAt(readings, pieces[i], k, x)
  {
    hide ReadingOf;
    if pieces != [] {
      ConflictsAreExact(readings, pieces[1..], x);
      var here := if ReadingOf(readings, pieces[0]).Applied?
                  then Named(pieces[0].id, ReadingOf(readings, pieces[0]).conflicts) else [];
      assert x in here <==> exists k :: ConflictAt(readings, pieces[0], k, x) by {
        if k :| ConflictAt(readings, pieces[0], k, x) { assert here[k] == x; }
        if x in here {
          var k :| 0 <= k < |here| && here[k] == x;
          assert ConflictAt(readings, pieces[0], k, x);
        }
      }
      if i, k :| 0 <= i < |pieces| && ConflictAt(readings, pieces[i], k, x) {
        assert i > 0 ==> pieces[1..][i - 1] == pieces[i];
      }
      if i, k :| 0 <= i < |pieces[1..]| && ConflictAt(readings, pieces[1..][i], k, x) {
        assert pieces[i + 1] == pieces[1..][i];
      }
    }
  }

  ghost predicate ConflictAt(readings: Readings, p: Piece, k: int, x: (Id, string)) {
    var r := ReadingOf(readings, p);
    r.Applied? && 0 <= k < |r.conflicts| && x == (p.id, r.conflicts[k].original)
  }
}
