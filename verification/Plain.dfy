/** `text/plain.py`: the editor's plain text is the blocks joined with a blank line, and a commit pairs
    the edited blocks with the stored ids. */
module Plain {
  import opened Options
  import opened PyText
  import opened Sorting

  // ---------- pairing blocks with ids ----------

  /** `SequenceMatcher(normalise(old), normalise(new)).ratio()`, of old and new text. */
  type Ratio = (string, string) -> real

  const SIMILARITY_THRESHOLD: real := 0.6

  /** What `difflib` promises: a ratio lies in [0, 1], and a text is entirely like itself. */
  ghost predicate IsRatio(ratio: Ratio) {
    && (forall a, b :: 0.0 <= ratio(a, b) <= 1.0)
    && (forall a :: ratio(a, a) == 1.0)
  }

  datatype Pair = Pair(ratio: real, now: nat, was: nat)

  function Distance(p: Pair): nat {
    if p.now >= p.was then p.now - p.was else p.was - p.now
  }

  /** The falling order of the tuples (ratio, -distance, -old, new, old). */
  predicate Better(p: Pair, q: Pair) {
    p.ratio > q.ratio || (p.ratio == q.ratio &&
      (Distance(p) < Distance(q) || (Distance(p) == Distance(q) &&
        (p.was < q.was || (p.was == q.was && p.now >= q.now)))))
  }

  /** Two pairs that use the same block or the same id. */
  predicate Clash(p: Pair, q: Pair) {
    p.now == q.now || p.was == q.was
  }

  function ScoreRow(existing: seq<(nat, string)>, candidate: string, now: nat, was: nat, ratio: Ratio): seq<Pair>
    requires was <= |existing|
    decreases |existing| - was
  {
    if was == |existing| then []
    else
      var r := ratio(existing[was].1, candidate);
      (if r < SIMILARITY_THRESHOLD then [] else [Pair(r, now, was)])
      + ScoreRow(existing, candidate, now, was + 1, ratio)
  }

  function Scores(existing: seq<(nat, string)>, candidates: seq<string>, now: nat, ratio: Ratio): seq<Pair>
    requires now <= |candidates|
    decreases |candidates| - now
  {
    if now == |candidates| then []
    else ScoreRow(existing, candidates[now], now, 0, ratio) + Scores(existing, candidates, now + 1, ratio)
  }

  /** Take each pair in turn unless its block or its id is already taken. */
  function Greedy(ps: seq<Pair>, taken: set<Pair>): set<Pair> {
    if ps == [] then taken
    else if exists q :: q in taken && Clash(ps[0], q) then Greedy(ps[1..], taken)
    else Greedy(ps[1..], taken + {ps[0]})
  }

  function Ranked(existing: seq<(nat, string)>, candidates: seq<string>, ratio: Ratio): seq<Pair> {
    Sort(Scores(existing, candidates, 0, ratio), Better)
  }

  function Matches(existing: seq<(nat, string)>, candidates: seq<string>, ratio: Ratio): set<Pair> {
    Greedy(Ranked(existing, candidates, ratio), {})
  }

  method ScoreLoop(existing: seq<(nat, string)>, candidates: seq<string>, ratio: Ratio) returns (scored: seq<Pair>)
    ensures scored == Scores(existing, candidates, 0, ratio)
  {
    scored := [];
    var n := 0;
    while n < |candidates|
      invariant 0 <= n <= |candidates|
      invariant scored + Scores(existing, candidates, n, ratio) == Scores(existing, candidates, 0, ratio)
    {
      ghost var before := scored;
      var o := 0;
      while o < |existing|
        invariant 0 <= o <= |existing|
        invariant scored + ScoreRow(existing, candidates[n], n, o, ratio)
               == before + ScoreRow(existing, candidates[n], n, 0, ratio)
      {
        var r := ratio(existing[o].1, candidates[n]);
        if r >= SIMILARITY_THRESHOLD {
          Regroup(scored, [Pair(r, n, o)], ScoreRow(existing, candidates[n], n, o + 1, ratio),
                  before + ScoreRow(existing, candidates[n], n, 0, ratio));
          scored := scored + [Pair(r, n, o)];
        }
        o := o + 1;
      }
      Regroup(before, ScoreRow(existing, candidates[n], n, 0, ratio), Scores(existing, candidates, n + 1, ratio),
              Scores(existing, candidates, 0, ratio));
      n := n + 1;
    }
  }

  // ---------- what scoring gives ----------

  predicate Eligible(existing: seq<(nat, string)>, candidates: seq<string>, ratio: Ratio, p: Pair) {
    && p.now < |candidates| && p.was < |existing|
    && p.ratio == ratio(existing[p.was].1, candidates[p.now]) >= SIMILARITY_THRESHOLD
  }

  lemma {:induction false} ScoreRowIs(existing: seq<(nat, string)>, candidate: string, now: nat, was: nat,
                                      ratio: Ratio, p: Pair)
    requires was <= |existing|
    ensures p in ScoreRow(existing, candidate, now, was, ratio) <==>
            p.now == now && was <= p.was < |existing|
                && p.ratio == ratio(existing[p.was].1, candidate) >= SIMILARITY_THRESHOLD
    decreases |existing| - was
  {
    if was < |existing| { ScoreRowIs(existing, candidate, now, was + 1, ratio, p); }
  }

  lemma {:induction false} ScoresAre(existing: seq<(nat, string)>, candidates: seq<string>, now: nat, ratio: Ratio,
                                     p: Pair)
    requires now <= |candidates|
    ensures p in Scores(existing, candidates, now, ratio) <==> now <= p.now && Eligible(existing, candidates, ratio, p)
    decreases |candidates| - now
  {
    if now < |candidates| {
      ScoreRowIs(existing, candidates[now], now, 0, ratio, p);
      ScoresAre(existing, candidates, now + 1, ratio, p);
    }
  }

  lemma RankedAre(existing: seq<(nat, string)>, candidates: seq<string>, ratio: Ratio)
    ensures forall p :: p in Ranked(existing, candidates, ratio) <==> Eligible(existing, candidates, ratio, p)
    ensures SortedBy(Ranked(existing, candidates, ratio), Better)
  {
    var scores := Scores(existing, candidates, 0, ratio);
    SortKeeps(scores, Better);
    SortSorts(scores, Better);
    forall p ensures p in Ranked(existing, candidates, ratio) <==> Eligible(existing, candidates, ratio, p) {
      ScoresAre(existing, candidates, 0, ratio, p);
    }
  }

  // ---------- the greedy matching ----------

  ghost predicate NoClash(m: set<Pair>) {
    forall p, q :: p in m && q in m && Clash(p, q) ==> p == q
  }

  lemma {:induction false} GreedyKeeps(ps: seq<Pair>, taken: set<Pair>)
    requires NoClash(taken)
    ensures NoClash(Greedy(ps, taken)) && taken <= Greedy(ps, taken)
    ensures forall p :: p in Greedy(ps, taken) ==> p in taken || p in ps
  {
    if ps != [] {
      if exists q :: q in taken && Clash(ps[0], q) {
        GreedyKeeps(ps[1..], taken);
      } else {
        GreedyKeeps(ps[1..], taken + {ps[0]});
      }
    }
  }

  /** A pair that is left out lost its block or its id to a pair that was taken and ranks at least as
      high. */
  predicate Beaten(p: Pair, m: set<Pair>) {
    exists q :: q in m && Clash(p, q) && Better(q, p)
  }

  lemma {:induction false} GreedyIsStable(ps: seq<Pair>, taken: set<Pair>, p: Pair)
    requires NoClash(taken) && SortedBy(ps, Better) && p in ps
    requires forall q, r :: q in taken && r in ps ==> Better(q, r)
    ensures p in Greedy(ps, taken) || Beaten(p, Greedy(ps, taken))
  {
    var head := ps[0];
    if exists q :: q in taken && Clash(head, q) {
      var q :| q in taken && Clash(head, q);
      GreedyKeeps(ps[1..], taken);
      if p == head {
        assert q in Greedy(ps, taken);
      } else {
        GreedyIsStable(ps[1..], taken, p);
      }
    } else {
      GreedyKeeps(ps[1..], taken + {head});
      if p == head {
        assert head in Greedy(ps, taken);
      } else {
        forall q, r | q in taken + {head} && r in ps[1..] ensures Better(q, r) {
          if q == head {
            var k :| 0 <= k < |ps[1..]| && ps[1..][k] == r;
            assert Better(ps[0], ps[k + 1]);
          }
        }
        GreedyIsStable(ps[1..], taken + {head}, p);
      }
    }
  }

  /** The matching is injective, every match is eligible, and no eligible pair that was left out
      outranks the matches of both its sides. */
  lemma MatchingIsStable(existing: seq<(nat, string)>, candidates: seq<string>, ratio: Ratio)
    ensures var m := Matches(existing, candidates, ratio);
            && NoClash(m)
            && (forall p :: p in m ==> Eligible(existing, candidates, ratio, p))
            && (forall p :: Eligible(existing, candidates, ratio, p) ==> p in m || Beaten(p, m))
  {
    var ps := Ranked(existing, candidates, ratio);
    RankedAre(existing, candidates, ratio);
    GreedyKeeps(ps, {});
    forall p | Eligible(existing, candidates, ratio, p) ensures p in Greedy(ps, {}) || Beaten(p, Greedy(ps, {})) {
      GreedyIsStable(ps, {}, p);
    }
  }

  /** How far apart the places of a pair are. */
  function Gap(p: Pair): int {
    if p.now < p.was then p.was - p.now else p.now - p.was
  }

  /** Of two pairs that want the same block or the same text, and with which no others compete, the more similar
      wins; then the one with the closer places, then the earlier block, then the later text. */
  lemma RivalsAreRanked(existing: seq<(nat, string)>, candidates: seq<string>, ratio: Ratio, p: Pair, q: Pair)
    requires Eligible(existing, candidates, ratio, p) && Eligible(existing, candidates, ratio, q)
    requires p != q && (p.now == q.now || p.was == q.was)
    requires forall r :: Eligible(existing, candidates, ratio, r) && (Clash(r, p) || Clash(r, q)) ==> r == p || r == q
    requires || p.ratio > q.ratio
             || (p.ratio == q.ratio && Gap(p) < Gap(q))
             || (p.ratio == q.ratio && Gap(p) == Gap(q) && p.was < q.was)
             || (p.ratio == q.ratio && Gap(p) == Gap(q) && p.was == q.was && p.now > q.now)
    ensures p in Matches(existing, candidates, ratio) && q !in Matches(existing, candidates, ratio)
  {
    MatchingIsStable(existing, candidates, ratio);
    hide Matches;
  }

  /** It is the only matching of eligible pairs with that property. */
  lemma {:induction false} OnlyStableMatching(ps: seq<Pair>, taken: set<Pair>, m: set<Pair>)
    requires NoClash(m) && NoClash(taken) && SortedBy(ps, Better) && taken <= m
    requires forall p :: p in m ==> p in taken || p in ps
    requires forall p :: p in ps ==> p in m || Beaten(p, m)
    requires forall i, j :: 0 <= i < j < |ps| ==> ps[i] != ps[j]
    ensures m == Greedy(ps, taken)
  {
    if ps == [] {
      assert m == taken;
    } else {
      var head := ps[0];
      assert head in m || Beaten(head, m);
      if exists q :: q in taken && Clash(head, q) {
        var q :| q in taken && Clash(head, q);
        assert head in m ==> head == q;
        if head in taken { assert forall p :: p in m ==> p in taken || p in ps[1..] || p == head; }
        OnlyStableMatching(ps[1..], taken, m);
      } else {
        if head !in m {
          var q :| q in m && Clash(head, q) && Better(q, head);
          assert q !in taken && q in ps;
          var k :| 0 <= k < |ps| && ps[k] == q;
          assert k > 0 ==> Better(ps[0], ps[k]);
          BetterIsStrict(q, head);
        }
        assert forall p :: p in m ==> p in taken + {head} || p in ps[1..];
        OnlyStableMatching(ps[1..], taken + {head}, m);
      }
    }
  }

  /** The tuples hold both indexes, so two pairs never tie. */
  lemma BetterIsStrict(p: Pair, q: Pair)
    ensures Better(p, q) && Better(q, p) ==> p == q
  {
    if p.ratio == q.ratio && Distance(p) == Distance(q) && p.was == q.was && p.now == q.now {
      assert p == Pair(p.ratio, p.now, p.was) == q;
    }
  }

  // ---------- the list of ids ----------

  ghost predicate HasMatch(matches: set<Pair>, n: int) {
    exists p :: p in matches && p.now == n
  }

  ghost predicate HasUse(matches: set<Pair>, o: int) {
    exists p :: p in matches && p.was == o
  }

  /** The ids belong to the matches. */
  ghost predicate Assigns(existing: seq<(nat, string)>, matches: set<Pair>, ids: seq<Option<nat>>) {
    && (forall p :: p in matches ==> p.now < |ids| && p.was < |existing| && ids[p.now] == Some(existing[p.was].0))
    && (forall n {:trigger HasMatch(matches, n)} :: 0 <= n < |ids| && ids[n].Some? ==> HasMatch(matches, n))
  }

  /** `associate_block_ids` */
  method AssociateBlockIds(existing: seq<(nat, string)>, candidates: seq<string>, ratio: Ratio)
    returns (ids: seq<Option<nat>>)
    ensures |ids| == |candidates|
    ensures Assigns(existing, Matches(existing, candidates, ratio), ids)
  {
    if candidates == [] {
      ids := [];
      RankedAre(existing, candidates, ratio);
      GreedyKeeps(Ranked(existing, candidates, ratio), {});
      return;
    }
    var scored := ScoreLoop(existing, candidates, ratio);
    scored := Sort(scored, Better);
    RankedAre(existing, candidates, ratio);
    ids := seq(|candidates|, _ => None);
    var usedNow: set<nat> := {};
    var usedWas: set<nat> := {};
    ghost var taken: set<Pair> := {};
    var i := 0;
    while i < |scored|
      invariant 0 <= i <= |scored| && |ids| == |candidates|
      invariant Greedy(scored[i..], taken) == Matches(existing, candidates, ratio)
      invariant Assigns(existing, taken, ids) && NoClash(taken)
      invariant Tracks(taken, usedNow, usedWas)
    {
      var pair := scored[i];
      assert pair in scored && Eligible(existing, candidates, ratio, pair);
      assert scored[i..][0] == pair && scored[i..][1..] == scored[i + 1..];
      UsedMeansClash(taken, usedNow, usedWas, pair);
      TrackOne(taken, usedNow, usedWas, pair);
      i := i + 1;
      if pair.now in usedNow || pair.was in usedWas {
        continue;
      }
      TakeOne(existing, taken, ids, pair);
      ids := ids[pair.now := Some(existing[pair.was].0)];
      usedNow := usedNow + {pair.now};
      usedWas := usedWas + {pair.was};
      taken := taken + {pair};
    }
  }

  /** The two sets of used indexes are those of the pairs that were taken. */
  ghost predicate Tracks(taken: set<Pair>, usedNow: set<nat>, usedWas: set<nat>) {
    && (forall q :: q in taken ==> q.now in usedNow && q.was in usedWas)
    && (forall n :: n in usedNow ==> HasMatch(taken, n))
    && (forall o :: o in usedWas ==> HasUse(taken, o))
  }

  lemma UsedMeansClash(taken: set<Pair>, usedNow: set<nat>, usedWas: set<nat>, pair: Pair)
    requires Tracks(taken, usedNow, usedWas)
    ensures (exists q :: q in taken && Clash(pair, q)) <==> pair.now in usedNow || pair.was in usedWas
  {
    if pair.now in usedNow {
      assert HasMatch(taken, pair.now);
      var q :| q in taken && q.now == pair.now;
      assert Clash(pair, q);
    }
    if pair.was in usedWas {
      assert HasUse(taken, pair.was);
      var q :| q in taken && q.was == pair.was;
      assert Clash(pair, q);
    }
  }

  lemma TrackOne(taken: set<Pair>, usedNow: set<nat>, usedWas: set<nat>, pair: Pair)
    requires Tracks(taken, usedNow, usedWas)
    ensures Tracks(taken + {pair}, usedNow + {pair.now}, usedWas + {pair.was})
  {
    var more := taken + {pair};
    forall n | n in usedNow + {pair.now} ensures HasMatch(more, n) {
      StillHas(taken, pair, n);
    }
    forall o | o in usedWas + {pair.was} ensures HasUse(more, o) {
      StillHas(taken, pair, o);
    }
  }

  lemma StillHas(taken: set<Pair>, pair: Pair, n: int)
    ensures HasMatch(taken, n) || n == pair.now ==> HasMatch(taken + {pair}, n)
    ensures HasUse(taken, n) || n == pair.was ==> HasUse(taken + {pair}, n)
  {
    assert pair in taken + {pair};
    if HasMatch(taken, n) {
      var p :| p in taken && p.now == n;
      assert p in taken + {pair};
    }
    if HasUse(taken, n) {
      var p :| p in taken && p.was == n;
      assert p in taken + {pair};
    }
  }

  lemma TakeOne(existing: seq<(nat, string)>, taken: set<Pair>, ids: seq<Option<nat>>, pair: Pair)
    requires Assigns(existing, taken, ids)
    requires pair.now < |ids| && pair.was < |existing|
    requires !(exists q :: q in taken && Clash(pair, q))
    ensures NoClash(taken) ==> NoClash(taken + {pair})
    ensures Assigns(existing, taken + {pair}, ids[pair.now := Some(existing[pair.was].0)])
  {
    var out := ids[pair.now := Some(existing[pair.was].0)];
    forall n | 0 <= n < |out| && out[n].Some? ensures HasMatch(taken + {pair}, n) {
      StillHas(taken, pair, n);
      assert n != pair.now ==> ids[n].Some? && HasMatch(taken, n);
    }
  }

  ghost predicate DistinctIds(existing: seq<(nat, string)>) {
    forall i, j :: 0 <= i < j < |existing| ==> existing[i].0 != existing[j].0
  }

  /** No id is given twice, and each one that is given is an id of the chapter. */
  lemma IdsAreInjective(existing: seq<(nat, string)>, candidates: seq<string>, ratio: Ratio, ids: seq<Option<nat>>)
    requires DistinctIds(existing) && Assigns(existing, Matches(existing, candidates, ratio), ids)
    ensures forall i, j :: 0 <= i < j < |ids| && ids[i].Some? && ids[j].Some? ==> ids[i] != ids[j]
    ensures forall i :: 0 <= i < |ids| && ids[i].Some? ==>
              exists k :: 0 <= k < |existing| && existing[k].0 == ids[i].value
  {
    var m := Matches(existing, candidates, ratio);
    GreedyKeeps(Ranked(existing, candidates, ratio), {});
    forall i | 0 <= i < |ids| && ids[i].Some?
      ensures exists k :: 0 <= k < |existing| && existing[k].0 == ids[i].value
    {
      var p := MatchOf(existing, m, ids, i);
      assert existing[p.was].0 == ids[i].value;
    }
    forall i, j | 0 <= i < j < |ids| && ids[i].Some? && ids[j].Some? ensures ids[i] != ids[j] {
      var p := MatchOf(existing, m, ids, i);
      var q := MatchOf(existing, m, ids, j);
      assert !Clash(p, q);
    }
  }

  lemma MatchOf(existing: seq<(nat, string)>, m: set<Pair>, ids: seq<Option<nat>>, n: nat) returns (p: Pair)
    requires Assigns(existing, m, ids) && n < |ids| && ids[n].Some?
    ensures p in m && p.now == n && p.was < |existing| && ids[n].value == existing[p.was].0
  {
    assert HasMatch(m, n);
    p :| p in m && p.now == n;
  }

  /** A text that did not change its place keeps its id, whatever else was edited. */
  lemma SameTextStays(existing: seq<(nat, string)>, candidates: seq<string>, ratio: Ratio,
                      ids: seq<Option<nat>>, j: nat)
    requires IsRatio(ratio) && |ids| == |candidates| && j < |candidates| && j < |existing|
    requires candidates[j] == existing[j].1
    requires Assigns(existing, Matches(existing, candidates, ratio), ids)
    ensures Pair(1.0, j, j) in Matches(existing, candidates, ratio) && ids[j] == Some(existing[j].0)
  {
    var m, p := Matches(existing, candidates, ratio), Pair(1.0, j, j);
    MatchingIsStable(existing, candidates, ratio);
    assert Eligible(existing, candidates, ratio, p);
    if Beaten(p, m) {
      var q :| q in m && Clash(p, q) && Better(q, p);
      NothingBeatsAPerfectPair(existing, candidates, ratio, q, j);
    }
  }

  /** A list of texts that did not change is matched with itself, position by position, even when texts
      repeat. */
  lemma UnchangedMatchesItself(existing: seq<(nat, string)>, candidates: seq<string>, ratio: Ratio,
                               ids: seq<Option<nat>>)
    requires IsRatio(ratio) && |candidates| == |existing| == |ids|
    requires forall i :: 0 <= i < |existing| ==> candidates[i] == existing[i].1
    requires Assigns(existing, Matches(existing, candidates, ratio), ids)
    ensures forall i :: 0 <= i < |ids| ==> ids[i] == Some(existing[i].0)
  {
    forall i | 0 <= i < |ids| ensures ids[i] == Some(existing[i].0) {
      SameTextStays(existing, candidates, ratio, ids, i);
    }
  }

  /** When one text changed, the others keep their ids, and it keeps its own if and only if it is still
      similar enough. */
  lemma OneTextMatched(existing: seq<(nat, string)>, candidates: seq<string>, ratio: Ratio,
                       ids: seq<Option<nat>>, i: nat)
    requires IsRatio(ratio) && |candidates| == |existing| == |ids| && i < |ids|
    requires forall j :: 0 <= j < |existing| && j != i ==> candidates[j] == existing[j].1
    requires Assigns(existing, Matches(existing, candidates, ratio), ids)
    ensures forall j :: 0 <= j < |ids| && j != i ==> ids[j] == Some(existing[j].0)
    ensures ids[i] == if ratio(existing[i].1, candidates[i]) >= 0.6 then Some(existing[i].0) else None
  {
    var m, p := Matches(existing, candidates, ratio), Pair(ratio(existing[i].1, candidates[i]), i, i);
    forall j | 0 <= j < |ids| && j != i ensures Pair(1.0, j, j) in m && ids[j] == Some(existing[j].0) {
      SameTextStays(existing, candidates, ratio, ids, j);
    }
    MatchingIsStable(existing, candidates, ratio);
    forall q | q in m ensures Clash(p, q) ==> q.now == i && q.was == i {
      assert q.now != i ==> Clash(q, Pair(1.0, q.now, q.now));
      assert q.was != i ==> Clash(q, Pair(1.0, q.was, q.was));
    }
    if ids[i].Some? {
      var q := MatchOf(existing, m, ids, i);
      assert Clash(p, q);
    }
  }

  lemma NothingBeatsAPerfectPair(existing: seq<(nat, string)>, candidates: seq<string>, ratio: Ratio, q: Pair, i: nat)
    requires IsRatio(ratio) && Eligible(existing, candidates, ratio, q)
    requires Clash(Pair(1.0, i, i), q) && Better(q, Pair(1.0, i, i))
    ensures q == Pair(1.0, i, i)
  {
    assert ratio(existing[q.was].1, candidates[q.now]) <= 1.0;
    assert Distance(q) == 0;
  }
}
