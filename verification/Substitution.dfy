/** Simultaneous substitution, defined without any order of application: scan the text once from
    the left, and where an edit starts put its replacement and jump to its end. The passes that
    rewrite from right to left are proved against this. */
module Substitution {

  /** What replaces the text from the start, which is the key in `Edits`, up to `end`. */
  datatype Edit = Edit(end: nat, text: string)

  type Edits = map<nat, Edit>

  /** Edits are non-empty, lie inside a text of length `n`, and do not overlap. */
  ghost predicate Disjoint(es: Edits, n: nat) {
    && (forall s :: s in es ==> s < es[s].end <= n)
    && (forall s, t :: s in es && t in es && s < t ==> es[s].end <= t)
  }

  /** The text between `from` and `to` with every edit that starts there carried out. */
  ghost function Expand(text: string, es: Edits, from: nat, to: nat): string
    requires to <= |text|
    decreases |text| - from
  {
    if from >= to then ""
    else if from in es && from < es[from].end then es[from].text + Expand(text, es, es[from].end, to)
    else [text[from]] + Expand(text, es, from + 1, to)
  }

  /** One edit on its own, as a slice assignment does it. */
  function Put(text: string, start: nat, e: Edit): string
    requires start <= e.end <= |text|
  {
    text[..start] + e.text + text[e.end..]
  }

  function Delta(start: nat, e: Edit): int {
    |e.text| - (e.end - start)
  }

  /** Where a boundary outside an edit lands once the edit has been put in place. */
  function Moved(start: nat, e: Edit, x: int): int {
    if x <= start then x else x + Delta(start, e)
  }

  ghost predicate Straddled(es: Edits, m: nat) {
    exists s :: s in es && s < m < es[s].end
  }

  /** Without edits the text is copied. */
  lemma {:induction false} ExpandPlain(text: string, es: Edits, from: nat, to: nat)
    requires from <= to <= |text|
    requires forall s :: s in es ==> s >= to || s < from
    ensures Expand(text, es, from, to) == text[from..to]
    decreases |text| - from
  {
    if from < to {
      ExpandPlain(text, es, from + 1, to);
      assert text[from..to] == [text[from]] + text[from + 1..to];
    }
  }

  /** Expansion splits at any boundary no edit runs across. */
  lemma {:induction false} ExpandSplit(text: string, es: Edits, from: nat, m: nat, to: nat)
    requires Disjoint(es, |text|) && from <= m <= to <= |text|
    requires !Straddled(es, m)
    ensures Expand(text, es, from, to) == Expand(text, es, from, m) + Expand(text, es, m, to)
    decreases |text| - from
  {
    if from < m {
      if from in es {
        ExpandSplit(text, es, es[from].end, m, to);
      } else {
        ExpandSplit(text, es, from + 1, m, to);
      }
    }
  }

  /** `es'` holds the edits of `es` that start in [a, b), `k` places further on, and no other edit
      that starts there. */
  ghost predicate SameWindow(es: Edits, a: nat, b: nat, es': Edits, k: int)
    requires a + k >= 0
  {
    forall s {:trigger s in es} :: a <= s < b ==>
      (s in es <==> s + k in es') && (s in es ==> es'[s + k].end == es[s].end + k && es'[s + k].text == es[s].text)
  }

  lemma ExpandAtEdit(text: string, es: Edits, from: nat, to: nat)
    requires from < to <= |text| && from in es && from < es[from].end
    ensures Expand(text, es, from, to) == es[from].text + Expand(text, es, es[from].end, to)
  {
  }

  lemma ExpandNothing(text: string, es: Edits, from: nat, to: nat)
    requires to <= |text| && to <= from
    ensures Expand(text, es, from, to) == ""
  {
  }

  lemma ExpandAtChar(text: string, es: Edits, from: nat, to: nat)
    requires from < to <= |text| && from !in es
    ensures Expand(text, es, from, to) == [text[from]] + Expand(text, es, from + 1, to)
  {
  }

  ghost predicate SameText(t: string, a: nat, b: nat, t': string, k: int)
    requires b <= |t| && 0 <= a + k && b + k <= |t'|
  {
    forall i :: a <= i < b ==> t[i] == t'[i + k]
  }

  lemma SameTextAt(t: string, a: nat, c: nat, b: nat, t': string, k: int)
    requires a < c && a < b <= |t| && 0 <= a + k && b + k <= |t'| && SameText(t, a, b, t', k)
    ensures t[a] == t'[a + k] && SameText(t, c, b, t', k)
  {
  }

  lemma WindowAt(es: Edits, a: nat, b: nat, es': Edits, k: int, n: nat)
    requires a < b && 0 <= a + k && Disjoint(es, n) && SameWindow(es, a, b, es', k)
    ensures a in es <==> a + k in es'
    ensures a in es ==> a < es[a].end <= n && es'[a + k].end == es[a].end + k && es'[a + k].text == es[a].text
  {
  }

  lemma NarrowWindow(es: Edits, a: nat, c: nat, b: nat, es': Edits, k: int)
    requires 0 <= a + k && a <= c && SameWindow(es, a, b, es', k)
    ensures SameWindow(es, c, b, es', k)
  {
  }

  lemma SameAtEdit(t: string, es: Edits, a: nat, b: nat, t': string, es': Edits, k: int)
    requires a < b <= |t| && 0 <= a + k && b + k <= |t'| && a in es && a < es[a].end
    requires a + k in es' && es'[a + k].end == es[a].end + k && es'[a + k].text == es[a].text
    requires es[a].end <= b ==> Expand(t, es, es[a].end, b) == Expand(t', es', es[a].end + k, b + k)
    ensures Expand(t, es, a, b) == Expand(t', es', a + k, b + k)
  {
    hide Expand;
    ExpandAtEdit(t, es, a, b);
    ExpandAtEdit(t', es', a + k, b + k);
    if es[a].end > b {
      ExpandNothing(t, es, es[a].end, b);
      ExpandNothing(t', es', es[a].end + k, b + k);
    }
  }

  lemma SameAtChar(t: string, es: Edits, a: nat, b: nat, t': string, es': Edits, k: int)
    requires a < b <= |t| && 0 <= a + k && b + k <= |t'| && a !in es && a + k !in es' && t[a] == t'[a + k]
    requires Expand(t, es, a + 1, b) == Expand(t', es', a + 1 + k, b + k)
    ensures Expand(t, es, a, b) == Expand(t', es', a + k, b + k)
  {
    hide Expand;
    ExpandAtChar(t, es, a, b);
    ExpandAtChar(t', es', a + k, b + k);
  }

  lemma {:induction false} ExpandSame(t: string, es: Edits, a: nat, b: nat, t': string, es': Edits, k: int)
    requires Disjoint(es, |t|)
    requires a <= b <= |t| && 0 <= a + k && b + k <= |t'|
    requires SameText(t, a, b, t', k) && SameWindow(es, a, b, es', k)
    ensures Expand(t, es, a, b) == Expand(t', es', a + k, b + k)
    decreases |t| - a, 1
  {
    hide Expand, SameWindow, SameText, Disjoint;
    if a == b {
      ExpandNothing(t, es, a, b);
      ExpandNothing(t', es', a + k, b + k);
    } else {
      WindowAt(es, a, b, es', k, |t|);
      if a in es {
        if es[a].end <= b { ExpandSameFrom(t, es, a, es[a].end, b, t', es', k); }
        SameAtEdit(t, es, a, b, t', es', k);
      } else {
        ExpandSameFrom(t, es, a, a + 1, b, t', es', k);
        SameTextAt(t, a, a + 1, b, t', k);
        SameAtChar(t, es, a, b, t', es', k);
      }
    }
  }

  lemma {:induction false} ExpandSameFrom(t: string, es: Edits, a: nat, c: nat, b: nat, t': string, es': Edits, k: int)
    requires Disjoint(es, |t|)
    requires a < c <= b <= |t| && 0 <= a + k && b + k <= |t'|
    requires SameText(t, a, b, t', k) && SameWindow(es, a, b, es', k)
    ensures Expand(t, es, c, b) == Expand(t', es', c + k, b + k)
    decreases |t| - a, 0
  {
    hide Expand, SameWindow, SameText, Disjoint;
    SameTextAt(t, a, c, b, t', k);
    NarrowWindow(es, a, c, b, es', k);
    ExpandSame(t, es, c, b, t', es', k);
  }

  /** Expansion of a stretch looks only at that stretch and at the edits that start in it. */
  lemma ExpandFrame(t: string, es: Edits, a: nat, b: nat, t': string, es': Edits, k: int)
    requires Disjoint(es, |t|)
    requires a <= b <= |t| && 0 <= a + k && b + k <= |t'|
    requires t[a..b] == t'[a + k..b + k]
    requires SameWindow(es, a, b, es', k)
    ensures Expand(t, es, a, b) == Expand(t', es', a + k, b + k)
  {
    hide Expand, SameWindow, Disjoint;
    forall i | a <= i < b ensures t[i] == t'[i + k] {
      assert t[i] == t[a..b][i - a] && t'[i + k] == t'[a + k..b + k][i - a];
    }
    ExpandSame(t, es, a, b, t', es', k);
  }

  /** One step of a right-to-left pass. Putting the rightmost edit in place and forgetting it
      changes no expansion, as long as the boundaries are moved along. */
  lemma PutRightmost(text: string, es: Edits, r: nat, a: nat, b: nat)
    requires Disjoint(es, |text|) && r in es
    requires forall s :: s in es ==> s <= r
    requires a <= b <= |text|
    requires a <= r || es[r].end <= a
    requires b <= r || es[r].end <= b
    ensures Disjoint(es - {r}, |Put(text, r, es[r])|)
    ensures 0 <= Moved(r, es[r], a) <= Moved(r, es[r], b) <= |Put(text, r, es[r])|
    ensures Expand(text, es, a, b)
         == Expand(Put(text, r, es[r]), es - {r}, Moved(r, es[r], a), Moved(r, es[r], b))
  {
    hide Expand;
    var t', es' := Put(text, r, es[r]), es - {r};
    if b <= r {
      PutBefore(text, es, r, a, b);
    } else if es[r].end <= a {
      var a', b' := Moved(r, es[r], a), Moved(r, es[r], b);
      ExpandPlain(text, es, a, b);
      ExpandPlain(t', es', a', b');
      assert t'[a'..b'] == text[a..b];
    } else {
      PutAcross(text, es, r, a, b);
    }
  }

  lemma PutBefore(text: string, es: Edits, r: nat, a: nat, b: nat)
    requires Disjoint(es, |text|) && r in es
    requires a <= b <= r
    ensures Expand(text, es, a, b) == Expand(Put(text, r, es[r]), es - {r}, a, b)
  {
    hide Expand;
    var t' := Put(text, r, es[r]);
    assert t'[a..b] == text[a..b];
    ExpandFrame(text, es, a, b, t', es - {r}, 0);
  }

  lemma PutSlice(text: string, r: nat, e: Edit, b: nat)
    requires r <= e.end <= b <= |text|
    ensures Put(text, r, e)[r..b + Delta(r, e)] == e.text + text[e.end..b]
  {
    var out, n := Put(text, r, e), b + Delta(r, e);
    var want := e.text + text[e.end..b];
    assert |out[r..n]| == |want|;
    assert forall i :: 0 <= i < |want| ==> out[r..n][i] == out[r + i] == want[i];
  }

  lemma PutAcross(text: string, es: Edits, r: nat, a: nat, b: nat)
    requires Disjoint(es, |text|) && r in es
    requires forall s :: s in es ==> s <= r
    requires a <= r && es[r].end <= b <= |text|
    ensures Expand(text, es, a, b)
         == Expand(Put(text, r, es[r]), es - {r}, a, Moved(r, es[r], b))
  {
    hide Expand;
    var t', es', b' := Put(text, r, es[r]), es - {r}, Moved(r, es[r], b);
    ExpandSplit(text, es, a, r, b);
    ExpandPlain(text, es, es[r].end, b);
    ExpandSplit(t', es', a, r, b');
    ExpandPlain(t', es', r, b');
    PutBefore(text, es, r, a, r);
    PutSlice(text, r, es[r], b);
    if r < b { ExpandAtEdit(text, es, r, b); }
  }

  /** Where a stretch with clean boundaries is found in the expanded text. */
  lemma ExpandWindow(text: string, es: Edits, a: nat, b: nat)
    requires Disjoint(es, |text|) && a <= b <= |text|
    requires !Straddled(es, a) && !Straddled(es, b)
    ensures var whole, from, to := Expand(text, es, 0, |text|), |Expand(text, es, 0, a)|, |Expand(text, es, 0, b)|;
            from <= to <= |whole| && whole[from..to] == Expand(text, es, a, b)
  {
    ExpandSplit(text, es, 0, b, |text|);
    ExpandSplit(text, es, 0, a, b);
    Middle(Expand(text, es, 0, a), Expand(text, es, a, b), Expand(text, es, b, |text|));
  }

  lemma Middle(x: string, y: string, z: string)
    ensures ((x + y) + z)[|x|..|x + y|] == y
  {
  }

  // ---------- lists of edits, last start first ----------

  datatype Placed = Placed(start: nat, edit: Edit)

  /** The order in which the passes visit their edits. */
  ghost predicate Descending(ps: seq<Placed>, n: nat) {
    && (forall i :: 0 <= i < |ps| ==> ps[i].start < ps[i].edit.end <= n)
    && (forall i, j :: 0 <= i < j < |ps| ==> ps[j].edit.end <= ps[i].start)
  }

  ghost function Collect(ps: seq<Placed>): Edits {
    if ps == [] then map[] else Collect(ps[1..])[ps[0].start := ps[0].edit]
  }

  lemma {:induction false} CollectIsDisjoint(ps: seq<Placed>, n: nat)
    requires Descending(ps, n)
    ensures Disjoint(Collect(ps), n)
    ensures ps != [] ==>
              forall s :: s in Collect(ps) ==> s <= ps[0].start && Collect(ps)[s].end <= ps[0].edit.end
  {
    if ps != [] {
      CollectIsDisjoint(ps[1..], n);
      assert |ps| > 1 ==> ps[1].edit.end <= ps[0].start;
    }
  }

  lemma DropAdded(m: Edits, k: nat, e: Edit)
    requires k !in m
    ensures m[k := e] - {k} == m
  {
  }

  /** The head of the list is the rightmost edit, and the others are the rest of the list. */
  lemma CollectHead(ps: seq<Placed>, n: nat)
    requires ps != [] && Descending(ps, n)
    ensures var es := Collect(ps);
            && Disjoint(es, n)
            && ps[0].start in es && es[ps[0].start] == ps[0].edit
            && (forall s :: s in es ==> s <= ps[0].start)
            && Collect(ps[1..]) == es - {ps[0].start}
  {
    CollectIsDisjoint(ps, n);
    CollectIsDisjoint(ps[1..], n);
    assert |ps| > 1 ==> ps[1].edit.end <= ps[0].start;
    DropAdded(Collect(ps[1..]), ps[0].start, ps[0].edit);
  }

  /** The edits of the list, and no others. */
  ghost predicate Describes(es: Edits, ps: seq<Placed>) {
    && (forall i :: 0 <= i < |ps| ==> ps[i].start in es && es[ps[i].start] == ps[i].edit)
    && (forall s :: s in es ==> exists i :: 0 <= i < |ps| && ps[i].start == s)
  }

  lemma {:induction false} CollectDescribes(ps: seq<Placed>, n: nat)
    requires Descending(ps, n)
    ensures Describes(Collect(ps), ps)
  {
    if ps != [] {
      var es, rest := Collect(ps), Collect(ps[1..]);
      assert forall i :: 0 < i < |ps| ==> ps[1..][i - 1] == ps[i];
      CollectDescribes(ps[1..], n);
      assert es == rest[ps[0].start := ps[0].edit];
      hide Collect;
      forall i | 0 <= i < |ps| ensures ps[i].start in es && es[ps[i].start] == ps[i].edit {
        if i > 0 {
          assert ps[1..][i - 1] == ps[i];
          assert ps[i].edit.end <= ps[0].start;
        }
      }
      forall s | s in es ensures exists i :: 0 <= i < |ps| && ps[i].start == s {
        if s in rest {
          var i :| 0 <= i < |ps[1..]| && ps[1..][i].start == s;
          assert ps[i + 1].start == s;
        }
      }
    }
  }

  /** One slice assignment after the other. */
  function PutAll(text: string, ps: seq<Placed>): string
    decreases |ps|
  {
    if ps == [] then text
    else if ps[0].start <= ps[0].edit.end <= |text| then PutAll(Put(text, ps[0].start, ps[0].edit), ps[1..])
    else PutAll(text, ps[1..])
  }

  /** Slice assignments from the right carry out all the edits at once. */
  lemma {:induction false} PutAllIsExpand(text: string, ps: seq<Placed>)
    requires Descending(ps, |text|)
    ensures PutAll(text, ps) == Expand(text, Collect(ps), 0, |text|)
    decreases |ps|
  {
    if ps == [] {
      ExpandPlain(text, map[], 0, |text|);
    } else {
      var t' := Put(text, ps[0].start, ps[0].edit);
      CollectHead(ps, |text|);
      PutRightmost(text, Collect(ps), ps[0].start, 0, |text|);
      StillDescending(text, ps);
      PutAllIsExpand(t', ps[1..]);
    }
  }

  lemma StillDescending(text: string, ps: seq<Placed>)
    requires ps != [] && Descending(ps, |text|)
    ensures Descending(ps[1..], |Put(text, ps[0].start, ps[0].edit)|)
  {
    forall i | 0 <= i < |ps[1..]| ensures ps[1..][i].edit.end <= ps[0].start {
      assert ps[1..][i] == ps[i + 1];
    }
  }
}
