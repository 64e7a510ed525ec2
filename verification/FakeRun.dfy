/** `jobs/fake_run.py` and `jobs/cursor.py`: one pass over the plan of a running job renders what is
    missing. */
module FakeRun {
  import opened Checkpoint
  import opened Chunks
  import opened JobStates
  import opened Options

  datatype Item = Silence(ordinal: nat) | Speech(ordinal: nat, key: Key, text: string)

  /** What the voice writes into the part file of a text. */
  type Voice = string -> File

  ghost predicate Audible(voice: Voice) {
    forall t :: voice(t).size > 0
  }

  // ---------- the cursor ----------

  function CursorAfter(items: seq<Item>, done: set<nat>): nat {
    if items == [] then 0
    else if items[0].Speech? && items[0].ordinal !in done then items[0].ordinal
    else if |items| == 1 then items[0].ordinal + 1
    else CursorAfter(items[1..], done)
  }

  predicate Missing(item: Item, done: set<nat>) {
    item.Speech? && item.ordinal !in done
  }

  /** The cursor stands at the first speech that is missing, or behind the plan. */
  lemma {:induction false} CursorIsFirstMissing(items: seq<Item>, done: set<nat>, k: nat)
    requires k <= |items| && (forall i :: 0 <= i < k ==> !Missing(items[i], done))
    requires k < |items| ==> Missing(items[k], done)
    ensures CursorAfter(items, done) == if k < |items| then items[k].ordinal
                                        else if items == [] then 0 else items[|items| - 1].ordinal + 1
  {
    if k > 0 {
      assert !Missing(items[0], done);
      if |items| > 1 {
        forall i | 0 <= i < k - 1 ensures !Missing(items[1..][i], done) {
          assert items[1..][i] == items[i + 1];
        }
        CursorIsFirstMissing(items[1..], done, k - 1);
      }
    }
  }

  // ---------- what a pass does to the chunks ----------

  /** The keys that a pass renders, in order: each missing chunk once, also when lines share it. */
  function ToRender(files: Files, items: seq<Item>, voice: Voice, probe: Probe, now: nat): seq<Key>
    decreases items
  {
    if items == [] then []
    else if items[0].Silence? || Reusable(files, items[0].key, probe) then
      ToRender(files, items[1..], voice, probe, now)
    else
      [items[0].key]
      + ToRender(Rendering(files, items[0].key, voice(items[0].text), probe, now, 3), items[1..], voice, probe, now)
  }

  function FilesAfter(files: Files, items: seq<Item>, voice: Voice, probe: Probe, now: nat): Files
    decreases items
  {
    if items == [] then files
    else if items[0].Silence? || Reusable(files, items[0].key, probe) then
      FilesAfter(files, items[1..], voice, probe, now)
    else FilesAfter(Rendering(files, items[0].key, voice(items[0].text), probe, now, 3), items[1..], voice, probe, now)
  }

  predicate Speaks(items: seq<Item>, key: Key) {
    exists i :: 0 <= i < |items| && items[i].Speech? && items[i].key == key
  }

  lemma SpeaksStep(items: seq<Item>, key: Key)
    requires items != []
    ensures Speaks(items, key) <==> (items[0].Speech? && items[0].key == key) || Speaks(items[1..], key)
  {
    if Speaks(items[1..], key) {
      var i :| 0 <= i < |items[1..]| && items[1..][i].Speech? && items[1..][i].key == key;
      assert items[i + 1].key == key;
    }
    if Speaks(items, key) {
      var i :| 0 <= i < |items| && items[i].Speech? && items[i].key == key;
      if i > 0 { assert items[1..][i - 1] == items[i]; }
    }
  }

  /** A pass renders exactly the speech chunks that were not reusable, each once; afterwards every
      speech chunk is reusable, and other files are as they were. */
  lemma {:induction false} PassRendersMissing(files: Files, items: seq<Item>, voice: Voice, probe: Probe, now: nat,
                                              key: Key)
    ensures key in ToRender(files, items, voice, probe, now) <==> Speaks(items, key) && !Reusable(files, key, probe)
    ensures multiset(ToRender(files, items, voice, probe, now))[key] <= 1
    ensures Reusable(FilesAfter(files, items, voice, probe, now), key, probe) <==>
            Reusable(files, key, probe) || Speaks(items, key)
    decreases items
  {
    if items != [] {
      SpeaksStep(items, key);
      if items[0].Silence? || Reusable(files, items[0].key, probe) {
        PassRendersMissing(files, items[1..], voice, probe, now, key);
      } else {
        var k, part := items[0].key, voice(items[0].text);
        var next := Rendering(files, k, part, probe, now, 3);
        RenderingIsCrashSafe(files, k, part, probe, now, 3);
        if k != key { OthersStayReusable(files, next, k, key, probe); }
        hide Reusable, Rendering;
        PassRendersMissing(next, items[1..], voice, probe, now, key);
        var rest := ToRender(next, items[1..], voice, probe, now);
        assert multiset([k] + rest) == multiset{k} + multiset(rest);
      }
    }
  }

  /** A second pass renders nothing. */
  lemma {:induction false} SecondPassReuses(files: Files, items: seq<Item>, voice: Voice, probe: Probe, now: nat)
    requires forall key :: Speaks(items, key) ==> Reusable(files, key, probe)
    ensures ToRender(files, items, voice, probe, now) == [] && FilesAfter(files, items, voice, probe, now) == files
    decreases items
  {
    if items != [] {
      forall key | Speaks(items[1..], key) ensures Reusable(files, key, probe) { SpeaksStep(items, key); }
      if items[0].Speech? { SpeaksStep(items, items[0].key); }
      SecondPassReuses(files, items[1..], voice, probe, now);
    }
  }

  /** A pass that dies in the writes of its `i`-th item leaves every chunk that was reusable and is not
      being rendered reusable, so the next pass renders no more than was missing and the torn one. */
  lemma DyingPassKeepsChunks(files: Files, items: seq<Item>, i: nat, n: Steps, voice: Voice, probe: Probe, now: nat,
                             key: Key)
    requires i < |items| && items[i].Speech? && Reusable(files, key, probe)
    requires !Reusable(FilesAfter(files, items[..i], voice, probe, now), items[i].key, probe)
    ensures Reusable(Rendering(FilesAfter(files, items[..i], voice, probe, now), items[i].key,
                               voice(items[i].text), probe, now, n), key, probe)
  {
    hide Reusable, Rendering, FilesAfter;
    PassRendersMissing(files, items[..i], voice, probe, now, key);
    var before := FilesAfter(files, items[..i], voice, probe, now);
    RenderingIsCrashSafe(before, items[i].key, voice(items[i].text), probe, now, n);
    OthersStayReusable(before, Rendering(before, items[i].key, voice(items[i].text), probe, now, n), items[i].key, key,
                       probe);
  }

  /** The files after a pass that died in the `n`-th write of its `i`-th item. */
  function FilesAtDeath(files: Files, items: seq<Item>, i: nat, n: Steps, voice: Voice, probe: Probe, now: nat): Files
    requires i < |items| && items[i].Speech?
  {
    Rendering(FilesAfter(files, items[..i], voice, probe, now), items[i].key, voice(items[i].text), probe, now, n)
  }

  /** What is reusable when a pass died: what was, what it had rendered, and the chunk in its hands once
      its pair is complete. */
  lemma ReusableAtDeath(files: Files, items: seq<Item>, i: nat, n: Steps, voice: Voice, probe: Probe, now: nat,
                        key: Key)
    requires i < |items| && items[i].Speech?
    requires !Reusable(FilesAfter(files, items[..i], voice, probe, now), items[i].key, probe)
    ensures var dead := FilesAtDeath(files, items, i, n, voice, probe, now);
            && (key != items[i].key ==>
                (Reusable(dead, key, probe) <==> Reusable(files, key, probe) || Speaks(items[..i], key)))
            && (key == items[i].key ==> !Reusable(files, key, probe) && !Speaks(items[..i], key)
                                        && (n <= 1 ==> !Reusable(dead, key, probe))
                                        && (n >= 3 ==> Reusable(dead, key, probe)))
  {
    hide Reusable, Rendering, FilesAfter, Speaks;
    PassRendersMissing(files, items[..i], voice, probe, now, key);
    var before := FilesAfter(files, items[..i], voice, probe, now);
    RenderingIsCrashSafe(before, items[i].key, voice(items[i].text), probe, now, n);
    if key != items[i].key {
      OthersStayReusable(before, FilesAtDeath(files, items, i, n, voice, probe, now), items[i].key, key, probe);
    }
  }

  lemma SpeaksInPrefix(items: seq<Item>, i: nat, key: Key)
    requires i <= |items| && Speaks(items[..i], key)
    ensures Speaks(items, key)
  {
    var j :| 0 <= j < i && items[..i][j].Speech? && items[..i][j].key == key;
    assert items[j].key == key;
  }

  /** A death in a pass, a reconcile and a second pass: the second pass renders exactly what was missing
      before the first one and what that did not finish, each once, and afterwards every speech chunk is
      reusable. */
  lemma RerunFinishes(files: Files, items: seq<Item>, i: nat, n: Steps, voice: Voice, probe: Probe, now: nat,
                      later: nat, key: Key)
    requires i < |items| && items[i].Speech?
    requires !Reusable(FilesAfter(files, items[..i], voice, probe, now), items[i].key, probe)
    ensures var dead := FilesAtDeath(files, items, i, n, voice, probe, now);
            var mended := Kept(dead, probe);
            var again := ToRender(mended, items, voice, probe, later);
            && multiset(again)[key] <= 1
            && (key in again <==>
                  && key in ToRender(files, items, voice, probe, now)
                  && key !in ToRender(files, items[..i], voice, probe, now)
                  && (key == items[i].key ==> !Reusable(dead, key, probe)))
            && (Reusable(FilesAfter(mended, items, voice, probe, later), key, probe) <==>
                  Reusable(files, key, probe) || Speaks(items, key))
  {
    hide Reusable, Rendering, FilesAfter, ToRender, Speaks, Kept, FilesAtDeath;
    var dead := FilesAtDeath(files, items, i, n, voice, probe, now);
    ReusableAtDeath(files, items, i, n, voice, probe, now, key);
    KeptIsComplete(dead, probe, key);
    PassRendersMissing(files, items, voice, probe, now, key);
    PassRendersMissing(files, items[..i], voice, probe, now, key);
    PassRendersMissing(Kept(dead, probe), items, voice, probe, later, key);
    if Speaks(items[..i], key) { SpeaksInPrefix(items, i, key); }
    if key == items[i].key { SpeaksHere(items, i); }
  }

  lemma SpeaksHere(items: seq<Item>, i: nat)
    requires i < |items| && items[i].Speech?
    ensures Speaks(items, items[i].key)
  {
  }

  // ---------- the pass ----------

  function SpeechOrdinals(items: seq<Item>): set<nat> {
    set i | 0 <= i < |items| && items[i].Speech? :: items[i].ordinal
  }

  function SpeechCount(items: seq<Item>): nat {
    if items == [] then 0 else (if items[0].Speech? then 1 else 0) + SpeechCount(items[1..])
  }

  /** `render_pass`: the pass ends in `muxing`, or in `done` for a prep job. */
  method RenderPass(log: JobLog, dir: ChunkDir, record: Job, items: seq<Item>, voice: Voice, probe: Probe, now: nat)
    returns (out: Result, rendered: seq<Key>)
    requires Audible(voice)
    modifies log, dir
    ensures !record.state.Running? ==> out == Refused && dir.files == old(dir.files) && log.Files() == old(log.Files())
    ensures record.state.Running? ==>
              && rendered == ToRender(old(dir.files), items, voice, probe, now) && |rendered| <= SpeechCount(items)
              && dir.files == FilesAfter(old(dir.files), items, voice, probe, now)
              && var done := SpeechOrdinals(items);
                 var counts := Counts(SpeechCount(items), |done|, SpeechCount(items) - |rendered|);
                 var noted := Progressed(record, CursorAfter(items, done), counts, now);
                 && After(noted, Rendered, now).Some?
                 && out == Updated(After(noted, Rendered, now).value)
                 && out.job.state == (if record.kind.Prep? then Done else Muxing)
                 && |log.lines| == |old(log.lines)| + 2 && log.job == Some(out.job)
                 && log.lines == old(log.lines) + [ProgressLineOf(noted), StateLineOf(out.job, Some(Rendered))]
  {
    rendered := [];
    if record.state != Running {
      return Refused, [];
    }
    var done, reused;
    done, reused, rendered := RenderItems(dir, items, voice, probe, now);
    var counts := Counts(SpeechCount(items), |done|, reused);
    var noted := log.NoteProgress(record, CursorAfter(items, done), counts, now, Never);
    out := log.Apply(noted.job, Rendered, now, Never);
  }

  method RenderItems(dir: ChunkDir, items: seq<Item>, voice: Voice, probe: Probe, now: nat)
    returns (done: set<nat>, reused: nat, rendered: seq<Key>)
    requires Audible(voice)
    modifies dir
    ensures done == SpeechOrdinals(items)
    ensures rendered == ToRender(old(dir.files), items, voice, probe, now)
    ensures dir.files == FilesAfter(old(dir.files), items, voice, probe, now)
    ensures reused + |rendered| == SpeechCount(items)
  {
    hide Reusable, Rendering;
    done, reused, rendered := {}, 0, [];
    ghost var was := dir.files;
    var i := 0;
    while i < |items|
      invariant 0 <= i <= |items| && done == SpeechOrdinals(items[..i])
      invariant rendered + ToRender(dir.files, items[i..], voice, probe, now) == ToRender(was, items, voice, probe, now)
      invariant FilesAfter(dir.files, items[i..], voice, probe, now) == FilesAfter(was, items, voice, probe, now)
      invariant reused + |rendered| + SpeechCount(items[i..]) == SpeechCount(items)
    {
      var item := items[i];
      assert items[i..][0] == item && items[i..][1..] == items[i + 1..];
      OneMoreOrdinal(items, i);
      if item.Speech? {
        if Reusable(dir.files, item.key, probe) {
          reused := reused + 1;
        } else {
          ghost var next := Rendering(dir.files, item.key, voice(item.text), probe, now, 3);
          assert rendered + ([item.key] + ToRender(next, items[i + 1..], voice, probe, now))
              == ToRender(was, items, voice, probe, now);
          var _ := dir.RenderChunk(item.key, voice(item.text), probe, now, 3);
          rendered := rendered + [item.key];
        }
        done := done + {item.ordinal};
      }
      i := i + 1;
    }
    assert items[..i] == items && items[i..] == [];
  }

  lemma OneMoreOrdinal(items: seq<Item>, i: nat)
    requires i < |items|
    ensures SpeechOrdinals(items[..i + 1])
            == SpeechOrdinals(items[..i]) + (if items[i].Speech? then {items[i].ordinal} else {})
  {
    var more := items[..i + 1];
    assert forall j :: 0 <= j < i ==> more[j] == items[..i][j];
    assert more[i] == items[i];
    forall n | n in SpeechOrdinals(items[..i]) ensures n in SpeechOrdinals(more) {
      var j :| 0 <= j < i && items[..i][j].Speech? && items[..i][j].ordinal == n;
      assert more[j].ordinal == n;
    }
  }
}
