/** `jobs/commit.py`, `jobs/reuse.py` and `store/reconcile.py`: rendered chunks on disk. A chunk is a WAV
    and a sidecar under one key; the worker writes a part file first. */
module Chunks {
  import opened Options

  datatype Key = Key(shard: nat, stem: nat)

  datatype Name = PartOf(key: Key) | WavOf(key: Key) | SidecarOf(key: Key)

  datatype Meta = Meta(size: nat, duration: real)

  /** `meta` is what a sidecar parses to, if it parses. */
  datatype File = File(size: nat, body: nat, mtime: nat, meta: Option<Meta>)

  type Files = map<Name, File>

  /** The probe reads nothing but the bytes. */
  type Probe = (nat, nat) -> real

  function Duration(f: File, probe: Probe): real {
    probe(f.size, f.body)
  }

  /** `chunk_reusable` */
  predicate Reusable(files: Files, key: Key, probe: Probe) {
    && WavOf(key) in files && SidecarOf(key) in files
    && files[SidecarOf(key)].meta.Some?
    && files[WavOf(key)].size == files[SidecarOf(key)].meta.value.size
    && Duration(files[WavOf(key)], probe) == files[SidecarOf(key)].meta.value.duration
  }

  // ---------- publishing a chunk ----------

  /** How many of the writes happen before the process dies; three or more means that it survives. */
  type Steps = nat

  datatype Published = Published | MissingPart | EmptyPart | Mismatch | Died

  function WithPart(files: Files, key: Key, part: File): Files {
    files[PartOf(key) := part]
  }

  /** The rename is one atomic step. */
  function WithWav(files: Files, key: Key): Files
    requires PartOf(key) in files
  {
    (files - {PartOf(key)})[WavOf(key) := files[PartOf(key)]]
  }

  function WithSidecar(files: Files, key: Key, size: nat, duration: real, now: nat): Files {
    files[SidecarOf(key) := File(0, 0, now, Some(Meta(size, duration)))]
  }

  /** The writes of one render, cut off after `n` steps. */
  function Rendering(files: Files, key: Key, part: File, probe: Probe, now: nat, n: Steps): Files {
    if n == 0 then files
    else if n == 1 then WithPart(files, key, part)
    else if n == 2 then WithWav(WithPart(files, key, part), key)
    else WithSidecar(WithWav(WithPart(files, key, part), key), key, part.size, Duration(part, probe), now)
  }

  /** Nothing but the files of `key` differs. */
  ghost predicate SameBut(before: Files, after: Files, key: Key) {
    forall name: Name :: name.key != key ==>
      (name in after <==> name in before) && (name in after ==> after[name] == before[name])
  }

  /** Wherever a render is cut off, other chunks are as they were; only a complete one makes its chunk
      reusable for certain; and until the rename the chunk is judged as before. */
  lemma RenderingIsCrashSafe(files: Files, key: Key, part: File, probe: Probe, now: nat, n: Steps)
    ensures var after := Rendering(files, key, part, probe, now, n);
            && SameBut(files, after, key)
            && (n >= 3 ==> Reusable(after, key, probe) && after[WavOf(key)] == part)
            && (n <= 1 ==> (Reusable(after, key, probe) <==> Reusable(files, key, probe)))
            && (n == 2 ==> (Reusable(after, key, probe) <==>
                 SidecarOf(key) in files && files[SidecarOf(key)].meta == Some(Meta(part.size, Duration(part, probe)))))
  {
  }

  lemma OthersStayReusable(before: Files, after: Files, key: Key, other: Key, probe: Probe)
    requires SameBut(before, after, key) && other != key
    ensures Reusable(after, other, probe) <==> Reusable(before, other, probe)
  {
    assert WavOf(other).key != key && SidecarOf(other).key != key;
  }

  class ChunkDir {
    var files: Files

    /** `commit_chunk`. The first write of a render has made the part, so the rename is the second. */
    method CommitChunk(key: Key, duration: real, probe: Probe, now: nat, steps: Steps) returns (out: Published)
      modifies this
      ensures out.MissingPart? <==> PartOf(key) !in old(files)
      ensures out.EmptyPart? <==> PartOf(key) in old(files) && old(files)[PartOf(key)].size == 0
      ensures out.Mismatch? <==> PartOf(key) in old(files) && old(files)[PartOf(key)].size > 0
                                 && Duration(old(files)[PartOf(key)], probe) != duration
      ensures out.MissingPart? ==> files == old(files)
      ensures out.EmptyPart? || out.Mismatch? ==> files == old(files) - {PartOf(key)}
      ensures out.Died? ==> steps < 3 && files == if steps < 2 then old(files) else WithWav(old(files), key)
      ensures out.Published? ==>
                && steps >= 3 && PartOf(key) in old(files)
                && files == WithSidecar(WithWav(old(files), key), key, old(files)[PartOf(key)].size, duration, now)
                && Reusable(files, key, probe)
    {
      if PartOf(key) !in files {
        return MissingPart;
      }
      var size := files[PartOf(key)].size;
      if size == 0 {
        files := files - {PartOf(key)};
        return EmptyPart;
      }
      if Duration(files[PartOf(key)], probe) != duration {
        files := files - {PartOf(key)};
        return Mismatch;
      }
      if steps < 2 {
        return Died;
      }
      files := (files - {PartOf(key)})[WavOf(key) := files[PartOf(key)]];
      if steps < 3 {
        return Died;
      }
      files := files[SidecarOf(key) := File(0, 0, now, Some(Meta(size, duration)))];
      out := Published;
    }

    /** `render_chunk`: write the part, probe it, commit it. */
    method RenderChunk(key: Key, part: File, probe: Probe, now: nat, steps: Steps) returns (out: Published)
      requires part.size > 0
      modifies this
      ensures files == Rendering(old(files), key, part, probe, now, steps)
      ensures out == if steps < 3 then Died else Published
    {
      if steps == 0 {
        return Died;
      }
      files := files[PartOf(key) := part];
      var duration := Duration(files[PartOf(key)], probe);
      out := CommitChunk(key, duration, probe, now, steps);
    }
  }

  // ---------- reconciling ----------

  predicate Less(a: Key, b: Key) {
    a.shard < b.shard || (a.shard == b.shard && a.stem < b.stem)
  }

  /** The keys that have a WAV or a sidecar. */
  function Stems(files: Files): set<Key> {
    set name | name in files && !name.PartOf? :: name.key
  }

  /** Where a file is moved to: under its own name, or under its name and its time if that is taken. */
  datatype Aside = Aside(name: Name, stamp: Option<nat>)

  function TargetOf(aside: map<Aside, File>, name: Name, f: File): Aside {
    if Aside(name, None) in aside then Aside(name, Some(f.mtime)) else Aside(name, None)
  }

  ghost predicate Sorted(keys: seq<Key>) {
    forall i, j :: 0 <= i < j < |keys| ==> Less(keys[i], keys[j])
  }

  /** The files that stay: parts, and complete chunks. */
  function Kept(files: Files, probe: Probe): Files {
    map name | name in files && (name.PartOf? || Reusable(files, name.key, probe)) :: files[name]
  }

  datatype Reconcile = Reconcile(reusable: seq<Key>, quarantined: seq<Name>)

  class Store {
    var files: Files
    var aside: map<Aside, File>

    /** `_quarantine` */
    method Quarantine(name: Name) returns (moved: bool)
      modifies this
      ensures moved <==> name in old(files)
      ensures files == old(files) - {name}
      ensures aside == if moved then old(aside)[TargetOf(old(aside), name, old(files)[name]) := old(files)[name]]
              else old(aside)
    {
      if name !in files {
        assert files - {name} == files;
        return false;
      }
      var target := if Aside(name, None) in aside then Aside(name, Some(files[name].mtime)) else Aside(name, None);
      aside := aside[target := files[name]];
      files := files - {name};
      moved := true;
    }

    /** `reconcile_chunks`: the keys in order; what is torn is moved aside. */
    method ReconcileChunks(probe: Probe) returns (out: Reconcile)
      modifies this
      ensures files == Kept(old(files), probe)
      ensures Sorted(out.reusable)
      ensures forall i, j :: 0 <= i < j < |out.reusable| ==>
                var a, b := out.reusable[i], out.reusable[j];
                a.shard < b.shard || (a.shard == b.shard && a.stem < b.stem)
      ensures forall key :: key in out.reusable <==> Reusable(old(files), key, probe)
      ensures forall name :: name in out.quarantined <==> name in old(files) && name !in files
      ensures forall name :: name in out.quarantined ==>
                TargetOf(old(aside), name, old(files)[name]) in aside
                && aside[TargetOf(old(aside), name, old(files)[name])] == old(files)[name]
      ensures forall a :: a in old(aside) ==>
                a in aside && (aside[a] == old(aside)[a] || Overwrites(old(files), old(aside), probe, a))
      ensures forall a :: a in aside && a !in old(aside) ==>
                a.name in out.quarantined && a == TargetOf(old(aside), a.name, old(files)[a.name])
      ensures out.quarantined == [] ==> files == old(files) && aside == old(aside)
    {
      hide Reusable, AsideSoFar, Sorted, FilesSoFar, KeysSoFar, Kept, TargetOf, Overwrites;
      out := Reconcile([], []);
      var rest := Stems(files);
      ghost var was, before := files, aside;
      NothingAside(was, before, probe);
      while rest != {}
        invariant FilesSoFar(was, probe, files, rest) && KeysSoFar(was, probe, out.reusable, rest)
        invariant forall name :: name in out.quarantined <==> name in was && name !in files
        invariant AsideSoFar(was, before, probe, files, aside)
      {
        LeastKey(rest);
        var key :| key in rest && forall other :: other in rest && other != key ==> Less(key, other);
        NextKey(was, probe, files, out.reusable, rest, key);
        StillOld(was, probe, files, rest);
        rest := rest - {key};
        if Reusable(files, key, probe) {
          out := out.(reusable := out.reusable + [key]);
        } else {
          AsideStep(was, before, probe, files, aside, WavOf(key));
          var wav := Quarantine(WavOf(key));
          AsideStep(was, before, probe, files, aside, SidecarOf(key));
          var sidecar := Quarantine(SidecarOf(key));
          var both := (if wav then [WavOf(key)] else []) + (if sidecar then [SidecarOf(key)] else []);
          assert forall name :: name in both <==> (wav && name == WavOf(key)) || (sidecar && name == SidecarOf(key));
          out := out.(quarantined := out.quarantined + both);
        }
      }
      AllDone(was, before, probe, files, aside, out.reusable);
      SortedMeans(out.reusable);
    }
  }

  /** What is still in place while the keys of `rest` are to be judged. */
  ghost predicate FilesSoFar(was: Files, probe: Probe, files: Files, rest: set<Key>) {
    && rest <= Stems(was)
    && (forall name :: name in files <==>
          name in was && (name.PartOf? || name.key in rest || Reusable(was, name.key, probe)))
    && (forall name :: name in files ==> name in was && files[name] == was[name])
  }

  ghost predicate KeysSoFar(was: Files, probe: Probe, keys: seq<Key>, rest: set<Key>) {
    && Sorted(keys)
    && (forall a, b :: a in keys && b in rest ==> Less(a, b))
    && (forall key :: key in keys <==> Reusable(was, key, probe) && key !in rest)
  }

  lemma StillOld(was: Files, probe: Probe, files: Files, rest: set<Key>)
    requires FilesSoFar(was, probe, files, rest)
    ensures forall name :: name in files ==> name in was
  {
    hide Reusable;
  }

  lemma NothingAside(was: Files, aside: map<Aside, File>, probe: Probe)
    ensures AsideSoFar(was, aside, probe, was, aside)
    ensures FilesSoFar(was, probe, was, Stems(was)) && KeysSoFar(was, probe, [], Stems(was))
  {
    assert forall name :: name in was && !name.PartOf? ==> name.key in Stems(was);
    assert forall key :: Reusable(was, key, probe) ==> WavOf(key) in was && key in Stems(was);
  }

  /** One key is judged: the pair stays, or both of its files go. */
  lemma NextKey(was: Files, probe: Probe, files: Files, keys: seq<Key>, rest: set<Key>, key: Key)
    requires FilesSoFar(was, probe, files, rest) && KeysSoFar(was, probe, keys, rest)
    requires key in rest && forall other :: other in rest && other != key ==> Less(key, other)
    ensures Reusable(files, key, probe) <==> Reusable(was, key, probe)
    ensures Reusable(files, key, probe) ==>
              FilesSoFar(was, probe, files, rest - {key}) && KeysSoFar(was, probe, keys + [key], rest - {key})
    ensures !Reusable(files, key, probe) ==>
              FilesSoFar(was, probe, files - {WavOf(key)} - {SidecarOf(key)}, rest - {key})
                  && KeysSoFar(was, probe, keys, rest - {key})
  {
    SameJudgement(was, files, key, probe);
    hide Reusable;
    assert forall other :: other in keys + [key] <==> other in keys || other == key;
    forall name: Name | name.key == key ensures name == PartOf(key) || name == WavOf(key) || name == SidecarOf(key) {
    }
  }

  lemma SortedMeans(keys: seq<Key>)
    ensures Sorted(keys) <==> forall i, j :: 0 <= i < j < |keys| ==>
              keys[i].shard < keys[j].shard || (keys[i].shard == keys[j].shard && keys[i].stem < keys[j].stem)
  {
  }

  lemma AllDone(was: Files, before: map<Aside, File>, probe: Probe, files: Files, aside: map<Aside, File>,
                keys: seq<Key>)
    requires FilesSoFar(was, probe, files, {}) && KeysSoFar(was, probe, keys, {})
             && AsideSoFar(was, before, probe, files, aside)
    ensures files == Kept(was, probe) && Sorted(keys) && (forall key :: key in keys <==> Reusable(was, key, probe))
    ensures forall name :: name in was && name !in files ==>
              TargetOf(before, name, was[name]) in aside && aside[TargetOf(before, name, was[name])] == was[name]
    ensures forall a :: a in before ==> a in aside && (aside[a] == before[a] || Overwrites(was, before, probe, a))
    ensures forall a :: a in aside && a !in before ==>
              a.name in was && a.name !in files && a == TargetOf(before, a.name, was[a.name])
    ensures (forall name :: name in was ==> name in files) ==> files == was && aside == before
  {
    hide TargetOf, Reusable, Sorted;
    if forall name :: name in was ==> name in files {
      assert forall a :: a in before ==> !Overwrites(was, before, probe, a);
    }
  }

  /** A file that was aside is overwritten only when its name, stamped with the time of a torn file of
      the same name, is the target of that torn file. */
  ghost predicate Overwrites(files: Files, aside: map<Aside, File>, probe: Probe, a: Aside) {
    && a.name in files && !a.name.PartOf? && !Reusable(files, a.name.key, probe)
    && TargetOf(aside, a.name, files[a.name]) == a
  }

  ghost predicate AsideSoFar(was: Files, before: map<Aside, File>, probe: Probe, files: Files,
                             aside: map<Aside, File>)
  {
    && (forall name :: name in was && name !in files ==> !name.PartOf? && !Reusable(was, name.key, probe))
    && (forall name :: name in was && name !in files ==>
          TargetOf(before, name, was[name]) in aside && aside[TargetOf(before, name, was[name])] == was[name])
    && (forall a :: a in before ==> a in aside && (aside[a] == before[a] || Overwrites(was, before, probe, a)))
    && (forall a :: a in aside && a !in before ==>
          a.name in was && a.name !in files && a == TargetOf(before, a.name, was[a.name]))
    && (forall name :: name in files ==> name in was && files[name] == was[name])
  }

  lemma AsideStep(was: Files, before: map<Aside, File>, probe: Probe, files: Files, aside: map<Aside, File>, name: Name)
    requires AsideSoFar(was, before, probe, files, aside)
    requires !name.PartOf? && !Reusable(was, name.key, probe)
    ensures AsideSoFar(was, before, probe, files - {name},
              if name in files then aside[TargetOf(aside, name, files[name]) := files[name]] else aside)
  {
    if name !in files {
      assert files - {name} == files;
    } else {
      var target := TargetOf(before, name, was[name]);
      assert TargetOf(aside, name, files[name]) == target && target.name == name;
      assert target in before ==> Overwrites(was, before, probe, target);
      hide Reusable, TargetOf, Overwrites;
      assert forall other :: other in was && other !in files ==> TargetOf(before, other, was[other]) != target by {
        TargetsDiffer(was, before, name);
      }
    }
  }

  lemma TargetsDiffer(was: Files, before: map<Aside, File>, name: Name)
    requires name in was
    ensures forall other :: other in was && other != name ==>
              TargetOf(before, other, was[other]) != TargetOf(before, name, was[name])
  {
  }

  lemma SameJudgement(was: Files, files: Files, key: Key, probe: Probe)
    requires WavOf(key) in files <==> WavOf(key) in was
    requires SidecarOf(key) in files <==> SidecarOf(key) in was
    requires forall name :: name in files ==> name in was && files[name] == was[name]
    ensures Reusable(files, key, probe) <==> Reusable(was, key, probe)
  {
  }

  lemma OneSmaller(keys: set<Key>, k: Key, m: Key, other: Key)
    requires k in keys && m in keys - {k} && other in keys && other != (if Less(k, m) then k else m)
    requires forall o :: o in keys - {k} && o != m ==> Less(m, o)
    ensures Less(if Less(k, m) then k else m, other)
  {
    assert other == k || other in keys - {k};
  }

  lemma {:induction false} LeastKey(keys: set<Key>)
    requires keys != {}
    ensures exists key :: key in keys && forall other :: other in keys && other != key ==> Less(key, other)
  {
    hide Less;
    var k :| k in keys;
    if exists other :: other in keys && other != k {
      var o :| o in keys && o != k;
      assert o in keys - {k};
      LeastKey(keys - {k});
      var m :| m in keys - {k} && forall other :: other in keys - {k} && other != m ==> Less(m, other);
      var least := if Less(k, m) then k else m;
      forall other | other in keys && other != least ensures Less(least, other) {
        OneSmaller(keys, k, m, other);
      }
      assert least in keys;
    }
  }

  /** After a reconcile only complete chunks are left, and they are the ones that were complete before. */
  lemma KeptIsComplete(files: Files, probe: Probe, key: Key)
    ensures Reusable(Kept(files, probe), key, probe) <==> Reusable(files, key, probe)
    ensures key in Stems(Kept(files, probe)) <==> Reusable(files, key, probe)
  {
    var kept := Kept(files, probe);
    if Reusable(files, key, probe) { assert WavOf(key) in kept && SidecarOf(key) in kept; }
  }

  /** A second reconcile moves nothing. */
  lemma ReconcileIsIdempotent(files: Files, probe: Probe)
    ensures Kept(Kept(files, probe), probe) == Kept(files, probe)
  {
    var kept := Kept(files, probe);
    forall name | name in kept ensures name in Kept(kept, probe) && Kept(kept, probe)[name] == kept[name] {
      if !name.PartOf? { KeptIsComplete(files, probe, name.key); }
    }
  }

  /** Two sorted lists of the same keys are the same list, so a second reconcile returns the same keys. */
  lemma {:induction false} SortedIsUnique(xs: seq<Key>, ys: seq<Key>)
    requires Sorted(xs) && Sorted(ys) && forall key :: key in xs <==> key in ys
    ensures xs == ys
  {
    if ys != [] { NonEmptyToo(ys, xs); }
    if xs != [] {
      NonEmptyToo(xs, ys);
      SameHead(xs, ys);
      forall key ensures key in xs[1..] <==> key in ys[1..] {
        TailMembers(xs, key);
        TailMembers(ys, key);
      }
      SortedIsUnique(xs[1..], ys[1..]);
      assert xs == [xs[0]] + xs[1..] && ys == [ys[0]] + ys[1..];
    }
  }

  lemma NonEmptyToo(xs: seq<Key>, ys: seq<Key>)
    requires xs != [] && forall key :: key in xs ==> key in ys
    ensures ys != []
  {
    assert xs[0] in ys;
  }

  lemma SameHead(xs: seq<Key>, ys: seq<Key>)
    requires Sorted(xs) && Sorted(ys) && xs != [] && ys != [] && forall key :: key in xs <==> key in ys
    ensures xs[0] == ys[0]
  {
    assert xs[0] in xs && ys[0] in ys;
    FirstIsLeast(xs, ys[0]);
    FirstIsLeast(ys, xs[0]);
  }

  lemma FirstIsLeast(xs: seq<Key>, key: Key)
    requires Sorted(xs) && key in xs
    ensures key == xs[0] || Less(xs[0], key)
  {
    var i :| 0 <= i < |xs| && xs[i] == key;
  }

  lemma TailMembers(xs: seq<Key>, key: Key)
    requires Sorted(xs) && xs != []
    ensures key in xs[1..] <==> key in xs && key != xs[0]
  {
    if key in xs[1..] {
      var i :| 0 <= i < |xs[1..]| && xs[1..][i] == key;
      assert Less(xs[0], xs[i + 1]);
    }
  }

  /** A second reconcile finds the same keys. */
  lemma SecondReconcileAgrees(files: Files, probe: Probe, first: seq<Key>, second: seq<Key>)
    requires Sorted(first) && forall key :: key in first <==> Reusable(files, key, probe)
    requires Sorted(second) && forall key :: key in second <==> Reusable(Kept(files, probe), key, probe)
    ensures first == second
  {
    hide Reusable, Kept, Sorted;
    forall key ensures key in first <==> key in second {
      KeptIsComplete(files, probe, key);
    }
    SortedIsUnique(first, second);
  }

  // ---------- the index ----------

  datatype IndexRow = IndexRow(project: nat, size: nat, duration: real)

  /** The row of a key, unless its files went away since the scan. */
  function RowOf(files: Files, key: Key, project: nat): Option<IndexRow> {
    if SidecarOf(key) in files && files[SidecarOf(key)].meta.Some? && WavOf(key) in files then
      Some(IndexRow(project, files[SidecarOf(key)].meta.value.size, files[SidecarOf(key)].meta.value.duration))
    else None
  }

  /** `write_chunk_index`: the rows of the project are replaced by those of `keys`. */
  method WriteChunkIndex(index: map<Key, IndexRow>, files: Files, project: nat, keys: seq<Key>)
    returns (out: map<Key, IndexRow>)
    requires forall key :: key in index && key in keys ==> index[key].project == project
    ensures forall key :: key in out && out[key].project == project <==> key in keys && RowOf(files, key, project).Some?
    ensures forall key :: key in keys && RowOf(files, key, project).Some? ==>
              out[key] == RowOf(files, key, project).value
    ensures forall key :: key in index && index[key].project != project ==> key in out && out[key] == index[key]
  {
    out := map key | key in index && index[key].project != project :: index[key];
    var i := 0;
    while i < |keys|
      invariant 0 <= i <= |keys|
      invariant forall key :: key in out && out[key].project == project <==>
                  key in keys[..i] && RowOf(files, key, project).Some?
      invariant forall key :: key in keys[..i] && RowOf(files, key, project).Some? ==>
                  key in out && out[key] == RowOf(files, key, project).value
      invariant forall key :: key in index && index[key].project != project ==> key in out && out[key] == index[key]
    {
      var row := RowOf(files, keys[i], project);
      assert keys[..i + 1] == keys[..i] + [keys[i]];
      assert keys[i] in keys;
      if row.Some? {
        out := out[keys[i] := row.value];
      }
      i := i + 1;
    }
    assert keys[..i] == keys;
  }

  /** After a reconcile the index has a row for each key that reconciled, and the row tells the size and the
      duration of its sound file. */
  lemma IndexMatchesDisk(files: Files, probe: Probe, key: Key, project: nat)
    requires Reusable(files, key, probe)
    ensures WavOf(key) in files
    ensures var wav := files[WavOf(key)];
            RowOf(Kept(files, probe), key, project) == Some(IndexRow(project, wav.size, probe(wav.size, wav.body)))
  {
    KeptIsComplete(files, probe, key);
  }
}
