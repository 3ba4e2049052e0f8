/** A dump restores: writing an exit dump into an emptied tree gives back exactly the dumped files. */
module RoundTrip {
  import opened Lists
  import opened Options
  import opened Paths
  import opened Tree
  import opened Conflicts
  import opened V1Plan
  import opened Restore
  import opened RestoreSafety
  import opened ZipTime
  import opened Dump
  import Activate

  /** What a dump packs and how: its files, the manifest that labels them when there is one, which
      contents it deflates, and the mtimes the calendar refuses. */
  datatype Packing = Packing(files: seq<Shipped>, manifest: Option<ZipEntry>, deflate: Bytes -> bool,
                             refused: real -> bool)

  /** The zip entry of one dumped file; its contents are stored or deflated, whichever suits them. */
  function EntryFor(k: Packing, s: Shipped): ZipEntry {
    var how := if k.deflate(s.file.data) then ZIP_DEFLATED else ZIP_STORED;
    ZipEntry(Info(Join(s.path), false, how, true, |s.file.data|),
             ZipStamp(s.file.mtime, k.refused), Some(s.file.data))
  }

  function Entries(k: Packing): seq<ZipEntry> {
    seq(|k.files|, i requires 0 <= i < |k.files| => EntryFor(k, k.files[i]))
  }

  function ZipOf(k: Packing): seq<ZipEntry> { Entries(k) + if k.manifest.Some? then [k.manifest.value] else [] }

  function NamesOf(files: seq<Shipped>): seq<string> {
    seq(|files|, i requires 0 <= i < |files| => Join(files[i].path))
  }

  /** How subtrees are declared: plain paths, none inside or equal to another or an excluded one,
      none named like scratch, and none under the import prefix. */
  ghost predicate SoundSubtrees(r: Rules) {
    && (forall s :: s in r.subtrees ==>
          PlainSubtree(s) && InnerPath(Parts(s)) && !IsScratch(r.env, Parts(s)) && Parts(s)[0] != ".import")
    && (forall i, j :: 0 <= i < |r.subtrees| && 0 <= j < |r.subtrees| && i != j ==>
          !(Parts(r.subtrees[i]) <= Parts(r.subtrees[j])))
    && (forall s, e :: s in r.subtrees && e in r.excluded ==>
          PlainSubtree(e) && !(Parts(s) <= Parts(e)) && !(Parts(e) <= Parts(s)))
  }

  /** A dump of a tree whose files all read back as they are. */
  ghost predicate StableDump(t: Tree, env: Env, walk: seq<Path>, subtrees: seq<string>, a: Ask, d: Disk) {
    && WellFormed(t)
    && NoRepeats(walk) && (forall p :: p in walk <==> p in t.files)
    && (forall p :: p in walk ==> InnerPath(p))
    && a.candidates == IterSaveFiles(env, walk, subtrees)
    && (forall p :: p in t.files ==> d.stat(p).Some? && d.read(p) == Some(t.files[p]))
  }

  // ---- The dumped files ----

  lemma AppendNoRepeats<T(!new)>(a: seq<T>, b: seq<T>)
    requires NoRepeats(a) && NoRepeats(b) && forall x :: x in a ==> x !in b
    ensures NoRepeats(a + b)
  {
    var c := a + b;
    forall i, j | 0 <= i < j < |c| ensures c[i] != c[j] {
      if i < |a| <= j {
        assert a[i] in a && b[j - |a|] in b;
      }
    }
  }

  lemma {:induction false} IterNoRepeats(env: Env, walk: seq<Path>, subtrees: seq<string>)
    requires NoRepeats(walk)
    requires forall i, j :: 0 <= i < |subtrees| && 0 <= j < |subtrees| && i != j ==>
              !(Parts(subtrees[i]) <= Parts(subtrees[j]))
    ensures NoRepeats(IterSaveFiles(env, walk, subtrees))
  {
    if subtrees == [] {
    } else {
      var sub := Parts(subtrees[0]);
      var first := Where(walk, ShipsTest(env, sub));
      var rest := IterSaveFiles(env, walk, subtrees[1..]);
      WhereNoRepeats(walk, ShipsTest(env, sub));
      WhereHolds(walk, ShipsTest(env, sub));
      IterNoRepeats(env, walk, subtrees[1..]);
      forall p | p in first ensures p !in rest {
        InIter(env, walk, subtrees[1..], p);
        forall i | 0 <= i < |subtrees[1..]| ensures !Ships(env, Parts(subtrees[1..][i]), p) {
          assert subtrees[1..][i] == subtrees[i + 1];
          TwoPrefixes(sub, Parts(subtrees[i + 1]), p);
          TwoPrefixes(Parts(subtrees[i + 1]), sub, p);
        }
      }
      AppendNoRepeats(first, rest);
    }
  }

  lemma {:induction false} ShipAllNoRepeats(d: Disk, ps: seq<Path>)
    requires NoRepeats(ps)
    ensures forall i, j :: 0 <= i < j < |ShipAll(d, ps)| ==> ShipAll(d, ps)[i].path != ShipAll(d, ps)[j].path
  {
    if ps == [] {
    } else {
      var n := |ps| - 1;
      ShipAllNoRepeats(d, ps[..n]);
      InShipAll(d, ps[..n]);
      forall i | 0 <= i < |ShipAll(d, ps[..n])| ensures ShipAll(d, ps[..n])[i].path != ps[n] {
        assert ShipAll(d, ps[..n])[i] in ShipAll(d, ps[..n]);
      }
    }
  }

  /** A dumped file: where it lies, and that it can be written back. */
  ghost predicate Dumpable(t: Tree, r: Rules, s: Shipped) {
    && s.path in t.files && t.files[s.path] == s.file
    && InnerPath(s.path)
    && exists i :: 0 <= i < |r.subtrees| && Ships(r.env, Parts(r.subtrees[i]), s.path)
  }

  lemma DumpedFiles(t: Tree, r: Rules, walk: seq<Path>, a: Ask, d: Disk)
    requires StableDump(t, r.env, walk, r.subtrees, a, d) && SoundSubtrees(r)
    ensures var files := DumpReport(a, d).files;
            && (forall s :: s in files ==> Dumpable(t, r, s))
            && (forall i, j :: 0 <= i < j < |files| ==> files[i].path != files[j].path)
  {
    var files := DumpReport(a, d).files;
    forall s | s in files ensures Dumpable(t, r, s) {
      TruthfulReport(a, d);
      InIter(r.env, walk, r.subtrees, s.path);
    }
    DumpedOnce(r, walk, a, d);
  }

  lemma DumpedOnce(r: Rules, walk: seq<Path>, a: Ask, d: Disk)
    requires NoRepeats(walk) && SoundSubtrees(r) && a.candidates == IterSaveFiles(r.env, walk, r.subtrees)
    ensures var files := DumpReport(a, d).files;
            forall i, j :: 0 <= i < j < |files| ==> files[i].path != files[j].path
  {
    IterNoRepeats(r.env, walk, r.subtrees);
    WhereNoRepeats(a.candidates, ChangedTest(a, d));
    ShipAllNoRepeats(d, Changed(a, d));
  }

  // ---- The names in the zip ----

  /** A dumped file's name reads back as its path, inside its subtree and outside the special names. */
  lemma DumpedName(t: Tree, r: Rules, s: Shipped)
    requires SoundSubtrees(r) && Dumpable(t, r, s)
    ensures s.path != [] && Parts(Join(s.path)) == s.path
    ensures !Absolute(Join(s.path)) && AsPosix(Join(s.path)) == Join(s.path)
    ensures IsV1Name(Join(s.path))
    ensures Join(s.path) !in r.subtrees && UnderSubtrees(Join(s.path), r.subtrees)
    ensures !IsScratch(r.env, s.path)
  {
    var p := s.path;
    var i :| 0 <= i < |r.subtrees| && Ships(r.env, Parts(r.subtrees[i]), p);
    var sub := r.subtrees[i];
    assert sub in r.subtrees;
    PartsOfJoin(p);
    BelowIsPrefix(Parts(sub), p);
    JoinHead(p);
    JoinTail(p);
    JoinSlash(p);
    assert p[0] == Parts(sub)[0];
    if IMPORT_PREFIX <= Join(p) { ImportHead(p); }
    forall j | 0 <= j < |r.subtrees| ensures Join(p) != r.subtrees[j] {
      assert Parts(r.subtrees[j]) != p;
    }
    ScratchSplits(r.env, Parts(sub), p);
  }

  /** Nor is it an excluded subtree, or in one. */
  lemma DumpedNotExcluded(t: Tree, r: Rules, s: Shipped)
    requires SoundSubtrees(r) && Dumpable(t, r, s)
    ensures Join(s.path) !in r.excluded && !UnderSubtrees(Join(s.path), r.excluded)
  {
    var p := s.path;
    var i :| 0 <= i < |r.subtrees| && Ships(r.env, Parts(r.subtrees[i]), p);
    var sub := Parts(r.subtrees[i]);
    assert r.subtrees[i] in r.subtrees;
    PartsOfJoin(p);
    forall j | 0 <= j < |r.excluded| ensures Join(p) != r.excluded[j] && !(r.excluded[j] + [SEP] <= Join(p)) {
      var e := r.excluded[j];
      assert e in r.excluded;
      BelowIsPrefix(Parts(e), p);
      TwoPrefixes(Parts(e), sub, p);
    }
  }

  lemma JoinHead(p: Path)
    requires p != [] && PlainPath(p)
    ensures Join(p) != "" && Join(p)[0] != SEP
  {
    assert p[0] in p && p[0][0] in p[0];
  }

  /** A path of two components or more cannot be named like the manifest. */
  lemma JoinSlash(p: Path)
    requires |p| > 1 && PlainPath(p)
    ensures Join(p) != MANIFEST_NAME
  {
    assert Join(p)[|p[0]|] == SEP;
    assert SEP in Join(p);
    NoSlashInManifest();
  }

  lemma NoSlashInManifest()
    ensures SEP !in MANIFEST_NAME
  {}

  /** Only a path below `.import` is named like an import. */
  lemma ImportHead(p: Path)
    requires p != [] && PlainPath(p) && IMPORT_PREFIX <= Join(p)
    ensures p[0] == ".import"
  {
    var dot: Path := [".import"];
    var rest := Join(p)[|IMPORT_PREFIX|..];
    assert SEP !in ".import";
    assert IMPORT_PREFIX == ".import" + [SEP];
    SplitAppend(".import", rest);
    assert Join(p) == ".import" + [SEP] + rest;
    SplitJoin(p);
  }

  lemma {:induction false} JoinTail(p: Path)
    requires p != [] && PlainPath(p)
    ensures Join(p) != "" && Join(p)[|Join(p)| - 1] != SEP
    decreases |p|
  {
    if |p| == 1 {
      assert p[0] in p && p[0][|p[0]| - 1] in p[0];
    } else {
      JoinTail(p[1..]);
    }
  }

  /** A path is scratch when the part above or the part below is. */
  lemma ScratchSplits(env: Env, sub: Path, p: Path)
    requires StrictPrefix(sub, p) && !IsScratch(env, sub) && !IsScratch(env, p[|sub|..])
    ensures !IsScratch(env, p)
  {
    var rel := p[|sub|..];
    assert rel[|rel| - 1] == p[|p| - 1];
    forall i | 0 <= i < |p| ensures !env.scratchName(p[i]) {
      if i < |sub| { assert p[i] == sub[i]; } else { assert p[i] == rel[i - |sub|]; }
    }
  }

  lemma {:induction false} V1InfosAll(zip: seq<ZipEntry>, manifest: Option<ZipEntry>)
    requires forall e :: e in zip ==> IsV1Name(e.info.name)
    requires manifest.Some? ==> manifest.value.info.name == MANIFEST_NAME
    ensures V1Infos(zip + if manifest.Some? then [manifest.value] else [])
         == seq(|zip|, i requires 0 <= i < |zip| => zip[i].info)
  {
    var tail := if manifest.Some? then [manifest.value] else [];
    if zip == [] {
      assert zip + tail == tail;
    } else {
      assert zip[0] in zip;
      V1InfosAll(zip[1..], manifest);
      assert (zip + tail)[1..] == zip[1..] + tail;
      assert V1Infos(zip + tail) == [zip[0].info] + V1Infos(zip[1..] + tail);
    }
  }

  // ---- Planning the dump's own restore ----

  /** The dump fits the disk it is restored to: no surviving directory links out of the root, every
      staged name fits, and every directory takes a new file. */
  ghost predicate Accommodates(r: Rules, files: seq<Shipped>) {
    && (forall s :: s in r.subtrees ==> !r.env.escapes(s))
    && (forall f :: f in files ==> !r.env.tooLong(f.path) && r.env.locked(f.path).None?)
  }

  ghost predicate DumpedWell(t: Tree, r: Rules, k: Packing) {
    && WellFormed(t) && SoundSubtrees(r) && Accommodates(r, k.files)
    && (forall s :: s in k.files ==> Dumpable(t, r, s))
    && (forall i, j :: 0 <= i < j < |k.files| ==> k.files[i].path != k.files[j].path)
    && (k.manifest.Some? ==> k.manifest.value.info.name == MANIFEST_NAME)
  }

  /** Each dumped member passes every check made on it alone. */
  lemma DumpedKeptAlone(t: Tree, r: Rules, k: Packing, s: Shipped)
    requires SoundSubtrees(r) && Dumpable(t, r, s)
    requires forall sub :: sub in r.subtrees ==> !r.env.escapes(sub)
    ensures Alone(r, EntryFor(k, s).info).Kept?
  {
    DumpedName(t, r, s);
    DumpedNotExcluded(t, r, s);
    assert MemberProblem(EntryFor(k, s).info, true).None?;
  }

  /** What the planner sees of the dump. */
  function ViewOf(files: seq<Shipped>): seq<Item> {
    seq(|files|, i requires 0 <= i < |files| => Item(Join(files[i].path), files[i].path, Kept))
  }

  /** The planner sees the dump's files, all kept so far, and nothing else. */
  lemma DumpedView(t: Tree, r: Rules, k: Packing)
    requires DumpedWell(t, r, k)
    ensures View(r, V1Infos(ZipOf(k))) == ViewOf(k.files)
  {
    var entries := Entries(k);
    forall i | 0 <= i < |k.files|
      ensures IsV1Name(entries[i].info.name) && Parts(entries[i].info.name) == k.files[i].path
      ensures Alone(r, entries[i].info).Kept?
    {
      assert k.files[i] in k.files;
      DumpedName(t, r, k.files[i]);
      DumpedKeptAlone(t, r, k, k.files[i]);
    }
    V1InfosAll(entries, k.manifest);
  }

  /** Seen against each other and the disk, the dump's members are all kept. */
  lemma DumpedKept(t: Tree, r: Rules, k: Packing, i: nat)
    requires DumpedWell(t, r, k) && i < |k.files|
    ensures FateOf(r.env, ViewOf(k.files), i) == Kept
  {
    var v := ViewOf(k.files);
    assert k.files[i] in k.files;
    forall j ensures !SamePath(v, i, j) && !IsDirectoryOf(v, i, j) {
      if 0 <= j < |v| {
        assert k.files[j] in k.files;
      }
    }
  }

  lemma {:induction false} AllNamesKept(env: Env, v: seq<Item>, n: nat)
    requires n <= |v| && forall i :: 0 <= i < n ==> FateOf(env, v, i) == Kept
    ensures KeptNames(env, v, n) == seq(n, i requires 0 <= i < n => v[i].name)
  {
    if n == 0 {
    } else {
      AllNamesKept(env, v, n - 1);
    }
  }

  lemma {:induction false} NoneDropped(v: seq<Item>, n: nat)
    requires n <= |v| && forall i :: 0 <= i < n ==> v[i].alone.Kept?
    ensures DroppedCount(v, n) == 0
  {
    if n == 0 {
    } else {
      NoneDropped(v, n - 1);
    }
  }

  /** The plan keeps the whole archive: it refuses and drops nothing. */
  ghost predicate KeepsAll(env: Env, v: seq<Item>, names: seq<string>) {
    Activate.NoneRefused(env, v) && KeptNames(env, v, |v|) == names && DroppedCount(v, |v|) == 0
  }

  /** The plan for a dump's own archive keeps every member. */
  lemma DumpPlanned(t: Tree, r: Rules, k: Packing)
    requires DumpedWell(t, r, k)
    ensures KeepsAll(r.env, View(r, V1Infos(ZipOf(k))), NamesOf(k.files))
  {
    var v := ViewOf(k.files);
    DumpedView(t, r, k);
    forall i | 0 <= i < |v| ensures FateOf(r.env, v, i) == Kept { DumpedKept(t, r, k, i); }
    KeptViewKeepsAll(r.env, v, NamesOf(k.files));
  }

  lemma KeptViewKeepsAll(env: Env, v: seq<Item>, names: seq<string>)
    requires |names| == |v| && forall i :: 0 <= i < |v| ==> v[i].name == names[i] && v[i].alone.Kept?
    requires forall i :: 0 <= i < |v| ==> FateOf(env, v, i) == Kept
    ensures KeepsAll(env, v, names)
  {
    AllNamesKept(env, v, |v|);
    NoneDropped(v, |v|);
  }

  lemma {:induction false} FindAt(zip: seq<ZipEntry>, i: nat)
    requires i < |zip| && forall j :: 0 <= j < |zip| && j != i ==> zip[j].info.name != zip[i].info.name
    ensures Find(zip, zip[i].info.name) == Some(zip[i])
  {
    if i == |zip| - 1 {
    } else {
      FindAt(zip[..|zip| - 1], i);
    }
  }

  /** Looking a dumped file's name up in the zip finds its own bytes. */
  lemma DumpedReads(t: Tree, r: Rules, k: Packing, i: nat)
    requires DumpedWell(t, r, k) && i < |k.files|
    ensures Find(ZipOf(k), Join(k.files[i].path)) == Some(EntryFor(k, k.files[i]))
  {
    var zip := ZipOf(k);
    assert k.files[i] in k.files;
    DumpedName(t, r, k.files[i]);
    forall j | 0 <= j < |zip| && j != i ensures zip[j].info.name != zip[i].info.name {
      if j < |k.files| {
        assert k.files[j] in k.files;
        DumpedName(t, r, k.files[j]);
      }
    }
    FindAt(zip, i);
  }

  // ---- The dump is accepted ----

  lemma {:induction false} NoImportNames(zip: seq<ZipEntry>)
    requires forall i :: 0 <= i < |zip| ==> IsV1Name(zip[i].info.name) || zip[i].info.name == MANIFEST_NAME
    ensures Activate.ImportNames(zip) == []
  {
    if zip == [] {
    } else {
      NoImportNames(zip[1..]);
    }
  }

  lemma DumpHasNoImports(t: Tree, r: Rules, k: Packing)
    requires DumpedWell(t, r, k)
    ensures Activate.ImportNames(ZipOf(k)) == []
  {
    forall i | 0 <= i < |ZipOf(k)| ensures IsV1Name(ZipOf(k)[i].info.name) || ZipOf(k)[i].info.name == MANIFEST_NAME {
      if i < |k.files| {
        assert k.files[i] in k.files;
        DumpedName(t, r, k.files[i]);
      }
    }
    NoImportNames(ZipOf(k));
  }

  lemma DumpedVerifies(t: Tree, r: Rules, k: Packing, i: nat)
    requires DumpedWell(t, r, k) && i < |k.files|
    ensures Activate.Verifies(ZipOf(k), Join(k.files[i].path)) && !IsDirName(Join(k.files[i].path))
  {
    assert k.files[i] in k.files;
    DumpedName(t, r, k.files[i]);
    DumpedReads(t, r, k, i);
  }

  /** Every dumped member passes the read check. */
  lemma DumpVerifies(t: Tree, r: Rules, k: Packing)
    requires DumpedWell(t, r, k)
    ensures forall n :: n in NamesOf(k.files) ==> Activate.Verifies(ZipOf(k), n) && !IsDirName(n)
  {
    forall n | n in NamesOf(k.files) ensures Activate.Verifies(ZipOf(k), n) && !IsDirName(n) {
      var i :| 0 <= i < |k.files| && NamesOf(k.files)[i] == n;
      DumpedVerifies(t, r, k, i);
    }
  }

  lemma DumpWithinBudget(t: Tree, r: Rules, k: Packing, before: string -> nat)
    requires DumpedWell(t, r, k)
    requires k.manifest.Some? && k.manifest.value.data.Some? ==>
              |k.manifest.value.data.value| <= k.manifest.value.info.size
    ensures Activate.Yields(ZipOf(k), before, NamesOf(k.files)) <= Activate.TotalSize(Activate.Members(ZipOf(k)))
  {
    DumpVerifies(t, r, k);
    Activate.BudgetSuffices(ZipOf(k), before, NamesOf(k.files));
  }

  lemma DumpAllRead(t: Tree, k: Packing, x: Activate.Launch)
    requires DumpedWell(t, x.rules, k) && x.zip == ZipOf(k)
    requires k.manifest.Some? && k.manifest.value.data.Some? ==>
              |k.manifest.value.data.value| <= k.manifest.value.info.size
    requires Activate.ReadArchiveError(x.zip, x.maxBytes, x.maxEntries).None?
    ensures Activate.AllRead(x, NamesOf(k.files))
  {
    DumpWithinBudget(t, x.rules, k, x.before);
    DumpVerifies(t, x.rules, k);
  }

  /** A dump within the restore limits is accepted: `read_archive`, the plan and the read check find
      nothing wrong with it. */
  lemma DumpAccepted(t: Tree, k: Packing, x: Activate.Launch)
    requires DumpedWell(t, x.rules, k) && x.zip == ZipOf(k)
    requires k.manifest.Some? && k.manifest.value.data.Some? ==>
              |k.manifest.value.data.value| <= k.manifest.value.info.size
    requires Activate.ReadArchiveError(x.zip, x.maxBytes, x.maxEntries).None?
    ensures Activate.Acceptable(x)
  {
    var names := NamesOf(k.files);
    DumpPlanned(t, x.rules, k);
    DumpHasNoImports(t, x.rules, k);
    DumpAllRead(t, k, x);
    Activate.SettledIsNoneRefused(x.rules, V1Infos(x.zip));
    assert names + [] == names;
  }

  // ---- And restores ----

  predicate HoldsData(files: map<Path, File>, p: Path, data: Bytes) { p in files && files[p].data == data }

  /** `y` restores the dump, with nothing imported beside it. */
  ghost predicate Restores(y: Restoration, r: Rules, k: Packing) {
    y.zip == ZipOf(k) && y.rules == r && y.imports == [] && y.plan.names == NamesOf(k.files)
  }

  /** The one write of one dumped file. */
  lemma RestoredStep(t: Tree, r: Rules, k: Packing, y: Restoration, n: nat)
    requires DumpedWell(t, r, k) && ApprovedRestore(y) && Restores(y, r, k)
    ensures |Writes(y)| == |k.files|
    ensures n < |k.files| ==> Writes(y)[n].path == k.files[n].path && Writes(y)[n].data == Some(k.files[n].file.data)
  {
    StepCount(y);
    if n < |k.files| {
      assert k.files[n] in k.files;
      DumpedName(t, r, k.files[n]);
      DumpedReads(t, r, k, n);
      V1Written(y, n);
    }
  }

  /** The writes are the dumped files, one for one. */
  ghost predicate Rewrites(ws: seq<Write>, files: seq<Shipped>) {
    && |ws| == |files|
    && forall n :: 0 <= n < |ws| ==> ws[n].path == files[n].path && ws[n].data == Some(files[n].file.data)
  }

  lemma DumpRewritten(t: Tree, r: Rules, k: Packing, y: Restoration)
    requires DumpedWell(t, r, k) && ApprovedRestore(y) && Restores(y, r, k)
    ensures Rewrites(Writes(y), k.files)
  {
    RestoredStep(t, r, k, y, 0);
    forall n | 0 <= n < |k.files|
      ensures Writes(y)[n].path == k.files[n].path && Writes(y)[n].data == Some(k.files[n].file.data)
    {
      RestoredStep(t, r, k, y, n);
    }
  }

  ghost predicate EachOnce(files: seq<Shipped>) {
    forall i, j :: 0 <= i < j < |files| ==> files[i].path != files[j].path
  }

  lemma PlannedData(ws: seq<Write>, files: seq<Shipped>, n: nat)
    requires Rewrites(ws, files) && EachOnce(files) && n < |files|
    ensures HoldsData(Planned(ws), files[n].path, files[n].file.data)
  {
    PlannedAt(ws, n);
  }

  /** The files hold exactly the dumped ones, byte for byte. */
  ghost predicate HoldsDump(files: map<Path, File>, dumped: seq<Shipped>) {
    && (forall p :: p in files ==> exists s :: s in dumped && s.path == p)
    && (forall s :: s in dumped ==> HoldsData(files, s.path, s.file.data))
  }

  lemma PlannedDump(ws: seq<Write>, dumped: seq<Shipped>)
    requires Rewrites(ws, dumped) && EachOnce(dumped)
    ensures HoldsDump(Planned(ws), dumped)
  {
    forall s | s in dumped ensures HoldsData(Planned(ws), s.path, s.file.data) {
      var n :| 0 <= n < |dumped| && dumped[n] == s;
      PlannedData(ws, dumped, n);
    }
    PlannedKeys(ws);
    forall p | p in Planned(ws) ensures exists s :: s in dumped && s.path == p {
      var n :| 0 <= n < |ws| && ws[n].path == p;
      assert dumped[n] in dumped;
    }
  }

  /** The tree holds what it held and exactly the dumped files, byte for byte. */
  ghost predicate Regained(files: map<Path, File>, emptied: Tree, dumped: seq<Shipped>) {
    && (forall p :: p in files <==> p in emptied.files || exists s :: s in dumped && s.path == p)
    && (forall s :: s in dumped ==> HoldsData(files, s.path, s.file.data))
    && (forall p :: p in emptied.files ==> p in files && files[p] == emptied.files[p])
  }

  lemma AddingRegains(added: map<Path, File>, dumped: seq<Shipped>, emptied: Tree)
    requires HoldsDump(added, dumped) && forall p :: p in added ==> p !in emptied.files
    ensures Regained(emptied.files + added, emptied, dumped)
  {
    forall s | s in dumped ensures HoldsData(emptied.files + added, s.path, s.file.data) {
      assert HoldsData(added, s.path, s.file.data);
    }
  }

  /** Everything a dump's own restore takes for granted: reads are stable, subtrees are sound, the
      disk takes the files back, and the archive is within the restore limits. */
  ghost predicate RoundTrips(t: Tree, walk: seq<Path>, a: Ask, d: Disk, k: Packing, x: Activate.Launch) {
    && SoundSubtrees(x.rules) && StableDump(t, x.rules.env, walk, x.rules.subtrees, a, d)
    && k.files == DumpReport(a, d).files && Accommodates(x.rules, k.files) && x.zip == ZipOf(k)
    && (k.manifest.Some? ==> k.manifest.value.info.name == MANIFEST_NAME)
    && (k.manifest.Some? && k.manifest.value.data.Some? ==> |k.manifest.value.data.value| <= k.manifest.value.info.size)
    && Activate.ReadArchiveError(x.zip, x.maxBytes, x.maxEntries).None?
  }

  lemma DumpIsWell(t: Tree, walk: seq<Path>, a: Ask, d: Disk, k: Packing, x: Activate.Launch)
    requires RoundTrips(t, walk, a, d, k, x)
    ensures DumpedWell(t, x.rules, k) && forall s :: s in k.files ==> s.path in t.files && t.files[s.path] == s.file
  {
    DumpedFiles(t, x.rules, walk, a, d);
  }

  lemma ChangedIsDumped(t: Tree, walk: seq<Path>, a: Ask, d: Disk, k: Packing, x: Activate.Launch, p: Path)
    requires RoundTrips(t, walk, a, d, k, x)
    requires p in a.candidates && IsChanged(a, d, p) && !TooMuch(a, d)
    ensures p in t.files && Shipped(p, t.files[p]) in k.files
  {
    InIter(x.rules.env, walk, x.rules.subtrees, p);
    ChangedIsShipped(a, d, p);
  }

  /** Dump, then restore, is the identity on what was dumped: an archive within the limits is
      accepted, every member is written, nothing is skipped or fails, and the emptied tree holds
      afterwards what it held plus exactly the dumped files, byte for byte: within the dump's own limit,
      every file that changed. */
  method DumpThenRestore(t: Tree, walk: seq<Path>, a: Ask, d: Disk, k: Packing, x: Activate.Launch,
                         emptied: Tree, dirTime: Path -> real, when: real)
    returns (refused: bool, tree: Tree, result: Result)
    requires RoundTrips(t, walk, a, d, k, x) && Activate.SoundEmulator(x)
    requires WellFormed(emptied) && Cleared(emptied, x.rules.subtrees)
    ensures !refused && result == Result(|k.files|, 0, 0, 0, 0)
    ensures Regained(tree.files, emptied, k.files)
    ensures forall s :: s in k.files ==> s.path in t.files && t.files[s.path] == s.file
    ensures !TooMuch(a, d) ==>
              forall p :: p in a.candidates && IsChanged(a, d, p) ==>
                p in t.files && HoldsData(tree.files, p, t.files[p].data)
  {
    forall p | p in a.candidates && IsChanged(a, d, p) && !TooMuch(a, d)
      ensures p in t.files && Shipped(p, t.files[p]) in k.files
    {
      ChangedIsDumped(t, walk, a, d, k, x, p);
    }
    DumpIsWell(t, walk, a, d, k, x);
    DumpAccepted(t, k, x);
    DumpPlanned(t, x.rules, k);
    DumpHasNoImports(t, x.rules, k);
    ghost var y;
    refused, tree, result, y := Activate.RestoreArchive(x, emptied, emptied, dirTime, when);
    assert y.imports == [];
    DumpRewritten(t, x.rules, k, y);
    PlannedDump(Writes(y), k.files);
    AddingRegains(Planned(Writes(y)), k.files, emptied);
  }
}
