/** No failure after the clear: an approved plan writes into the emptied subtrees without a single collision. */
module RestoreSafety {
  import opened Options
  import opened Paths
  import opened Tree
  import opened Conflicts
  import opened V1Plan
  import opened Restore

  // ---- The zip's members ----

  predicate IsDirName(name: string) { name != "" && name[|name| - 1] == SEP }

  predicate IsImportName(name: string) { IMPORT_PREFIX <= name }

  /** The members `read_archive` treats as an ordinary dump. */
  predicate IsV1Name(name: string) { !IsDirName(name) && name != MANIFEST_NAME && !IsImportName(name) }

  function V1Infos(zip: seq<ZipEntry>): seq<Info> {
    if zip == [] then []
    else (if IsV1Name(zip[0].info.name) then [zip[0].info] else []) + V1Infos(zip[1..])
  }

  lemma {:induction false} V1InfoIsV1(zip: seq<ZipEntry>, i: nat)
    requires i < |V1Infos(zip)|
    ensures IsV1Name(V1Infos(zip)[i].name)
    ensures exists e :: e in zip && e.info == V1Infos(zip)[i]
  {
    var here := if IsV1Name(zip[0].info.name) then 1 else 0;
    if i < here {
      assert zip[0] in zip;
    } else {
      V1InfoIsV1(zip[1..], i - here);
      var e :| e in zip[1..] && e.info == V1Infos(zip[1..])[i - here];
      assert e in zip;
    }
  }

  // ---- Where files may go ----

  /** A subtree name as emulators declare them: a plain relative path. */
  predicate PlainSubtree(s: string) { Parts(s) != [] && Join(Parts(s)) == s }

  lemma UnderMore(rel: string, some: seq<string>, more: seq<string>)
    requires forall s :: s in some ==> s in more
    ensures UnderSubtrees(rel, some) ==> UnderSubtrees(rel, more)
  {
    if UnderSubtrees(rel, some) {
      var k :| 0 <= k < |some| && some[k] + [SEP] <= rel;
      assert some[k] in more;
      var j :| 0 <= j < |more| && more[j] == some[k];
      assert more[j] + [SEP] <= rel;
    }
  }

  /** The clear left every subtree empty, and no file stands at or above one. */
  ghost predicate Cleared(t: Tree, subtrees: seq<string>) {
    forall s :: s in subtrees ==>
      && (forall p :: p in t.files || p in t.dirs ==> !StrictPrefix(Parts(s), p))
      && (forall p :: p in t.files ==> !(p <= Parts(s)))
  }

  lemma ClearedIsFree(t: Tree, subtrees: seq<string>, p: Path)
    requires Cleared(t, subtrees) && forall s :: s in subtrees ==> PlainSubtree(s)
    requires p != [] && PlainPath(p) && UnderSubtrees(Join(p), subtrees)
    ensures Free(t, p)
  {
    var k :| 0 <= k < |subtrees| && subtrees[k] + [SEP] <= Join(p);
    var s := subtrees[k];
    assert s in subtrees;
    BelowIsPrefix(Parts(s), p);
    forall q | q in t.files ensures !StrictPrefix(q, p) {
      TwoPrefixes(q, Parts(s), p);
    }
  }

  lemma TwoPrefixes(q: Path, s: Path, p: Path)
    ensures q <= p && s <= p ==> q <= s || StrictPrefix(s, q)
  {}

  predicate Apart(p: Path, q: Path) { p != q && !Nested(p, q) }

  // ---- From keys to paths ----

  /** Folding works component by component. */
  ghost predicate FoldsParts(fold: Fold) {
    forall a, b :: fold(a + [SEP] + b) == fold(a) + [SEP] + fold(b)
  }

  lemma NestedKeys(fold: Fold, p: Path, q: Path)
    requires FoldsParts(fold) && p != [] && StrictPrefix(p, q)
    ensures Below(fold(PosixText(q)), fold(PosixText(p)))
  {
    assert q == p + q[|p|..];
    JoinAppend(p, q[|p|..]);
    assert fold(Join(q)) == fold(Join(p)) + [SEP] + fold(Join(q[|p|..]));
  }

  /** The `k`-th file of a placement: its destination, then its sidecars. */
  function FileOf(p: Placement, k: nat): Path
    requires k <= |p.sidecars|
  {
    if k == 0 then p.dest else p.sidecars[k - 1].path
  }

  /** The files of one member are placed apart from each other, as every hook does. */
  ghost predicate OwnFilesDiffer(p: Placement) {
    forall j, k :: 0 <= j < k <= |p.sidecars| ==> FileOf(p, j) != FileOf(p, k)
  }

  /** What preflight leaves true of an import plan it does not refuse. */
  ghost predicate Approved(ps: seq<Placement>, archive: set<string>, fold: Fold, subtrees: seq<string>) {
    && FoldsParts(fold)
    && (forall i :: 0 <= i < |ps| ==> ps[i].member !in archive && OwnFilesDiffer(ps[i]))
    && (forall i, j :: 0 <= i < j < |ps| ==> ps[i].member != ps[j].member)
    && (forall m :: m !in archive ==> !SharesFile(ps, archive, fold, m) && !CrossesFile(ps, archive, fold, m))
    && (forall i, k :: 0 <= i < |ps| && 0 <= k <= |ps[i].sidecars| ==>
          FileOf(ps[i], k) != [] && InnerPath(FileOf(ps[i], k)) && UnderSubtrees(Join(FileOf(ps[i], k)), subtrees))
  }

  lemma NoImportsApproved(archive: set<string>, fold: Fold, subtrees: seq<string>)
    requires FoldsParts(fold)
    ensures Approved([], archive, fold, subtrees)
  {
    assert forall key, m :: Lands([], archive, fold, key, m) ==> m in archive;
  }

  lemma FileLands(ps: seq<Placement>, archive: set<string>, fold: Fold, i: nat, k: nat)
    requires i < |ps| && k <= |ps[i].sidecars|
    ensures Lands(ps, archive, fold, fold(PosixText(FileOf(ps[i], k))), ps[i].member)
  {
    assert Places(ps[i], fold, fold(PosixText(FileOf(ps[i], k))));
  }

  /** Two files of an approved import plan never need the same place. */
  lemma ImportsApart(ps: seq<Placement>, archive: set<string>, fold: Fold, subtrees: seq<string>, i: nat, k: nat,
                     j: nat, n: nat)
    requires Approved(ps, archive, fold, subtrees)
    requires i < |ps| && k <= |ps[i].sidecars| && j < |ps| && n <= |ps[j].sidecars| && (i != j || k != n)
    ensures Apart(FileOf(ps[i], k), FileOf(ps[j], n))
  {
    var p, q := FileOf(ps[i], k), FileOf(ps[j], n);
    FileLands(ps, archive, fold, i, k);
    FileLands(ps, archive, fold, j, n);
    var m := ps[i].member;
    assert p == q && i != j ==> SharesFile(ps, archive, fold, m);
    if StrictPrefix(p, q) { NestedKeys(fold, p, q); }
    if StrictPrefix(q, p) { NestedKeys(fold, q, p); }
    assert !CrossesFile(ps, archive, fold, ps[i].member);
  }

  /** A file of an approved import plan never needs the place of an ordinary member. */
  lemma ImportApartFromV1(ps: seq<Placement>, archive: set<string>, fold: Fold, subtrees: seq<string>, i: nat, k: nat,
                          name: string)
    requires Approved(ps, archive, fold, subtrees)
    requires i < |ps| && k <= |ps[i].sidecars|
    requires name in archive && !Absolute(name) && Parts(name) != []
    ensures Apart(Parts(name), FileOf(ps[i], k))
  {
    var p, q := FileOf(ps[i], k), Parts(name);
    FileLands(ps, archive, fold, i, k);
    assert Lands(ps, archive, fold, fold(PosixText(q)), name);
    assert p == q ==> SharesFile(ps, archive, fold, ps[i].member);
    if StrictPrefix(p, q) { NestedKeys(fold, p, q); }
    if StrictPrefix(q, p) { NestedKeys(fold, q, p); }
    assert !CrossesFile(ps, archive, fold, ps[i].member);
  }

  // ---- The list of writes ----

  function PlacedOf(ps: seq<Placement>): seq<(string, Path)> {
    seq(|ps|, i requires 0 <= i < |ps| => (ps[i].member, ps[i].dest))
  }

  function SidecarsOf(ps: seq<Placement>): seq<Sidecar> {
    if ps == [] then [] else SidecarsOf(ps[..|ps| - 1]) + ps[|ps| - 1].sidecars
  }

  /** Entry `n` of the flattened sidecars is sidecar `k` of placement `i`, later ones coming from later places. */
  lemma {:induction false} SidecarAt(ps: seq<Placement>, n: nat) returns (i: nat, k: nat)
    requires n < |SidecarsOf(ps)|
    ensures i < |ps| && k < |ps[i].sidecars| && SidecarsOf(ps)[n] == ps[i].sidecars[k]
    ensures n == |SidecarsOf(ps[..i])| + k
  {
    var init := ps[..|ps| - 1];
    if n < |SidecarsOf(init)| {
      i, k := SidecarAt(init, n);
      assert init[..i] == ps[..i];
    } else {
      i, k := |ps| - 1, n - |SidecarsOf(init)|;
    }
  }

  /** Member `i` is the `n`-th of those a plan keeps. */
  ghost predicate NthKept(env: Env, v: seq<Item>, n: nat, i: nat) {
    i < |v| && FateOf(env, v, i).Kept? && |KeptNames(env, v, i)| == n
  }

  lemma {:induction false} KeptAt(env: Env, v: seq<Item>, total: nat, n: nat) returns (i: nat)
    requires total <= |v| && n < |KeptNames(env, v, total)|
    ensures NthKept(env, v, n, i) && KeptNames(env, v, total)[n] == v[i].name
  {
    i := total - 1;
    if n < |KeptNames(env, v, total - 1)| {
      i := KeptAt(env, v, total - 1, n);
    }
  }

  /** Everything a restore is approved to write, with the archive it comes from. */
  datatype Restoration = Restoration(
    zip: seq<ZipEntry>, rules: Rules, plan: Plan, imports: seq<Placement>,
    archive: set<string>, fold: Fold, exempt: string -> bool, when: real)

  function ArchivePlanOf(x: Restoration): ArchivePlan {
    ArchivePlan(x.plan.names, x.plan.excludedCount, PlacedOf(x.imports), SidecarsOf(x.imports))
  }

  /** The names are those the plan keeps. */
  ghost predicate PlanKept(x: Restoration) {
    var v := View(x.rules, V1Infos(x.zip));
    x.plan.names == KeptNames(x.rules.env, v, |v|)
  }

  /** The plan reported no problem, preflight refused nothing, and every member reads back. */
  ghost predicate ApprovedRestore(x: Restoration) {
    && PlanKept(x)
    && (forall s :: s in x.rules.subtrees ==> PlainSubtree(s))
    && (forall name :: name in x.plan.names ==> name in x.archive)
    && Approved(x.imports, x.archive, x.fold, x.rules.subtrees)
    && (forall name :: name in x.plan.names && Find(x.zip, name).Some? ==> Readable(x.zip, name))
    && ImportsRead(x)
  }

  ghost predicate ImportsRead(x: Restoration) {
    forall i :: 0 <= i < |x.imports| ==> Readable(x.zip, x.imports[i].member)
  }

  /** The archive holds the member and its data reads back whole. */
  predicate Readable(zip: seq<ZipEntry>, name: string) {
    Find(zip, name).Some? && Find(zip, name).value.data.Some?
  }

  // ---- The steps of a restore ----

  /** What a step writes; one without its member stands as a write that cannot be made. */
  function WriteOf(o: Op): Write { if o.write.Some? then o.write.value else Write([], None, 0.0, false) }

  function StepWrites(x: Restoration): seq<Write> {
    var ops := Ops(x.zip, ArchivePlanOf(x), x.exempt, x.when);
    seq(|ops|, n requires 0 <= n < |ops| => WriteOf(ops[n]))
  }

  lemma StepCount(x: Restoration)
    ensures |StepWrites(x)| == |x.plan.names| + |x.imports| + |SidecarsOf(x.imports)|
  {
    OpsAt(x.zip, ArchivePlanOf(x), x.exempt, x.when, 0);
  }

  lemma V1Step(x: Restoration, n: nat)
    requires n < |x.plan.names|
    ensures var e := Find(x.zip, x.plan.names[n]);
            && n < |StepWrites(x)|
            && (e.Some? ==>
                  && StepWrites(x)[n].path == Parts(x.plan.names[n]) && StepWrites(x)[n].data == e.value.data
                  && LandsAt(e.value, x.when, StepWrites(x)[n].mtime))
  {
    OpsAt(x.zip, ArchivePlanOf(x), x.exempt, x.when, n);
  }

  lemma PlacedStep(x: Restoration, i: nat)
    requires i < |x.imports|
    ensures var n, e := |x.plan.names| + i, Find(x.zip, x.imports[i].member);
            && n < |StepWrites(x)|
            && StepWrites(x)[n] == Write(x.imports[i].dest, if e.Some? then e.value.data else None, x.when, false)
  {
    OpsAt(x.zip, ArchivePlanOf(x), x.exempt, x.when, i);
  }

  lemma SidecarStep(x: Restoration, m: nat)
    requires m < |SidecarsOf(x.imports)|
    ensures var n, s := |x.plan.names| + |x.imports| + m, SidecarsOf(x.imports)[m];
            n < |StepWrites(x)| && StepWrites(x)[n] == Write(s.path, Some(s.data), x.when, false)
  {
    OpsAt(x.zip, ArchivePlanOf(x), x.exempt, x.when, m);
  }

  /** A name the plan keeps is an entry of the zip. */
  lemma KeptIsFound(x: Restoration, n: nat) returns (i: nat)
    requires PlanKept(x) && n < |x.plan.names|
    ensures var v := View(x.rules, V1Infos(x.zip));
            NthKept(x.rules.env, v, n, i) && v[i].name == x.plan.names[n]
    ensures Find(x.zip, x.plan.names[n]).Some?
  {
    var v := View(x.rules, V1Infos(x.zip));
    i := KeptAt(x.rules.env, v, |v|, n);
    V1InfoIsV1(x.zip, i);
  }

  /** Every step of an approved restore has something to write. */
  lemma StepHasData(x: Restoration, n: nat)
    requires ApprovedRestore(x) && n < |StepWrites(x)|
    ensures StepWrites(x)[n].data.Some?
    ensures n < |x.plan.names| ==> Find(x.zip, x.plan.names[n]).Some?
  {
    StepCount(x);
    if n < |x.plan.names| {
      var i := KeptIsFound(x, n);
      assert x.plan.names[n] in x.plan.names;
      V1Step(x, n);
    } else if n < |x.plan.names| + |x.imports| {
      assert Readable(x.zip, x.imports[n - |x.plan.names|].member);
      PlacedStep(x, n - |x.plan.names|);
    } else {
      SidecarStep(x, n - |x.plan.names| - |x.imports|);
    }
  }

  lemma AllHaveData(x: Restoration)
    requires ApprovedRestore(x)
    ensures forall w :: w in StepWrites(x) ==> w.data.Some?
  {
    var ws := StepWrites(x);
    forall n | 0 <= n < |ws| ensures ws[n].data.Some? { StepHasData(x, n); }
  }

  /** The writes of an approved restore, in order. */
  ghost function Writes(x: Restoration): (ws: seq<Write>)
    requires ApprovedRestore(x)
    ensures forall w :: w in ws ==> w.data.Some?
  {
    AllHaveData(x);
    StepWrites(x)
  }

  /** The steps' own writes are the writes of the restore. */
  lemma OpWrites(x: Restoration, n: nat)
    requires ApprovedRestore(x) && n < |Writes(x)|
    ensures var ops := Ops(x.zip, ArchivePlanOf(x), x.exempt, x.when);
            |ops| == |Writes(x)| && ops[n].write == Some(Writes(x)[n])
  {
    var ops := Ops(x.zip, ArchivePlanOf(x), x.exempt, x.when);
    StepHasData(x, n);
    assert Writes(x)[n] == WriteOf(ops[n]);
  }

  /** Where step `n` comes from: an ordinary member, or a file of an import. */
  datatype Origin = FromV1(index: nat) | FromImport(i: nat, k: nat)

  ghost predicate ComesFrom(x: Restoration, n: nat, o: Origin)
    requires n < |StepWrites(x)|
  {
    match o
    case FromV1(i) =>
      var v := View(x.rules, V1Infos(x.zip));
      && n < |x.plan.names| && NthKept(x.rules.env, v, n, i)
      && v[i].name == x.plan.names[n] && StepWrites(x)[n].path == v[i].path
    case FromImport(i, k) =>
      && n >= |x.plan.names| && i < |x.imports| && k <= |x.imports[i].sidecars|
      && StepWrites(x)[n].path == FileOf(x.imports[i], k)
      && n == |x.plan.names| + (if k == 0 then i else |x.imports| + |SidecarsOf(x.imports[..i])| + k - 1)
  }

  lemma V1Origin(x: Restoration, n: nat) returns (i: nat)
    requires PlanKept(x) && n < |x.plan.names| && n < |StepWrites(x)|
    ensures ComesFrom(x, n, FromV1(i))
  {
    i := KeptIsFound(x, n);
    V1Step(x, n);
  }

  lemma ImportOrigin(x: Restoration, n: nat) returns (i: nat, k: nat)
    requires |x.plan.names| <= n < |StepWrites(x)|
    ensures ComesFrom(x, n, FromImport(i, k))
  {
    StepCount(x);
    if n < |x.plan.names| + |x.imports| {
      i, k := n - |x.plan.names|, 0;
      PlacedStep(x, i);
    } else {
      var j;
      i, j := SidecarAt(x.imports, n - |x.plan.names| - |x.imports|);
      k := j + 1;
      SidecarStep(x, n - |x.plan.names| - |x.imports|);
    }
  }

  lemma OriginOf(x: Restoration, n: nat) returns (o: Origin)
    requires PlanKept(x) && n < |StepWrites(x)|
    ensures ComesFrom(x, n, o)
  {
    if n < |x.plan.names| {
      var i := V1Origin(x, n);
      o := FromV1(i);
    } else {
      var i, k := ImportOrigin(x, n);
      o := FromImport(i, k);
    }
  }

  lemma {:induction false} SidecarCountGrows(ps: seq<Placement>, i: nat, j: nat)
    requires i < j <= |ps|
    ensures |SidecarsOf(ps[..i])| + |ps[i].sidecars| <= |SidecarsOf(ps[..j])|
    decreases j
  {
    assert ps[..j][..j - 1] == ps[..j - 1] && ps[..j][j - 1] == ps[j - 1];
    if i == j - 1 {
    } else {
      SidecarCountGrows(ps, i, j - 1);
    }
  }

  lemma OriginsDiffer(x: Restoration, a: nat, oa: Origin, b: nat, ob: Origin)
    requires oa.FromImport? && ob.FromImport? && a < b
    requires oa.i < |x.imports| && ob.i < |x.imports|
    requires a == |x.plan.names|
                + if oa.k == 0 then oa.i else |x.imports| + |SidecarsOf(x.imports[..oa.i])| + oa.k - 1
    requires b == |x.plan.names|
                + if ob.k == 0 then ob.i else |x.imports| + |SidecarsOf(x.imports[..ob.i])| + ob.k - 1
    ensures oa != ob
  {}

  /** Any two steps of an approved restore write apart from each other. */
  lemma StepsApart(x: Restoration, a: nat, b: nat)
    requires ApprovedRestore(x) && a < b < |Writes(x)|
    ensures Apart(Writes(x)[a].path, Writes(x)[b].path)
  {
    var v := View(x.rules, V1Infos(x.zip));
    var oa := OriginOf(x, a);
    var ob := OriginOf(x, b);
    match oa
    case FromV1(i) =>
      KeptIsSafe(x.rules, V1Infos(x.zip), i);
      if ob.FromV1? {
        KeptCompatible(x.rules.env, v, i, ob.index);
      } else {
        assert x.plan.names[a] in x.plan.names;
        ImportApartFromV1(x.imports, x.archive, x.fold, x.rules.subtrees, ob.i, ob.k, v[i].name);
      }
    case FromImport(i, k) =>
      OriginsDiffer(x, a, oa, b, ob);
      ImportsApart(x.imports, x.archive, x.fold, x.rules.subtrees, i, k, ob.i, ob.k);
  }

  ghost predicate InSubtree(p: Path, subtrees: seq<string>) {
    p != [] && InnerPath(p) && UnderSubtrees(Join(p), subtrees)
  }

  lemma V1InSubtree(r: Rules, infos: seq<Info>, i: nat)
    requires i < |infos| && FateOf(r.env, View(r, infos), i).Kept?
    ensures InSubtree(View(r, infos)[i].path, r.subtrees)
  {
    KeptIsSafe(r, infos, i);
  }

  lemma ImportInSubtree(ps: seq<Placement>, archive: set<string>, fold: Fold, subtrees: seq<string>, i: nat, k: nat)
    requires Approved(ps, archive, fold, subtrees) && i < |ps| && k <= |ps[i].sidecars|
    ensures InSubtree(FileOf(ps[i], k), subtrees)
  {}

  /** Every step writes inside a subtree. */
  lemma StepInSubtree(x: Restoration, n: nat)
    requires ApprovedRestore(x) && n < |StepWrites(x)|
    ensures InSubtree(StepWrites(x)[n].path, x.rules.subtrees)
  {
    var o := OriginOf(x, n);
    match o
    case FromV1(i) => V1InSubtree(x.rules, V1Infos(x.zip), i);
    case FromImport(i, k) => ImportInSubtree(x.imports, x.archive, x.fold, x.rules.subtrees, i, k);
  }

  lemma StepFree(x: Restoration, t: Tree, n: nat)
    requires ApprovedRestore(x) && n < |Writes(x)| && Cleared(t, x.rules.subtrees)
    ensures Free(t, Writes(x)[n].path) && Writes(x)[n].path != []
  {
    StepInSubtree(x, n);
    ClearedIsFree(t, x.rules.subtrees, Writes(x)[n].path);
  }

  /** If the plan reports no problem and preflight refuses nothing, the restore into emptied
      subtrees fails nowhere and skips nothing, and the tree afterwards is what it was plus
      exactly the planned files with their bytes. */
  lemma NoFailureAfterClear(x: Restoration, t: Tree, dirTime: Path -> real)
    requires ApprovedRestore(x) && WellFormed(t) && Cleared(t, x.rules.subtrees)
    ensures var ops := Ops(x.zip, ArchivePlanOf(x), x.exempt, x.when);
            && Placeable(ops)
            && var r := Run(t, ops, dirTime, Result(0, 0, x.plan.excludedCount, 0, 0));
               && r.1 == Result(|x.plan.names|, 0, x.plan.excludedCount, 0, |x.imports|)
               && WellFormed(r.0)
               && r.0.files == t.files + Planned(Writes(x))
  {
    var ops := Ops(x.zip, ArchivePlanOf(x), x.exempt, x.when);
    var ws := Writes(x);
    forall n | 0 <= n < |ws| ensures Free(t, ws[n].path) && ws[n].path != [] && ops[n].write == Some(ws[n]) {
      StepFree(x, t, n);
      OpWrites(x, n);
    }
    forall a, b | 0 <= a < b < |ws| ensures ws[a].path != ws[b].path && !Nested(ws[a].path, ws[b].path) {
      StepsApart(x, a, b);
    }
    WritesSucceed(t, ws, dirTime);
    RunAllWritten(t, ops, ws, dirTime, Result(0, 0, x.plan.excludedCount, 0, 0));
    CountOps(x);
  }

  /** The member that step `n` writes, ordinary members first, and the path it is written to. */
  function MemberAt(x: Restoration, n: nat): string
    requires n < |x.plan.names| + |x.imports|
  {
    if n < |x.plan.names| then x.plan.names[n] else x.imports[n - |x.plan.names|].member
  }

  function PathAt(x: Restoration, n: nat): Path
    requires n < |x.plan.names| + |x.imports|
  {
    if n < |x.plan.names| then Parts(x.plan.names[n]) else x.imports[n - |x.plan.names|].dest
  }

  lemma V1Written(x: Restoration, n: nat)
    requires PlanKept(x) && n < |x.plan.names|
    ensures n < |StepWrites(x)| && StepWrites(x)[n].path == Parts(x.plan.names[n])
    ensures var e := Find(x.zip, x.plan.names[n]);
            e.Some? && StepWrites(x)[n].data == e.value.data && LandsAt(e.value, x.when, StepWrites(x)[n].mtime)
  {
    var i := KeptIsFound(x, n);
    V1Step(x, n);
  }

  /** Step `n` writes its member's own bytes to its member's own path. */
  ghost predicate WritesMember(x: Restoration, n: nat)
    requires n < |x.plan.names| + |x.imports|
  {
    var e := Find(x.zip, MemberAt(x, n));
    && n < |StepWrites(x)| && e.Some?
    && StepWrites(x)[n].path == PathAt(x, n) && StepWrites(x)[n].data == e.value.data
    && if n < |x.plan.names| then LandsAt(e.value, x.when, StepWrites(x)[n].mtime) else StepWrites(x)[n].mtime == x.when
  }

  lemma ImportWritten(x: Restoration, n: nat)
    requires |x.plan.names| <= n < |x.plan.names| + |x.imports| && Readable(x.zip, MemberAt(x, n))
    ensures WritesMember(x, n)
  {
    PlacedStep(x, n - |x.plan.names|);
  }

  lemma NamedWritten(x: Restoration, n: nat)
    requires PlanKept(x) && n < |x.plan.names|
    ensures WritesMember(x, n)
  {
    V1Written(x, n);
  }

  lemma WrittenFrom(x: Restoration, n: nat)
    requires PlanKept(x) && ImportsRead(x) && n < |x.plan.names| + |x.imports|
    ensures WritesMember(x, n)
  {
    if n < |x.plan.names| {
      NamedWritten(x, n);
    } else {
      assert Readable(x.zip, x.imports[n - |x.plan.names|].member);
      ImportWritten(x, n);
    }
  }

  lemma WritesDiffer(x: Restoration)
    requires ApprovedRestore(x)
    ensures PathsDiffer(Writes(x))
  {
    var ws := Writes(x);
    forall a, b | 0 <= a < b < |ws| ensures ws[a].path != ws[b].path { StepsApart(x, a, b); }
  }

  /** Afterwards every ordinary member's file holds that member's bytes, and every import's file the
      bytes it was declared with; the one carries its stored time, the other the clock's. */
  lemma RestoredBytes(x: Restoration, t: Tree, dirTime: Path -> real, n: nat)
    requires ApprovedRestore(x) && WellFormed(t) && Cleared(t, x.rules.subtrees)
    requires n < |x.plan.names| + |x.imports|
    ensures var ops := Ops(x.zip, ArchivePlanOf(x), x.exempt, x.when);
            && Placeable(ops)
            && var files := Run(t, ops, dirTime, Result(0, 0, x.plan.excludedCount, 0, 0)).0.files;
               && Find(x.zip, MemberAt(x, n)).Some? && PathAt(x, n) in files
               && Some(files[PathAt(x, n)].data) == Find(x.zip, MemberAt(x, n)).value.data
               && (if n < |x.plan.names|
                   then LandsAt(Find(x.zip, MemberAt(x, n)).value, x.when, files[PathAt(x, n)].mtime)
                   else files[PathAt(x, n)].mtime == x.when)
  {
    NoFailureAfterClear(x, t, dirTime);
    WrittenFrom(x, n);
    WritesDiffer(x);
    PlannedAt(Writes(x), n);
  }

  /** And every sidecar's file holds what the broker meant to put there. */
  lemma RestoredSidecars(x: Restoration, t: Tree, dirTime: Path -> real, m: nat)
    requires ApprovedRestore(x) && WellFormed(t) && Cleared(t, x.rules.subtrees)
    requires m < |SidecarsOf(x.imports)|
    ensures var ops, s := Ops(x.zip, ArchivePlanOf(x), x.exempt, x.when), SidecarsOf(x.imports)[m];
            && Placeable(ops)
            && var files := Run(t, ops, dirTime, Result(0, 0, x.plan.excludedCount, 0, 0)).0.files;
               s.path in files && files[s.path] == File(s.data, x.when)
  {
    NoFailureAfterClear(x, t, dirTime);
    SidecarStep(x, m);
    WritesDiffer(x);
    PlannedAt(Writes(x), |x.plan.names| + |x.imports| + m);
  }

  lemma CountOps(x: Restoration)
    ensures var ops := Ops(x.zip, ArchivePlanOf(x), x.exempt, x.when);
            CountKind(ops, V1) == |x.plan.names| && CountKind(ops, Import) == |x.imports|
  {
    var p := ArchivePlanOf(x);
    var a := seq(|p.v1|, i requires 0 <= i < |p.v1| => V1Op(x.zip, p.v1[i], x.exempt, x.when));
    var b := seq(|p.placed|, i requires 0 <= i < |p.placed| => PlacedOp(x.zip, p.placed[i], x.when));
    var c := seq(|p.sidecars|, i requires 0 <= i < |p.sidecars| => SidecarOp(p.sidecars[i], x.when));
    assert Ops(x.zip, p, x.exempt, x.when) == a + b + c;
    forall k: Kind ensures CountKind(a + b + c, k) == (if k == V1 then |a| else if k == Import then |b| else |c|) {
      CountAppend(a + b, c, k);
      CountAppend(a, b, k);
      CountSame(a, V1, k);
      CountSame(b, Import, k);
      CountSame(c, Beside, k);
    }
  }
}
