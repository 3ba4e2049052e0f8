/** The exit dump (`build_save_archive`): what it ships, what it reports, and that it restores. */
module Dump {
  import opened Lists
  import opened Options
  import opened Paths
  import opened Tree
  import opened Conflicts
  import opened V1Plan
  import opened Restore
  import opened RestoreSafety
  import opened ZipTime

  // ---- Lists without repeats ----

  lemma WhereStep<T(!new)>(s: seq<T>, i: nat, p: T -> bool)
    requires i < |s|
    ensures Where(s[..i + 1], p) == Where(s[..i], p) + if p(s[i]) then [s[i]] else []
  {
    assert s[..i + 1][..i] == s[..i];
  }

  ghost predicate NoRepeats<T(!new)>(s: seq<T>) { forall i, j :: 0 <= i < j < |s| ==> s[i] != s[j] }

  lemma {:induction false} WhereNoRepeats<T(!new)>(s: seq<T>, p: T -> bool)
    requires NoRepeats(s)
    ensures NoRepeats(Where(s, p))
  {
    if s == [] {
    } else {
      var n := |s| - 1;
      WhereNoRepeats(s[..n], p);
      WhereHolds(s[..n], p);
      assert s[n] !in s[..n];
    }
  }

  // ---- The walk ----

  /** The marker shadPS4 keeps while a save is mounted, which never ships. */
  predicate IsMountMarker(p: Path) {
    |p| >= 2 && p[|p| - 1] == "corrupted" && p[|p| - 2] == "sce_sys"
  }

  /** A file of the subtree that is save data: not scratch, judged below the subtree, and not the marker. */
  predicate Ships(env: Env, sub: Path, p: Path) {
    StrictPrefix(sub, p) && !IsScratch(env, p[|sub|..]) && !IsMountMarker(p)
  }

  /** The candidates of a dump, subtree by subtree; `walk` is every file of the tree in sorted order. */
  function IterSaveFiles(env: Env, walk: seq<Path>, subtrees: seq<string>): seq<Path> {
    if subtrees == [] then []
    else Where(walk, ShipsTest(env, Parts(subtrees[0]))) + IterSaveFiles(env, walk, subtrees[1..])
  }

  function ShipsTest(env: Env, sub: Path): Path -> bool { p => Ships(env, sub, p) }

  /** A shipping file lies below the subtree; no component from there on is scratch, it is not named
      like the manifest, nor is it the mount marker. */
  lemma ShipsMeans(env: Env, sub: Path, p: Path)
    ensures Ships(env, sub, p) <==>
              && |sub| < |p| && sub <= p
              && (forall c :: c in p[|sub|..] ==> !env.scratchName(c))
              && p[|p| - 1] != MANIFEST_NAME
              && !(|p| >= 2 && p[|p| - 2..] == ["sce_sys", "corrupted"])
  {
    if |sub| < |p| {
      ScratchMeans(env, p[|sub|..]);
      assert p[|sub|..][|p| - |sub| - 1] == p[|p| - 1];
      if |p| >= 2 { assert p[|p| - 2..] == [p[|p| - 2], p[|p| - 1]]; }
    }
  }

  lemma {:induction false} InIter(env: Env, walk: seq<Path>, subtrees: seq<string>, p: Path)
    ensures p in IterSaveFiles(env, walk, subtrees) <==>
              p in walk && exists i :: 0 <= i < |subtrees| && Ships(env, Parts(subtrees[i]), p)
  {
    if subtrees == [] {
    } else {
      InIter(env, walk, subtrees[1..], p);
      WhereHolds(walk, ShipsTest(env, Parts(subtrees[0])));
      if i :| 0 <= i < |subtrees| && Ships(env, Parts(subtrees[i]), p) {
        if i > 0 { assert subtrees[1..][i - 1] == subtrees[i]; }
      }
    }
  }

  // ---- The report ----

  datatype Stat = Stat(size: nat, mtime: real)

  /** What the filesystem answers during a dump; None when a call fails, or a read never settles. */
  datatype Disk = Disk(stat: Path -> Option<Stat>, read: Path -> Option<File>)

  datatype DumpError = RootMissing | TooLarge | NoneStatted | NoneReadable

  datatype Shipped = Shipped(path: Path, file: File)

  datatype DumpOutcome = DumpOutcome(files: seq<Shipped>, skipped: seq<Path>, archived: bool, error: Option<DumpError>)

  /** What one dump is asked: the candidates, the launch time, and the files to ship whatever their mtime. */
  datatype Ask = Ask(candidates: seq<Path>, baseline: real, alwaysInclude: set<Path>, maxBytes: nat)

  predicate Statted(d: Disk, p: Path) { d.stat(p).Some? }

  /** The file is known to have changed this session, or is declared to ship anyway. */
  predicate IsChanged(a: Ask, d: Disk, p: Path) {
    Statted(d, p) && (LooksChanged(d.stat(p).value.mtime, a.baseline) || p in a.alwaysInclude)
  }

  function Changed(a: Ask, d: Disk): (ps: seq<Path>)
    ensures forall p :: p in ps <==> p in a.candidates && IsChanged(a, d, p)
  {
    WhereHolds(a.candidates, ChangedTest(a, d));
    Where(a.candidates, ChangedTest(a, d))
  }

  function ChangedTest(a: Ask, d: Disk): Path -> bool { p => IsChanged(a, d, p) }

  function Unstatted(a: Ask, d: Disk): (ps: seq<Path>)
    ensures forall p :: p in ps <==> p in a.candidates && !Statted(d, p)
  {
    WhereHolds(a.candidates, UnstattedTest(d));
    Where(a.candidates, UnstattedTest(d))
  }

  function UnstattedTest(d: Disk): Path -> bool { p => !Statted(d, p) }

  function Unread(d: Disk, ps: seq<Path>): (unread: seq<Path>)
    ensures forall p :: p in unread <==> p in ps && d.read(p).None?
  {
    WhereHolds(ps, UnreadTest(d));
    Where(ps, UnreadTest(d))
  }

  function UnreadTest(d: Disk): Path -> bool { p => d.read(p).None? }

  function SizeOf(d: Disk, ps: seq<Path>): nat {
    if ps == [] then 0
    else SizeOf(d, ps[..|ps| - 1]) + if Statted(d, ps[|ps| - 1]) then d.stat(ps[|ps| - 1]).value.size else 0
  }

  function ShipAll(d: Disk, ps: seq<Path>): seq<Shipped> {
    if ps == [] then []
    else
      var p := ps[|ps| - 1];
      ShipAll(d, ps[..|ps| - 1]) + if d.read(p).Some? then [Shipped(p, d.read(p).value)] else []
  }

  /** Fold the skipped files into the outcome: a dump that could read none of the changed files failed. */
  function FinishDump(r: DumpOutcome, changedSkipped: seq<Path>): DumpOutcome {
    if r.skipped == [] || r.files != [] then r
    else if changedSkipped != [] && r.error.None? then r.(error := Some(NoneReadable))
    else r
  }

  /** The report once the candidates have been weighed. */
  function Weighed(a: Ask, d: Disk, changed: seq<Path>, unstatted: seq<Path>): DumpOutcome {
    var blank := DumpOutcome([], unstatted, false, None);
    if changed == [] then
      if a.candidates != [] && |unstatted| == |a.candidates| then blank.(error := Some(NoneStatted))
      else FinishDump(blank, [])
    else if SizeOf(d, changed) > a.maxBytes then FinishDump(blank.(error := Some(TooLarge)), [])
    else
      var files, unread := ShipAll(d, changed), Unread(d, changed);
      FinishDump(DumpOutcome(files, unstatted + unread, files != [], None), unread)
  }

  /** The report of a dump over an existing root. */
  function DumpReport(a: Ask, d: Disk): DumpOutcome { Weighed(a, d, Changed(a, d), Unstatted(a, d)) }

  lemma WeighStep(a: Ask, d: Disk, i: nat)
    requires i < |a.candidates|
    ensures var p := a.candidates[i];
            && Where(a.candidates[..i + 1], ChangedTest(a, d))
               == Where(a.candidates[..i], ChangedTest(a, d)) + (if IsChanged(a, d, p) then [p] else [])
            && Where(a.candidates[..i + 1], UnstattedTest(d))
               == Where(a.candidates[..i], UnstattedTest(d)) + (if !Statted(d, p) then [p] else [])
  {
    WhereStep(a.candidates, i, ChangedTest(a, d));
    WhereStep(a.candidates, i, UnstattedTest(d));
  }

  lemma SizeStep(d: Disk, ps: seq<Path>, p: Path)
    ensures SizeOf(d, ps + [p]) == SizeOf(d, ps) + if Statted(d, p) then d.stat(p).value.size else 0
  {
    assert (ps + [p])[..|ps|] == ps;
  }

  /** Weigh every candidate against the baseline. */
  method Weigh(a: Ask, d: Disk) returns (changed: seq<Path>, skipped: seq<Path>, total: nat)
    ensures changed == Changed(a, d) && skipped == Unstatted(a, d) && total == SizeOf(d, changed)
  {
    changed, skipped, total := [], [], 0;
    for i := 0 to |a.candidates|
      invariant changed == Where(a.candidates[..i], ChangedTest(a, d))
      invariant skipped == Where(a.candidates[..i], UnstattedTest(d))
      invariant total == SizeOf(d, changed)
    {
      var p := a.candidates[i];
      WeighStep(a, d, i);
      match d.stat(p)
      case None => skipped := skipped + [p];
      case Some(st) =>
        if LooksChanged(st.mtime, a.baseline) || p in a.alwaysInclude {
          SizeStep(d, changed, p);
          changed := changed + [p];
          total := total + st.size;
        }
    }
    assert a.candidates[..|a.candidates|] == a.candidates;
  }

  /** Read every changed file. */
  method ReadAll(d: Disk, changed: seq<Path>) returns (files: seq<Shipped>, unread: seq<Path>)
    ensures files == ShipAll(d, changed) && unread == Unread(d, changed)
  {
    files, unread := [], [];
    for i := 0 to |changed|
      invariant files == ShipAll(d, changed[..i])
      invariant unread == Where(changed[..i], UnreadTest(d))
    {
      var p := changed[i];
      WhereStep(changed, i, UnreadTest(d));
      assert changed[..i + 1][..i] == changed[..i];
      match d.read(p)
      case None => unread := unread + [p];
      case Some(f) => files := files + [Shipped(p, f)];
    }
    assert changed[..|changed|] == changed;
  }

  /** Weigh the candidates, read the changed ones, and report. */
  method BuildSaveArchive(rootExists: bool, a: Ask, d: Disk) returns (r: DumpOutcome)
    ensures r == if rootExists then DumpReport(a, d) else DumpOutcome([], [], false, Some(RootMissing))
  {
    if !rootExists {
      return DumpOutcome([], [], false, Some(RootMissing));
    }
    var changed, skipped, total := Weigh(a, d);
    r := DumpOutcome([], skipped, false, None);
    if changed == [] {
      if a.candidates != [] && |skipped| == |a.candidates| {
        return r.(error := Some(NoneStatted));
      }
      return FinishDump(r, []);
    }
    if total > a.maxBytes {
      return FinishDump(r.(error := Some(TooLarge)), []);
    }
    var files, unread := ReadAll(d, changed);
    r := FinishDump(DumpOutcome(files, skipped + unread, files != [], None), unread);
  }

  lemma {:induction false} InShipAll(d: Disk, ps: seq<Path>)
    ensures forall s :: s in ShipAll(d, ps) <==> s.path in ps && d.read(s.path) == Some(s.file)
  {
    if ps == [] {
    } else {
      var n := |ps| - 1;
      assert ps == ps[..n] + [ps[n]];
      InShipAll(d, ps[..n]);
    }
  }

  lemma {:induction false} WhereLength<T(!new)>(s: seq<T>, p: T -> bool)
    ensures |Where(s, p)| <= |s|
    ensures |Where(s, p)| == |s| <==> forall x :: x in s ==> p(x)
  {
    if s == [] {
    } else {
      var n := |s| - 1;
      WhereLength(s[..n], p);
      assert forall x :: x in s <==> x == s[n] || x in s[..n] by { assert s == s[..n] + [s[n]]; }
    }
  }

  /** Whether a candidate's bytes are in the archive. */
  ghost predicate InArchive(r: DumpOutcome, p: Path) { exists s :: s in r.files && s.path == p }

  /** A report lists either everything that was read and not read, or nothing but failed stats. */
  lemma ReportShape(a: Ask, d: Disk)
    ensures var r := DumpReport(a, d);
            || (r.files == [] && r.skipped == Unstatted(a, d) && (r.error == Some(TooLarge) || Changed(a, d) == []))
            || (r.files == ShipAll(d, Changed(a, d)) && r.skipped == Unstatted(a, d) + Unread(d, Changed(a, d)))
  {}

  /** An honest report, whatever fails: each candidate is unchanged, archived or listed as skipped,
      unless the size limit stopped the dump. */
  lemma HonestReport(a: Ask, d: Disk, p: Path)
    requires p in a.candidates
    ensures var r := DumpReport(a, d);
            (Statted(d, p) && !IsChanged(a, d, p)) || InArchive(r, p) || p in r.skipped || r.error == Some(TooLarge)
  {
    ReportShape(a, d);
    InShipAll(d, Changed(a, d));
    assert IsChanged(a, d, p) ==> p in Changed(a, d);
    assert !Statted(d, p) ==> p in Unstatted(a, d);
    if p in Changed(a, d) {
      if d.read(p).Some? {
        assert Shipped(p, d.read(p).value) in ShipAll(d, Changed(a, d));
      } else {
        assert p in Unread(d, Changed(a, d));
      }
    }
  }

  /** What is archived is a changed candidate, read whole, and never listed as skipped. */
  lemma TruthfulReport(a: Ask, d: Disk)
    ensures var r := DumpReport(a, d);
            && (forall s :: s in r.files ==>
                  s.path in a.candidates && IsChanged(a, d, s.path) && d.read(s.path) == Some(s.file))
            && (forall p :: p in r.skipped ==> p in a.candidates && !InArchive(r, p))
  {
    var r := DumpReport(a, d);
    ReportShape(a, d);
    InShipAll(d, Changed(a, d));
    forall s | s in r.files
      ensures s.path in a.candidates && IsChanged(a, d, s.path) && d.read(s.path) == Some(s.file)
    {
      assert s.path in Changed(a, d) && ChangedTest(a, d)(s.path);
    }
    forall p | p in r.skipped ensures p in a.candidates && !InArchive(r, p) {
      if p in Unstatted(a, d) {
        assert UnstattedTest(d)(p);
      } else {
        assert UnreadTest(d)(p) && p in Changed(a, d);
      }
    }
  }

  /** A report has neither error nor archive exactly when nothing that could be stat'ed had changed,
      and not every candidate failed to stat. */
  lemma CleanReport(a: Ask, d: Disk)
    ensures var r := DumpReport(a, d);
            && (r.archived <==> r.files != []) && (r.archived ==> r.error.None?)
            && (r.error.None? && !r.archived <==>
                  && (forall p :: p in a.candidates ==> !IsChanged(a, d, p))
                  && (a.candidates == [] || exists p :: p in a.candidates && Statted(d, p)))
  {
    var changed, unstatted := Changed(a, d), Unstatted(a, d);
    if changed == [] {
      assert forall p :: p in a.candidates && IsChanged(a, d, p) ==> p in changed;
      WhereLength(a.candidates, UnstattedTest(d));
    } else {
      assert changed[0] in changed;
      ReadOrNot(d, changed);
    }
  }

  /** The changed files come to more than a dump may ship. */
  predicate TooMuch(a: Ask, d: Disk) { SizeOf(d, Changed(a, d)) > a.maxBytes }

  lemma NothingChanged(a: Ask, d: Disk)
    ensures Changed(a, d) == [] <==> forall p :: p in a.candidates ==> !IsChanged(a, d, p)
  {
    if Changed(a, d) != [] {
      assert Changed(a, d)[0] in Changed(a, d);
    } else {
      assert forall p :: p in a.candidates && IsChanged(a, d, p) ==> p in Changed(a, d);
    }
  }

  lemma {:induction false} NoneShipped(d: Disk, ps: seq<Path>)
    ensures ShipAll(d, ps) == [] <==> forall p :: p in ps ==> d.read(p).None?
  {
    InShipAll(d, ps);
    if p :| p in ps && d.read(p).Some? {
      assert Shipped(p, d.read(p).value) in ShipAll(d, ps);
    }
    if ShipAll(d, ps) != [] {
      assert ShipAll(d, ps)[0] in ShipAll(d, ps);
    }
  }

  /** When a dump fails, and how: nothing can be stat'ed, what changed is too much, or nothing of what
      changed can be read. It fails in no other case. */
  lemma DumpFails(a: Ask, d: Disk)
    ensures var e := DumpReport(a, d).error;
            && (e == Some(NoneStatted) <==> a.candidates != [] && forall p :: p in a.candidates ==> !Statted(d, p))
            && (e == Some(TooLarge) <==> TooMuch(a, d))
            && (e == Some(NoneReadable) <==>
                  && !TooMuch(a, d) && (exists p :: p in a.candidates && IsChanged(a, d, p))
                  && forall p :: p in a.candidates && IsChanged(a, d, p) ==> d.read(p).None?)
            && e != Some(RootMissing)
  {
    var changed := Changed(a, d);
    NothingChanged(a, d);
    WhereLength(a.candidates, UnstattedTest(d));
    if changed != [] && !TooMuch(a, d) {
      NoneShipped(d, changed);
      ReadOrNot(d, changed);
      UnreadCase(a, d);
    }
  }

  lemma UnreadCase(a: Ask, d: Disk)
    requires Changed(a, d) != [] && !TooMuch(a, d)
    ensures DumpReport(a, d).error == if ShipAll(d, Changed(a, d)) == [] then Some(NoneReadable) else None
  {
    ReadOrNot(d, Changed(a, d));
  }

  /** Within the limit nothing that changed and can be read is left behind: it is archived, with the
      bytes and the time it was read with. */
  lemma ChangedIsShipped(a: Ask, d: Disk, p: Path)
    requires p in a.candidates && !TooMuch(a, d)
    requires d.stat(p).Some? && (d.stat(p).value.mtime >= a.baseline - BASELINE_MTIME_SLACK || p in a.alwaysInclude)
    requires d.read(p).Some?
    ensures Shipped(p, d.read(p).value) in DumpReport(a, d).files && DumpReport(a, d).archived
  {
    assert IsChanged(a, d, p) && p in Changed(a, d);
    InShipAll(d, Changed(a, d));
    assert Shipped(p, d.read(p).value) in ShipAll(d, Changed(a, d));
  }

  /** Of a non-empty list of files, some are read or some are not. */
  lemma ReadOrNot(d: Disk, ps: seq<Path>)
    requires ps != []
    ensures ShipAll(d, ps) != [] || Unread(d, ps) != []
  {
    InShipAll(d, ps);
    assert ps[0] in ps;
    if d.read(ps[0]).Some? {
      assert Shipped(ps[0], d.read(ps[0]).value) in ShipAll(d, ps);
    } else {
      assert ps[0] in Unread(d, ps);
    }
  }

  ghost predicate Clean(r: DumpOutcome) { r.error.None? && !r.archived }

  /** A clean report leaves a declared candidate out exactly when nothing that could be stat'ed had
      changed, something could be stat'ed, and some declared candidate could not; it is then listed
      as skipped. */
  lemma DeclaredLeftOut(a: Ask, d: Disk)
    ensures var r := DumpReport(a, d);
            && (Clean(r) && (exists p :: p in a.candidates && p in a.alwaysInclude && !InArchive(r, p)) <==>
                  && (forall p :: p in a.candidates ==> !IsChanged(a, d, p))
                  && (exists p :: p in a.candidates && Statted(d, p))
                  && (exists p :: p in a.candidates && p in a.alwaysInclude && !Statted(d, p)))
            && (Clean(r) ==> forall p :: p in a.candidates && p in a.alwaysInclude ==> p in r.skipped)
  {
    CleanReport(a, d);
    var r := DumpReport(a, d);
    if Clean(r) {
      forall p | p in a.candidates && p in a.alwaysInclude
        ensures !Statted(d, p) && !InArchive(r, p) && p in r.skipped
      {
        assert !IsChanged(a, d, p);
        HonestReport(a, d, p);
      }
    }
  }

  /** One way a report stays clean over a lost file: a declared import whose stat failed, beside an
      untouched save, is left out with neither an error nor an archive (though it is listed as skipped). */
  lemma DeclaredFileCanBeLost() returns (a: Ask, d: Disk, lost: Path)
    ensures lost in a.candidates && lost in a.alwaysInclude
    ensures var r := DumpReport(a, d); r.error.None? && !r.archived && lost in r.skipped
  {
    lost := ["memcards", "shared_card_1.mcd"];
    var other: Path := ["memcards", "old_1.mcd"];
    a := Ask([lost, other], 100.0, {lost}, 1000);
    d := Disk(p => if p == other then Some(Stat(1, 0.0)) else None, p => None);
    HonestReport(a, d, lost);
    CleanReport(a, d);
    assert a.candidates[0] == lost && a.candidates[1] == other;
    assert Statted(d, other) && !Statted(d, lost) && other in a.candidates;
    assert forall p :: p in a.candidates ==> !IsChanged(a, d, p);
  }
}
