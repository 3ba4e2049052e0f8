/** The shared check that no two files of a restore need the same place (`destination_conflicts`). */
module Conflicts {
  import opened Paths
  import opened Tree

  /** A file the broker writes beside a placed member. */
  datatype Sidecar = Sidecar(path: Path, data: Bytes)

  /** Where one import member lands, with the files the broker writes beside it. */
  datatype Placement = Placement(member: string, dest: Path, sidecars: seq<Sidecar>)

  /** What a refusal says is wrong with a member's destination. */
  datatype Detail = SameFile | NeedsDirectory

  /** One file of the restore: the key it is compared by, and the member it belongs to. */
  datatype Entry = Entry(key: string, owner: string)

  /** Case folding where the emulator's filesystem ignores case, the identity elsewhere. */
  type Fold = string -> string

  function PosixText(p: Path): string { if p == [] then "." else Join(p) }

  /** `PurePosixPath(name).as_posix()`: exactly two leading slashes are kept as two. */
  function AsPosix(name: string): string {
    if !Absolute(name) then PosixText(Parts(name))
    else if |name| > 1 && name[1] == SEP && !(|name| > 2 && name[2] == SEP) then "//" + Join(Parts(name))
    else "/" + Join(Parts(name))
  }

  /** Writing a name out again keeps what it starts with: no slash, exactly two, or else one. */
  lemma AsPosixMeans(name: string)
    ensures "/" <= AsPosix(name) <==> "/" <= name
    ensures !("/" <= name) ==> AsPosix(name) == PosixText(Parts(name))
    ensures "/" <= name && !("//" <= name) ==> AsPosix(name) == "/" + Join(Parts(name))
    ensures "//" <= name && !("///" <= name) ==> AsPosix(name) == "//" + Join(Parts(name))
    ensures "///" <= name ==> AsPosix(name) == "/" + Join(Parts(name))
  {
    assert "/" <= name <==> Absolute(name);
    if !Absolute(name) { FirstIsPlain(Parts(name)); }
  }

  lemma FirstIsPlain(p: Path)
    requires PlainPath(p)
    ensures !("/" <= PosixText(p))
  {
    if p != [] {
      assert p[0] in p;
      assert p[0] <= Join(p) && Join(p)[0] == p[0][0] != SEP;
    }
    assert PosixText(p) != [] && PosixText(p)[0] != "/"[0];
  }

  // ---- The pairwise definition ----

  /** Some file of `owner` has this key. */
  ghost predicate Lands(plan: seq<Placement>, archive: set<string>, fold: Fold, key: string, owner: string) {
    || (owner in archive && key == fold(AsPosix(owner)))
    || exists i :: 0 <= i < |plan| && plan[i].member == owner && Places(plan[i], fold, key)
  }

  ghost predicate Places(p: Placement, fold: Fold, key: string) {
    key == fold(PosixText(p.dest)) || exists j :: 0 <= j < |p.sidecars| && key == fold(PosixText(p.sidecars[j].path))
  }

  /** A key that is another key followed by a slash needs it to be a directory. */
  predicate Below(key: string, above: string) { above + [SEP] <= key }

  /** The member lands on a file that belongs to another member too. */
  ghost predicate SharesFile(plan: seq<Placement>, archive: set<string>, fold: Fold, m: string) {
    exists key, other :: Lands(plan, archive, fold, key, m) && Lands(plan, archive, fold, key, other) && other != m
  }

  /** A file of the member sits where any file needs a directory, or the reverse. */
  ghost predicate CrossesFile(plan: seq<Placement>, archive: set<string>, fold: Fold, m: string) {
    exists key, other, owner ::
      && Lands(plan, archive, fold, key, m) && Lands(plan, archive, fold, other, owner)
      && (Below(key, other) || Below(other, key))
  }

  // ---- The same, over the list of entries ----

  ghost predicate Has(es: seq<Entry>, key: string, owner: string) { Entry(key, owner) in es }

  ghost predicate Shares(es: seq<Entry>, m: string) {
    exists key, other :: Has(es, key, m) && Has(es, key, other) && other != m
  }

  ghost predicate Crosses(es: seq<Entry>, m: string) {
    exists key, other, owner :: Has(es, key, m) && Has(es, other, owner) && (Below(key, other) || Below(other, key))
  }

  /** `files` maps every key to the owner of some entry with it. */
  ghost predicate Indexes(files: map<string, string>, es: seq<Entry>) {
    && (forall key :: key in files ==> Has(es, key, files[key]))
    && (forall key, owner :: Has(es, key, owner) ==> key in files)
  }

  /** A clash recorded between an entry of `es` and a file some entry sits above it in `files`. */
  ghost predicate Found(files: map<string, string>, es: seq<Entry>, m: string) {
    exists e :: e in es && Reaches(files, e, m)
  }

  /** Some file in `files` sits above the entry, and `m` is on one side of that. */
  ghost predicate Reaches(files: map<string, string>, e: Entry, m: string) {
    exists above :: above in files && Below(e.key, above) && (m == e.owner || m == files[above])
  }

  /** Record a clash against one of its sides, unless it is an archive member or already refused. */
  function Record(conflicted: map<string, Detail>, archive: set<string>, name: string, detail: Detail)
    : map<string, Detail>
  {
    if name in archive || name in conflicted then conflicted else conflicted[name := detail]
  }

  function Refuse(conflicted: map<string, Detail>, archive: set<string>, a: string, b: string, detail: Detail)
    : (r: map<string, Detail>)
    ensures r.Keys == conflicted.Keys + ({a, b} - archive)
    ensures forall n :: n in conflicted ==> r[n] == conflicted[n]
    ensures forall n :: n in r && n !in conflicted ==> r[n] == detail
  {
    Record(Record(conflicted, archive, a, detail), archive, b, detail)
  }

  /** Adding an entry whose key is already taken makes exactly the two owners share a file. */
  lemma SharesStep(files: map<string, string>, es: seq<Entry>, e: Entry, m: string)
    requires Indexes(files, es)
    ensures Shares(es + [e], m) <==>
              Shares(es, m) || (e.key in files && files[e.key] != e.owner && (m == e.owner || m == files[e.key]))
  {
    var es' := es + [e];
    assert forall k, o :: Has(es', k, o) <==> Has(es, k, o) || Entry(k, o) == e;
    if e.key in files {
      assert Has(es, e.key, files[e.key]);
    }
    if Shares(es', m) {
      var key, other :| Has(es', key, m) && Has(es', key, other) && other != m;
      if !(Has(es, key, m) && Has(es, key, other)) {
        assert key == e.key && key in files && files[key] != e.owner;
        assert m == e.owner || m == files[key] || Shares(es, m);
      }
    }
    if e.key in files && files[e.key] != e.owner {
      assert Has(es', e.key, e.owner) && Has(es', e.key, files[e.key]);
    }
  }

  /** Looking up only the first owner of each key above an entry still finds every crossing,
      once members that share a file are refused too. */
  lemma FoundIsComplete(files: map<string, string>, es: seq<Entry>, m: string)
    requires Indexes(files, es)
    ensures Shares(es, m) || Found(files, es, m) <==> Shares(es, m) || Crosses(es, m)
  {
    if Crosses(es, m) {
      var key, other, owner :| Has(es, key, m) && Has(es, other, owner) && (Below(key, other) || Below(other, key));
      var low := if Below(key, other) then Entry(key, m) else Entry(other, owner);
      var above := if Below(key, other) then other else key;
      assert low in es && above in files && Below(low.key, above);
      assert Has(es, above, files[above]);
      if low.owner == m || files[above] == m {
        assert Reaches(files, low, m);
      } else {
        assert Has(es, above, m) && Has(es, above, files[above]);
      }
    }
    if Found(files, es, m) {
      var e :| e in es && Reaches(files, e, m);
      var above :| above in files && Below(e.key, above) && (m == e.owner || m == files[above]);
      assert Has(es, e.key, e.owner) && Has(es, above, files[above]);
    }
  }

  /** The entries of a restore, archive members first. */
  method Entries(plan: seq<Placement>, archive: set<string>, fold: Fold) returns (es: seq<Entry>)
    ensures Covers(es, plan, archive, fold)
  {
    es := [];
    var rest := archive;
    while rest != {}
      invariant rest <= archive
      invariant forall key, owner :: Has(es, key, owner) <==> owner in archive - rest && key == fold(AsPosix(owner))
    {
      var p :| p in rest;
      ghost var before := es;
      es := es + [Entry(fold(AsPosix(p)), p)];
      rest := rest - {p};
      assert forall key, owner :: Has(es, key, owner) <==>
          Has(before, key, owner) || Entry(key, owner) == Entry(fold(AsPosix(p)), p);
    }
    for i := 0 to |plan|
      invariant forall key, owner :: Has(es, key, owner) <==> Lands(plan[..i], archive, fold, key, owner)
    {
      var p := plan[i];
      ghost var before := es;
      es := es + [Entry(fold(PosixText(p.dest)), p.member)];
      for j := 0 to |p.sidecars|
        invariant forall key, owner :: Has(es, key, owner) <==>
          Has(before, key, owner) || (owner == p.member && Places(p.(sidecars := p.sidecars[..j]), fold, key))
      {
        es := es + [Entry(fold(PosixText(p.sidecars[j].path)), p.member)];
        PlacesStep(p, fold, j);
      }
      assert p.(sidecars := p.sidecars[..|p.sidecars|]) == p;
      LandsStep(plan, archive, fold, i);
    }
    assert plan[..|plan|] == plan;
  }

  lemma PlacesStep(p: Placement, fold: Fold, j: nat)
    requires j < |p.sidecars|
    ensures forall key :: Places(p.(sidecars := p.sidecars[..j + 1]), fold, key) <==>
              Places(p.(sidecars := p.sidecars[..j]), fold, key) || key == fold(PosixText(p.sidecars[j].path))
  {
    forall key | Places(p.(sidecars := p.sidecars[..j]), fold, key) || key == fold(PosixText(p.sidecars[j].path))
      ensures Places(p.(sidecars := p.sidecars[..j + 1]), fold, key)
    {
      var q := p.sidecars[..j + 1];
      assert q[j] == p.sidecars[j] && forall n :: 0 <= n < j ==> q[n] == p.sidecars[..j][n];
    }
  }

  lemma LandsStep(plan: seq<Placement>, archive: set<string>, fold: Fold, i: nat)
    requires i < |plan|
    ensures forall key, owner :: Lands(plan[..i + 1], archive, fold, key, owner) <==>
              Lands(plan[..i], archive, fold, key, owner) || (owner == plan[i].member && Places(plan[i], fold, key))
  {
    var q, r := plan[..i + 1], plan[..i];
    assert q[i] == plan[i] && forall n :: 0 <= n < i ==> q[n] == r[n];
    forall key, owner | Lands(r, archive, fold, key, owner) ensures Lands(q, archive, fold, key, owner) {
      if n :| 0 <= n < |r| && r[n].member == owner && Places(r[n], fold, key) {
        assert q[n].member == owner && Places(q[n], fold, key);
      }
    }
    forall key, owner | owner == plan[i].member && Places(plan[i], fold, key)
      ensures Lands(q, archive, fold, key, owner)
    {
      assert q[i].member == owner && Places(q[i], fold, key);
    }
  }

  /** Refuse the members of every pair of entries with one key, remembering only the first owner of each key. */
  method SameKeys(es: seq<Entry>, archive: set<string>)
    returns (files: map<string, string>, conflicted: map<string, Detail>)
    ensures Indexes(files, es)
    ensures forall m :: m in conflicted <==> m !in archive && Shares(es, m)
    ensures forall m :: m in conflicted ==> conflicted[m] == SameFile
  {
    files, conflicted := map[], map[];
    for i := 0 to |es|
      invariant Indexes(files, es[..i])
      invariant forall m :: m in conflicted <==> m !in archive && Shares(es[..i], m)
      invariant forall m :: m in conflicted ==> conflicted[m] == SameFile
    {
      var e := es[i];
      assert es[..i + 1] == es[..i] + [e];
      forall m { SharesStep(files, es[..i], e, m); }
      ghost var es' := es[..i + 1];
      assert forall k, o :: Has(es', k, o) <==> Has(es[..i], k, o) || Entry(k, o) == e;
      if e.key !in files {
        files := files[e.key := e.owner];
      } else if files[e.key] != e.owner {
        conflicted := Refuse(conflicted, archive, files[e.key], e.owner, SameFile);
      }
    }
    assert es[..|es|] == es;
  }

  /** The fast check equals the pairwise one: a member is named exactly when it is an import
      that shares a file with another member, or crosses any file at all. */
  method DestinationConflicts(plan: seq<Placement>, archive: set<string>, fold: Fold)
    returns (conflicted: map<string, Detail>)
    ensures forall m :: m in conflicted <==>
              m !in archive && (SharesFile(plan, archive, fold, m) || CrossesFile(plan, archive, fold, m))
    ensures forall m :: m in conflicted ==> (conflicted[m] == SameFile <==> SharesFile(plan, archive, fold, m))
  {
    var es := Entries(plan, archive, fold);
    var files;
    files, conflicted := SameKeys(es, archive);
    ghost var same := conflicted;
    for i := 0 to |es|
      invariant forall m :: m in conflicted <==> m in same || (m !in archive && Found(files, es[..i], m))
      invariant forall m :: m in conflicted ==> (conflicted[m] == SameFile <==> m in same)
    {
      var e := es[i];
      conflicted := Above(files, archive, e, conflicted);
      FoundStep(files, es, i);
    }
    assert es[..|es|] == es;
    forall m { FoundIsAll(files, es, plan, archive, fold, m); }
  }

  /** The entries are exactly the files of the plan and the archive. */
  ghost predicate Covers(es: seq<Entry>, plan: seq<Placement>, archive: set<string>, fold: Fold) {
    forall key, owner :: Has(es, key, owner) <==> Lands(plan, archive, fold, key, owner)
  }

  lemma SharesMeans(es: seq<Entry>, plan: seq<Placement>, archive: set<string>, fold: Fold, m: string)
    requires Covers(es, plan, archive, fold)
    ensures Shares(es, m) <==> SharesFile(plan, archive, fold, m)
  {
    if Shares(es, m) {
      var key, other :| Has(es, key, m) && Has(es, key, other) && other != m;
      assert Lands(plan, archive, fold, key, m) && Lands(plan, archive, fold, key, other);
    }
    if SharesFile(plan, archive, fold, m) {
      var key, other :| Lands(plan, archive, fold, key, m) && Lands(plan, archive, fold, key, other) && other != m;
      assert Has(es, key, m) && Has(es, key, other);
    }
  }

  lemma CrossesMeans(es: seq<Entry>, plan: seq<Placement>, archive: set<string>, fold: Fold, m: string)
    requires Covers(es, plan, archive, fold)
    ensures Crosses(es, m) <==> CrossesFile(plan, archive, fold, m)
  {
    if Crosses(es, m) {
      var key, other, owner :| Has(es, key, m) && Has(es, other, owner) && (Below(key, other) || Below(other, key));
      assert Lands(plan, archive, fold, key, m) && Lands(plan, archive, fold, other, owner);
    }
    if CrossesFile(plan, archive, fold, m) {
      var key, other, owner :|
        && Lands(plan, archive, fold, key, m) && Lands(plan, archive, fold, other, owner)
        && (Below(key, other) || Below(other, key));
      assert Has(es, key, m) && Has(es, other, owner);
    }
  }

  /** What is found among the entries of a restore is what the pairwise definition says. */
  lemma FoundIsAll(files: map<string, string>, es: seq<Entry>, plan: seq<Placement>, archive: set<string>, fold: Fold,
                   m: string)
    requires Indexes(files, es) && Covers(es, plan, archive, fold)
    ensures Shares(es, m) <==> SharesFile(plan, archive, fold, m)
    ensures Shares(es, m) || Found(files, es, m) <==>
              SharesFile(plan, archive, fold, m) || CrossesFile(plan, archive, fold, m)
  {
    SharesMeans(es, plan, archive, fold, m);
    CrossesMeans(es, plan, archive, fold, m);
    FoundIsComplete(files, es, m);
  }

  lemma FoundStep(files: map<string, string>, es: seq<Entry>, i: nat)
    requires i < |es|
    ensures forall m :: Found(files, es[..i + 1], m) <==> Found(files, es[..i], m) || Reaches(files, es[i], m)
  {
    assert es[..i + 1] == es[..i] + [es[i]];
    assert forall e :: e in es[..i + 1] <==> e in es[..i] || e == es[i];
  }

  /** Look up every path above one entry and refuse both sides of each hit. */
  method Above(files: map<string, string>, archive: set<string>, e: Entry, before: map<string, Detail>)
    returns (conflicted: map<string, Detail>)
    ensures forall m :: m in conflicted <==> m in before || (m !in archive && Reaches(files, e, m))
    ensures forall m :: m in before ==> conflicted[m] == before[m]
    ensures forall m :: m in conflicted && m !in before ==> conflicted[m] == NeedsDirectory
  {
    conflicted := before;
    var parts := Split(e.key);
    for i := 1 to |parts|
      invariant forall m :: m in conflicted <==>
                m in before || (m !in archive && HitBefore(files, parts, i, e.owner, m))
      invariant forall m :: m in before ==> conflicted[m] == before[m]
      invariant forall m :: m in conflicted && m !in before ==> conflicted[m] == NeedsDirectory
    {
      var above := Join(parts[..i]);
      HitStep(files, parts, i, e.owner);
      if above in files {
        conflicted := Refuse(conflicted, archive, files[above], e.owner, NeedsDirectory);
      }
    }
    forall m ensures HitBefore(files, parts, |parts|, e.owner, m) <==> Reaches(files, e, m) {
      HitIsReach(files, e, m);
    }
  }

  /** The path made of the first `n` components is a file, and `m` is on one side of the clash. */
  ghost predicate Hit(files: map<string, string>, parts: seq<string>, n: nat, owner: string, m: string)
    requires n <= |parts|
  {
    Join(parts[..n]) in files && (m == owner || m == files[Join(parts[..n])])
  }

  ghost predicate HitBefore(files: map<string, string>, parts: seq<string>, i: nat, owner: string, m: string)
    requires i <= |parts|
  {
    exists n :: 1 <= n < i && Hit(files, parts, n, owner, m)
  }

  lemma HitStep(files: map<string, string>, parts: seq<string>, i: nat, owner: string)
    requires 1 <= i < |parts|
    ensures forall m :: HitBefore(files, parts, i + 1, owner, m) <==>
              HitBefore(files, parts, i, owner, m) || Hit(files, parts, i, owner, m)
  {}

  lemma HitIsReach(files: map<string, string>, e: Entry, m: string)
    ensures HitBefore(files, Split(e.key), |Split(e.key)|, e.owner, m) <==> Reaches(files, e, m)
  {
    var parts := Split(e.key);
    if HitBefore(files, parts, |parts|, e.owner, m) {
      var n :| 1 <= n < |parts| && Hit(files, parts, n, e.owner, m);
      PrefixesOfKey(e.key, Join(parts[..n]));
    }
    if Reaches(files, e, m) {
      var above :| above in files && Below(e.key, above) && (m == e.owner || m == files[above]);
      PrefixesOfKey(e.key, above);
      var n :| 1 <= n < |parts| && Join(parts[..n]) == above;
      assert Hit(files, parts, n, e.owner, m);
    }
  }
}
