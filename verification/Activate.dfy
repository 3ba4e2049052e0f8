/** The restore half of an activate: everything is decided first, then the slot is cleared and written. */
module Activate {
  import opened Lists
  import opened Options
  import opened Paths
  import opened Tree
  import opened Conflicts
  import opened V1Plan
  import opened Restore
  import opened RestoreSafety
  import Manifest
  import Pre = Preflight

  datatype ReadError = TooLarge | TooManyEntries

  function Members(zip: seq<ZipEntry>): seq<ZipEntry> {
    if zip == [] then [] else (if IsDirName(zip[0].info.name) then [] else [zip[0]]) + Members(zip[1..])
  }

  function TotalSize(zip: seq<ZipEntry>): nat {
    if zip == [] then 0 else zip[0].info.size + TotalSize(zip[1..])
  }

  /** The whole-archive limits, which the manifest counts toward as well. */
  function ReadArchiveError(zip: seq<ZipEntry>, maxBytes: nat, maxEntries: nat): Option<ReadError> {
    if TotalSize(Members(zip)) > maxBytes then Some(TooLarge)
    else if |Members(zip)| > maxEntries then Some(TooManyEntries)
    else None
  }

  /** An archive is too large when its files' declared sizes come to more than the limit, and otherwise
      has too many entries when there are more files than the limit; directories count for neither. */
  lemma ReadArchiveMeans(zip: seq<ZipEntry>, maxBytes: nat, maxEntries: nat)
    ensures var e := ReadArchiveError(zip, maxBytes, maxEntries);
            && (e == Some(TooLarge) <==> TotalSize(Members(zip)) > maxBytes)
            && (e.None? <==> TotalSize(Members(zip)) <= maxBytes && |Members(zip)| <= maxEntries)
    ensures forall z :: z in Members(zip) <==> z in zip && !IsDirName(z.info.name)
  {
    if zip != [] {
      ReadArchiveMeans(zip[1..], maxBytes, maxEntries);
    }
  }

  function ImportNames(zip: seq<ZipEntry>): (names: seq<string>)
    ensures forall n :: n in names ==> IsImportName(n)
  {
    if zip == [] then []
    else
      var name := zip[0].info.name;
      (if !IsDirName(name) && name != MANIFEST_NAME && IsImportName(name) then [name] else []) + ImportNames(zip[1..])
  }

  /** Every entry of the zip goes its way by its name: a directory and the manifest go none, what is named
      under the import prefix is an import, and all else is an ordinary member. */
  lemma MemberRoutes(zip: seq<ZipEntry>, i: nat)
    requires i < |zip|
    ensures var n := zip[i].info.name;
            && (n in ImportNames(zip) <==>
                  ".import/" <= n && n[|n| - 1] != '/' && n != ".broker-manifest.json")
            && (zip[i].info in V1Infos(zip) <==>
                  !(".import/" <= n) && (n != "" ==> n[|n| - 1] != '/') && n != ".broker-manifest.json")
  {
    if i > 0 {
      MemberRoutes(zip[1..], i - 1);
    }
    RoutesOnly(zip, zip[i].info);
  }

  lemma {:induction false} RoutesOnly(zip: seq<ZipEntry>, info: Info)
    ensures info.name in ImportNames(zip) ==>
              ".import/" <= info.name && !IsDirName(info.name) && info.name != MANIFEST_NAME
    ensures info in V1Infos(zip) ==> IsV1Name(info.name)
  {
    if zip == [] {
    } else {
      RoutesOnly(zip[1..], info);
    }
  }

  /** The ordinary members preflight weighs imports against: those not under an excluded subtree. */
  function ArchivePaths(infos: seq<Info>, excluded: seq<string>): set<string> {
    set i | 0 <= i < |infos| && !UnderSubtrees(AsPosix(infos[i].name), excluded) :: infos[i].name
  }

  lemma ArchivePathsAreV1(zip: seq<ZipEntry>, excluded: seq<string>)
    ensures forall n :: n in ArchivePaths(V1Infos(zip), excluded) ==> !IsImportName(n)
  {
    var infos := V1Infos(zip);
    forall i | 0 <= i < |infos| ensures !IsImportName(infos[i].name) { V1InfoIsV1(zip, i); }
  }

  lemma KeptNotExcluded(r: Rules, info: Info)
    requires Alone(r, info).Kept?
    ensures !UnderSubtrees(AsPosix(info.name), r.excluded)
  {}

  /** A member a plan keeps is one preflight weighed imports against. */
  lemma KeptAloneInArchive(r: Rules, infos: seq<Info>, excluded: seq<string>, i: nat)
    requires i < |infos| && Alone(r, infos[i]).Kept?
    requires forall s :: s in excluded ==> s in r.excluded
    ensures infos[i].name in ArchivePaths(infos, excluded)
  {
    KeptNotExcluded(r, infos[i]);
    UnderMore(AsPosix(infos[i].name), excluded, r.excluded);
  }

  /** The member is there, unencrypted, in a method that can be read, and reads back whole. */
  predicate Verifies(zip: seq<ZipEntry>, name: string) {
    Readable(zip, name) && MemberProblem(Find(zip, name).value.info, false).None?
  }

  /** Entry `i` is the last one of its name, the one the archive answers it with. */
  ghost predicate LastNamed(zip: seq<ZipEntry>, name: string, i: int) {
    0 <= i < |zip| && zip[i].info.name == name && forall j :: i < j < |zip| ==> zip[j].info.name != name
  }

  /** A name verifies exactly when its last entry is unencrypted, stored or deflated, and reads back whole. */
  lemma VerifiesMeans(zip: seq<ZipEntry>, name: string)
    ensures Verifies(zip, name) <==>
              exists i :: LastNamed(zip, name, i) && zip[i].data.Some? && !zip[i].info.encrypted
                && (zip[i].info.compression == 0 || zip[i].info.compression == 8)
  {
    FindIsLast(zip, name);
    if i :| LastNamed(zip, name, i) {
      forall j ensures LastNamed(zip, name, j) <==> j == i {}
    }
  }

  lemma {:induction false} FindIsLast(zip: seq<ZipEntry>, name: string)
    ensures Find(zip, name).Some? ==> exists i :: LastNamed(zip, name, i) && zip[i] == Find(zip, name).value
    ensures Find(zip, name).None? ==> forall i :: !LastNamed(zip, name, i)
    ensures forall i :: LastNamed(zip, name, i) ==> Find(zip, name) == Some(zip[i])
  {
    if zip != [] {
      var n := |zip| - 1;
      FindIsLast(zip[..n], name);
      if zip[n].info.name == name {
        assert LastNamed(zip, name, n);
      } else {
        forall i ensures LastNamed(zip, name, i) <==> LastNamed(zip[..n], name, i) {}
      }
    }
  }

  /** A member that fails its read check, or the archive for being more than it declared. */
  datatype ReadProblem = OfMember(name: string) | OfArchive

  /** How much of a member comes out: all of it, or what came before the read failed, or nothing
      when its header already rules the read out. */
  function Yield(zip: seq<ZipEntry>, before: string -> nat, name: string): nat {
    var e := Find(zip, name);
    if e.None? || MemberProblem(e.value.info, false).Some? then 0
    else if e.value.data.Some? then |e.value.data.value|
    else before(name)
  }

  /** What comes out of a name is its last entry's data; of one that cannot be read it is what came before the
      failure, and nothing at all when the header already says so, or no entry is named so. */
  lemma YieldMeans(zip: seq<ZipEntry>, before: string -> nat, name: string, i: int)
    ensures Verifies(zip, name) ==> Yield(zip, before, name) == |Find(zip, name).value.data.value|
    ensures LastNamed(zip, name, i) && (zip[i].info.encrypted || zip[i].info.compression !in {0, 8}) ==>
              Yield(zip, before, name) == 0
    ensures LastNamed(zip, name, i) && !zip[i].info.encrypted && zip[i].info.compression in {0, 8} ==>
              Yield(zip, before, name) == if zip[i].data.Some? then |zip[i].data.value| else before(name)
    ensures (forall e :: e in zip ==> e.info.name != name) ==> Yield(zip, before, name) == 0
  {
    FindIsLast(zip, name);
  }

  /** What reading the names comes to, each name once. */
  function Yields(zip: seq<ZipEntry>, before: string -> nat, names: seq<string>): nat {
    if names == [] then 0
    else
      var n := |names| - 1;
      Yields(zip, before, names[..n]) + if names[n] in names[..n] then 0 else Yield(zip, before, names[n])
  }

  /** The read check: each name once, whole, counting the bytes that come out against a budget. Nothing is
      wrong exactly when every member verifies and the budget holds; the archive is at fault exactly
      when it does not, and until then exactly the members that fail are reported. */
  method VerifyMembers(zip: seq<ZipEntry>, names: seq<string>, maxBytes: nat, before: string -> nat)
    returns (problems: seq<ReadProblem>)
    ensures OfArchive in problems <==> Yields(zip, before, names) > maxBytes
    ensures forall n :: OfMember(n) in problems ==> n in names && !Verifies(zip, n)
    ensures Yields(zip, before, names) <= maxBytes ==>
              forall n :: n in names && !Verifies(zip, n) ==> OfMember(n) in problems
    ensures problems == [] <==> Yields(zip, before, names) <= maxBytes && forall n :: n in names ==> Verifies(zip, n)
  {
    problems := [];
    var spent := 0;
    for i := 0 to |names|
      invariant spent == Yields(zip, before, names[..i]) && spent <= maxBytes
      invariant forall p :: p in problems <==> p.OfMember? && p.name in names[..i] && !Verifies(zip, p.name)
    {
      assert names[..i + 1] == names[..i] + [names[i]];
      YieldsGrow(zip, before, names, i + 1);
      if names[i] !in names[..i] {
        var found := Find(zip, names[i]);
        if found.None? || MemberProblem(found.value.info, false).Some? {
          problems := problems + [OfMember(names[i])];
        } else {
          spent := spent + if found.value.data.Some? then |found.value.data.value| else before(names[i]);
          if spent > maxBytes {
            problems := problems + [OfArchive];
            return;
          }
          if found.value.data.None? {
            problems := problems + [OfMember(names[i])];
          }
        }
      }
    }
    assert names[..|names|] == names;
    assert problems != [] ==> problems[0] in problems;
  }

  lemma {:induction false} YieldsGrow(zip: seq<ZipEntry>, before: string -> nat, names: seq<string>, i: nat)
    requires i <= |names|
    ensures Yields(zip, before, names[..i]) <= Yields(zip, before, names)
  {
    if i == |names| {
      assert names[..i] == names;
    } else {
      var init := names[..|names| - 1];
      assert init[..i] == names[..i];
      YieldsGrow(zip, before, init, i);
    }
  }

  // ---- The read budget ----

  function OtherThan(name: string): string -> bool { (n: string) => n != name }

  lemma YieldOfOther(zip: seq<ZipEntry>, e: ZipEntry, before: string -> nat, name: string)
    requires name != e.info.name
    ensures Yield(zip + [e], before, name) == Yield(zip, before, name)
  {
    assert (zip + [e])[..|zip|] == zip;
  }

  lemma YieldsAppend(zip: seq<ZipEntry>, before: string -> nat, names: seq<string>, n: string)
    ensures Yields(zip, before, names + [n])
         == Yields(zip, before, names) + if n in names then 0 else Yield(zip, before, n)
  {
    assert (names + [n])[..|names|] == names;
  }

  lemma OthersAppend(names: seq<string>, n: string, name: string)
    ensures Where(names + [n], OtherThan(name)) == Where(names, OtherThan(name)) + if n != name then [n] else []
  {
    assert (names + [n])[..|names|] == names;
  }

  /** Reading with one more entry at the end reads that entry in place of any earlier one of its name. */
  lemma {:induction false} YieldsWithLast(zip: seq<ZipEntry>, e: ZipEntry, before: string -> nat, names: seq<string>)
    ensures Yields(zip + [e], before, names)
         == Yields(zip, before, Where(names, OtherThan(e.info.name)))
            + if e.info.name in names then Yield(zip + [e], before, e.info.name) else 0
  {
    if names == [] {
    } else {
      var init, n := names[..|names| - 1], names[|names| - 1];
      var others := Where(init, OtherThan(e.info.name));
      assert names == init + [n];
      YieldsWithLast(zip, e, before, init);
      YieldsAppend(zip + [e], before, init, n);
      OthersAppend(init, n, e.info.name);
      if n != e.info.name {
        WhereHolds(init, OtherThan(e.info.name));
        assert OtherThan(e.info.name)(n);
        YieldOfOther(zip, e, before, n);
        YieldsAppend(zip, before, others, n);
      } else {
        assert others + [] == others;
      }
    }
  }

  function SizeIn(e: ZipEntry): nat { if IsDirName(e.info.name) then 0 else e.info.size }

  lemma SizeOfFirst(zip: seq<ZipEntry>)
    requires zip != []
    ensures TotalSize(Members(zip)) == SizeIn(zip[0]) + TotalSize(Members(zip[1..]))
  {
    var rest := Members(zip[1..]);
    if IsDirName(zip[0].info.name) {
      assert [] + rest == rest;
    } else {
      assert ([zip[0]] + rest)[1..] == rest;
    }
  }

  lemma {:induction false} SizeAppend(zip: seq<ZipEntry>, e: ZipEntry)
    ensures TotalSize(Members(zip + [e])) == TotalSize(Members(zip)) + SizeIn(e)
  {
    SizeOfFirst(zip + [e]);
    if zip == [] {
      assert (zip + [e])[1..] == [];
    } else {
      assert (zip + [e])[1..] == zip[1..] + [e];
      SizeOfFirst(zip);
      SizeAppend(zip[1..], e);
    }
  }

  /** No entry comes out longer than its header declares. */
  ghost predicate CutAtDeclared(zip: seq<ZipEntry>) {
    forall i :: 0 <= i < |zip| && zip[i].data.Some? ==> |zip[i].data.value| <= zip[i].info.size
  }

  lemma {:induction false} NothingYields(before: string -> nat, names: seq<string>)
    ensures Yields([], before, names) == 0
  {
    if names == [] {
    } else {
      NothingYields(before, names[..|names| - 1]);
    }
  }

  /** An archive within the whole-archive limit never spends the read budget on members that verify. */
  lemma {:induction false} BudgetSuffices(zip: seq<ZipEntry>, before: string -> nat, names: seq<string>)
    requires CutAtDeclared(zip)
    requires forall n :: n in names ==> Verifies(zip, n) && !IsDirName(n)
    ensures Yields(zip, before, names) <= TotalSize(Members(zip))
    decreases |zip|
  {
    if zip == [] {
      NothingYields(before, names);
    } else {
      var init, e := zip[..|zip| - 1], zip[|zip| - 1];
      assert zip == init + [e];
      var others := Where(names, OtherThan(e.info.name));
      WhereHolds(names, OtherThan(e.info.name));
      forall n | n in others ensures Verifies(init, n) && !IsDirName(n) {
        assert n in names && Find(zip, n) == Find(init, n);
      }
      BudgetSuffices(init, before, others);
      YieldsWithLast(init, e, before, names);
      SizeAppend(init, e);
      assert e.info.name in names ==> Verifies(zip, e.info.name) && Find(zip, e.info.name) == Some(e);
    }
  }

  /** What one activate brings: the archive, its manifest as read, the emulator, and the disk. */
  datatype Launch = Launch(
    zip: seq<ZipEntry>,
    manifest: Manifest.Json,
    manifestError: Option<string>,
    emulator: Pre.Emulator,
    rules: Rules,
    resumeSlot: Option<int>,
    maxBytes: nat,
    maxEntries: nat,
    before: string -> nat,
    exempt: string -> bool)

  function CtxOf(x: Launch): Pre.Ctx {
    Pre.Ctx(x.resumeSlot,
            ArchivePaths(V1Infos(x.zip), x.emulator.excluded), V1Bytes(V1Infos(x.zip), x.emulator.excluded),
            (name: string) => var e := Find(x.zip, name); if e.Some? then e.value.info.size else 0,
            x.maxBytes, x.maxEntries)
  }

  /** An import is weighed at the size its last entry declares. */
  lemma SizesAreDeclared(x: Launch, name: string, i: int)
    requires LastNamed(x.zip, name, i)
    ensures CtxOf(x).sizeOf(name) == x.zip[i].info.size
  {
    FindIsLast(x.zip, name);
  }

  function V1Weight(info: Info, excluded: seq<string>): nat {
    if UnderSubtrees(AsPosix(info.name), excluded) then 0 else info.size
  }

  function V1Bytes(infos: seq<Info>, excluded: seq<string>): nat {
    if infos == [] then 0 else V1Weight(infos[0], excluded) + V1Bytes(infos[1..], excluded)
  }

  ghost predicate Under(rel: string, subtrees: seq<string>) { exists s :: s in subtrees && s + "/" <= rel }

  /** What the archive's own members weigh: each adds its declared size, but for those under an excluded subtree. */
  lemma V1BytesMean(infos: seq<Info>, i: nat, excluded: seq<string>)
    requires i < |infos|
    ensures V1Bytes(infos, excluded) == V1Bytes(infos[..i] + infos[i + 1..], excluded)
              + (if Under(AsPosix(infos[i].name), excluded) then 0 else infos[i].size)
    ensures V1Bytes([], excluded) == 0
  {
    V1BytesSplit(infos, i, excluded);
    UnderMeans(AsPosix(infos[i].name), excluded);
  }

  lemma UnderMeans(rel: string, subtrees: seq<string>)
    ensures UnderSubtrees(rel, subtrees) <==> Under(rel, subtrees)
  {
    assert "/" == [SEP];
  }

  lemma {:induction false} V1BytesSplit(infos: seq<Info>, i: nat, excluded: seq<string>)
    requires i < |infos|
    ensures V1Bytes(infos, excluded) == V1Bytes(infos[..i] + infos[i + 1..], excluded) + V1Weight(infos[i], excluded)
  {
    if i == 0 {
      assert infos[..0] + infos[1..] == infos[1..];
    } else {
      var others := infos[..i] + infos[i + 1..];
      V1BytesSplit(infos[1..], i - 1, excluded);
      assert infos[1..][..i - 1] + infos[1..][i..] == others[1..];
    }
  }

  /** The emulator is coherent: plain subtrees, hooks that behave, a plan that covers the emulator's
      subtrees but for excluded ones (a memory card synced on its own), and passes over at least
      what preflight does. */
  ghost predicate SoundEmulator(x: Launch) {
    && (forall s :: s in x.emulator.subtrees ==> PlainSubtree(s))
    && Pre.HooksBehave(x.emulator)
    && (forall s :: s in x.rules.subtrees ==> s in x.emulator.subtrees)
    && (forall s :: s in x.emulator.subtrees ==> s in x.rules.subtrees || s in x.emulator.excluded)
    && (forall s :: s in x.emulator.excluded ==> s in x.rules.excluded)
  }

  /** What an accepted activate is about to write. */
  ghost function RestorationOf(x: Launch, plan: Plan, imports: seq<Placement>, when: real): Restoration {
    Restoration(x.zip, x.rules, plan, imports, ArchivePaths(V1Infos(x.zip), x.emulator.excluded),
                x.emulator.fold, x.exempt, when)
  }

  ghost predicate NoneRefused(env: Env, v: seq<Item>) {
    forall i :: 0 <= i < |v| ==> !FateOf(env, v, i).Refused?
  }

  /** Every member to be written reads back whole, within the budget. */
  ghost predicate AllRead(x: Launch, names: seq<string>) {
    Yields(x.zip, x.before, names) <= x.maxBytes && forall n :: n in names ==> Verifies(x.zip, n)
  }

  /** What makes an archive acceptable: it is within the limits, no ordinary member is refused, its
      imports can all be placed, and everything to be written reads back. */
  ghost predicate Acceptable(x: Launch) {
    var names, v := ImportNames(x.zip), View(x.rules, V1Infos(x.zip));
    && ReadArchiveError(x.zip, x.maxBytes, x.maxEntries).None?
    && AllSettled(x.rules, V1Infos(x.zip))
    && (names != [] ==> Pre.Placeable(x.emulator, CtxOf(x), x.manifest, x.manifestError, names))
    && AllRead(x, KeptNames(x.rules.env, v, |v|) + names)
  }

  lemma SettledIsNoneRefused(r: Rules, infos: seq<Info>)
    ensures NoneRefused(r.env, View(r, infos)) <==> AllSettled(r, infos)
  {
    forall i | 0 <= i < |infos|
      ensures Unopposed(r, infos, i) || PassedOver(r, infos[i]) <==> !FateOf(r.env, View(r, infos), i).Refused?
    {
      SettledMeans(r, infos, i);
    }
  }

  /** Each import name has its placement, and together they are approved. */
  ghost predicate Placed(x: Launch, placements: seq<Placement>) {
    && MembersOf(placements) == ImportNames(x.zip)
    && (placements == []
        || Approved(placements, ArchivePaths(V1Infos(x.zip), x.emulator.excluded), x.emulator.fold, x.rules.subtrees))
  }

  /** What has been settled when nothing is refused: the plan, the placements, and that everything reads back. */
  ghost predicate Settled(x: Launch, plan: Plan, placements: seq<Placement>) {
    var v := View(x.rules, V1Infos(x.zip));
    && plan.names == KeptNames(x.rules.env, v, |v|)
    && Placed(x, placements)
    && forall n :: n in plan.names + MembersOf(placements) ==> Verifies(x.zip, n)
  }

  /** Place the imports, if the archive carries any, or stop at the plan's own problems. */
  method PlaceAll(x: Launch, plan: Plan) returns (accepted: bool, placements: seq<Placement>)
    requires SoundEmulator(x)
    ensures var names := ImportNames(x.zip);
            accepted <==> plan.problems == []
                          && (names != [] ==> Pre.Placeable(x.emulator, CtxOf(x), x.manifest, x.manifestError, names))
    ensures accepted ==> Placed(x, placements)
  {
    var names := ImportNames(x.zip);
    if names != [] {
      accepted, placements := Imports(x, names, plan.problems);
    } else {
      accepted, placements := plan.problems == [], [];
    }
    assert accepted ==> MembersOf(placements) == names;
  }

  /** Weigh the archive, its imports and its bytes, in that order. */
  method Weigh(x: Launch) returns (refused: bool, plan: Plan, placements: seq<Placement>)
    requires SoundEmulator(x)
    ensures refused <==> !Acceptable(x)
    ensures !refused ==> Settled(x, plan, placements)
    ensures var v := View(x.rules, V1Infos(x.zip)); plan.excludedCount == DroppedCount(v, |v|)
  {
    plan := PlanV1(x.rules, V1Infos(x.zip));
    refused, placements := true, [];
    if ReadArchiveError(x.zip, x.maxBytes, x.maxEntries).Some? {
      return;
    }
    var accepted;
    accepted, placements := PlaceAll(x, plan);
    if !accepted {
      return;
    }
    var problems := VerifyMembers(x.zip, plan.names + ImportNames(x.zip), x.maxBytes, x.before);
    refused := problems != [];
  }

  /** Decide the whole restore without touching the tree. An archive is accepted exactly when it is
      acceptable, and is then approved: every import has its placement and every write its bytes. */
  method Decide(x: Launch, when: real) returns (refused: bool, plan: Plan, placements: seq<Placement>)
    requires SoundEmulator(x)
    ensures refused <==> !Acceptable(x)
    ensures !refused ==> ApprovedRestore(RestorationOf(x, plan, placements, when))
    ensures !refused ==> MembersOf(placements) == ImportNames(x.zip)
    ensures var v := View(x.rules, V1Infos(x.zip)); plan.excludedCount == DroppedCount(v, |v|)
  {
    refused, plan, placements := Weigh(x);
    if !refused {
      VerifiedRead(x.zip, plan.names, placements);
      RestoreApproved(x, RestorationOf(x, plan, placements, when));
    }
  }

  function MembersOf(ps: seq<Placement>): seq<string> {
    seq(|ps|, i requires 0 <= i < |ps| => ps[i].member)
  }

  /** Preflight for an archive that carries imports, its v1 problems folded in. */
  method Imports(x: Launch, names: seq<string>, problems: seq<Report>)
    returns (accepted: bool, placements: seq<Placement>)
    requires SoundEmulator(x) && names == ImportNames(x.zip)
    ensures accepted <==> problems == [] && Pre.Placeable(x.emulator, CtxOf(x), x.manifest, x.manifestError, names)
    ensures accepted ==>
              Approved(placements, ArchivePaths(V1Infos(x.zip), x.emulator.excluded), x.emulator.fold, x.rules.subtrees)
    ensures accepted ==> |placements| == |names| && forall i :: 0 <= i < |names| ==> placements[i].member == names[i]
    ensures !accepted ==> placements == []
  {
    var c := CtxOf(x);
    ArchivePathsAreV1(x.zip, x.emulator.excluded);
    var folded := seq(|problems|, i requires 0 <= i < |problems| => FoldProblem(problems[i]));
    var refusals, entries;
    placements, refusals, entries := Pre.Preflight(x.emulator, c, x.manifest, x.manifestError, names, folded);
    accepted := refusals == [];
    if accepted {
      Pre.AcceptedIsApproved(x.emulator, c, x.manifest, x.manifestError, names, entries, placements, x.rules.subtrees);
    }
  }

  /** An archive that is not acceptable leaves the tree untouched; any other is restored into the
      cleared tree with no write failing or skipped, which is then the cleared one plus exactly the
      planned files. */
  method RestoreArchive(x: Launch, t: Tree, cleared: Tree, dirTime: Path -> real, when: real)
    returns (refused: bool, tree: Tree, result: Result, ghost y: Restoration)
    requires SoundEmulator(x) && WellFormed(cleared) && Cleared(cleared, x.rules.subtrees)
    ensures refused <==> !Acceptable(x)
    ensures refused ==> tree == t
    ensures !refused ==>
              && y == RestorationOf(x, y.plan, y.imports, when) && ApprovedRestore(y)
              && MembersOf(y.imports) == ImportNames(x.zip)
    ensures !refused ==>
              var v := View(x.rules, V1Infos(x.zip));
              && y.plan.names == KeptNames(x.rules.env, v, |v|) && y.plan.excludedCount == DroppedCount(v, |v|)
              && result == Result(|y.plan.names|, 0, y.plan.excludedCount, 0, |ImportNames(x.zip)|)
    ensures !refused ==>
              && tree.files == cleared.files + Planned(Writes(y))
              && forall p :: p in Planned(Writes(y)) ==> p !in cleared.files
  {
    var plan, placements;
    refused, plan, placements := Decide(x, when);
    y := RestorationOf(x, plan, placements, when);
    tree, result := t, Result(0, 0, 0, 0, 0);
    if !refused {
      NoFailureAfterClear(y, cleared, dirTime);
      PlannedIsNew(y, cleared);
      tree, result := WriteSaveArchive(x.zip, cleared,
                                       ArchivePlan(plan.names, plan.excludedCount,
                                                   PlacedOf(placements), SidecarsOf(placements)),
                                       x.exempt, dirTime, when);
    }
  }

  /** A v1 problem as preflight reports it beside an import's own refusals. */
  function FoldProblem(p: Report): Pre.Refusal {
    Pre.Refusal(match p.problem
                case Escapes => Pre.UnsafePath
                case Symlink => Pre.UnsafePath
                case NamesSubtree => Pre.UnrecognisedLayout
                case Outside => Pre.UnrecognisedLayout
                case Unreadable => Pre.UnreadableMember
                case Scratch => Pre.UnrecognisedLayout
                case DuplicateMember => Pre.UnsafePath
                case Collides => Pre.DestinationConflict
                case TooLong => Pre.UnsafePath
                case Unwritable => Pre.FromHook("destination_unresolvable"),
                Some(p.name))
  }

  lemma VerifiedRead(zip: seq<ZipEntry>, names: seq<string>, imports: seq<Placement>)
    requires forall n :: n in names + MembersOf(imports) ==> Verifies(zip, n)
    ensures forall n :: n in names ==> Readable(zip, n)
    ensures forall i :: 0 <= i < |imports| ==> Readable(zip, imports[i].member)
  {
    var all := names + MembersOf(imports);
    forall n | n in names ensures Readable(zip, n) { assert n in all; }
    forall i | 0 <= i < |imports| ensures Readable(zip, imports[i].member) {
      assert MembersOf(imports)[i] in all;
    }
  }

  lemma RestoreApproved(x: Launch, y: Restoration)
    requires SoundEmulator(x) && y == RestorationOf(x, y.plan, y.imports, y.when)
    requires var v := View(x.rules, V1Infos(x.zip)); y.plan.names == KeptNames(x.rules.env, v, |v|)
    requires y.imports == [] || Approved(y.imports, y.archive, y.fold, x.rules.subtrees)
    requires forall n :: n in y.plan.names ==> Readable(x.zip, n)
    requires forall i :: 0 <= i < |y.imports| ==> Readable(x.zip, y.imports[i].member)
    ensures ApprovedRestore(y)
  {
    NamesInArchive(x, y.archive, y.plan.names);
    if y.imports == [] {
      NoImportsApproved(y.archive, y.fold, x.rules.subtrees);
    }
  }

  lemma NamesInArchive(x: Launch, archive: set<string>, names: seq<string>)
    requires SoundEmulator(x) && archive == ArchivePaths(V1Infos(x.zip), x.emulator.excluded)
    requires var v := View(x.rules, V1Infos(x.zip)); names == KeptNames(x.rules.env, v, |v|)
    ensures forall name :: name in names ==> name in archive
  {
    var v := View(x.rules, V1Infos(x.zip));
    forall n | 0 <= n < |names| ensures names[n] in archive {
      var i := KeptAt(x.rules.env, v, |v|, n);
      KeptAloneInArchive(x.rules, V1Infos(x.zip), x.emulator.excluded, i);
    }
  }

  lemma PlannedIsNew(y: Restoration, t: Tree)
    requires ApprovedRestore(y) && WellFormed(t) && Cleared(t, y.rules.subtrees)
    ensures forall p :: p in Planned(Writes(y)) ==> p !in t.files
  {
    var ws := Writes(y);
    PlannedKeys(ws);
    forall n | 0 <= n < |ws| ensures ws[n].path !in t.files { StepFree(y, t, n); }
  }
}
