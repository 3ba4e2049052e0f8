/** Placing or refusing each import, all of them before any file moves (`preflight`, `check_plan`). */
module Preflight {
  import opened Options
  import opened Paths
  import opened Tree
  import opened Conflicts
  import opened V1Plan
  import opened RestoreSafety
  import Manifest

  datatype Reason =
    | ManifestInvalid | UnsafePath | UnreadableMember
    | StateUsesPush | KindNotAccepted | ResumeSlotRequired
    | DestinationConflict | MemcardSyncedSeparately | UnrecognisedLayout | ProtectedDestination | TooLarge
    | IncompleteUnit
    | FromHook(code: string)

  /** Why one member (or, for None, the whole import) cannot be placed. */
  datatype Refusal = Refusal(reason: Reason, member: Option<string>)

  datatype KindSpec = KindSpec(kind: string, requiresResumeSlot: bool, maxMembers: Option<nat>, countsV1: bool)

  /** What an emulator's placement hook answers for one member. */
  datatype Answer = Refuse(reason: Reason) | Place(dest: Path, sidecars: seq<Sidecar>)

  /** Saves that only make sense whole: the components that name a unit, the files each needs, and
      the subtree the rule is about when it is about one. */
  datatype Units = Units(depth: nat, needs: set<string>, subtree: Option<string>)

  /** The emulator's side of an import: its spec, its hooks, and what the disk answers. */
  datatype Emulator = Emulator(
    kinds: seq<KindSpec>,
    statesArePushed: bool,
    fold: Fold,
    subtrees: seq<string>,
    excluded: seq<string>,
    isProtected: string -> bool,
    escapes: string -> bool,
    hygiene: Manifest.ManifestEntry -> Option<Reason>,
    place: Manifest.ManifestEntry -> Answer,
    isCompanion: (string, KindSpec) -> bool,
    v1Kind: string -> string,
    units: Units,
    planHook: seq<Placement> -> seq<Refusal>)

  /** The launch's resume slot, and the archive's sizes and limits. */
  datatype Ctx = Ctx(
    resumeSlot: Option<int>,
    archive: set<string>,
    v1Bytes: nat,
    sizeOf: string -> nat,
    maxBytes: nat,
    maxEntries: nat)

  // ---- The kind gate ----

  function SpecFor(kinds: seq<KindSpec>, kind: string): (r: Option<KindSpec>)
    ensures r.Some? ==> r.value in kinds && r.value.kind == kind
    ensures r.None? ==> forall k :: k in kinds ==> k.kind != kind
  {
    if kinds == [] then None else if kinds[0].kind == kind then Some(kinds[0]) else SpecFor(kinds[1..], kind)
  }

  function GateKind(e: Emulator, c: Ctx, kind: string): Option<Reason> {
    match SpecFor(e.kinds, kind)
    case None => if kind == "state" && e.statesArePushed then Some(StateUsesPush) else Some(KindNotAccepted)
    case Some(s) => if s.requiresResumeSlot && c.resumeSlot.None? then Some(ResumeSlotRequired) else None
  }

  /** A kind is let through exactly when the emulator takes it and, where it wants a resume slot, the
      launch has one; of a kind it does not take, only a pushed state is told to come another way. */
  lemma GateMeans(e: Emulator, c: Ctx, kind: string)
    ensures var why := GateKind(e, c, kind);
            && (why.None? <==>
                  exists i :: FirstOfKind(e.kinds, kind, i) && (e.kinds[i].requiresResumeSlot ==> c.resumeSlot.Some?))
            && (why == Some(ResumeSlotRequired) <==>
                  exists i :: FirstOfKind(e.kinds, kind, i) && e.kinds[i].requiresResumeSlot && c.resumeSlot.None?)
            && (why == Some(StateUsesPush) <==>
                  kind == "state" && e.statesArePushed && forall s :: s in e.kinds ==> s.kind != kind)
            && (why == Some(KindNotAccepted) <==>
                  !(kind == "state" && e.statesArePushed) && forall s :: s in e.kinds ==> s.kind != kind)
  {
    var s := SpecFor(e.kinds, kind);
    if s.Some? {
      var i := SpecIsFirst(e.kinds, kind);
      assert forall k :: FirstOfKind(e.kinds, kind, k) ==> k == i;
    }
  }

  ghost predicate FirstOfKind(kinds: seq<KindSpec>, kind: string, i: int) {
    0 <= i < |kinds| && kinds[i].kind == kind && forall k :: 0 <= k < i ==> kinds[k].kind != kind
  }

  lemma {:induction false} SpecIsFirst(kinds: seq<KindSpec>, kind: string) returns (i: nat)
    requires SpecFor(kinds, kind).Some?
    ensures FirstOfKind(kinds, kind, i) && SpecFor(kinds, kind) == Some(kinds[i])
  {
    i := 0;
    if kinds[0].kind != kind {
      i := SpecIsFirst(kinds[1..], kind);
      i := i + 1;
    }
  }

  // ---- The save tree's rules ----

  function SaveTreeRefusal(e: Emulator, dest: Path, sidecar: bool): Option<Reason> {
    var rel := PosixText(dest);
    if UnderSubtrees(rel, e.excluded) then Some(MemcardSyncedSeparately)
    else if rel in e.subtrees || !UnderSubtrees(rel, e.subtrees) then Some(UnrecognisedLayout)
    else if !sidecar && e.isProtected(rel) then Some(ProtectedDestination)
    else if e.escapes(LongestSubtree(rel, e.subtrees).value) then Some(UnsafePath)
    else None
  }

  function First(rs: seq<Option<Reason>>): (r: Option<Reason>)
    ensures r.None? <==> forall n :: 0 <= n < |rs| ==> rs[n].None?
  {
    if rs == [] then None else if rs[0].Some? then rs[0] else First(rs[1..])
  }

  /** What the first of a placement's files to break a rule breaks, its destination first. */
  function TreeRefusal(e: Emulator, p: Placement): Option<Reason> {
    First(seq(|p.sidecars| + 1, n requires 0 <= n <= |p.sidecars| => SaveTreeRefusal(e, FileOf(p, n), n > 0)))
  }

  lemma TreeRefusalNone(e: Emulator, p: Placement, n: nat)
    requires TreeRefusal(e, p).None? && n <= |p.sidecars|
    ensures UnderSubtrees(PosixText(FileOf(p, n)), e.subtrees) && !UnderSubtrees(PosixText(FileOf(p, n)), e.excluded)
  {
    var rs := seq(|p.sidecars| + 1, n requires 0 <= n <= |p.sidecars| => SaveTreeRefusal(e, FileOf(p, n), n > 0));
    assert rs[n].None?;
  }

  /** A file a placement may write: inside a subtree and none itself, outside the excluded ones, in no place
      reserved for the emulator's own files, and on no way out of the root. */
  ghost predicate MayLand(e: Emulator, dest: Path, sidecar: bool) {
    var rel := PosixText(dest);
    && UnderSubtrees(rel, e.subtrees) && rel !in e.subtrees && !UnderSubtrees(rel, e.excluded)
    && (sidecar || !e.isProtected(rel))
    && forall s ::
         && s in e.subtrees && s + [SEP] <= rel
         && (forall o :: o in e.subtrees && o + [SEP] <= rel ==> |o| <= |s|)
         ==> !e.escapes(s)
  }

  lemma LandMeans(e: Emulator, dest: Path, sidecar: bool)
    ensures SaveTreeRefusal(e, dest, sidecar).None? <==> MayLand(e, dest, sidecar)
  {
    var rel := PosixText(dest);
    if UnderSubtrees(rel, e.subtrees) {
      var longest := LongestSubtree(rel, e.subtrees).value;
      forall s | && s in e.subtrees && s + [SEP] <= rel
                 && (forall o :: o in e.subtrees && o + [SEP] <= rel ==> |o| <= |s|)
        ensures s == longest
      {
        OneLongest(rel, s, longest);
      }
    }
  }

  /** The tree's rules refuse a placement exactly when one of its files may not land where it would. */
  lemma TreeMeans(e: Emulator, p: Placement)
    ensures TreeRefusal(e, p).None? <==> forall n :: 0 <= n <= |p.sidecars| ==> MayLand(e, FileOf(p, n), n > 0)
  {
    var rs := seq(|p.sidecars| + 1, n requires 0 <= n <= |p.sidecars| => SaveTreeRefusal(e, FileOf(p, n), n > 0));
    forall n | 0 <= n <= |p.sidecars| ensures rs[n].None? <==> MayLand(e, FileOf(p, n), n > 0) {
      LandMeans(e, FileOf(p, n), n > 0);
    }
  }

  // ---- Counts and sizes ----

  /** The kind a declared member's path names. */
  function KindOf(name: string): string { if |Split(name)| >= 3 then Split(name)[1] else "" }

  /** A member declared without a flaw counts as the kind it declares. */
  lemma KindIsDeclared(entry: Manifest.Json, path: string, present: set<string>)
    requires entry.JObj? && IMPORT_PREFIX <= path && Manifest.EntryFlaw(entry, path, present).None?
    ensures "kind" in entry.fields && entry.fields["kind"] == Manifest.JStr(KindOf(path))
  {}

  predicate CountsToward(e: Emulator, s: KindSpec, p: Placement) {
    KindOf(p.member) == s.kind && !e.isCompanion(p.member, s)
  }

  function CountMine(e: Emulator, s: KindSpec, plan: seq<Placement>): nat {
    if plan == [] then 0 else (if CountsToward(e, s, plan[0]) then 1 else 0) + CountMine(e, s, plan[1..])
  }

  /** The archive members that count toward a kind as well. */
  function V1OfKind(e: Emulator, s: KindSpec, c: Ctx): set<string> {
    if s.countsV1 then set rel | rel in c.archive && !e.isProtected(rel) && e.v1Kind(rel) == s.kind else {}
  }

  predicate OverLimit(e: Emulator, c: Ctx, s: KindSpec, plan: seq<Placement>) {
    s.maxMembers.Some? && CountMine(e, s, plan) + |V1OfKind(e, s, c)| > s.maxMembers.value
  }

  /** The members of a plan that count toward a kind. */
  function Counting(e: Emulator, s: KindSpec, plan: seq<Placement>): int -> bool {
    j => 0 <= j < |plan| && CountsToward(e, s, plan[j])
  }

  /** A kind is over its limit when the members of the plan that count toward it and the archive's own of
      that kind are, together, more than it allows. */
  lemma OverLimitMeans(e: Emulator, c: Ctx, s: KindSpec, plan: seq<Placement>)
    ensures OverLimit(e, c, s, plan) <==>
              && s.maxMembers.Some?
              && |set j | 0 <= j < |plan| && KindOf(plan[j].member) == s.kind && !e.isCompanion(plan[j].member, s)|
                 + |set rel | rel in c.archive && s.countsV1 && !e.isProtected(rel) && e.v1Kind(rel) == s.kind|
                   > s.maxMembers.value
  {
    CountMineIs(e, s, plan);
    assert Those(|plan|, Counting(e, s, plan))
        == set j | 0 <= j < |plan| && KindOf(plan[j].member) == s.kind && !e.isCompanion(plan[j].member, s);
    assert V1OfKind(e, s, c)
        == set rel | rel in c.archive && s.countsV1 && !e.isProtected(rel) && e.v1Kind(rel) == s.kind;
  }

  lemma {:induction false} CountMineIs(e: Emulator, s: KindSpec, plan: seq<Placement>)
    ensures CountMine(e, s, plan) == |Those(|plan|, Counting(e, s, plan))|
  {
    if plan == [] {
      assert Those(0, Counting(e, s, plan)) == {};
    } else {
      var n := |plan| - 1;
      CountMineIs(e, s, plan[..n]);
      CountMineAppend(e, s, plan[..n], plan[n]);
      assert plan == plan[..n] + [plan[n]];
      ThoseStep(n, Counting(e, s, plan));
      assert Those(n, Counting(e, s, plan)) == Those(n, Counting(e, s, plan[..n]));
    }
  }

  lemma {:induction false} CountMineAppend(e: Emulator, s: KindSpec, plan: seq<Placement>, p: Placement)
    ensures CountMine(e, s, plan + [p]) == CountMine(e, s, plan) + if CountsToward(e, s, p) then 1 else 0
  {
    if plan == [] {
      assert plan + [p] == [p];
    } else {
      assert (plan + [p])[1..] == plan[1..] + [p];
      CountMineAppend(e, s, plan[1..], p);
    }
  }

  function SidecarBytes(s: seq<Sidecar>): nat {
    if s == [] then 0 else |s[0].data| + SidecarBytes(s[1..])
  }

  function TotalBytes(c: Ctx, plan: seq<Placement>): nat {
    if plan == [] then c.v1Bytes
    else TotalBytes(c, plan[..|plan| - 1]) + c.sizeOf(plan[|plan| - 1].member) + SidecarBytes(plan[|plan| - 1].sidecars)
  }

  function TotalEntries(c: Ctx, plan: seq<Placement>): nat {
    if plan == [] then |c.archive| else TotalEntries(c, plan[..|plan| - 1]) + 1 + |plan[|plan| - 1].sidecars|
  }

  /** The bytes of all sidecars, one after the other. */
  function SidecarData(s: seq<Sidecar>): seq<bv8> { if s == [] then [] else s[0].data + SidecarData(s[1..]) }

  lemma {:induction false} SidecarBytesMean(s: seq<Sidecar>)
    ensures SidecarBytes(s) == |SidecarData(s)|
  {
    if s != [] { SidecarBytesMean(s[1..]); }
  }

  /** What a plan weighs on top of the archive's own members is the sum over its placements, each with its
      member's declared size and the bytes of its sidecars. */
  lemma {:induction false} BytesAddUp(c: Ctx, a: seq<Placement>, p: Placement, b: seq<Placement>)
    ensures TotalBytes(c, []) == c.v1Bytes
    ensures TotalBytes(c, a + [p] + b)
         == TotalBytes(c, a + b) + c.sizeOf(p.member) + |SidecarData(p.sidecars)|
    decreases |b|
  {
    SidecarBytesMean(p.sidecars);
    if b == [] {
      assert a + [p] + b == a + [p] && a + b == a && (a + [p])[..|a|] == a;
    } else {
      var init, last := b[..|b| - 1], b[|b| - 1];
      BytesAddUp(c, a, p, init);
      assert (a + [p] + b)[..|a| + |b|] == a + [p] + init && (a + b)[..|a| + |init|] == a + init;
    }
  }

  /** Every file of a plan: its placement, and which of the placement's files it is. */
  ghost function FilesIn(plan: seq<Placement>): set<(int, int)> {
    set i, k | 0 <= i < |plan| && 0 <= k <= |plan[i].sidecars| :: (i, k)
  }

  /** The entries a plan is weighed at are the archive's own members and the files it writes. */
  lemma {:induction false} EntriesMean(c: Ctx, plan: seq<Placement>)
    ensures TotalEntries(c, plan) == |c.archive| + |FilesIn(plan)|
  {
    if plan == [] {
      assert FilesIn(plan) == {};
    } else {
      var n := |plan| - 1;
      EntriesMean(c, plan[..n]);
      var last := set k | 0 <= k <= |plan[n].sidecars| :: (n, k);
      assert FilesIn(plan) == FilesIn(plan[..n]) + last;
      assert FilesIn(plan[..n]) !! last;
      PairsCount(n, |plan[n].sidecars| + 1);
      assert last == set k | 0 <= k < |plan[n].sidecars| + 1 :: (n, k);
    }
  }

  lemma {:induction false} PairsCount(i: int, m: nat)
    ensures |set k | 0 <= k < m :: (i, k)| == m
  {
    if m == 0 {
      assert (set k | 0 <= k < m :: (i, k)) == {};
    } else {
      PairsCount(i, m - 1);
      assert (set k | 0 <= k < m :: (i, k)) == (set k | 0 <= k < m - 1 :: (i, k)) + {(i, m - 1)};
    }
  }

  // ---- The plan as a whole ----

  ghost predicate Unclashing(e: Emulator, c: Ctx, plan: seq<Placement>) {
    forall m :: m !in c.archive ==> !SharesFile(plan, c.archive, e.fold, m) && !CrossesFile(plan, c.archive, e.fold, m)
  }

  ghost predicate WithinCounts(e: Emulator, c: Ctx, plan: seq<Placement>) {
    forall s, p :: s in e.kinds && p in plan && CountsToward(e, s, p) ==> !OverLimit(e, c, s, plan)
  }

  ghost predicate InTheTree(e: Emulator, plan: seq<Placement>) {
    forall p :: p in plan ==> TreeRefusal(e, p).None?
  }

  /** Every rule a plan is held to. */
  ghost predicate PlanOk(e: Emulator, c: Ctx, plan: seq<Placement>) {
    && Unclashing(e, c, plan)
    && WithinCounts(e, c, plan)
    && InTheTree(e, plan)
    && TotalBytes(c, plan) <= c.maxBytes && TotalEntries(c, plan) <= c.maxEntries
    && WholeUnits(e.units, plan)
    && e.planHook(plan) == []
  }

  // ---- Whole units ----

  /** The placement is part of a unit the rule is about. */
  predicate InUnit(u: Units, p: Placement) { u.subtree.Some? ==> p.dest != [] && p.dest[0] == u.subtree.value }

  function UnitOf(u: Units, p: Placement): Path { if |p.dest| <= u.depth then p.dest else p.dest[..u.depth] }

  /** The file's name within its unit. */
  function WithinUnit(u: Units, p: Placement): string {
    PosixText(if |p.dest| <= u.depth then [] else p.dest[u.depth..])
  }

  ghost predicate Supplies(u: Units, plan: seq<Placement>, unit: Path, name: string) {
    exists i :: 0 <= i < |plan| && InUnit(u, plan[i]) && UnitOf(u, plan[i]) == unit && WithinUnit(u, plan[i]) == name
  }

  ghost predicate Complete(u: Units, plan: seq<Placement>, unit: Path) {
    forall name :: name in u.needs ==> Supplies(u, plan, unit, name)
  }

  /** Every unit the plan touches is there with all the files it needs. */
  ghost predicate WholeUnits(u: Units, plan: seq<Placement>) {
    u.depth > 0 && u.needs != {} ==>
      forall i :: 0 <= i < |plan| && InUnit(u, plan[i]) ==> Complete(u, plan, UnitOf(u, plan[i]))
  }

  /** Placement `j` is the file `name` right inside the unit of placement `i`. */
  ghost predicate InSameUnit(u: Units, plan: seq<Placement>, i: nat, name: string, j: int)
    requires i < |plan| && |plan[i].dest| >= u.depth
  {
    0 <= j < |plan| && plan[j].dest == plan[i].dest[..u.depth] + [name]
  }

  /** In a plan of whole units, beside every member of a unit lies each file the unit needs; and a plan
      that lacks one of them is not of whole units. */
  lemma NeededIsPlaced(u: Units, plan: seq<Placement>, i: nat, name: string)
    requires u.depth > 0 && name in u.needs && name != "" && name != "." && SEP !in name
    requires i < |plan| && |plan[i].dest| >= u.depth
    requires u.subtree.Some? ==> plan[i].dest[0] == u.subtree.value
    ensures (exists j :: InSameUnit(u, plan, i, name, j)) <==> Supplies(u, plan, UnitOf(u, plan[i]), name)
    ensures WholeUnits(u, plan) ==> exists j :: InSameUnit(u, plan, i, name, j)
  {
    if Supplies(u, plan, UnitOf(u, plan[i]), name) {
      var j :| && 0 <= j < |plan| && InUnit(u, plan[j]) && UnitOf(u, plan[j]) == UnitOf(u, plan[i])
               && WithinUnit(u, plan[j]) == name;
      var rest := plan[j].dest[u.depth..];
      Manifest.OneWord(rest, name);
      assert plan[j].dest == plan[j].dest[..u.depth] + rest;
      assert InSameUnit(u, plan, i, name, j);
    }
    if j :| InSameUnit(u, plan, i, name, j) {
      assert plan[j].dest[..u.depth] == plan[i].dest[..u.depth] && plan[j].dest[u.depth..] == [name];
      assert plan[j].dest[0] == plan[i].dest[0];
    }
  }

  /** A refusal for each member that clashes with another file. */
  method ConflictRefusals(conflicted: map<string, Detail>) returns (refusals: seq<Refusal>)
    ensures refusals == [] <==> conflicted.Keys == {}
    ensures forall r :: r in refusals <==>
              r.reason == DestinationConflict && r.member.Some? && r.member.value in conflicted
    ensures forall j, k :: 0 <= j < k < |refusals| ==> refusals[j].member != refusals[k].member
  {
    refusals := [];
    var rest := conflicted.Keys;
    while rest != {}
      invariant rest <= conflicted.Keys
      invariant forall r :: r in refusals <==>
        r.reason == DestinationConflict && r.member.Some? && r.member.value in conflicted.Keys - rest
      invariant forall j, k :: 0 <= j < k < |refusals| ==> refusals[j].member != refusals[k].member
      invariant refusals == [] <==> rest == conflicted.Keys
    {
      var name :| name in rest;
      assert forall k :: 0 <= k < |refusals| ==> refusals[k] in refusals;
      refusals := refusals + [Refusal(DestinationConflict, Some(name))];
      rest := rest - {name};
    }
  }

  /** Some member `m` of the plan counts toward a kind of the list that is over its limit. */
  ghost predicate InExcess(e: Emulator, c: Ctx, plan: seq<Placement>, kinds: seq<KindSpec>, m: string) {
    exists i, j :: 0 <= i < |kinds| && 0 <= j < |plan| && plan[j].member == m && Excess(e, c, plan, kinds[i], plan[j])
  }

  ghost predicate Excess(e: Emulator, c: Ctx, plan: seq<Placement>, s: KindSpec, p: Placement) {
    CountsToward(e, s, p) && OverLimit(e, c, s, plan)
  }

  ghost predicate Counted(e: Emulator, s: KindSpec, plan: seq<Placement>, m: string) {
    exists j :: 0 <= j < |plan| && plan[j].member == m && CountsToward(e, s, plan[j])
  }

  ghost predicate Names(refusals: seq<Refusal>, m: string) { Refusal(DestinationConflict, Some(m)) in refusals }

  /** A refusal for each member that counts toward one kind, unless a clash refused it already. */
  method KindRefusals(e: Emulator, s: KindSpec, plan: seq<Placement>, conflicted: map<string, Detail>)
    returns (refusals: seq<Refusal>)
    ensures forall m :: Names(refusals, m) <==> m !in conflicted && Counted(e, s, plan, m)
    ensures forall r :: r in refusals ==> r.reason == DestinationConflict && r.member.Some?
  {
    refusals := [];
    for j := 0 to |plan|
      invariant forall m :: Names(refusals, m) <==> m !in conflicted && Counted(e, s, plan[..j], m)
      invariant forall r :: r in refusals ==> r.reason == DestinationConflict && r.member.Some?
    {
      var p := plan[j];
      ghost var a, b := plan[..j], plan[..j + 1];
      assert forall m :: Counted(e, s, b, m) <==> Counted(e, s, a, m) || (p.member == m && CountsToward(e, s, p)) by {
        assert b[j] == p && forall n :: 0 <= n < j ==> b[n] == a[n];
      }
      if CountsToward(e, s, p) && p.member !in conflicted {
        refusals := refusals + [Refusal(DestinationConflict, Some(p.member))];
      }
    }
    assert plan[..|plan|] == plan;
  }

  /** A refusal for each member of an over-full kind, unless a clash refused it already. */
  method CountRefusals(e: Emulator, c: Ctx, plan: seq<Placement>, conflicted: map<string, Detail>)
    returns (refusals: seq<Refusal>)
    ensures forall m :: Names(refusals, m) <==> m !in conflicted && InExcess(e, c, plan, e.kinds, m)
    ensures forall r :: r in refusals ==> r.reason == DestinationConflict && r.member.Some?
  {
    refusals := [];
    assert e.kinds[..0] == [];
    for i := 0 to |e.kinds|
      invariant forall m :: Names(refusals, m) <==> m !in conflicted && InExcess(e, c, plan, e.kinds[..i], m)
      invariant forall r :: r in refusals ==> r.reason == DestinationConflict && r.member.Some?
    {
      var s := e.kinds[i];
      ghost var before := refusals;
      var more := [];
      if OverLimit(e, c, s, plan) {
        more := KindRefusals(e, s, plan, conflicted);
      }
      refusals := refusals + more;
      assert forall m :: Names(refusals, m) <==> Names(before, m) || Names(more, m);
      ExcessStep(e, c, plan, i);
    }
    assert e.kinds[..|e.kinds|] == e.kinds;
  }

  lemma ExcessStep(e: Emulator, c: Ctx, plan: seq<Placement>, i: nat)
    requires i < |e.kinds|
    ensures forall m :: InExcess(e, c, plan, e.kinds[..i + 1], m) <==>
              InExcess(e, c, plan, e.kinds[..i], m)
                  || (OverLimit(e, c, e.kinds[i], plan) && Counted(e, e.kinds[i], plan, m))
  {
    var a, b := e.kinds[..i], e.kinds[..i + 1];
    assert b[i] == e.kinds[i] && forall n :: 0 <= n < i ==> b[n] == a[n];
    forall m | InExcess(e, c, plan, a, m) ensures InExcess(e, c, plan, b, m) {
      var n, j :| 0 <= n < |a| && 0 <= j < |plan| && plan[j].member == m && Excess(e, c, plan, a[n], plan[j]);
      assert Excess(e, c, plan, b[n], plan[j]);
    }
    forall m | OverLimit(e, c, e.kinds[i], plan) && Counted(e, e.kinds[i], plan, m) ensures InExcess(e, c, plan, b, m) {
      var j :| 0 <= j < |plan| && plan[j].member == m && CountsToward(e, e.kinds[i], plan[j]);
      assert Excess(e, c, plan, b[i], plan[j]);
    }
  }

  /** `r` refuses a member of the plan for the reason found for it. */
  ghost predicate Broken(reasons: seq<Option<Reason>>, plan: seq<Placement>, r: Refusal) {
    exists i :: 0 <= i < |plan| && i < |reasons| && reasons[i] == Some(r.reason) && r.member == Some(plan[i].member)
  }

  function TreeReasons(e: Emulator, plan: seq<Placement>): seq<Option<Reason>> {
    seq(|plan|, i requires 0 <= i < |plan| => TreeRefusal(e, plan[i]))
  }

  /** A refusal for each member of the plan that has a reason. */
  method ReasonRefusals(reasons: seq<Option<Reason>>, plan: seq<Placement>) returns (refusals: seq<Refusal>)
    requires |reasons| == |plan|
    ensures forall r :: r in refusals <==> Broken(reasons, plan, r)
  {
    refusals := [];
    for i := 0 to |plan|
      invariant forall r :: r in refusals <==> Broken(reasons[..i], plan, r)
    {
      ghost var a, b := reasons[..i], reasons[..i + 1];
      assert b[i] == reasons[i] && forall n :: 0 <= n < i ==> b[n] == a[n];
      if reasons[i].Some? {
        refusals := refusals + [Refusal(reasons[i].value, Some(plan[i].member))];
      }
    }
    assert reasons[..|plan|] == reasons;
  }

  /** The units the plan touches, each with its placements in order. */
  method GroupUnits(u: Units, plan: seq<Placement>) returns (units: map<Path, seq<Placement>>)
    ensures Grouped(u, plan, units)
  {
    units := map[];
    for i := 0 to |plan|
      invariant Grouped(u, plan[..i], units)
    {
      var p := plan[i];
      ghost var before := units;
      assert plan[..i + 1] == plan[..i] + [p];
      if InUnit(u, p) {
        var unit := UnitOf(u, p);
        units := units[unit := (if unit in units then units[unit] else []) + [p]];
      }
      GroupStep(u, plan[..i], p, before, units);
    }
    assert plan[..|plan|] == plan;
  }

  ghost predicate Grouped(u: Units, plan: seq<Placement>, units: map<Path, seq<Placement>>) {
    && (forall unit :: unit in units ==> units[unit] != [])
    && (forall unit, p :: unit in units && p in units[unit] <==> p in plan && InUnit(u, p) && UnitOf(u, p) == unit)
  }

  /** `r` refuses a member whose unit lacks a file it needs. */
  ghost predicate Lacking(u: Units, plan: seq<Placement>, r: Refusal) {
    && r.reason == IncompleteUnit && u.depth != 0 && u.needs != {}
    && exists p :: p in plan && InUnit(u, p) && !Complete(u, plan, UnitOf(u, p)) && r.member == Some(p.member)
  }

  /** `r` refuses a member of one of the incomplete units among `seen`. */
  ghost predicate LackingIn(u: Units, plan: seq<Placement>, units: map<Path, seq<Placement>>, seen: set<Path>,
                            r: Refusal)
  {
    && r.reason == IncompleteUnit
    && exists unit, p :: unit in seen && unit in units && !Complete(u, plan, unit)
                         && p in units[unit] && r.member == Some(p.member)
  }

  function IncompleteMembers(members: seq<Placement>): seq<Refusal> {
    seq(|members|, i requires 0 <= i < |members| => Refusal(IncompleteUnit, Some(members[i].member)))
  }

  lemma InIncomplete(members: seq<Placement>, r: Refusal)
    ensures r in IncompleteMembers(members) <==>
              r.reason == IncompleteUnit && exists p :: p in members && r.member == Some(p.member)
  {
    if r.reason == IncompleteUnit && exists p :: p in members && r.member == Some(p.member) {
      var p :| p in members && r.member == Some(p.member);
      var i :| 0 <= i < |members| && members[i] == p;
      assert IncompleteMembers(members)[i] == r;
    }
  }

  lemma LackingStep(u: Units, plan: seq<Placement>, units: map<Path, seq<Placement>>, seen: set<Path>,
                    unit: Path, r: Refusal)
    requires unit in units
    ensures LackingIn(u, plan, units, seen + {unit}, r) <==>
              LackingIn(u, plan, units, seen, r) || (!Complete(u, plan, unit) && r in IncompleteMembers(units[unit]))
  {
    InIncomplete(units[unit], r);
  }

  lemma LackingIsAll(u: Units, plan: seq<Placement>, units: map<Path, seq<Placement>>, r: Refusal)
    requires Grouped(u, plan, units) && u.depth != 0 && u.needs != {}
    ensures LackingIn(u, plan, units, units.Keys, r) <==> Lacking(u, plan, r)
  {
    if Lacking(u, plan, r) {
      var p :| p in plan && InUnit(u, p) && !Complete(u, plan, UnitOf(u, p)) && r.member == Some(p.member);
      assert p in units[UnitOf(u, p)];
    }
  }

  /** Refuse every member of a unit that lacks a file it needs, and no other. */
  method UnitRefusals(u: Units, plan: seq<Placement>) returns (refusals: seq<Refusal>)
    ensures forall r :: r in refusals <==> Lacking(u, plan, r)
    ensures refusals == [] <==> WholeUnits(u, plan)
  {
    refusals := [];
    if u.depth == 0 || u.needs == {} {
      return;
    }
    var units := GroupUnits(u, plan);
    var rest := units.Keys;
    while rest != {}
      invariant rest <= units.Keys
      invariant refusals == [] <==> forall unit :: unit in units.Keys - rest ==> Complete(u, plan, unit)
      invariant forall r :: r in refusals <==> LackingIn(u, plan, units, units.Keys - rest, r)
    {
      var unit :| unit in rest;
      var members := units[unit];
      ghost var seen := units.Keys - rest;
      rest := rest - {unit};
      assert units.Keys - rest == seen + {unit};
      forall r { LackingStep(u, plan, units, seen, unit, r); }
      var held := set i | 0 <= i < |members| :: WithinUnit(u, members[i]);
      HeldIsSupplied(u, plan, units, unit, held);
      if !(u.needs <= held) {
        refusals := refusals + IncompleteMembers(members);
      }
    }
    WholeIsPerUnit(u, plan, units);
    assert units.Keys - rest == units.Keys;
    forall r { LackingIsAll(u, plan, units, r); }
  }

  lemma GroupStep(u: Units, plan: seq<Placement>, p: Placement,
                  units: map<Path, seq<Placement>>, units': map<Path, seq<Placement>>)
    requires Grouped(u, plan, units)
    requires units' == if !InUnit(u, p) then units
                       else units[UnitOf(u, p) := (if UnitOf(u, p) in units then units[UnitOf(u, p)] else []) + [p]]
    ensures Grouped(u, plan + [p], units')
  {}

  lemma HeldIsSupplied(u: Units, plan: seq<Placement>, units: map<Path, seq<Placement>>, unit: Path, held: set<string>)
    requires Grouped(u, plan, units) && unit in units
    requires held == set i | 0 <= i < |units[unit]| :: WithinUnit(u, units[unit][i])
    ensures u.needs <= held <==> Complete(u, plan, unit)
  {
    forall name ensures name in held <==> Supplies(u, plan, unit, name) {
      if name in held {
        var i :| 0 <= i < |units[unit]| && WithinUnit(u, units[unit][i]) == name;
        assert units[unit][i] in units[unit];
        assert units[unit][i] in plan;
        var j :| 0 <= j < |plan| && plan[j] == units[unit][i];
      }
      if Supplies(u, plan, unit, name) {
        var j :| 0 <= j < |plan| && InUnit(u, plan[j]) && UnitOf(u, plan[j]) == unit && WithinUnit(u, plan[j]) == name;
        assert plan[j] in plan && plan[j] in units[unit];
        var i :| 0 <= i < |units[unit]| && units[unit][i] == plan[j];
      }
    }
  }

  lemma WholeIsPerUnit(u: Units, plan: seq<Placement>, units: map<Path, seq<Placement>>)
    requires Grouped(u, plan, units) && u.depth > 0 && u.needs != {}
    ensures WholeUnits(u, plan) <==> forall unit :: unit in units ==> Complete(u, plan, unit)
  {
    forall unit | unit in units && WholeUnits(u, plan) ensures Complete(u, plan, unit) {
      assert units[unit][0] in units[unit] && units[unit][0] in plan;
      var j :| 0 <= j < |plan| && plan[j] == units[unit][0];
    }
    forall i | 0 <= i < |plan| && InUnit(u, plan[i]) ensures UnitOf(u, plan[i]) in units {
      assert plan[i] in plan;
    }
  }

  /** The rules no single placement can tell: nothing is refused exactly when every one holds. */
  method CheckPlan(e: Emulator, c: Ctx, plan: seq<Placement>) returns (refusals: seq<Refusal>)
    requires forall p :: p in plan ==> p.member !in c.archive
    ensures refusals == [] <==> PlanOk(e, c, plan)
  {
    var conflicted := DestinationConflicts(plan, c.archive, e.fold);
    assert conflicted.Keys == {} <==> Unclashing(e, c, plan);
    var clashes := ConflictRefusals(conflicted);
    var counts := CountRefusals(e, c, plan, conflicted);
    var tree := ReasonRefusals(TreeReasons(e, plan), plan);
    var size := [];
    if TotalBytes(c, plan) > c.maxBytes || TotalEntries(c, plan) > c.maxEntries {
      size := [Refusal(TooLarge, None)];
    }
    var units := UnitRefusals(e.units, plan);
    refusals := clashes + counts + tree + size + units + e.planHook(plan);
    if Unclashing(e, c, plan) {
      CountsClean(e, c, plan, conflicted, counts);
    }
    TreeClean(e, plan, tree);
  }

  lemma CountsClean(e: Emulator, c: Ctx, plan: seq<Placement>, conflicted: map<string, Detail>, counts: seq<Refusal>)
    requires conflicted.Keys == {}
    requires forall m :: Names(counts, m) <==> m !in conflicted && InExcess(e, c, plan, e.kinds, m)
    requires forall r :: r in counts ==> r.reason == DestinationConflict && r.member.Some?
    ensures counts == [] <==> WithinCounts(e, c, plan)
  {
    if counts != [] {
      assert counts[0] in counts;
      var m := counts[0].member.value;
      assert Names(counts, m);
      var i, j :| 0 <= i < |e.kinds| && 0 <= j < |plan| && plan[j].member == m
          && Excess(e, c, plan, e.kinds[i], plan[j]);
      assert e.kinds[i] in e.kinds && plan[j] in plan;
    }
    if s, p :| s in e.kinds && p in plan && CountsToward(e, s, p) && OverLimit(e, c, s, plan) {
      var i :| 0 <= i < |e.kinds| && e.kinds[i] == s;
      var j :| 0 <= j < |plan| && plan[j] == p;
      assert Excess(e, c, plan, e.kinds[i], plan[j]);
      assert Names(counts, p.member);
    }
  }

  lemma TreeClean(e: Emulator, plan: seq<Placement>, tree: seq<Refusal>)
    requires forall r :: r in tree <==> Broken(TreeReasons(e, plan), plan, r)
    ensures tree == [] <==> InTheTree(e, plan)
  {
    var reasons := TreeReasons(e, plan);
    if tree != [] {
      assert tree[0] in tree;
      var i :| 0 <= i < |plan| && reasons[i] == Some(tree[0].reason);
      assert plan[i] in plan;
    }
    if p :| p in plan && TreeRefusal(e, p).Some? {
      var i :| 0 <= i < |plan| && plan[i] == p;
      assert reasons[i] == TreeRefusal(e, p);
      assert Broken(reasons, plan, Refusal(reasons[i].value, Some(p.member)));
    }
  }

  // ---- Preflight ----

  /** What becomes of one declared member before the plan is looked at. */
  function AnswerFor(e: Emulator, c: Ctx, entry: Manifest.ManifestEntry): Answer {
    var bad := e.hygiene(entry);
    if bad.Some? then Refuse(bad.value)
    else
      var gate := GateKind(e, c, entry.kind);
      if gate.Some? then Refuse(gate.value) else e.place(entry)
  }

  /** A member is placed exactly when its name is sound, its kind is open to it and the emulator takes it,
      and then where the emulator says; the first of the three that says no gives the reason. */
  lemma AnswerMeans(e: Emulator, c: Ctx, entry: Manifest.ManifestEntry)
    ensures var a := AnswerFor(e, c, entry);
            && (a.Place? <==> e.hygiene(entry).None? && GateKind(e, c, entry.kind).None? && e.place(entry).Place?)
            && (a.Place? ==> a == e.place(entry))
            && (a.Refuse? ==>
                  Some(a.reason) == if e.hygiene(entry).Some? then e.hygiene(entry)
                                    else if GateKind(e, c, entry.kind).Some? then GateKind(e, c, entry.kind)
                                    else Some(e.place(entry).reason))
  {}

  ghost predicate Distinct(names: seq<string>) {
    forall i, j :: 0 <= i < j < |names| ==> names[i] != names[j]
  }

  /** Every import member is declared rightly, named once, and placed by the emulator as `plan` says. */
  ghost predicate AllPlaced(e: Emulator, c: Ctx, entries: map<string, Manifest.ManifestEntry>, names: seq<string>,
                            plan: seq<Placement>)
  {
    && |plan| == |names|
    && forall i :: 0 <= i < |names| ==> names[i] in entries && PlacedAs(e, c, entries[names[i]], names[i], plan[i])
  }

  ghost predicate PlacedAs(e: Emulator, c: Ctx, entry: Manifest.ManifestEntry, name: string, p: Placement) {
    var a := AnswerFor(e, c, entry);
    a.Place? && p == Placement(name, a.dest, a.sidecars)
  }

  function Repeated(names: seq<string>): set<string> {
    set i, j | 0 <= i < j < |names| && names[i] == names[j] :: names[i]
  }

  lemma {:induction false} RepeatedMeans(names: seq<string>, n: string)
    ensures n in Repeated(names) <==> multiset(names)[n] > 1
  {
    if names == [] {
    } else {
      var k := |names| - 1;
      var init := names[..k];
      RepeatedMeans(init, n);
      assert names == init + [names[k]];
      assert n in init <==> multiset(init)[n] > 0;
      if n in Repeated(init) {
        var i, j :| 0 <= i < j < |init| && init[i] == init[j] == n;
        assert names[i] == names[j];
      }
      if n == names[k] && n in init {
        var i :| 0 <= i < k && init[i] == n;
        assert names[i] == names[k];
      }
    }
  }

  /** The refusal is one a member earns on its own: its name comes twice, or the answer for it says so. */
  ghost predicate TurnedDown(e: Emulator, c: Ctx, names: seq<string>, entries: map<string, Manifest.ManifestEntry>,
                             r: Refusal)
  {
    && r.member.Some? && r.member.value in names
    && if multiset(names)[r.member.value] > 1 then r.reason == UnsafePath
       else r.member.value in entries && AnswerFor(e, c, entries[r.member.value]) == Refuse(r.reason)
  }

  /** The placement is the one a member gets on its own. */
  ghost predicate TakenIn(e: Emulator, c: Ctx, names: seq<string>, entries: map<string, Manifest.ManifestEntry>,
                          p: Placement)
  {
    && p.member in names && multiset(names)[p.member] == 1
    && p.member in entries && PlacedAs(e, c, entries[p.member], p.member, p)
  }

  /** Place the members one by one; every member is placed or refused. */
  method PlaceMembers(e: Emulator, c: Ctx, names: seq<string>, entries: map<string, Manifest.ManifestEntry>)
    returns (plan: seq<Placement>, refusals: seq<Refusal>)
    ensures forall r :: r in refusals <==> TurnedDown(e, c, names, entries, r)
    ensures forall p :: p in plan <==> TakenIn(e, c, names, entries, p)
    ensures (forall n :: n in names ==> n in entries) ==>
              (refusals == [] <==> Distinct(names) && AllPlaced(e, c, entries, names, plan))
    ensures Distinct(names) && (forall n :: n in names ==> n in entries && AnswerFor(e, c, entries[n]).Place?) ==>
              refusals == []
  {
    plan, refusals := [], [];
    var repeated := Repeated(names);
    var twice: set<string> := {};
    for i := 0 to |names|
      invariant twice == repeated * (set n | n in names[..i])
      invariant forall r :: r in refusals <==> TurnedDownBy(e, c, names, entries, i, r)
      invariant forall p :: p in plan <==> p.member in names[..i] && TakenIn(e, c, names, entries, p)
      invariant (forall n :: n in names[..i] ==> n in entries) && refusals == [] ==>
                AllPlaced(e, c, entries, names[..i], plan)
    {
      var name := names[i];
      assert names[..i + 1] == names[..i] + [name];
      RepeatedMeans(names, name);
      if name in repeated {
        if name !in twice {
          twice := twice + {name};
          refusals := refusals + [Refusal(UnsafePath, Some(name))];
        }
      } else if name in entries {
        match AnswerFor(e, c, entries[name])
        case Refuse(reason) => refusals := refusals + [Refusal(reason, Some(name))];
        case Place(dest, sidecars) => plan := plan + [Placement(name, dest, sidecars)];
      }
    }
    assert names[..|names|] == names;
    NoneTurnedDown(e, c, names, entries, plan, refusals);
  }

  ghost predicate TurnedDownBy(e: Emulator, c: Ctx, names: seq<string>, entries: map<string, Manifest.ManifestEntry>,
                               i: nat, r: Refusal)
    requires i <= |names|
  {
    r.member.Some? && r.member.value in names[..i] && TurnedDown(e, c, names, entries, r)
  }

  /** When nobody is turned down the names are distinct, and conversely if all are answered with a place. */
  lemma NoneTurnedDown(e: Emulator, c: Ctx, names: seq<string>, entries: map<string, Manifest.ManifestEntry>,
                       plan: seq<Placement>, refusals: seq<Refusal>)
    requires forall r :: r in refusals <==> TurnedDown(e, c, names, entries, r)
    ensures refusals == [] ==> Distinct(names)
    ensures Distinct(names) && AllPlaced(e, c, entries, names, plan) ==> refusals == []
    ensures Distinct(names) && (forall n :: n in names ==> n in entries && AnswerFor(e, c, entries[n]).Place?) ==>
              refusals == []
  {
    if !Distinct(names) {
      var i, j :| 0 <= i < j < |names| && names[i] == names[j];
      RepeatedMeans(names, names[i]);
      assert TurnedDown(e, c, names, entries, Refusal(UnsafePath, Some(names[i])));
    }
    if refusals != [] {
      assert refusals[0] in refusals;
      var n := refusals[0].member.value;
      var i :| 0 <= i < |names| && names[i] == n;
      RepeatedMeans(names, n);
      assert AllPlaced(e, c, entries, names, plan) ==> PlacedAs(e, c, entries[names[i]], names[i], plan[i]);
    }
  }

  /** Everything preflight asks of an archive's imports. */
  ghost predicate Acceptable(e: Emulator, c: Ctx, manifest: Manifest.Json, error: Option<string>, names: seq<string>,
                             entries: map<string, Manifest.ManifestEntry>, plan: seq<Placement>)
  {
    && (names == [] || Manifest.Clean(manifest, names, error))
    && Distinct(names)
    && AllPlaced(e, c, entries, names, plan)
    && PlanOk(e, c, plan)
  }

  /** The archive's imports can all be placed: some plan of them is acceptable. */
  ghost predicate Placeable(e: Emulator, c: Ctx, manifest: Manifest.Json, error: Option<string>, names: seq<string>) {
    exists entries, plan :: PlaceableAs(e, c, manifest, error, names, entries, plan)
  }

  ghost predicate PlaceableAs(e: Emulator, c: Ctx, manifest: Manifest.Json, error: Option<string>, names: seq<string>,
                              entries: map<string, Manifest.ManifestEntry>, plan: seq<Placement>)
  {
    Manifest.AreEntries(manifest, names, error, entries) && Acceptable(e, c, manifest, error, names, entries, plan)
  }

  /** Place or refuse every import. Placements are made only when nothing at all is refused,
      and then they match the archive's import members one for one, in zip order. */
  method Preflight(e: Emulator, c: Ctx, manifest: Manifest.Json, error: Option<string>, names: seq<string>,
                   v1Refusals: seq<Refusal>)
    returns (placements: seq<Placement>, refusals: seq<Refusal>, entries: map<string, Manifest.ManifestEntry>)
    requires forall n :: n in names ==> n !in c.archive
    ensures refusals != [] ==> placements == []
    ensures refusals == [] <==> v1Refusals == [] && Placeable(e, c, manifest, error, names)
    ensures refusals == [] ==> PlaceableAs(e, c, manifest, error, names, entries, placements)
    ensures refusals == [] ==>
              |placements| == |names| && forall i :: 0 <= i < |names| ==> placements[i].member == names[i]
  {
    var flaws;
    entries, flaws := Manifest.ParseManifestV2(manifest, names, error);
    var invalid := seq(|flaws|, i requires 0 <= i < |flaws| => Refusal(ManifestInvalid, flaws[i].member));
    var plan, refused := PlaceMembers(e, c, names, entries);
    var checked := CheckPlan(e, c, plan);
    refusals := v1Refusals + invalid + refused + checked;
    placements := if refusals == [] then plan else [];
    Decided(e, c, manifest, error, names, entries, plan, flaws, refused, checked);
  }

  /** What its three steps return decides whether the imports can be placed, and as what. */
  lemma Decided(e: Emulator, c: Ctx, manifest: Manifest.Json, error: Option<string>, names: seq<string>,
                entries: map<string, Manifest.ManifestEntry>, plan: seq<Placement>,
                flaws: seq<Manifest.Refusal>, refused: seq<Refusal>, checked: seq<Refusal>)
    requires Manifest.AreEntries(manifest, names, error, entries)
    requires flaws == [] <==> names == [] || Manifest.Clean(manifest, names, error)
    requires (forall n :: n in names ==> n in entries) ==>
               (refused == [] <==> Distinct(names) && AllPlaced(e, c, entries, names, plan))
    requires Distinct(names) && (forall n :: n in names ==> n in entries && AnswerFor(e, c, entries[n]).Place?) ==>
               refused == []
    requires checked == [] <==> PlanOk(e, c, plan)
    ensures flaws == [] && refused == [] && checked == [] <==> Placeable(e, c, manifest, error, names)
    ensures flaws == [] && refused == [] && checked == [] ==>
              PlaceableAs(e, c, manifest, error, names, entries, plan)
  {
    if flaws == [] && refused == [] && checked == [] {
      CleanDeclares(manifest, names, error, entries);
      assert PlaceableAs(e, c, manifest, error, names, entries, plan);
    }
    if Placeable(e, c, manifest, error, names) {
      var es, other :| PlaceableAs(e, c, manifest, error, names, es, other);
      Manifest.SameEntries(manifest, names, error, es, entries);
      AcceptableDecides(e, c, manifest, error, names, entries, plan, other, flaws, refused, checked);
    }
  }

  /** With one acceptable plan there is nothing to refuse, and it is the plan that was made. */
  lemma AcceptableDecides(e: Emulator, c: Ctx, manifest: Manifest.Json, error: Option<string>, names: seq<string>,
                          entries: map<string, Manifest.ManifestEntry>, plan: seq<Placement>, other: seq<Placement>,
                          flaws: seq<Manifest.Refusal>, refused: seq<Refusal>, checked: seq<Refusal>)
    requires Acceptable(e, c, manifest, error, names, entries, other)
    requires flaws == [] <==> names == [] || Manifest.Clean(manifest, names, error)
    requires (forall n :: n in names ==> n in entries) ==>
               (refused == [] <==> Distinct(names) && AllPlaced(e, c, entries, names, plan))
    requires Distinct(names) && (forall n :: n in names ==> n in entries && AnswerFor(e, c, entries[n]).Place?) ==>
              refused == []
    requires checked == [] <==> PlanOk(e, c, plan)
    ensures flaws == [] && refused == [] && checked == []
  {
    forall n | n in names ensures n in entries && AnswerFor(e, c, entries[n]).Place? {
      var i :| 0 <= i < |names| && names[i] == n;
      assert PlacedAs(e, c, entries[names[i]], names[i], other[i]);
    }
    SamePlan(e, c, entries, names, plan, other);
  }

  lemma CleanDeclares(manifest: Manifest.Json, names: seq<string>, error: Option<string>,
                      entries: map<string, Manifest.ManifestEntry>)
    requires names == [] || Manifest.Clean(manifest, names, error)
    requires Manifest.AreEntries(manifest, names, error, entries)
    ensures forall n :: n in names ==> n in entries
  {}

  lemma SamePlan(e: Emulator, c: Ctx, entries: map<string, Manifest.ManifestEntry>, names: seq<string>,
                 a: seq<Placement>, b: seq<Placement>)
    requires AllPlaced(e, c, entries, names, a) && AllPlaced(e, c, entries, names, b)
    ensures a == b
  {
    forall i | 0 <= i < |names| ensures a[i] == b[i] {
      assert PlacedAs(e, c, entries[names[i]], names[i], a[i]) && PlacedAs(e, c, entries[names[i]], names[i], b[i]);
    }
  }

  /** Hooks place members under plain names, each file of one member in a place of its own. */
  ghost predicate HooksBehave(e: Emulator) {
    && FoldsParts(e.fold)
    && forall entry :: e.place(entry).Place? ==>
         var a := e.place(entry);
         var p := Placement(entry.path, a.dest, a.sidecars);
         OwnFilesDiffer(p) && forall k :: 0 <= k <= |p.sidecars| ==> InnerPath(FileOf(p, k))
  }

  /** What preflight approves is what the restore needs: with well-behaved hooks, its placements
      write into the subtrees the restore covers, all but the excluded ones, without a clash among
      themselves or with the archive. */
  lemma AcceptedIsApproved(e: Emulator, c: Ctx, manifest: Manifest.Json, error: Option<string>, names: seq<string>,
                           entries: map<string, Manifest.ManifestEntry>, plan: seq<Placement>, subtrees: seq<string>)
    requires Acceptable(e, c, manifest, error, names, entries, plan) && HooksBehave(e)
    requires forall n :: n in names ==> n !in c.archive
    requires forall s :: s in e.subtrees ==> s in subtrees || s in e.excluded
    ensures Approved(plan, c.archive, e.fold, subtrees)
  {
    forall i | 0 <= i < |plan|
      ensures plan[i].member == names[i] && OwnFilesDiffer(plan[i])
      ensures forall k :: 0 <= k <= |plan[i].sidecars| ==> FitsSubtrees(FileOf(plan[i], k), subtrees)
    {
      assert PlacedAs(e, c, entries[names[i]], names[i], plan[i]);
      assert plan[i] in plan && TreeRefusal(e, plan[i]).None?;
      AcceptedPlacement(e, c, entries[names[i]], names[i], plan[i], subtrees);
    }
  }

  ghost predicate FitsSubtrees(p: Path, subtrees: seq<string>) {
    p != [] && InnerPath(p) && UnderSubtrees(Join(p), subtrees)
  }

  /** What lies in a subtree and in no excluded one lies in a subtree that is left. */
  lemma UnderTheRest(rel: string, all: seq<string>, excluded: seq<string>, rest: seq<string>)
    requires forall s :: s in all ==> s in rest || s in excluded
    requires UnderSubtrees(rel, all) && !UnderSubtrees(rel, excluded)
    ensures UnderSubtrees(rel, rest)
  {
    var k :| 0 <= k < |all| && all[k] + [SEP] <= rel;
    var s := all[k];
    assert s in all;
    assert UnderSubtrees(rel, [s]) by { assert [s][0] == s; }
    if s in rest {
      UnderMore(rel, [s], rest);
    } else {
      UnderMore(rel, [s], excluded);
    }
  }

  lemma AcceptedPlacement(e: Emulator, c: Ctx, entry: Manifest.ManifestEntry, name: string, p: Placement,
                          subtrees: seq<string>)
    requires HooksBehave(e) && PlacedAs(e, c, entry, name, p) && TreeRefusal(e, p).None?
    requires forall s :: s in e.subtrees ==> s in subtrees || s in e.excluded
    ensures OwnFilesDiffer(p)
    ensures forall k :: 0 <= k <= |p.sidecars| ==> FitsSubtrees(FileOf(p, k), subtrees)
  {
    var q := Placement(entry.path, e.place(entry).dest, e.place(entry).sidecars);
    assert e.place(entry).Place?;
    assert OwnFilesDiffer(q) && |q.sidecars| == |p.sidecars|;
    assert forall k :: 0 <= k <= |p.sidecars| ==> FileOf(p, k) == FileOf(q, k);
    forall k | 0 <= k <= |p.sidecars| ensures FitsSubtrees(FileOf(p, k), subtrees) {
      TreeRefusalNone(e, p, k);
      UnderTheRest(PosixText(FileOf(p, k)), e.subtrees, e.excluded, subtrees);
      DotIsNotUnder(e.subtrees);
    }
  }
}
