/** What a restore of an ordinary archive would write, decided before anything is cleared (`plan_v1`). */
module V1Plan {
  import opened Options
  import opened Paths
  import opened Tree
  import opened Conflicts

  const MANIFEST_NAME := ".broker-manifest.json"
  const IMPORT_PREFIX := ".import/"

  const ZIP_STORED := 0
  const ZIP_DEFLATED := 8

  /** A member's zip header, as far as a plan reads it. */
  datatype Info = Info(name: string, encrypted: bool, compression: nat, dated: bool, size: nat)

  datatype HeaderProblem = Encrypted | Compression | Timestamp

  datatype Problem =
    | Escapes | NamesSubtree | Outside | Symlink | Unreadable
    | Scratch | DuplicateMember | Collides | TooLong | Unwritable

  /** What the disk and the naming rules answer: names that are scratch, subtrees whose surviving
      directories link out of the root, paths too long for the filesystem, and the directory that
      would refuse a member's file. */
  datatype Env = Env(
    scratchName: string -> bool,
    escapes: string -> bool,
    tooLong: Path -> bool,
    locked: Path -> Option<string>)

  datatype Rules = Rules(env: Env, subtrees: seq<string>, excluded: seq<string>)

  datatype Report = Report(index: nat, name: string, problem: Problem)

  datatype Plan = Plan(names: seq<string>, excludedCount: nat, problems: seq<Report>)

  // ---- Member checks ----

  function MemberProblem(info: Info, checkDate: bool): Option<HeaderProblem> {
    if info.encrypted then Some(Encrypted)
    else if info.compression != ZIP_STORED && info.compression != ZIP_DEFLATED then Some(Compression)
    else if checkDate && !info.dated then Some(Timestamp)
    else None
  }

  predicate UnderSubtrees(rel: string, subtrees: seq<string>) {
    exists i :: 0 <= i < |subtrees| && subtrees[i] + [SEP] <= rel
  }

  predicate IsScratch(env: Env, p: Path) {
    (p != [] && p[|p| - 1] == MANIFEST_NAME) || exists i :: 0 <= i < |p| && env.scratchName(p[i])
  }

  /** The first longest subtree that `rel` sits strictly inside. */
  function LongestSubtree(rel: string, subtrees: seq<string>): (r: Option<string>)
    ensures r.None? <==> !UnderSubtrees(rel, subtrees)
    ensures r.Some? ==> r.value in subtrees && r.value + [SEP] <= rel
    ensures r.Some? ==> forall s :: s in subtrees && s + [SEP] <= rel ==> |s| <= |r.value|
  {
    if subtrees == [] then None
    else
      var n := |subtrees| - 1;
      var before := LongestSubtree(rel, subtrees[..n]);
      assert subtrees == subtrees[..n] + [subtrees[n]];
      if !(subtrees[n] + [SEP] <= rel) then
        before
      else if before.Some? && |before.value| >= |subtrees[n]| then before
      else Some(subtrees[n])
  }

  /** What becomes of a member: passed over, refused, or (so far) to be written. */
  datatype Fate = Dropped | Refused(problem: Problem) | Kept

  /** The checks made on one member alone, in the order a restore has always made them. */
  function Alone(r: Rules, info: Info): Fate {
    var member, rel := Parts(info.name), AsPosix(info.name);
    Verdict(r, info, member, rel, IsScratch(r.env, member), InnermostEscapes(r.env, rel, r.subtrees))
  }

  predicate InnermostEscapes(env: Env, rel: string, subtrees: seq<string>) {
    var s := LongestSubtree(rel, subtrees);
    s.Some? && env.escapes(s.value)
  }

  function Verdict(r: Rules, info: Info, member: Path, rel: string, scratch: bool, linked: bool): Fate {
    if Absolute(info.name) || ".." in member then Refused(Escapes)
    else if rel in r.subtrees || rel in r.excluded then Refused(NamesSubtree)
    else if UnderSubtrees(rel, r.excluded) then Dropped
    else if !UnderSubtrees(rel, r.subtrees) then Refused(Outside)
    else if scratch then Refused(Scratch)
    else if linked then Refused(Symlink)
    else if MemberProblem(info, true).Some? then Refused(Unreadable)
    else Kept
  }

  /** A member as the second pass sees it: its name, its path and its verdict alone. */
  datatype Item = Item(name: string, path: Path, alone: Fate)

  function View(r: Rules, infos: seq<Info>): seq<Item> {
    seq(|infos|, i requires 0 <= i < |infos| => ItemOf(r, infos[i]))
  }

  function ItemOf(r: Rules, info: Info): Item { Item(info.name, Parts(info.name), Alone(r, info)) }

  ghost predicate IsCandidate(v: seq<Item>, i: int) { 0 <= i < |v| && v[i].alone.Kept? }

  ghost predicate SamePath(v: seq<Item>, i: int, j: int) {
    i != j && IsCandidate(v, i) && IsCandidate(v, j) && v[i].path == v[j].path
  }

  ghost predicate IsDirectoryOf(v: seq<Item>, i: int, j: int) {
    IsCandidate(v, i) && IsCandidate(v, j) && StrictPrefix(v[i].path, v[j].path)
  }

  ghost predicate Repeats(v: seq<Item>, i: int) { exists j :: SamePath(v, i, j) }

  ghost predicate IsDirectory(v: seq<Item>, i: int) { exists j :: IsDirectoryOf(v, i, j) }

  /** What becomes of member `i`, seen against the whole archive. */
  ghost function FateOf(env: Env, v: seq<Item>, i: nat): Fate
    requires i < |v|
  {
    if !v[i].alone.Kept? then v[i].alone
    else if Repeats(v, i) then Refused(DuplicateMember)
    else if IsDirectory(v, i) then Refused(Collides)
    else if env.tooLong(v[i].path) then Refused(TooLong)
    else if env.locked(v[i].path).Some? then Refused(Unwritable)
    else Kept
  }

  /** Member `i` is refused because no file can be created in directory `d`. */
  ghost predicate LockedOut(env: Env, v: seq<Item>, i: int, d: Option<string>) {
    0 <= i < |v| && v[i].alone.Kept? && FateOf(env, v, i) == Refused(Unwritable) && env.locked(v[i].path) == d
  }

  /** A repeated path and a locked directory are each reported on their first member only. */
  ghost predicate Reported(env: Env, v: seq<Item>, i: int) {
    && 0 <= i < |v|
    && FateOf(env, v, i).Refused?
    && !(exists j :: 0 <= j < i && SamePath(v, j, i))
    && (LockedOut(env, v, i, env.locked(v[i].path)) ==>
          forall j :: 0 <= j < i ==> !LockedOut(env, v, j, env.locked(v[i].path)))
  }

  ghost function KeptNames(env: Env, v: seq<Item>, n: nat): seq<string>
    requires n <= |v|
  {
    if n == 0 then []
    else KeptNames(env, v, n - 1) + if FateOf(env, v, n - 1).Kept? then [v[n - 1].name] else []
  }

  ghost function DroppedCount(v: seq<Item>, n: nat): nat
    requires n <= |v|
  {
    if n == 0 then 0 else DroppedCount(v, n - 1) + if v[n - 1].alone.Dropped? then 1 else 0
  }

  ghost predicate Ascending(ps: seq<Report>) {
    forall i, j :: 0 <= i < j < |ps| ==> ps[i].index < ps[j].index
  }

  ghost predicate Lists(ps: seq<Report>, i: int) { exists k :: 0 <= k < |ps| && ps[k].index == i }

  /** Every entry is about the member it names, with the problem that member has. */
  ghost predicate Truthful(env: Env, v: seq<Item>, ps: seq<Report>) {
    forall k :: 0 <= k < |ps| ==> True(env, v, ps[k])
  }

  ghost predicate True(env: Env, v: seq<Item>, p: Report) {
    p.index < |v| && p.name == v[p.index].name && FateOf(env, v, p.index) == Refused(p.problem)
  }

  /** Insert a report where zip order puts it. */
  function Insert(ps: seq<Report>, p: Report): (r: seq<Report>) {
    if ps == [] || ps[|ps| - 1].index < p.index then ps + [p]
    else Insert(ps[..|ps| - 1], p) + [ps[|ps| - 1]]
  }

  lemma {:induction false} InsertHas(ps: seq<Report>, p: Report)
    ensures forall x :: x in Insert(ps, p) <==> x in ps || x == p
  {
    if ps == [] || ps[|ps| - 1].index < p.index {
    } else {
      assert ps == ps[..|ps| - 1] + [ps[|ps| - 1]];
      InsertHas(ps[..|ps| - 1], p);
    }
  }

  lemma AppendAscending(ps: seq<Report>, last: Report)
    requires Ascending(ps) && forall x :: x in ps ==> x.index < last.index
    ensures Ascending(ps + [last])
  {
    forall k | 0 <= k < |ps| ensures ps[k].index < last.index { assert ps[k] in ps; }
  }

  lemma {:induction false} InsertSorts(ps: seq<Report>, p: Report)
    requires Ascending(ps) && !Lists(ps, p.index)
    ensures Ascending(Insert(ps, p))
  {
    if ps == [] {
    } else {
      var init, last := ps[..|ps| - 1], ps[|ps| - 1];
      assert last.index != p.index;
      if last.index < p.index {
        forall x | x in ps ensures x.index < p.index {
          var k :| 0 <= k < |ps| && ps[k] == x;
        }
        AppendAscending(ps, p);
      } else {
        InitLists(ps, p.index);
        InsertSorts(init, p);
        InsertHas(init, p);
        forall x | x in Insert(init, p) ensures x.index < last.index {
          if x in init {
            var k :| 0 <= k < |init| && init[k] == x;
          }
        }
        AppendAscending(Insert(init, p), last);
      }
    }
  }

  lemma InitLists(ps: seq<Report>, i: int)
    requires ps != []
    ensures Lists(ps[..|ps| - 1], i) ==> Lists(ps, i)
  {
    var init := ps[..|ps| - 1];
    if Lists(init, i) {
      var k :| 0 <= k < |init| && init[k].index == i;
      assert ps[k].index == i;
    }
  }

  lemma InsertKeeps(env: Env, v: seq<Item>, ps: seq<Report>, p: Report)
    requires Ascending(ps) && Truthful(env, v, ps) && !Lists(ps, p.index) && True(env, v, p)
    ensures var q := Insert(ps, p);
            && Ascending(q) && Truthful(env, v, q)
            && forall i :: Lists(q, i) <==> Lists(ps, i) || i == p.index
  {
    InsertSorts(ps, p);
    InsertHas(ps, p);
    var q := Insert(ps, p);
    forall k | 0 <= k < |q| ensures True(env, v, q[k]) {
      assert q[k] in q;
    }
    forall i ensures Lists(q, i) <==> Lists(ps, i) || i == p.index {
      if Lists(q, i) {
        var k :| 0 <= k < |q| && q[k].index == i;
        assert q[k] in q;
      }
      if Lists(ps, i) {
        var k :| 0 <= k < |ps| && ps[k].index == i;
        assert ps[k] in q;
      }
      assert p in q;
    }
  }

  // ---- The planner ----

  /** First pass: the checks on each member alone. */
  method FirstPass(r: Rules, infos: seq<Info>) returns (v: seq<Item>, excludedCount: nat, problems: seq<Report>)
    ensures v == View(r, infos)
    ensures excludedCount == DroppedCount(v, |v|)
    ensures Ascending(problems) && Truthful(r.env, v, problems)
    ensures forall i :: Lists(problems, i) <==> 0 <= i < |v| && v[i].alone.Refused?
  {
    v := [];
    for i := 0 to |infos|
      invariant v == View(r, infos)[..i]
    {
      v := v + [ItemOf(r, infos[i])];
    }
    excludedCount, problems := Sort(r.env, v);
  }

  /** Count the excluded members and list the ones refused alone. */
  method Sort(env: Env, v: seq<Item>) returns (excludedCount: nat, problems: seq<Report>)
    ensures excludedCount == DroppedCount(v, |v|)
    ensures Ascending(problems) && Truthful(env, v, problems)
    ensures forall i :: Lists(problems, i) <==> 0 <= i < |v| && v[i].alone.Refused?
  {
    excludedCount, problems := 0, [];
    for i := 0 to |v|
      invariant excludedCount == DroppedCount(v, i)
      invariant Ascending(problems) && Truthful(env, v, problems)
      invariant forall n :: Lists(problems, n) <==> 0 <= n < i && v[n].alone.Refused?
    {
      match v[i].alone
      case Dropped => excludedCount := excludedCount + 1;
      case Refused(p) =>
        InsertKeeps(env, v, problems, Report(i, v[i].name, p));
        problems := Insert(problems, Report(i, v[i].name, p));
      case Kept =>
    }
  }

  /** Candidate `i` is written to `p`. */
  ghost predicate PathAt(v: seq<Item>, i: int, p: Path) { IsCandidate(v, i) && v[i].path == p }

  ghost predicate SeenBefore(v: seq<Item>, n: int, p: Path) { exists i :: i < n && PathAt(v, i, p) }

  ghost predicate TwiceBefore(v: seq<Item>, n: int, p: Path) {
    exists i, j :: i < j < n && PathAt(v, i, p) && PathAt(v, j, p)
  }

  ghost predicate NeededBefore(v: seq<Item>, n: int, p: Path) {
    exists i :: i < n && IsCandidate(v, i) && StrictPrefix(p, v[i].path)
  }

  /** The paths several candidates share, and the directories candidates need. */
  method Survey(v: seq<Item>) returns (repeated: set<Path>, dirs: set<Path>)
    ensures forall i :: IsCandidate(v, i) ==> (v[i].path in repeated <==> Repeats(v, i))
    ensures forall i :: IsCandidate(v, i) ==> (v[i].path in dirs <==> IsDirectory(v, i))
  {
    var seen: set<Path> := {};
    repeated, dirs := {}, {};
    for n := 0 to |v|
      invariant forall p :: p in seen <==> SeenBefore(v, n, p)
      invariant forall p :: p in repeated <==> TwiceBefore(v, n, p)
      invariant forall p :: p in dirs <==> NeededBefore(v, n, p)
    {
      SurveyStep(v, n);
      if v[n].alone.Kept? {
        var p := v[n].path;
        if p in seen {
          repeated := repeated + {p};
        }
        seen := seen + {p};
        forall q ensures q in Ancestors(p) <==> StrictPrefix(q, p) { InAncestors(p, q); }
        dirs := dirs + Ancestors(p);
      }
    }
    forall i | IsCandidate(v, i)
      ensures TwiceBefore(v, |v|, v[i].path) <==> Repeats(v, i)
      ensures NeededBefore(v, |v|, v[i].path) <==> IsDirectory(v, i)
    {
      SurveyAt(v, i);
    }
  }

  lemma SurveyStep(v: seq<Item>, n: nat)
    requires n < |v|
    ensures forall p :: SeenBefore(v, n + 1, p) <==> SeenBefore(v, n, p) || PathAt(v, n, p)
    ensures forall p :: TwiceBefore(v, n + 1, p) <==> TwiceBefore(v, n, p) || (SeenBefore(v, n, p) && PathAt(v, n, p))
    ensures forall p :: NeededBefore(v, n + 1, p) <==>
              NeededBefore(v, n, p) || (v[n].alone.Kept? && StrictPrefix(p, v[n].path))
  {}

  lemma SurveyAt(v: seq<Item>, i: int)
    requires IsCandidate(v, i)
    ensures TwiceBefore(v, |v|, v[i].path) <==> Repeats(v, i)
    ensures NeededBefore(v, |v|, v[i].path) <==> IsDirectory(v, i)
  {
    var p := v[i].path;
    assert PathAt(v, i, p);
    if TwiceBefore(v, |v|, p) {
      var a, b :| a < b < |v| && PathAt(v, a, p) && PathAt(v, b, p);
      assert SamePath(v, i, if a == i then b else a);
    }
    if Repeats(v, i) {
      var j :| SamePath(v, i, j);
      assert PathAt(v, j, p);
      var a, b := if i < j then i else j, if i < j then j else i;
      assert a < b < |v| && PathAt(v, a, p) && PathAt(v, b, p);
    }
    if NeededBefore(v, |v|, p) {
      var a :| a < |v| && IsCandidate(v, a) && StrictPrefix(p, v[a].path);
      assert IsDirectoryOf(v, i, a);
    }
  }

  /** Some candidate before `n` was refused for the locked directory `d`. */
  ghost predicate LockBefore(env: Env, v: seq<Item>, n: int, d: string) {
    exists i :: i < n && LockedOut(env, v, i, Some(d))
  }

  /** Some candidate before `n` was refused for a repeated path `p`. */
  ghost predicate RepeatBefore(v: seq<Item>, n: int, p: Path) {
    exists i :: i < n && PathAt(v, i, p) && Repeats(v, i)
  }

  /** What the second pass has listed once it has looked at the first `n` members. */
  ghost predicate ListedUpTo(env: Env, v: seq<Item>, n: int, problems: seq<Report>) {
    forall i :: Lists(problems, i) <==>
      0 <= i < |v| && (if v[i].alone.Kept? then i < n && Reported(env, v, i) else v[i].alone.Refused?)
  }

  lemma ReportedRepeat(env: Env, v: seq<Item>, n: nat)
    requires IsCandidate(v, n)
    ensures Repeats(v, n) ==> (Reported(env, v, n) <==> !RepeatBefore(v, n, v[n].path))
    ensures !Repeats(v, n) ==> !exists j :: SamePath(v, j, n)
  {
    if j :| SamePath(v, j, n) {
      assert SamePath(v, n, j);
    }
    if Repeats(v, n) {
      if RepeatBefore(v, n, v[n].path) {
        var i :| i < n && PathAt(v, i, v[n].path) && Repeats(v, i);
        assert SamePath(v, i, n);
      }
      if j :| 0 <= j < n && SamePath(v, j, n) {
        assert PathAt(v, j, v[n].path) && Repeats(v, j);
      }
    }
  }

  lemma ReportedLock(env: Env, v: seq<Item>, n: nat)
    requires n < |v| && env.locked(v[n].path).Some? && LockedOut(env, v, n, env.locked(v[n].path))
    ensures Reported(env, v, n) <==> !LockBefore(env, v, n, env.locked(v[n].path).value)
  {
    ReportedRepeat(env, v, n);
    var d := env.locked(v[n].path).value;
    if LockBefore(env, v, n, d) {
      var i :| i < n && LockedOut(env, v, i, Some(d));
    }
  }

  lemma AloneReported(env: Env, v: seq<Item>, i: nat)
    requires i < |v| && !v[i].alone.Kept?
    ensures Reported(env, v, i) <==> v[i].alone.Refused?
  {}

  /** List member `n`'s problem when it is the first to have it. */
  method ListIf(env: Env, v: seq<Item>, n: nat, problem: Problem, first: bool, before: seq<Report>)
    returns (problems: seq<Report>)
    requires IsCandidate(v, n) && FateOf(env, v, n) == Refused(problem)
    requires first <==> Reported(env, v, n)
    requires Ascending(before) && Truthful(env, v, before) && ListedUpTo(env, v, n, before)
    ensures Ascending(problems) && Truthful(env, v, problems) && ListedUpTo(env, v, n + 1, problems)
  {
    problems := before;
    if first {
      InsertKeeps(env, v, before, Report(n, v[n].name, problem));
      problems := Insert(before, Report(n, v[n].name, problem));
    }
  }

  /** The paths already listed as repeated, and the directories already listed as locked. */
  ghost predicate ListedSets(env: Env, v: seq<Item>, n: int, reported: set<Path>, refused: set<string>) {
    (forall p :: p in reported <==> RepeatBefore(v, n, p)) && (forall d :: d in refused <==> LockBefore(env, v, n, d))
  }

  /** List one refused candidate, or pass over it as listed already. */
  method ListOne(env: Env, v: seq<Item>, n: nat, problem: Problem, before: seq<Report>, reported: set<Path>,
                 refused: set<string>)
    returns (problems: seq<Report>, reported': set<Path>, refused': set<string>)
    requires IsCandidate(v, n) && FateOf(env, v, n) == Refused(problem)
    requires problem.Unwritable? ==> env.locked(v[n].path).Some?
    requires Ascending(before) && Truthful(env, v, before) && ListedUpTo(env, v, n, before)
    requires ListedSets(env, v, n, reported, refused)
    ensures Ascending(problems) && Truthful(env, v, problems) && ListedUpTo(env, v, n + 1, problems)
    ensures reported' == if problem.DuplicateMember? then reported + {v[n].path} else reported
    ensures refused' == if problem.Unwritable? then refused + {env.locked(v[n].path).value} else refused
  {
    var lock := env.locked(v[n].path);
    var first := v[n].path !in reported && !(problem.Unwritable? && lock.value in refused);
    FirstIsReported(env, v, n);
    problems := ListIf(env, v, n, problem, first, before);
    reported', refused' := reported, refused;
    if problem.DuplicateMember? {
      reported' := reported + {v[n].path};
    } else if problem.Unwritable? {
      refused' := refused + {lock.value};
    }
  }

  /** Where the second pass stands once it has looked at the first `n` members. */
  ghost predicate Standing(env: Env, v: seq<Item>, n: nat, names: seq<string>, problems: seq<Report>,
                           reported: set<Path>, refused: set<string>)
    requires n <= |v|
  {
    && Ascending(problems) && Truthful(env, v, problems) && ListedUpTo(env, v, n, problems)
    && names == KeptNames(env, v, n)
    && ListedSets(env, v, n, reported, refused)
  }

  /** Take the second pass past member `n`. */
  method LookAt(env: Env, v: seq<Item>, n: nat, repeated: set<Path>, dirs: set<Path>, names: seq<string>,
                problems: seq<Report>, reported: set<Path>, refused: set<string>)
    returns (names': seq<string>, problems': seq<Report>, reported': set<Path>, refused': set<string>)
    requires n < |v| && Standing(env, v, n, names, problems, reported, refused)
    requires IsCandidate(v, n) ==>
               && (v[n].path in repeated <==> Repeats(v, n))
               && (v[n].path in dirs <==> IsDirectory(v, n))
    ensures Standing(env, v, n + 1, names', problems', reported', refused')
  {
    StepBefore(env, v, n);
    names', problems', reported', refused' := names, problems, reported, refused;
    if v[n].alone.Kept? {
      var fate := Judge(env, v, n, repeated, dirs);
      if fate.Refused? {
        problems', reported', refused' := ListOne(env, v, n, fate.problem, problems, reported, refused);
      } else {
        names' := names + [v[n].name];
      }
    }
  }

  /** Second pass: the checks of each candidate against the others and the disk. */
  method SecondPass(env: Env, v: seq<Item>, alone: seq<Report>) returns (names: seq<string>, problems: seq<Report>)
    requires Ascending(alone) && Truthful(env, v, alone)
    requires forall i :: Lists(alone, i) <==> 0 <= i < |v| && v[i].alone.Refused?
    ensures names == KeptNames(env, v, |v|)
    ensures Ascending(problems) && Truthful(env, v, problems)
    ensures forall i :: Lists(problems, i) <==> Reported(env, v, i)
  {
    var repeated, dirs := Survey(v);
    names, problems := [], alone;
    var reported: set<Path>, refused: set<string> := {}, {};
    for n := 0 to |v|
      invariant Standing(env, v, n, names, problems, reported, refused)
    {
      names, problems, reported, refused := LookAt(env, v, n, repeated, dirs, names, problems, reported, refused);
    }
    forall i | 0 <= i < |v| && !v[i].alone.Kept? { AloneReported(env, v, i); }
  }

  /** Check one candidate against the others and the disk, in the planner's order. */
  method Judge(env: Env, v: seq<Item>, n: nat, repeated: set<Path>, dirs: set<Path>) returns (fate: Fate)
    requires IsCandidate(v, n)
    requires v[n].path in repeated <==> Repeats(v, n)
    requires v[n].path in dirs <==> IsDirectory(v, n)
    ensures fate == FateOf(env, v, n) && !fate.Dropped?
    ensures fate == Refused(Unwritable) <==> LockedOut(env, v, n, env.locked(v[n].path))
    ensures fate == Refused(Unwritable) ==> env.locked(v[n].path).Some?
    ensures fate == Refused(DuplicateMember) <==> Repeats(v, n)
  {
    var member := v[n].path;
    if member in repeated {
      fate := Refused(DuplicateMember);
    } else if member in dirs {
      fate := Refused(Collides);
    } else if env.tooLong(member) {
      fate := Refused(TooLong);
    } else if env.locked(member).Some? {
      fate := Refused(Unwritable);
    } else {
      fate := Kept;
    }
  }

  /** A problem goes on the list when neither its path nor its directory was listed before. */
  lemma FirstIsReported(env: Env, v: seq<Item>, n: nat)
    requires IsCandidate(v, n) && FateOf(env, v, n).Refused?
    ensures Reported(env, v, n) <==>
              && !RepeatBefore(v, n, v[n].path)
              && (FateOf(env, v, n).problem.Unwritable? && env.locked(v[n].path).Some? ==>
                    !LockBefore(env, v, n, env.locked(v[n].path).value))
  {
    ReportedRepeat(env, v, n);
    if RepeatBefore(v, n, v[n].path) {
      var i :| i < n && PathAt(v, i, v[n].path) && Repeats(v, i);
      assert SamePath(v, i, n) && SamePath(v, n, i);
    } else if FateOf(env, v, n).problem.Unwritable? {
      ReportedLock(env, v, n);
    }
  }

  lemma StepBefore(env: Env, v: seq<Item>, n: nat)
    requires n < |v|
    ensures forall p :: RepeatBefore(v, n + 1, p) <==> RepeatBefore(v, n, p) || (PathAt(v, n, p) && Repeats(v, n))
    ensures forall d :: LockBefore(env, v, n + 1, d) <==> LockBefore(env, v, n, d) || LockedOut(env, v, n, Some(d))
  {}

  /** Plan a restore: every kept member in zip order, and every problem on its first member. */
  method PlanV1(r: Rules, infos: seq<Info>) returns (plan: Plan)
    ensures var v := View(r, infos);
            && plan.names == KeptNames(r.env, v, |v|)
            && plan.excludedCount == DroppedCount(v, |v|)
            && Ascending(plan.problems) && Truthful(r.env, v, plan.problems)
            && forall i :: Lists(plan.problems, i) <==> Reported(r.env, v, i)
    ensures plan.problems == [] <==> AllSettled(r, infos)
    ensures plan.problems == [] ==>
              forall i :: 0 <= i < |infos| ==> infos[i].name in plan.names || PassedOver(r, infos[i])
    ensures plan.excludedCount == |Those(|infos|, Passed(r, infos))|
  {
    var v, excludedCount, alone := FirstPass(r, infos);
    var names, problems := SecondPass(r.env, v, alone);
    plan := Plan(names, excludedCount, problems);
    DroppedIsPassed(r, infos);
    ProblemsMean(r, infos, problems);
    if problems == [] {
      forall i | 0 <= i < |infos| ensures infos[i].name in names || PassedOver(r, infos[i]) {
        NothingLost(r, infos, i);
      }
    }
  }

  // ---- What the verdicts mean ----

  /** Some component is scratch, or the last is named like the manifest. */
  ghost predicate NamedScratch(env: Env, path: Path) {
    exists c :: c in path && (env.scratchName(c) || (c == MANIFEST_NAME && path[|path| - 1] == c))
  }

  /** The innermost subtree around the member leads out of the root. */
  ghost predicate LinksOut(env: Env, rel: string, subtrees: seq<string>) {
    exists s ::
      && s in subtrees && s + [SEP] <= rel && env.escapes(s)
      && forall o :: o in subtrees && o + [SEP] <= rel ==> |o| <= |s|
  }

  /** A member as the rules see it: its path, its text, and whether it is named like scratch or led astray. */
  datatype Seen = Seen(path: Path, rel: string, scratch: bool, linked: bool)

  ghost function SeenAs(r: Rules, info: Info): Seen {
    var path, rel := Parts(info.name), AsPosix(info.name);
    Seen(path, rel, NamedScratch(r.env, path), LinksOut(r.env, rel, r.subtrees))
  }

  /** What each problem says of a member looked at alone, whatever else is wrong with it. */
  ghost predicate Has(r: Rules, info: Info, m: Seen, p: Problem) {
    match p
    case Escapes => (info.name != "" && info.name[0] == '/') || ".." in m.path
    case NamesSubtree => m.rel in r.subtrees || m.rel in r.excluded
    case Outside => !UnderSubtrees(m.rel, r.subtrees)
    case Scratch => m.scratch
    case Symlink => m.linked
    case Unreadable => info.encrypted || info.compression !in {ZIP_STORED, ZIP_DEFLATED} || !info.dated
    case _ => false
  }

  ghost predicate Routed(r: Rules, info: Info, m: Seen) {
    !Has(r, info, m, Escapes) && !Has(r, info, m, NamesSubtree) && UnderSubtrees(m.rel, r.excluded)
  }

  ghost predicate Clear(r: Rules, info: Info, m: Seen) {
    !UnderSubtrees(m.rel, r.excluded) && forall p :: !Has(r, info, m, p)
  }

  ghost predicate Suffers(r: Rules, info: Info, p: Problem) { Has(r, info, SeenAs(r, info), p) }

  /** A member meant for another route: well named, and inside an excluded subtree. */
  ghost predicate PassedOver(r: Rules, info: Info) { Routed(r, info, SeenAs(r, info)) }

  /** A member with nothing against it so far. */
  ghost predicate Candidate(r: Rules, info: Info) { Clear(r, info, SeenAs(r, info)) }

  lemma ScratchMeans(env: Env, path: Path)
    ensures IsScratch(env, path) <==> NamedScratch(env, path)
  {
    if i :| 0 <= i < |path| && env.scratchName(path[i]) {
      assert path[i] in path;
    }
    if path != [] {
      assert path[|path| - 1] in path;
    }
  }

  /** Of two subtrees a member sits in, neither longer than the other, there is but one. */
  lemma OneLongest(rel: string, s: string, o: string)
    requires s + [SEP] <= rel && o + [SEP] <= rel && |s| == |o|
    ensures s == o
  {
    assert s == rel[..|s|] && o == rel[..|o|];
  }

  lemma SymlinkMeans(env: Env, rel: string, subtrees: seq<string>)
    ensures InnermostEscapes(env, rel, subtrees) <==> LinksOut(env, rel, subtrees)
  {
    var longest := LongestSubtree(rel, subtrees);
    if LinksOut(env, rel, subtrees) {
      var s :|
        && s in subtrees && s + [SEP] <= rel && env.escapes(s)
        && forall o :: o in subtrees && o + [SEP] <= rel ==> |o| <= |s|;
      var i :| 0 <= i < |subtrees| && subtrees[i] == s;
      OneLongest(rel, s, longest.value);
    }
  }

  lemma VerdictMeans(r: Rules, info: Info, m: Seen)
    ensures var f := Verdict(r, info, m.path, m.rel, m.scratch, m.linked);
            && (f.Refused? ==> Has(r, info, m, f.problem))
            && (f.Dropped? <==> Routed(r, info, m))
            && (f.Kept? <==> Clear(r, info, m))
  {
    if Clear(r, info, m) {
      assert !Has(r, info, m, Escapes) && !Has(r, info, m, NamesSubtree) && !Has(r, info, m, Outside);
      assert !Has(r, info, m, Scratch) && !Has(r, info, m, Symlink) && !Has(r, info, m, Unreadable);
    }
  }

  lemma AloneIs(r: Rules, info: Info)
    ensures var m := SeenAs(r, info); Alone(r, info) == Verdict(r, info, m.path, m.rel, m.scratch, m.linked)
  {
    ScratchMeans(r.env, Parts(info.name));
    SymlinkMeans(r.env, AsPosix(info.name), r.subtrees);
  }

  /** The verdict on a member alone: kept with nothing against it, passed over only for an excluded
      subtree, refused only for a problem it has. */
  lemma AloneMeans(r: Rules, info: Info)
    ensures Alone(r, info).Kept? <==> Candidate(r, info)
    ensures Alone(r, info).Dropped? <==> PassedOver(r, info)
    ensures Alone(r, info).Refused? ==> Suffers(r, info, Alone(r, info).problem)
  {
    AloneIs(r, info);
    VerdictMeans(r, info, SeenAs(r, info));
  }

  /** Another candidate has member `i`'s very path. */
  ghost predicate Doubled(r: Rules, infos: seq<Info>, i: nat)
    requires i < |infos|
  {
    exists j :: 0 <= j < |infos| && j != i && Candidate(r, infos[j]) && Parts(infos[j].name) == Parts(infos[i].name)
  }

  /** A candidate lies below member `i`, which would have to be a directory. */
  ghost predicate InTheWay(r: Rules, infos: seq<Info>, i: nat)
    requires i < |infos|
  {
    exists j :: 0 <= j < |infos| && Candidate(r, infos[j]) && StrictPrefix(Parts(infos[i].name), Parts(infos[j].name))
  }

  lemma CandidatesAre(r: Rules, infos: seq<Info>, j: int)
    ensures IsCandidate(View(r, infos), j) <==> 0 <= j < |infos| && Candidate(r, infos[j])
  {
    if 0 <= j < |infos| { AloneMeans(r, infos[j]); }
  }

  lemma RepeatsFrom(r: Rules, infos: seq<Info>, i: nat, j: int)
    requires i < |infos| && SamePath(View(r, infos), i, j)
    ensures Doubled(r, infos, i)
  {
    CandidatesAre(r, infos, j);
    assert 0 <= j < |infos| && j != i && Parts(infos[j].name) == Parts(infos[i].name);
  }

  lemma DoubledFrom(r: Rules, infos: seq<Info>, i: nat, j: nat)
    requires i < |infos| && Candidate(r, infos[i])
    requires j < |infos| && j != i && Candidate(r, infos[j]) && Parts(infos[j].name) == Parts(infos[i].name)
    ensures Repeats(View(r, infos), i)
  {
    CandidatesAre(r, infos, i);
    CandidatesAre(r, infos, j);
    assert SamePath(View(r, infos), i, j);
  }

  lemma DoubledMeans(r: Rules, infos: seq<Info>, i: nat)
    requires i < |infos| && Candidate(r, infos[i])
    ensures Repeats(View(r, infos), i) <==> Doubled(r, infos, i)
  {
    if Repeats(View(r, infos), i) {
      var j :| SamePath(View(r, infos), i, j);
      RepeatsFrom(r, infos, i, j);
    }
    if Doubled(r, infos, i) {
      var j :| 0 <= j < |infos| && j != i && Candidate(r, infos[j]) && Parts(infos[j].name) == Parts(infos[i].name);
      DoubledFrom(r, infos, i, j);
    }
  }

  lemma InTheWayMeans(r: Rules, infos: seq<Info>, i: nat)
    requires i < |infos| && Candidate(r, infos[i])
    ensures IsDirectory(View(r, infos), i) <==> InTheWay(r, infos, i)
  {
    var v := View(r, infos);
    CandidatesAre(r, infos, i);
    if j :| IsDirectoryOf(v, i, j) {
      CandidatesAre(r, infos, j);
    }
    if InTheWay(r, infos, i) {
      var j :| 0 <= j < |infos| && Candidate(r, infos[j]) && StrictPrefix(Parts(infos[i].name), Parts(infos[j].name));
      CandidatesAre(r, infos, j);
      assert IsDirectoryOf(v, i, j);
    }
  }

  /** Nothing is against member `i`, alone, beside the others or on the disk. */
  ghost predicate Unopposed(r: Rules, infos: seq<Info>, i: nat)
    requires i < |infos|
  {
    var path := Parts(infos[i].name);
    && Candidate(r, infos[i]) && !Doubled(r, infos, i) && !InTheWay(r, infos, i)
    && !r.env.tooLong(path) && r.env.locked(path).None?
  }

  /** Member `i` has the problem, beside the others or on the disk if not alone. */
  ghost predicate Afflicted(r: Rules, infos: seq<Info>, i: nat, p: Problem)
    requires i < |infos|
  {
    match p
    case DuplicateMember => Doubled(r, infos, i)
    case Collides => InTheWay(r, infos, i)
    case TooLong => r.env.tooLong(Parts(infos[i].name))
    case Unwritable => r.env.locked(Parts(infos[i].name)).Some?
    case p => Suffers(r, infos[i], p)
  }

  lemma FateOfCandidate(r: Rules, infos: seq<Info>, i: nat)
    requires i < |infos| && Candidate(r, infos[i])
    ensures var f := FateOf(r.env, View(r, infos), i);
            !f.Dropped? && (f.Kept? <==> Unopposed(r, infos, i)) && (f.Refused? ==> Afflicted(r, infos, i, f.problem))
  {
    AloneMeans(r, infos[i]);
    DoubledMeans(r, infos, i);
    InTheWayMeans(r, infos, i);
  }

  lemma FateOfOther(r: Rules, infos: seq<Info>, i: nat)
    requires i < |infos| && !Candidate(r, infos[i])
    ensures FateOf(r.env, View(r, infos), i) == Alone(r, infos[i]) && !Alone(r, infos[i]).Kept?
  {
    AloneMeans(r, infos[i]);
  }

  lemma ProblemAlone(r: Rules, info: Info)
    requires Alone(r, info).Refused?
    ensures !Alone(r, info).problem.DuplicateMember? && !Alone(r, info).problem.Collides?
    ensures !Alone(r, info).problem.TooLong? && !Alone(r, info).problem.Unwritable?
  {}

  /** What becomes of a member: it is kept exactly when nothing is against it, passed over exactly for
      an excluded subtree, and refused only for what it has. */
  lemma FateMeans(r: Rules, infos: seq<Info>, i: nat)
    requires i < |infos|
    ensures var f := FateOf(r.env, View(r, infos), i);
            && (f.Kept? <==> Unopposed(r, infos, i))
            && (f.Dropped? <==> PassedOver(r, infos[i]))
            && (f.Refused? ==> Afflicted(r, infos, i, f.problem))
  {
    AloneMeans(r, infos[i]);
    if Candidate(r, infos[i]) {
      FateOfCandidate(r, infos, i);
    } else {
      FateOfOther(r, infos, i);
      if Alone(r, infos[i]).Refused? { ProblemAlone(r, infos[i]); }
    }
  }

  /** The numbers below `n` that satisfy `p`. */
  ghost function Those(n: nat, p: int -> bool): set<int> { set i | 0 <= i < n && p(i) }

  lemma ThoseStep(n: nat, p: int -> bool)
    ensures |Those(n + 1, p)| == |Those(n, p)| + if p(n) then 1 else 0
  {
    if p(n) {
      assert Those(n + 1, p) == Those(n, p) + {n};
    } else {
      assert Those(n + 1, p) == Those(n, p);
    }
  }

  /** Which members are meant for another route. */
  ghost function Passed(r: Rules, infos: seq<Info>): int -> bool {
    i => 0 <= i < |infos| && PassedOver(r, infos[i])
  }

  lemma {:induction false} DroppedAre(v: seq<Item>, n: nat, p: int -> bool)
    requires n <= |v| && forall i :: 0 <= i < n ==> (v[i].alone.Dropped? <==> p(i))
    ensures DroppedCount(v, n) == |Those(n, p)|
  {
    if n == 0 {
    } else {
      DroppedAre(v, n - 1, p);
      ThoseStep(n - 1, p);
    }
  }

  lemma DroppedIsPassed(r: Rules, infos: seq<Info>)
    ensures DroppedCount(View(r, infos), |infos|) == |Those(|infos|, Passed(r, infos))|
  {
    var v, p := View(r, infos), Passed(r, infos);
    forall i | 0 <= i < |infos| ensures v[i].alone.Dropped? <==> p(i) { AloneMeans(r, infos[i]); }
    DroppedAre(v, |infos|, p);
  }

  /** Every member that is kept is in the plan, behind those kept before it. */
  lemma {:induction false} KeptIsListed(env: Env, v: seq<Item>, i: nat, n: nat)
    requires i < n <= |v| && FateOf(env, v, i).Kept?
    ensures |KeptNames(env, v, i)| < |KeptNames(env, v, n)|
    ensures KeptNames(env, v, n)[|KeptNames(env, v, i)|] == v[i].name
    decreases n
  {
    if i == n - 1 {
    } else {
      KeptIsListed(env, v, i, n - 1);
    }
  }

  // ---- What a plan without problems promises ----

  /** Nothing is lost in silence: with no problem reported, no member was refused at all, so
      every member not under an excluded subtree is in the plan. */
  lemma {:induction false} NothingRefused(env: Env, v: seq<Item>, i: nat)
    requires i < |v|
    requires forall n :: !Reported(env, v, n)
    ensures !FateOf(env, v, i).Refused?
  {
    assert !Reported(env, v, i);
    if j :| 0 <= j < i && SamePath(v, j, i) {
      assert SamePath(v, i, j);
      NothingRefused(env, v, j);
    } else if j :| 0 <= j < i && LockedOut(env, v, j, env.locked(v[i].path)) {
      NothingRefused(env, v, j);
    }
  }

  /** Every member either has nothing against it or is meant for another route. */
  ghost predicate AllSettled(r: Rules, infos: seq<Info>) {
    forall i :: 0 <= i < |infos| ==> Unopposed(r, infos, i) || PassedOver(r, infos[i])
  }

  lemma SettledMeans(r: Rules, infos: seq<Info>, i: nat)
    requires i < |infos|
    ensures Unopposed(r, infos, i) || PassedOver(r, infos[i]) <==> !FateOf(r.env, View(r, infos), i).Refused?
  {
    FateMeans(r, infos, i);
  }

  lemma ProblemsMean(r: Rules, infos: seq<Info>, problems: seq<Report>)
    requires forall i :: Lists(problems, i) <==> Reported(r.env, View(r, infos), i)
    ensures problems == [] <==> AllSettled(r, infos)
  {
    var v := View(r, infos);
    if problems == [] {
      forall i | 0 <= i < |infos| ensures Unopposed(r, infos, i) || PassedOver(r, infos[i]) {
        NothingRefused(r.env, v, i);
        SettledMeans(r, infos, i);
      }
    } else {
      var i := problems[0].index;
      assert Lists(problems, i);
      assert Reported(r.env, v, i);
      SettledMeans(r, infos, i);
    }
  }

  /** With no problem reported, every member is in the plan but those meant for another route. */
  lemma NothingLost(r: Rules, infos: seq<Info>, i: nat)
    requires i < |infos| && forall n :: !Reported(r.env, View(r, infos), n)
    ensures infos[i].name in KeptNames(r.env, View(r, infos), |infos|) || PassedOver(r, infos[i])
  {
    NothingRefused(r.env, View(r, infos), i);
    FateMeans(r, infos, i);
    if FateOf(r.env, View(r, infos), i).Kept? {
      KeptIsListed(r.env, View(r, infos), i, |infos|);
    }
  }

  /** A kept member is written strictly inside a save subtree, under a name that is dumped again. */
  lemma KeptIsSafe(r: Rules, infos: seq<Info>, i: nat)
    requires i < |infos| && FateOf(r.env, View(r, infos), i).Kept?
    ensures var p := Parts(infos[i].name);
            && p != [] && infos[i].name[0] != '/' && ".." !in p
            && Join(p) == AsPosix(infos[i].name)
            && UnderSubtrees(Join(p), r.subtrees) && !UnderSubtrees(Join(p), r.excluded)
            && !IsScratch(r.env, p) && !r.env.tooLong(p)
            && MemberProblem(infos[i], true).None?
  {
    assert Alone(r, infos[i]).Kept?;
    DotIsNotUnder(r.subtrees);
  }

  lemma DotIsNotUnder(subtrees: seq<string>)
    ensures !UnderSubtrees(".", subtrees)
  {
    forall k | 0 <= k < |subtrees| ensures !(subtrees[k] + [SEP] <= ".") {
      var s := subtrees[k] + [SEP];
      assert s[|s| - 1] == SEP;
    }
  }

  /** No two kept members need the same place. */
  lemma KeptCompatible(env: Env, v: seq<Item>, i: nat, j: nat)
    requires i < |v| && j < |v| && i != j
    requires FateOf(env, v, i).Kept? && FateOf(env, v, j).Kept?
    ensures v[i].path != v[j].path && !Nested(v[i].path, v[j].path)
  {
    assert !SamePath(v, i, j);
    assert !IsDirectoryOf(v, i, j) && !IsDirectoryOf(v, j, i);
  }
}
