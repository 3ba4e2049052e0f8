/** Writing an approved restore into the save tree (`write_save_archive`), and why it cannot collide. */
module Restore {
  import opened Lists
  import opened Options
  import opened Paths
  import opened Tree
  import opened Conflicts
  import opened V1Plan

  /** How far behind the restoring clock a file lands whose stored time lies ahead of it. */
  const FUTURE_MEMBER_BACKDATE := 4.0

  /** One entry of the zip; its data is None when it cannot be read back. */
  datatype ZipEntry = ZipEntry(info: Info, stamp: real, data: Option<Bytes>)

  datatype ArchivePlan = ArchivePlan(
    v1: seq<string>, excludedCount: nat, placed: seq<(string, Path)>, sidecars: seq<Sidecar>)

  datatype Result = Result(written: nat, skipped: nat, excluded: nat, failed: nat, imported: nat)

  datatype Kind = V1 | Import | Beside

  /** One step of a restore: a file to write, or a member the archive turned out not to hold. */
  datatype Op = Op(kind: Kind, write: Option<Write>)

  /** `zipfile` answers a name with its last entry. */
  function Find(zip: seq<ZipEntry>, name: string): (e: Option<ZipEntry>)
    ensures e.Some? ==> e.value in zip && e.value.info.name == name
    ensures e.None? ==> forall x :: x in zip ==> x.info.name != name
  {
    if zip == [] then None
    else if zip[|zip| - 1].info.name == name then Some(zip[|zip| - 1])
    else
      assert zip == zip[..|zip| - 1] + [zip[|zip| - 1]];
      Find(zip[..|zip| - 1], name)
  }

  /** The mtime a v1 member's file is stamped with. */
  function RestoreStamp(e: ZipEntry, when: real): real {
    var mtime := if e.info.dated then e.stamp else when;
    if mtime > when then when - FUTURE_MEMBER_BACKDATE else mtime
  }

  function V1Op(zip: seq<ZipEntry>, name: string, exempt: string -> bool, when: real): Op {
    match Find(zip, name)
    case None => Op(V1, None)
    case Some(e) => Op(V1, Some(Write(Parts(name), e.data, RestoreStamp(e, when), !exempt(name))))
  }

  function PlacedOp(zip: seq<ZipEntry>, placed: (string, Path), when: real): Op {
    var e := Find(zip, placed.0);
    Op(Import, Some(Write(placed.1, if e.Some? then e.value.data else None, when, false)))
  }

  function SidecarOp(s: Sidecar, when: real): Op {
    Op(Beside, Some(Write(s.path, Some(s.data), when, false)))
  }

  function Ops(zip: seq<ZipEntry>, plan: ArchivePlan, exempt: string -> bool, when: real): seq<Op> {
    seq(|plan.v1|, i requires 0 <= i < |plan.v1| => V1Op(zip, plan.v1[i], exempt, when))
    + seq(|plan.placed|, i requires 0 <= i < |plan.placed| => PlacedOp(zip, plan.placed[i], when))
    + seq(|plan.sidecars|, i requires 0 <= i < |plan.sidecars| => SidecarOp(plan.sidecars[i], when))
  }

  /** Which step of a restore is which. */
  lemma OpsAt(zip: seq<ZipEntry>, p: ArchivePlan, exempt: string -> bool, when: real, i: nat)
    ensures var ops := Ops(zip, p, exempt, when);
            && |ops| == |p.v1| + |p.placed| + |p.sidecars|
            && (i < |p.v1| ==> ops[i] == V1Op(zip, p.v1[i], exempt, when))
            && (i < |p.placed| ==> ops[|p.v1| + i] == PlacedOp(zip, p.placed[i], when))
            && (i < |p.sidecars| ==> ops[|p.v1| + |p.placed| + i] == SidecarOp(p.sidecars[i], when))
  {}

  /** How one step shows in the report. */
  function Tally(r: Result, kind: Kind, outcome: Outcome): Result {
    match kind
    case V1 =>
      (match outcome
       case Written => r.(written := r.written + 1)
       case Skipped => r.(skipped := r.skipped + 1)
       case Failed => r.(failed := r.failed + 1))
    case Import => if outcome.Written? then r.(imported := r.imported + 1) else r.(failed := r.failed + 1)
    case Beside => if outcome.Failed? then r.(failed := r.failed + 1) else r
  }

  /** A step writes nowhere, or to a proper path. */
  predicate Fit(o: Op) { o.write.Some? ==> o.write.value.path != [] }

  predicate Placeable(ops: seq<Op>) { forall o :: o in ops ==> Fit(o) }

  function RunOne(t: Tree, o: Op, dirTime: Path -> real, r: Result): (Tree, Result)
    requires Fit(o)
  {
    if o.write.None? then (t, Tally(r, o.kind, Failed))
    else
      var w := WriteFile(t, o.write.value, dirTime);
      (w.0, Tally(r, o.kind, w.1))
  }

  /** The tree and the report after the steps, in order. */
  function Run(t: Tree, ops: seq<Op>, dirTime: Path -> real, r: Result): (Tree, Result)
    requires Placeable(ops)
    decreases |ops|
  {
    if ops == [] then (t, r)
    else
      assert ops[0] in ops;
      var one := RunOne(t, ops[0], dirTime, r);
      Run(one.0, ops[1..], dirTime, one.1)
  }

  lemma {:induction false} RunAppend(t: Tree, ops: seq<Op>, o: Op, dirTime: Path -> real, r: Result)
    requires Placeable(ops + [o])
    ensures Placeable(ops) && Placeable([o])
    ensures var a := Run(t, ops, dirTime, r); Run(t, ops + [o], dirTime, r) == RunOne(a.0, o, dirTime, a.1)
    decreases |ops|
  {
    assert o in ops + [o];
    assert forall x :: x in ops ==> x in ops + [o];
    if ops == [] {
      assert ops + [o] == [o];
    } else {
      var one := RunOne(t, ops[0], dirTime, r);
      assert (ops + [o])[1..] == ops[1..] + [o];
      RunAppend(one.0, ops[1..], o, dirTime, one.1);
    }
  }

  lemma RunPrefix(t: Tree, ops: seq<Op>, n: nat, dirTime: Path -> real, r: Result)
    requires Placeable(ops) && n < |ops|
    ensures Placeable(ops[..n]) && Placeable(ops[..n + 1])
    ensures var a := Run(t, ops[..n], dirTime, r); Run(t, ops[..n + 1], dirTime, r) == RunOne(a.0, ops[n], dirTime, a.1)
  {
    assert ops[..n + 1] == ops[..n] + [ops[n]];
    assert forall x :: x in ops[..n + 1] ==> x in ops;
    RunAppend(t, ops[..n], ops[n], dirTime, r);
  }

  /** The steps of a restore, one more each time: an ordinary member, a placed import, or a sidecar. */
  lemma StepV1(zip: seq<ZipEntry>, t: Tree, p: ArchivePlan, exempt: string -> bool, dirTime: Path -> real, when: real,
               i: nat, r: Result)
    requires Placeable(Ops(zip, p, exempt, when)) && i < |p.v1|
    ensures var ops := Ops(zip, p, exempt, when);
            && i < |ops| && Placeable(ops[..i]) && Placeable(ops[..i + 1])
            && Fit(V1Op(zip, p.v1[i], exempt, when))
            && var a := Run(t, ops[..i], dirTime, r);
               Run(t, ops[..i + 1], dirTime, r) == RunOne(a.0, V1Op(zip, p.v1[i], exempt, when), dirTime, a.1)
  {
    var ops := Ops(zip, p, exempt, when);
    assert ops[i] in ops;
    RunPrefix(t, ops, i, dirTime, r);
  }

  lemma StepPlaced(zip: seq<ZipEntry>, t: Tree, p: ArchivePlan, exempt: string -> bool, dirTime: Path -> real,
                   when: real, i: nat, r: Result)
    requires Placeable(Ops(zip, p, exempt, when)) && i < |p.placed|
    ensures var ops, n := Ops(zip, p, exempt, when), |p.v1| + i;
            && n < |ops| && Placeable(ops[..n]) && Placeable(ops[..n + 1])
            && Fit(PlacedOp(zip, p.placed[i], when))
            && var a := Run(t, ops[..n], dirTime, r);
               Run(t, ops[..n + 1], dirTime, r) == RunOne(a.0, PlacedOp(zip, p.placed[i], when), dirTime, a.1)
  {
    var ops := Ops(zip, p, exempt, when);
    assert ops[|p.v1| + i] in ops;
    RunPrefix(t, ops, |p.v1| + i, dirTime, r);
  }

  lemma StepBeside(zip: seq<ZipEntry>, t: Tree, p: ArchivePlan, exempt: string -> bool, dirTime: Path -> real,
                   when: real, i: nat, r: Result)
    requires Placeable(Ops(zip, p, exempt, when)) && i < |p.sidecars|
    ensures var ops, n := Ops(zip, p, exempt, when), |p.v1| + |p.placed| + i;
            && n < |ops| && Placeable(ops[..n]) && Placeable(ops[..n + 1])
            && Fit(SidecarOp(p.sidecars[i], when))
            && var a := Run(t, ops[..n], dirTime, r);
               Run(t, ops[..n + 1], dirTime, r) == RunOne(a.0, SidecarOp(p.sidecars[i], when), dirTime, a.1)
  {
    var ops := Ops(zip, p, exempt, when);
    assert ops[|p.v1| + |p.placed| + i] in ops;
    RunPrefix(t, ops, |p.v1| + |p.placed| + i, dirTime, r);
  }

  /** Write a restore: v1 members under the guard, then placed imports, then sidecars. */
  method WriteSaveArchive(zip: seq<ZipEntry>, t: Tree, plan: ArchivePlan, exempt: string -> bool,
                          dirTime: Path -> real, when: real)
    returns (tree: Tree, result: Result)
    requires Placeable(Ops(zip, plan, exempt, when))
    ensures (tree, result) == Run(t, Ops(zip, plan, exempt, when), dirTime, Result(0, 0, plan.excludedCount, 0, 0))
  {
    ghost var ops := Ops(zip, plan, exempt, when);
    ghost var start := Result(0, 0, plan.excludedCount, 0, 0);
    tree, result := t, Result(0, 0, plan.excludedCount, 0, 0);
    for i := 0 to |plan.v1|
      invariant Placeable(ops[..i]) && (tree, result) == Run(t, ops[..i], dirTime, start)
    {
      StepV1(zip, t, plan, exempt, dirTime, when, i, start);
      var found := Find(zip, plan.v1[i]);
      if found.None? {
        result := result.(failed := result.failed + 1);
      } else {
        var guard := !exempt(plan.v1[i]);
        var mtime := RestoreStamp(found.value, when);
        var w := WriteFile(tree, Write(Parts(plan.v1[i]), found.value.data, mtime, guard), dirTime);
        tree, result := w.0, Tally(result, V1, w.1);
      }
    }
    var base := |plan.v1|;
    for i := 0 to |plan.placed|
      invariant Placeable(ops[..base + i]) && (tree, result) == Run(t, ops[..base + i], dirTime, start)
    {
      StepPlaced(zip, t, plan, exempt, dirTime, when, i, start);
      var found := Find(zip, plan.placed[i].0);
      var data := if found.Some? then found.value.data else None;
      var w := WriteFile(tree, Write(plan.placed[i].1, data, when, false), dirTime);
      tree, result := w.0, Tally(result, Import, w.1);
    }
    base := base + |plan.placed|;
    for i := 0 to |plan.sidecars|
      invariant Placeable(ops[..base + i]) && (tree, result) == Run(t, ops[..base + i], dirTime, start)
    {
      StepBeside(zip, t, plan, exempt, dirTime, when, i, start);
      var w := WriteFile(tree, Write(plan.sidecars[i].path, Some(plan.sidecars[i].data), when, false), dirTime);
      tree, result := w.0, Tally(result, Beside, w.1);
    }
    assert ops[..|ops|] == ops;
  }

  /** When every write succeeds, the report counts exactly the v1 members and the imports. */
  lemma {:induction false} RunAllWritten(t: Tree, ops: seq<Op>, ws: seq<Write>, dirTime: Path -> real, r: Result)
    requires |ws| == |ops| && forall i :: 0 <= i < |ops| ==> ops[i].write == Some(ws[i]) && ws[i].path != []
    requires Placeable(ops)
    requires forall w :: w in ws ==> w.path != []
    requires forall o :: o in WriteEach(t, ws, dirTime).1 ==> o == Written
    ensures var a := Run(t, ops, dirTime, r);
            && a.0 == WriteEach(t, ws, dirTime).0
            && a.1.failed == r.failed && a.1.skipped == r.skipped && a.1.excluded == r.excluded
            && a.1.written == r.written + CountKind(ops, V1)
            && a.1.imported == r.imported + CountKind(ops, Import)
    decreases |ops|
  {
    if ops == [] {
    } else {
      assert ws[0] in ws;
      var one := WriteFile(t, ws[0], dirTime);
      assert one.1 in WriteEach(t, ws, dirTime).1;
      assert forall o :: o in WriteEach(one.0, ws[1..], dirTime).1 ==> o in WriteEach(t, ws, dirTime).1;
      RunAllWritten(one.0, ops[1..], ws[1..], dirTime, Tally(r, ops[0].kind, one.1));
    }
  }

  function CountKind(ops: seq<Op>, k: Kind): nat {
    if ops == [] then 0 else (if ops[0].kind == k then 1 else 0) + CountKind(ops[1..], k)
  }

  lemma {:induction false} CountAppend(a: seq<Op>, b: seq<Op>, k: Kind)
    ensures CountKind(a + b, k) == CountKind(a, k) + CountKind(b, k)
  {
    if a == [] {
      assert a + b == b;
    } else {
      assert (a + b)[1..] == a[1..] + b;
      CountAppend(a[1..], b, k);
    }
  }

  lemma {:induction false} CountSame(ops: seq<Op>, kind: Kind, k: Kind)
    requires forall o :: o in ops ==> o.kind == kind
    ensures CountKind(ops, k) == if kind == k then |ops| else 0
  {
    if ops == [] {
    } else {
      assert ops[0] in ops;
      CountSame(ops[1..], kind, k);
    }
  }

  // ---- What one step does to a file that is there ----

  /** The time a restored member's file carries: the stored one, the clock's where there is none, and a
      little before the clock's where the stored one lies ahead of it. */
  ghost predicate LandsAt(e: ZipEntry, when: real, mtime: real) {
    if !e.info.dated then mtime == when
    else if e.stamp <= when then mtime == e.stamp
    else mtime == when - FUTURE_MEMBER_BACKDATE
  }

  /** An ordinary member over a file that is there: a file newer by more than the slack stays, unless
      its name is exempt; any other is replaced by the member's bytes; and each end is counted as
      what it is. */
  lemma V1Over(zip: seq<ZipEntry>, name: string, exempt: string -> bool, when: real, t: Tree, dirTime: Path -> real,
               r: Result, mtime: real)
    requires WellFormed(t) && Parts(name) != [] && Parts(name) in t.files
    requires Find(zip, name).Some? && LandsAt(Find(zip, name).value, when, mtime)
    ensures var a, path, e := RunOne(t, V1Op(zip, name, exempt, when), dirTime, r), Parts(name), Find(zip, name).value;
            if !exempt(name) && t.files[path].mtime > mtime + SAVE_MTIME_SLACK then
              a == (t, r.(skipped := r.skipped + 1))
            else if e.data.None? then a.0.files == t.files && a.1 == r.(failed := r.failed + 1)
            else a.0.files == t.files[path := File(e.data.value, mtime)] && a.1 == r.(written := r.written + 1)
  {
    NewerFileKept(t, Write(Parts(name), Find(zip, name).value.data, mtime, !exempt(name)), dirTime);
  }

  /** An import over a file that is there: it replaces the file however new that is, stamped now. */
  lemma PlacedOver(zip: seq<ZipEntry>, placed: (string, Path), when: real, t: Tree, dirTime: Path -> real, r: Result)
    requires WellFormed(t) && placed.1 != [] && placed.1 in t.files
    ensures var a, e := RunOne(t, PlacedOp(zip, placed, when), dirTime, r), Find(zip, placed.0);
            if e.Some? && e.value.data.Some? then
              && a.0.files == t.files[placed.1 := File(e.value.data.value, when)]
              && a.1 == r.(imported := r.imported + 1)
            else a.0.files == t.files && a.1 == r.(failed := r.failed + 1)
  {
    var e := Find(zip, placed.0);
    NewerFileKept(t, Write(placed.1, if e.Some? then e.value.data else None, when, false), dirTime);
  }

  /** A member the archive turned out not to hold is counted as failed. */
  lemma MissingFails(zip: seq<ZipEntry>, name: string, exempt: string -> bool, when: real, t: Tree,
                     dirTime: Path -> real, r: Result)
    requires Find(zip, name).None?
    ensures RunOne(t, V1Op(zip, name, exempt, when), dirTime, r) == (t, r.(failed := r.failed + 1))
  {}

  // ---- What the report says ----

  datatype Step = Step(kind: Kind, outcome: Outcome)

  /** How one step ends in the tree it finds. */
  function OutcomeOf(t: Tree, o: Op, dirTime: Path -> real): Outcome
    requires Fit(o)
  {
    if o.write.None? then Failed else WriteFile(t, o.write.value, dirTime).1
  }

  /** How each step of a restore ends, whatever is reported. */
  function Trace(t: Tree, ops: seq<Op>, dirTime: Path -> real): seq<Step>
    requires Placeable(ops)
  {
    if ops == [] then []
    else
      var n := |ops| - 1;
      assert ops[n] in ops;
      Trace(t, ops[..n], dirTime)
      + [Step(ops[n].kind, OutcomeOf(Run(t, ops[..n], dirTime, Result(0, 0, 0, 0, 0)).0, ops[n], dirTime))]
  }

  lemma {:induction false} RunTree(t: Tree, ops: seq<Op>, dirTime: Path -> real, r: Result, q: Result)
    requires Placeable(ops)
    ensures Run(t, ops, dirTime, r).0 == Run(t, ops, dirTime, q).0
    decreases |ops|
  {
    if ops == [] {
    } else {
      assert ops[0] in ops;
      RunTree(RunOne(t, ops[0], dirTime, r).0, ops[1..], dirTime,
              RunOne(t, ops[0], dirTime, r).1, RunOne(t, ops[0], dirTime, q).1);
    }
  }

  function Ends(kind: Kind, outcome: Outcome): Step -> bool { (s: Step) => s == Step(kind, outcome) }

  /** A step that failed, or an import that was not written. */
  function Lost(): Step -> bool { (s: Step) => s.outcome == Failed || (s.kind == Import && s.outcome != Written) }

  function Counts(steps: seq<Step>, p: Step -> bool): nat { |Where(steps, p)| }

  ghost predicate Reports(r: Result, a: Result, steps: seq<Step>) {
    && a.written == r.written + Counts(steps, Ends(V1, Written))
    && a.skipped == r.skipped + Counts(steps, Ends(V1, Skipped))
    && a.imported == r.imported + Counts(steps, Ends(Import, Written))
    && a.failed == r.failed + Counts(steps, Lost())
    && a.excluded == r.excluded
  }

  lemma ReportsStep(r: Result, a: Result, steps: seq<Step>, s: Step)
    requires Reports(r, a, steps)
    ensures Reports(r, Tally(a, s.kind, s.outcome), steps + [s])
  {
    assert (steps + [s])[..|steps|] == steps;
  }

  /** The report of any restore, whatever fails in it: the ordinary members written, those skipped for a newer
      file, the imports written, and everything that failed, sidecars too; each counted exactly once. */
  lemma {:induction false} ReportMeans(t: Tree, ops: seq<Op>, dirTime: Path -> real, r: Result)
    requires Placeable(ops)
    ensures Reports(r, Run(t, ops, dirTime, r).1, Trace(t, ops, dirTime))
    ensures |Trace(t, ops, dirTime)| == |ops|
    ensures forall i :: 0 <= i < |ops| ==> Trace(t, ops, dirTime)[i].kind == ops[i].kind
    decreases |ops|
  {
    if ops == [] {
    } else {
      var n := |ops| - 1;
      assert ops == ops[..n] + [ops[n]] && ops[n] in ops;
      RunPrefix(t, ops, n, dirTime, r);
      assert ops[..n + 1] == ops;
      RunTree(t, ops[..n], dirTime, r, Result(0, 0, 0, 0, 0));
      ReportMeans(t, ops[..n], dirTime, r);
      var before := Run(t, ops[..n], dirTime, r);
      ReportsStep(r, before.1, Trace(t, ops[..n], dirTime),
                  Step(ops[n].kind, OutcomeOf(before.0, ops[n], dirTime)));
    }
  }
}
