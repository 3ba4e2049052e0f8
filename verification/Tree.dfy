/** The save tree on disk: files with their contents and mtimes, and the directories that hold them. */
module Tree {
  import opened Options
  import opened Paths

  type Bytes = seq<bv8>

  datatype File = File(data: Bytes, mtime: real)

  datatype Tree = Tree(files: map<Path, File>, dirs: set<Path>)

  datatype Outcome = Written | Skipped | Failed

  /** How much newer than its member a file must be for the guard to keep it. */
  const SAVE_MTIME_SLACK := 2.0

  /** One file to write: contents that may turn out unreadable, and the guard on newer files. */
  datatype Write = Write(path: Path, data: Option<Bytes>, mtime: real, guard: bool)

  /** Every directory a file at `p` sits in, the root included. */
  function Ancestors(p: Path): set<Path> {
    set i | 0 <= i < |p| :: p[..i]
  }

  /** Files and directories are distinct, and everything sits in directories that exist. */
  ghost predicate WellFormed(t: Tree) {
    && [] in t.dirs
    && (forall p :: p in t.files ==> p !in t.dirs)
    && (forall p, q :: (p in t.files || p in t.dirs) && StrictPrefix(q, p) ==> q in t.dirs)
  }

  /** Creating the directories above `p` meets no file. */
  predicate Reachable(t: Tree, p: Path) { forall q :: q in Ancestors(p) ==> q !in t.files }

  /** Write one file into the tree: the newer-file guard, the directories above it, then a
      staging file renamed into place. `dirTime` tells a directory's mtime, which the guard
      also compares when a directory stands where the file should go. */
  function WriteFile(t: Tree, w: Write, dirTime: Path -> real): (r: (Tree, Outcome))
    requires w.path != []
  {
    if w.guard && w.path in t.files && t.files[w.path].mtime > w.mtime + SAVE_MTIME_SLACK then (t, Skipped)
    else if w.guard && w.path in t.dirs && dirTime(w.path) > w.mtime + SAVE_MTIME_SLACK then (t, Skipped)
    else if !Reachable(t, w.path) then (t, Failed)
    else
      var made := t.(dirs := t.dirs + Ancestors(w.path));
      if w.data.None? || w.path in t.dirs then (made, Failed)
      else (made.(files := made.files[w.path := File(w.data.value, w.mtime)]), Written)
  }

  function WriteEach(t: Tree, ws: seq<Write>, dirTime: Path -> real): (Tree, seq<Outcome>)
    requires forall w :: w in ws ==> w.path != []
    decreases |ws|
  {
    if ws == [] then (t, [])
    else
      var one := WriteFile(t, ws[0], dirTime);
      var rest := WriteEach(one.0, ws[1..], dirTime);
      (rest.0, [one.1] + rest.1)
  }

  lemma InAncestors(p: Path, q: Path)
    ensures q in Ancestors(p) <==> StrictPrefix(q, p)
  {
    if StrictPrefix(q, p) {
      assert q == p[..|q|];
    }
  }

  /** A tree stays well formed whatever a write meets. */
  lemma WriteFileWellFormed(t: Tree, w: Write, dirTime: Path -> real)
    requires WellFormed(t) && w.path != []
    ensures WellFormed(WriteFile(t, w, dirTime).0)
  {
    forall q ensures q in Ancestors(w.path) <==> StrictPrefix(q, w.path) { InAncestors(w.path, q); }
    var made := t.(dirs := t.dirs + Ancestors(w.path));
    if Reachable(t, w.path) {
      forall p, q | p in Ancestors(w.path) && StrictPrefix(q, p) ensures q in made.dirs {
        assert StrictPrefix(q, w.path);
      }
      assert WellFormed(made);
    }
  }

  /** No two of the writes need the same place, as a file or as a directory. */
  ghost predicate Compatible(ws: seq<Write>) {
    forall i, j :: 0 <= i < j < |ws| ==> ws[i].path != ws[j].path && !Nested(ws[i].path, ws[j].path)
  }

  /** Nothing in the tree is at, above (as a file) or below the path. */
  ghost predicate Free(t: Tree, p: Path) {
    && p != []
    && p !in t.files && p !in t.dirs
    && forall q :: q in t.files ==> !StrictPrefix(q, p)
  }

  /** The files the writes describe. */
  function Planned(ws: seq<Write>): map<Path, File>
    requires forall w :: w in ws ==> w.data.Some?
  {
    if ws == [] then map[]
    else map[ws[0].path := File(ws[0].data.value, ws[0].mtime)] + Planned(ws[1..])
  }

  lemma {:induction false} PlannedKeys(ws: seq<Write>)
    requires forall w :: w in ws ==> w.data.Some?
    ensures forall p :: p in Planned(ws) <==> exists i :: 0 <= i < |ws| && ws[i].path == p
  {
    if ws == [] {
    } else {
      PlannedKeys(ws[1..]);
      forall p | exists i :: 0 <= i < |ws| && ws[i].path == p ensures p in Planned(ws) {
        var i :| 0 <= i < |ws| && ws[i].path == p;
        if i > 0 { assert ws[1..][i - 1].path == p; }
      }
    }
  }

  ghost predicate PathsDiffer(ws: seq<Write>) {
    forall i, j :: 0 <= i < j < |ws| ==> ws[i].path != ws[j].path
  }

  /** When no two writes share a path, each one's file is as it describes. */
  lemma {:induction false} PlannedAt(ws: seq<Write>, i: nat)
    requires forall w :: w in ws ==> w.data.Some?
    requires i < |ws| && PathsDiffer(ws)
    ensures ws[i].path in Planned(ws) && Planned(ws)[ws[i].path] == File(ws[i].data.value, ws[i].mtime)
  {
    PlannedKeys(ws[1..]);
    if i == 0 {
    } else {
      PlannedAt(ws[1..], i - 1);
    }
  }

  lemma FreeAfterWrite(t: Tree, w: Write, dirTime: Path -> real, p: Path)
    requires WellFormed(t) && Free(t, w.path) && Free(t, p) && w.data.Some?
    requires p != w.path && !Nested(p, w.path)
    ensures Free(WriteFile(t, w, dirTime).0, p)
  {
    forall q ensures q in Ancestors(w.path) <==> StrictPrefix(q, w.path) { InAncestors(w.path, q); }
  }

  lemma WriteFree(t: Tree, w: Write, dirTime: Path -> real)
    requires WellFormed(t) && Free(t, w.path) && w.data.Some?
    ensures WriteFile(t, w, dirTime).1 == Written
    ensures WriteFile(t, w, dirTime).0.files == t.files[w.path := File(w.data.value, w.mtime)]
  {
    forall q ensures q in Ancestors(w.path) <==> StrictPrefix(q, w.path) { InAncestors(w.path, q); }
  }

  lemma RestFree(t: Tree, ws: seq<Write>, dirTime: Path -> real)
    requires ws != [] && WellFormed(t) && Compatible(ws)
    requires forall w :: w in ws ==> w.path != [] && Free(t, w.path) && w.data.Some?
    ensures Compatible(ws[1..])
    ensures forall w :: w in ws[1..] ==> Free(WriteFile(t, ws[0], dirTime).0, w.path)
  {
    var rest := ws[1..];
    assert forall i :: 0 <= i < |rest| ==> rest[i] == ws[i + 1];
    forall v | v in rest ensures Free(WriteFile(t, ws[0], dirTime).0, v.path) {
      var i :| 0 <= i < |rest| && rest[i] == v;
      assert ws[0].path != ws[i + 1].path && !Nested(ws[0].path, ws[i + 1].path);
      FreeAfterWrite(t, ws[0], dirTime, v.path);
    }
  }

  lemma PlannedFirst(files: map<Path, File>, ws: seq<Write>)
    requires ws != [] && forall w :: w in ws ==> w.data.Some?
    ensures files[ws[0].path := File(ws[0].data.value, ws[0].mtime)] + Planned(ws[1..]) == files + Planned(ws)
  {}

  /** Compatible writes into free places all succeed, and add exactly the planned files. */
  lemma {:induction false} WritesSucceed(t: Tree, ws: seq<Write>, dirTime: Path -> real)
    requires WellFormed(t) && Compatible(ws)
    requires forall w :: w in ws ==> w.path != [] && Free(t, w.path) && w.data.Some?
    ensures var r := WriteEach(t, ws, dirTime);
            && WellFormed(r.0)
            && |r.1| == |ws| && (forall o :: o in r.1 ==> o == Written)
            && r.0.files == t.files + Planned(ws)
    decreases |ws|
  {
    if ws == [] {
    } else {
      WriteFree(t, ws[0], dirTime);
      WriteFileWellFormed(t, ws[0], dirTime);
      RestFree(t, ws, dirTime);
      WritesSucceed(WriteFile(t, ws[0], dirTime).0, ws[1..], dirTime);
      PlannedFirst(t.files, ws);
    }
  }

  /** A file newer than its member by more than the slack is overwritten only without the guard. */
  lemma NewerFileKept(t: Tree, w: Write, dirTime: Path -> real)
    requires w.path != [] && w.path in t.files && WellFormed(t)
    ensures var r := WriteFile(t, w, dirTime);
            && (w.guard && t.files[w.path].mtime > w.mtime + SAVE_MTIME_SLACK ==> r == (t, Skipped))
            && (r.1 == Skipped ==> w.guard && t.files[w.path].mtime > w.mtime + SAVE_MTIME_SLACK)
            && (r.1 != Written ==> r.0.files == t.files)
            && (r.1 == Written ==>
                  w.data.Some? && r.0.files == t.files[w.path := File(w.data.value, w.mtime)])
            && (r.1 == Failed <==> r.1 != Skipped && w.data.None?)
  {
    forall q ensures q in Ancestors(w.path) <==> StrictPrefix(q, w.path) { InAncestors(w.path, q); }
  }

  /** A directory in a file's place is left as it is, and no file with it: the write is skipped when the guard
      finds the directory newer, and fails otherwise. */
  lemma DirectoryKept(t: Tree, w: Write, dirTime: Path -> real)
    requires w.path != [] && w.path in t.dirs && WellFormed(t)
    ensures var r := WriteFile(t, w, dirTime);
            && r.0 == t
            && r.1 == if w.guard && dirTime(w.path) > w.mtime + SAVE_MTIME_SLACK then Skipped else Failed
  {
    forall q ensures q in Ancestors(w.path) <==> StrictPrefix(q, w.path) { InAncestors(w.path, q); }
    assert t.dirs + Ancestors(w.path) == t.dirs;
  }

  /** Where nothing is yet, a member is written with the directories above it exactly when its bytes could be
      read and no file stands in for one of these. */
  lemma NewFileWritten(t: Tree, w: Write, dirTime: Path -> real)
    requires w.path != [] && w.path !in t.files && w.path !in t.dirs
    ensures var r := WriteFile(t, w, dirTime);
            && (r.1 == Written <==> w.data.Some? && forall q :: StrictPrefix(q, w.path) ==> q !in t.files)
            && (r.1 == Written ==>
                  && r.0.files == t.files[w.path := File(w.data.value, w.mtime)]
                  && forall q :: q in r.0.dirs <==> q in t.dirs || StrictPrefix(q, w.path))
            && (r.1 != Written ==> r.1 == Failed && r.0.files == t.files)
  {
    forall q ensures q in Ancestors(w.path) <==> StrictPrefix(q, w.path) { InAncestors(w.path, q); }
  }
}
