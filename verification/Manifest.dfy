/** Pairing the import names of a zip with what its manifest declares (`parse_manifest_v2`). */
module Manifest {
  import opened Options
  import opened Paths
  import opened Tree
  import opened V1Plan

  datatype Json =
    | JNull
    | JBool(b: bool)
    | JNum(n: real)
    | JStr(s: string)
    | JList(items: seq<Json>)
    | JObj(fields: map<string, Json>)

  const KINDS := ["save", "state", "memcard"]
  const ORIGINS := {"emulatorjs", "standalone", "hardware", "unknown"}

  datatype ManifestEntry = ManifestEntry(path: string, kind: string, origin: string)

  datatype Flaw =
    | BadManifest(why: string)
    | NotAnObject(index: nat)
    | DeclaredTwice
    | BadKind
    | WrongSegment
    | NotInArchive
    | NotDeclared

  /** A `manifest_invalid` refusal, of one member or (None) of the whole manifest. */
  datatype Refusal = Refusal(member: Option<string>, flaw: Flaw)

  function Get(j: Json, key: string): Json
    requires j.JObj?
  {
    if key in j.fields then j.fields[key] else JNull
  }

  /** The import path an entry declares, if it declares one. */
  function Declared(entry: Json): Option<string> {
    if entry.JObj? && Get(entry, "path").JStr? && IMPORT_PREFIX <= Get(entry, "path").s
    then Some(Get(entry, "path").s) else None
  }

  /** Why a path's one declaration cannot be used. */
  function EntryFlaw(entry: Json, path: string, present: set<string>): Option<Flaw>
    requires entry.JObj?
  {
    var kind := Get(entry, "kind");
    if !kind.JStr? || kind.s !in KINDS then Some(BadKind)
    else if |Split(path)| < 3 || Split(path)[1] != kind.s then Some(WrongSegment)
    else if path !in present then Some(NotInArchive)
    else None
  }

  function EntryOf(entry: Json, path: string): ManifestEntry
    requires entry.JObj? && Get(entry, "kind").JStr?
  {
    var origin := if "origin" in entry.fields then entry.fields["origin"] else JStr("unknown");
    ManifestEntry(path, Get(entry, "kind").s, if origin.JStr? && origin.s in ORIGINS then origin.s else "unknown")
  }

  // ---- What a usable declaration is ----

  /** The second of three or more segments is `word` exactly when the text behind the first starts with
      it and a slash. */
  lemma SecondSegment(first: string, rest: string, word: string)
    requires SEP !in first && SEP !in word
    ensures var parts := Split(first + [SEP] + rest);
            |parts| >= 3 && parts[1] == word <==> word + [SEP] <= rest
  {
    SplitAppend(first, rest);
    var inner := Split(rest);
    PrefixesOfKey(rest, word);
    if word + [SEP] <= rest {
      var i :| 1 <= i < |inner| && Join(inner[..i]) == word;
      OneWord(inner[..i], word);
    }
    if |inner| >= 2 && inner[0] == word {
      assert Join(inner[..1]) == word;
    }
  }

  lemma JoinHasSlash(parts: seq<string>)
    requires |parts| > 1
    ensures SEP in Join(parts)
  {
    assert Join(parts)[|parts[0]|] == SEP;
  }

  lemma OneWord(parts: seq<string>, word: string)
    requires parts != [] && Join(parts) == word && SEP !in word
    ensures parts == [word]
  {
    if |parts| > 1 { JoinHasSlash(parts); }
  }

  predicate KnownKind(kind: string) { kind == "save" || kind == "state" || kind == "memcard" }

  /** A declaration of an import path can be used exactly when it names a known kind, the path lies under
      that kind's own directory, and the archive holds it. */
  lemma FlawlessMeans(entry: Json, path: string, present: set<string>)
    requires entry.JObj? && IMPORT_PREFIX <= path
    ensures EntryFlaw(entry, path, present).None? <==>
              && "kind" in entry.fields && entry.fields["kind"].JStr?
              && var kind := entry.fields["kind"].s;
                 KnownKind(kind) && ".import/" + kind + "/" <= path && path in present
  {
    var kind := Get(entry, "kind");
    var rest := path[|IMPORT_PREFIX|..];
    assert path == ".import" + [SEP] + rest;
    if kind.JStr? {
      KindsKnown(kind.s);
      if KnownKind(kind.s) {
        SecondSegment(".import", rest, kind.s);
        assert ".import/" + kind.s + "/" <= path <==> kind.s + [SEP] <= rest by {
          UnderPrefix(kind.s + [SEP], rest);
        }
      }
    }
  }

  lemma KindsKnown(kind: string)
    ensures kind in KINDS <==> KnownKind(kind)
    ensures KnownKind(kind) ==> SEP !in kind
  {
    assert KINDS[0] == "save" && KINDS[1] == "state" && KINDS[2] == "memcard";
  }

  lemma UnderPrefix(a: string, rest: string)
    ensures ".import/" + a <= ".import/" + rest <==> a <= rest
  {
    if ".import/" + a <= ".import/" + rest {
      forall k | 0 <= k < |a| ensures a[k] == rest[k] {
        assert (".import/" + a)[8 + k] == (".import/" + rest)[8 + k];
      }
    }
  }

  /** What a usable declaration is kept as: its path and kind, and its origin if that is a known one. */
  lemma EntryOfMeans(entry: Json, path: string)
    requires entry.JObj? && Get(entry, "kind").JStr?
    ensures var e := EntryOf(entry, path);
            && e.path == path && "kind" in entry.fields && entry.fields["kind"] == JStr(e.kind)
            && e.origin == (if "origin" in entry.fields && entry.fields["origin"].JStr?
                               && entry.fields["origin"].s in {"emulatorjs", "standalone", "hardware", "unknown"}
                            then entry.fields["origin"].s else "unknown")
  {}

  /** An entry declares an import path exactly when it is an object with that path as text, under the
      import prefix. */
  lemma DeclaredMeans(entry: Json, path: string)
    ensures Declared(entry) == Some(path) <==>
              entry.JObj? && "path" in entry.fields && entry.fields["path"] == JStr(path) && ".import/" <= path
  {}

  /** A manifest can be used exactly when it was read without an error and is an object of version 2 with a
      list of files, and then its files are that list. */
  lemma UsableMeans(manifest: Json, error: Option<string>, files: seq<Json>)
    ensures FilesOf(manifest, error) == (None, files) <==>
              && (error.None? || error.value == "") && manifest.JObj?
              && "version" in manifest.fields && manifest.fields["version"] == JNum(2.0)
              && "files" in manifest.fields && manifest.fields["files"] == JList(files)
    ensures error.Some? && error.value != "" ==> FilesOf(manifest, error).0 == error
  {}

  // ---- The declaration rule ----

  ghost predicate DeclaresAt(files: seq<Json>, i: int, path: string) {
    0 <= i < |files| && Declared(files[i]) == Some(path)
  }

  ghost predicate IsDeclared(files: seq<Json>, path: string) { exists i :: DeclaresAt(files, i, path) }

  /** Entry `i` is the one declaration of the path. */
  ghost predicate OnlyAt(files: seq<Json>, i: int, path: string) {
    DeclaresAt(files, i, path) && forall j :: DeclaresAt(files, j, path) ==> j == i
  }

  /** The path is declared exactly once, by a well-formed entry, and is in the archive. */
  ghost predicate GoodAt(files: seq<Json>, i: int, path: string, present: set<string>) {
    OnlyAt(files, i, path) && EntryFlaw(files[i], path, present).None?
  }

  ghost predicate WellDeclared(files: seq<Json>, path: string, present: set<string>) {
    exists i :: GoodAt(files, i, path, present)
  }

  ghost predicate Names(refusals: seq<Refusal>, path: string) {
    exists k :: 0 <= k < |refusals| && refusals[k].member == Some(path)
  }

  /** No member is refused twice. */
  ghost predicate OncePerMember(refusals: seq<Refusal>) {
    forall j, k :: 0 <= j < k < |refusals| && refusals[j].member.Some? ==> refusals[j].member != refusals[k].member
  }

  /** The list of files of a manifest that can be used at all, or what is wrong with it. */
  function FilesOf(manifest: Json, error: Option<string>): (r: (Option<string>, seq<Json>))
  {
    if error.Some? && error.value != "" then (error, [])
    else if !manifest.JObj? then (Some("manifest is not a JSON object"), [])
    else if Get(manifest, "version") != JNum(2.0) then (Some("manifest version is not 2"), [])
    else if !Get(manifest, "files").JList? then (Some("manifest files is not a list"), [])
    else (None, Get(manifest, "files").items)
  }

  lemma DeclareStep(files: seq<Json>, i: nat, path: string, present: set<string>)
    requires i < |files|
    ensures IsDeclared(files[..i + 1], path) <==> IsDeclared(files[..i], path) || Declared(files[i]) == Some(path)
    ensures Declared(files[i]) != Some(path) ==>
              (WellDeclared(files[..i + 1], path, present) <==> WellDeclared(files[..i], path, present))
    ensures Declared(files[i]) == Some(path) && IsDeclared(files[..i], path) ==>
              !WellDeclared(files[..i + 1], path, present)
    ensures Declared(files[i]) == Some(path) && !IsDeclared(files[..i], path) ==>
              OnlyAt(files[..i + 1], i, path)
              && (WellDeclared(files[..i + 1], path, present) <==> EntryFlaw(files[i], path, present).None?)
  {
    var a, b := files[..i], files[..i + 1];
    assert forall j :: DeclaresAt(b, j, path) <==>
        DeclaresAt(a, j, path) || (j == i && Declared(files[i]) == Some(path));
    if Declared(files[i]) != Some(path) {
      assert forall j :: GoodAt(b, j, path, present) <==> GoodAt(a, j, path, present);
    } else if !IsDeclared(a, path) {
      assert forall j :: GoodAt(b, j, path, present) ==> j == i;
      assert GoodAt(b, i, path, present) <==> EntryFlaw(files[i], path, present).None?;
    } else {
      var j :| DeclaresAt(a, j, path);
      assert DeclaresAt(b, j, path) && DeclaresAt(b, i, path);
    }
  }

  /** A kept declaration is what an entry that declares the path says. */
  ghost predicate Tells(files: seq<Json>, path: string, e: ManifestEntry) {
    exists i :: DeclaresAt(files, i, path) && EntryIs(files[i], path, e)
  }

  ghost predicate EntryIs(entry: Json, path: string, e: ManifestEntry) {
    entry.JObj? && Get(entry, "kind").JStr? && e == EntryOf(entry, path)
  }

  lemma TellsAppend(files: seq<Json>, i: nat)
    requires i < |files|
    ensures forall p, e :: Tells(files[..i], p, e) ==> Tells(files[..i + 1], p, e)
    ensures forall p, e :: Declared(files[i]) == Some(p) && EntryIs(files[i], p, e) ==> Tells(files[..i + 1], p, e)
  {
    var a, b := files[..i], files[..i + 1];
    assert b[i] == files[i] && forall j :: 0 <= j < i ==> b[j] == a[j];
    forall p, e | Tells(a, p, e) ensures Tells(b, p, e) {
      var j :| DeclaresAt(a, j, p) && EntryIs(a[j], p, e);
      assert DeclaresAt(b, j, p) && EntryIs(b[j], p, e);
    }
    forall p, e | Declared(files[i]) == Some(p) && EntryIs(files[i], p, e) ensures Tells(b, p, e) {
      assert DeclaresAt(b, i, p) && EntryIs(b[i], p, e);
    }
  }

  lemma NamesAppend(refusals: seq<Refusal>, r: Refusal)
    ensures forall p :: Names(refusals + [r], p) <==> Names(refusals, p) || r.member == Some(p)
    ensures Whole(refusals + [r]) <==> Whole(refusals) || r.member.None?
    ensures OncePerMember(refusals) && (r.member.Some? ==> !Names(refusals, r.member.value)) ==>
              OncePerMember(refusals + [r])
  {
    forall p ensures Names(refusals + [r], p) <==> Names(refusals, p) || r.member == Some(p) {
      if Names(refusals, p) {
        var k :| 0 <= k < |refusals| && refusals[k].member == Some(p);
        assert (refusals + [r])[k].member == Some(p);
      }
      assert (refusals + [r])[|refusals|] == r;
    }
    if Whole(refusals) {
      var k :| 0 <= k < |refusals| && refusals[k].member.None?;
      assert (refusals + [r])[k].member.None?;
    }
    assert (refusals + [r])[|refusals|] == r;
  }

  /** What has been read of a manifest: the kept declarations, the refusals, and the paths seen and refused. */
  datatype Reading = Reading(
    entries: map<string, ManifestEntry>, refusals: seq<Refusal>, seen: set<string>, refused: set<string>)

  /** The reading is right about the declarations in `files`. */
  ghost predicate Right(files: seq<Json>, present: set<string>, r: Reading) {
    && Classified(files, present, r.seen, r.entries.Keys)
    && Told(files, r.entries)
    && (Whole(r.refusals) <==> !AllObjects(files))
    && Bookkept(r)
  }

  /** The paths seen are the declared ones, and those kept the well-declared ones. */
  ghost predicate Classified(files: seq<Json>, present: set<string>, seen: set<string>, kept: set<string>) {
    (forall p :: p in seen <==> IsDeclared(files, p)) && (forall p :: p in kept <==> WellDeclared(files, p, present))
  }

  ghost predicate Told(files: seq<Json>, entries: map<string, ManifestEntry>) {
    forall p :: p in entries ==> Tells(files, p, entries[p])
  }

  ghost predicate AllObjects(files: seq<Json>) { forall i :: 0 <= i < |files| ==> files[i].JObj? }

  /** Some refusal is about the manifest, not one member. */
  ghost predicate Whole(refusals: seq<Refusal>) {
    exists k :: 0 <= k < |refusals| && refusals[k].member.None?
  }

  /** The refused paths are exactly the declared ones that were not kept, each refused once. */
  ghost predicate Bookkept(r: Reading) {
    && r.refused == r.seen - r.entries.Keys && r.entries.Keys <= r.seen
    && (forall p :: Names(r.refusals, p) <==> p in r.refused)
    && OncePerMember(r.refusals)
  }

  /** Take in one declaration of an import path. */
  method ReadPath(r: Reading, entry: Json, path: string, present: set<string>) returns (r': Reading)
    requires entry.JObj? && Bookkept(r)
    ensures Bookkept(r') && r'.seen == r.seen + {path} && (Whole(r'.refusals) <==> Whole(r.refusals))
    ensures path in r.seen ==> r'.entries == r.entries - {path}
    ensures path !in r.seen && EntryFlaw(entry, path, present).Some? ==> r'.entries == r.entries
    ensures path !in r.seen && EntryFlaw(entry, path, present).None? ==>
              r'.entries == r.entries[path := EntryOf(entry, path)]
  {
    if path in r.seen {
      r' := r.(entries := r.entries - {path});
      if path !in r.refused {
        NamesAppend(r.refusals, Refusal(Some(path), DeclaredTwice));
        r' := r'.(refused := r.refused + {path}, refusals := r.refusals + [Refusal(Some(path), DeclaredTwice)]);
      }
      return;
    }
    r' := r.(seen := r.seen + {path});
    var flaw := EntryFlaw(entry, path, present);
    if flaw.Some? {
      NamesAppend(r.refusals, Refusal(Some(path), flaw.value));
      r' := r'.(refused := r.refused + {path}, refusals := r.refusals + [Refusal(Some(path), flaw.value)]);
    } else {
      r' := r'.(entries := r.entries[path := EntryOf(entry, path)]);
    }
  }

  /** `r'` is `r` after one more entry that declares no import path. */
  lemma RightAfterOther(files: seq<Json>, i: nat, present: set<string>, r: Reading, r': Reading)
    requires i < |files| && Declared(files[i]).None? && Right(files[..i], present, r)
    requires Bookkept(r') && r'.entries == r.entries && r'.seen == r.seen
    requires Whole(r'.refusals) <==> Whole(r.refusals) || !files[i].JObj?
    ensures Right(files[..i + 1], present, r')
  {
    AllObjectsStep(files, i);
    TellsAppend(files, i);
    forall p
      ensures p in r'.seen <==> IsDeclared(files[..i + 1], p)
      ensures p in r'.entries <==> WellDeclared(files[..i + 1], p, present)
    {
      DeclareStep(files, i, p, present);
    }
  }

  lemma AllObjectsStep(files: seq<Json>, i: nat)
    requires i < |files|
    ensures AllObjects(files[..i + 1]) <==> AllObjects(files[..i]) && files[i].JObj?
  {
    assert files[..i + 1] == files[..i] + [files[i]];
  }

  /** One more declaration of a path leaves it kept exactly when it is the path's first and well formed. */
  lemma KeptAfterPath(files: seq<Json>, i: nat, path: string, present: set<string>, seen: set<string>,
                      kept: set<string>, kept': set<string>)
    requires i < |files| && Declared(files[i]) == Some(path)
    requires Classified(files[..i], present, seen, kept)
    requires kept' == if path in seen || EntryFlaw(files[i], path, present).Some? then kept - {path} else kept + {path}
    ensures Classified(files[..i + 1], present, seen + {path}, kept')
  {
    forall p
      ensures p in seen + {path} <==> IsDeclared(files[..i + 1], p)
      ensures p in kept' <==> WellDeclared(files[..i + 1], p, present)
    {
      DeclareStep(files, i, p, present);
    }
  }

  lemma ToldAfterPath(files: seq<Json>, i: nat, path: string, fits: bool, es: map<string, ManifestEntry>,
                      es': map<string, ManifestEntry>)
    requires i < |files| && Declared(files[i]) == Some(path)
    requires fits ==> Get(files[i], "kind").JStr?
    requires es' == if fits then es[path := EntryOf(files[i], path)] else es - {path}
    requires Told(files[..i], es)
    ensures Told(files[..i + 1], es')
  {
    TellsAppend(files, i);
    forall p | p in es' ensures Tells(files[..i + 1], p, es'[p]) {
      assert fits && p == path ==> EntryIs(files[i], p, es'[p]);
    }
  }

  /** `r'` is `r` after one more declaration of an import path. */
  lemma RightAfterPath(files: seq<Json>, i: nat, path: string, present: set<string>, r: Reading, r': Reading)
    requires i < |files| && Declared(files[i]) == Some(path) && Right(files[..i], present, r)
    requires Bookkept(r') && r'.seen == r.seen + {path} && (Whole(r'.refusals) <==> Whole(r.refusals))
    requires r'.entries == if path in r.seen then r.entries - {path}
                           else if EntryFlaw(files[i], path, present).Some? then r.entries
                           else r.entries[path := EntryOf(files[i], path)]
    ensures Right(files[..i + 1], present, r')
  {
    var fits := path !in r.seen && EntryFlaw(files[i], path, present).None?;
    assert path !in r.seen ==> r.entries - {path} == r.entries;
    KeptAfterPath(files, i, path, present, r.seen, r.entries.Keys, r'.entries.Keys);
    ToldAfterPath(files, i, path, fits, r.entries, r'.entries);
    AllObjectsStep(files, i);
  }

  /** Read the declarations: each path declared once and rightly is kept, every other declared path is refused. */
  method ReadFiles(files: seq<Json>, present: set<string>) returns (r: Reading)
    ensures Right(files, present, r)
  {
    r := Reading(map[], [], {}, {});
    for i := 0 to |files|
      invariant Right(files[..i], present, r)
    {
      if !files[i].JObj? {
        NamesAppend(r.refusals, Refusal(None, NotAnObject(i)));
        var r' := r.(refusals := r.refusals + [Refusal(None, NotAnObject(i))]);
        RightAfterOther(files, i, present, r, r');
        r := r';
      } else if Declared(files[i]).Some? {
        var path := Declared(files[i]).value;
        var r' := ReadPath(r, files[i], path, present);
        RightAfterPath(files, i, path, present, r, r');
        r := r';
      } else {
        RightAfterOther(files, i, present, r, r);
      }
    }
    assert files[..|files|] == files;
  }

  /** Nothing is wrong with the manifest: it is usable, holds only objects, declares no import path
      badly, and declares every import name. */
  ghost predicate Clean(manifest: Json, importNames: seq<string>, error: Option<string>) {
    var (why, files) := FilesOf(manifest, error);
    var present := set n | n in importNames;
    && why.None? && AllObjects(files)
    && (forall p :: IsDeclared(files, p) ==> WellDeclared(files, p, present))
    && (forall n :: n in importNames ==> IsDeclared(files, n))
  }

  /** The entries are exactly the well-declared paths, each with what its one declaration says. */
  ghost predicate AreEntries(manifest: Json, importNames: seq<string>, error: Option<string>,
                             entries: map<string, ManifestEntry>)
  {
    var (why, files) := FilesOf(manifest, error);
    if importNames == [] || why.Some? then entries == map[]
    else
      && (forall p :: p in entries <==> WellDeclared(files, p, set n | n in importNames))
      && (forall p :: p in entries ==> Tells(files, p, entries[p]))
  }

  /** The entry is an object that declares the path, with a known kind under whose directory the path lies. */
  ghost predicate Sound(entry: Json, path: string) {
    && entry.JObj? && "path" in entry.fields && entry.fields["path"] == JStr(path)
    && "kind" in entry.fields && entry.fields["kind"].JStr? && KnownKind(entry.fields["kind"].s)
    && ".import/" + entry.fields["kind"].s + "/" <= path
  }

  /** The entry has the path for its own, under the import prefix. */
  ghost predicate HasPath(entry: Json, path: string) {
    entry.JObj? && "path" in entry.fields && entry.fields["path"] == JStr(path) && ".import/" <= path
  }

  /** An import path is well declared exactly when the archive holds it and one sound entry, and no other
      entry at all, has it as its path. */
  lemma WellDeclaredMeans(files: seq<Json>, path: string, present: set<string>)
    ensures WellDeclared(files, path, present) <==>
              path in present && exists i :: SoundAlone(files, path, i)
  {
    forall i ensures GoodAt(files, i, path, present) <==> path in present && SoundAlone(files, path, i) {
      if 0 <= i < |files| {
        forall j | 0 <= j < |files| ensures DeclaresAt(files, j, path) <==> HasPath(files[j], path) {
          DeclaredMeans(files[j], path);
        }
        if HasPath(files[i], path) { FlawlessMeans(files[i], path, present); }
        if Sound(files[i], path) { SoundHasPath(files[i], path); }
      }
    }
  }

  ghost predicate SoundAlone(files: seq<Json>, path: string, i: int) {
    0 <= i < |files| && Sound(files[i], path) && forall j :: 0 <= j < |files| && HasPath(files[j], path) ==> j == i
  }

  lemma SoundHasPath(entry: Json, path: string)
    requires Sound(entry, path)
    ensures HasPath(entry, path)
  {
    var under := ".import/" + entry.fields["kind"].s + "/";
    assert under[..8] == ".import/" && path[..|under|] == under;
    assert path[..8] == under[..8];
  }

  lemma OneTells(files: seq<Json>, path: string, present: set<string>, e: ManifestEntry, e': ManifestEntry)
    requires WellDeclared(files, path, present) && Tells(files, path, e) && Tells(files, path, e')
    ensures e == e'
  {
    var i :| GoodAt(files, i, path, present);
    var j :| DeclaresAt(files, j, path) && EntryIs(files[j], path, e);
    var k :| DeclaresAt(files, k, path) && EntryIs(files[k], path, e');
    assert j == i && k == i;
  }

  /** A manifest has one set of entries. */
  lemma SameEntries(manifest: Json, importNames: seq<string>, error: Option<string>,
                    a: map<string, ManifestEntry>, b: map<string, ManifestEntry>)
    requires AreEntries(manifest, importNames, error, a) && AreEntries(manifest, importNames, error, b)
    ensures a == b
  {
    var (why, files) := FilesOf(manifest, error);
    if importNames != [] && why.None? {
      var present := set n | n in importNames;
      assert a.Keys == b.Keys;
      forall p | p in a ensures a[p] == b[p] {
        OneTells(files, p, present, a[p], b[p]);
      }
    }
  }

  /** Match every import name to its declaration. A usable manifest accepts a path exactly when it
      is declared once, well formed and present, and refuses every other import name once by name;
      an unusable one is refused as a whole. */
  method ParseManifestV2(manifest: Json, importNames: seq<string>, error: Option<string>)
    returns (entries: map<string, ManifestEntry>, refusals: seq<Refusal>)
    ensures AreEntries(manifest, importNames, error, entries)
    ensures importNames != [] && FilesOf(manifest, error).0.Some? ==> |refusals| == 1 && refusals[0].member.None?
    ensures importNames != [] && FilesOf(manifest, error).0.None? ==>
              (forall p :: p in importNames ==> (p in entries <==> !Names(refusals, p))) && OncePerMember(refusals)
    ensures refusals == [] <==> importNames == [] || Clean(manifest, importNames, error)
    ensures forall p :: p in entries ==> p in importNames && IMPORT_PREFIX <= p
  {
    entries, refusals := map[], [];
    if importNames == [] {
      return;
    }
    var (why, files) := FilesOf(manifest, error);
    if why.Some? {
      refusals := [Refusal(None, BadManifest(why.value))];
      return;
    }
    var present := set n | n in importNames;
    var r := ReadFiles(files, present);
    var seen := r.seen;
    entries, refusals := r.entries, r.refusals;
    forall p | p in entries ensures p in present && IMPORT_PREFIX <= p {
      var i :| GoodAt(files, i, p, present);
    }
    ghost var kept := entries;
    for i := 0 to |importNames|
      invariant forall p :: p in importNames[..i] ==> p in seen
      invariant forall p :: Names(refusals, p) <==> p in seen && p !in entries
      invariant entries == kept && OncePerMember(refusals)
      invariant entries.Keys <= seen
      invariant Whole(refusals) <==> !AllObjects(files)
      invariant forall p :: p in seen <==> p in r.seen || p in importNames[..i]
    {
      var name := importNames[i];
      if name !in seen {
        NamesAppend(refusals, Refusal(Some(name), NotDeclared));
        seen := seen + {name};
        refusals := refusals + [Refusal(Some(name), NotDeclared)];
      }
    }
    assert importNames[..|importNames|] == importNames;
    assert refusals == [] <==> !Whole(refusals) && forall p :: !Names(refusals, p) by {
      if refusals != [] {
        assert refusals[0].member.None? ==> Whole(refusals);
        assert refusals[0].member.Some? ==> Names(refusals, refusals[0].member.value);
      }
    }
  }
}
