/** Forcing the broker's settings into an emulator's ini file, line by line (`_patch_ini`). */
module Ini {
  import opened Lists
  import opened Options

  /** A setting the broker forces: `key = value` inside `[section]`. */
  datatype Patch = Patch(section: string, key: string, value: string)

  function LineOf(p: Patch): string { p.key + " = " + p.value }

  function HeaderOf(section: string): string { "[" + section + "]" }

  // ---- Reading a line ----

  /** The characters Python's `strip` takes off. */
  predicate IsSpace(c: char) {
    || '\t' <= c <= '\r' || '\U{1C}' <= c <= ' ' || c == '\U{85}' || c == '\U{A0}' || c == '\U{1680}'
    || '\U{2000}' <= c <= '\U{200A}' || c == '\U{2028}' || c == '\U{2029}' || c == '\U{202F}' || c == '\U{205F}'
    || c == '\U{3000}'
  }

  /** One by one: the ASCII blanks and separators, and the blanks of Unicode. */
  lemma SpacesAre(c: char)
    ensures IsSpace(c) <==>
              c as int in {0x9, 0xA, 0xB, 0xC, 0xD, 0x1C, 0x1D, 0x1E, 0x1F, 0x20, 0x85, 0xA0, 0x1680,
                           0x2000, 0x2001, 0x2002, 0x2003, 0x2004, 0x2005, 0x2006, 0x2007, 0x2008, 0x2009, 0x200A,
                           0x2028, 0x2029, 0x202F, 0x205F, 0x3000}
  {}

  function StripLeft(s: string): string
    decreases |s|
  {
    if s != "" && IsSpace(s[0]) then StripLeft(s[1..]) else s
  }

  function StripRight(s: string): string
    decreases |s|
  {
    if s != "" && IsSpace(s[|s| - 1]) then StripRight(s[..|s| - 1]) else s
  }

  function Strip(s: string): string { StripRight(StripLeft(s)) }

  ghost predicate Blank(s: string) { forall i :: 0 <= i < |s| ==> IsSpace(s[i]) }

  /** A text begins and ends with no blank. */
  ghost predicate Bare(s: string) { s != "" ==> !IsSpace(s[0]) && !IsSpace(s[|s| - 1]) }

  lemma {:induction false} StripLeftMeans(s: string) returns (front: string)
    ensures s == front + StripLeft(s) && Blank(front) && (StripLeft(s) != "" ==> !IsSpace(StripLeft(s)[0]))
    decreases |s|
  {
    front := "";
    if s != "" && IsSpace(s[0]) {
      var rest := StripLeftMeans(s[1..]);
      front := [s[0]] + rest;
    }
  }

  lemma {:induction false} StripRightMeans(s: string) returns (back: string)
    ensures s == StripRight(s) + back && Blank(back)
    ensures StripRight(s) != "" ==> !IsSpace(StripRight(s)[|StripRight(s)| - 1]) && StripRight(s)[0] == s[0]
    decreases |s|
  {
    back := "";
    if s != "" && IsSpace(s[|s| - 1]) {
      var rest := StripRightMeans(s[..|s| - 1]);
      back := rest + [s[|s| - 1]];
    }
  }

  /** Stripping takes off blanks alone, from both ends, and all of them. */
  lemma StripMeans(s: string) returns (front: string, back: string)
    ensures s == front + Strip(s) + back && Blank(front) && Blank(back) && Bare(Strip(s))
  {
    front := StripLeftMeans(s);
    back := StripRightMeans(StripLeft(s));
  }

  predicate IsHeader(line: string) {
    var s := Strip(line);
    |s| >= 2 && s[0] == '[' && s[|s| - 1] == ']'
  }

  function SectionName(line: string): string
    requires IsHeader(line)
  {
    Strip(line)[1..|Strip(line)| - 1]
  }

  /** The way the broker recognises a key. */
  predicate Names(line: string, key: string) {
    key + " =" <= Strip(line) || key + "=" <= Strip(line)
  }

  /** A line is a header exactly when brackets enclose the rest of it, and names that rest. */
  lemma HeaderMeans(line: string, section: string)
    ensures IsHeader(line) && SectionName(line) == section <==> Strip(line) == "[" + section + "]"
  {
    if IsHeader(line) {
      var s := Strip(line);
      assert s == [s[0]] + s[1..|s| - 1] + [s[|s| - 1]];
    }
    if Strip(line) == "[" + section + "]" {
      assert ("[" + section + "]")[1..|section| + 1] == section;
    }
  }

  /** A line sets a key exactly when it is the key, a space or none, an equals sign, and any value, even
      an empty one. */
  lemma NamesMeans(line: string, key: string)
    ensures Names(line, key) <==>
              exists value :: Strip(line) == key + " =" + value || Strip(line) == key + "=" + value
  {
    var s := Strip(line);
    if key + " =" <= s { assert s == key + " =" + s[|key| + 2..]; }
    if key + "=" <= s { assert s == key + "=" + s[|key| + 1..]; }
    if value :| s == key + " =" + value || s == key + "=" + value {
      assert s == key + " =" + value ==> key + " =" <= s;
      assert s == key + "=" + value ==> key + "=" <= s;
    }
  }

  predicate GoodKey(key: string) { '=' !in key && (key != "" ==> key[|key| - 1] != ' ') }

  /** A line names at most one well-formed key. */
  lemma NamesOne(line: string, a: string, b: string)
    requires GoodKey(a) && GoodKey(b) && Names(line, a) && Names(line, b)
    ensures a == b
  {
    var s := Strip(line);
    var i := if a + " =" <= s then |a| + 1 else |a|;
    var j := if b + " =" <= s then |b| + 1 else |b|;
    assert s[i] == '=' && s[..|a|] == a && s[j] == '=' && s[..|b|] == b;
    assert forall k :: 0 <= k < |a| ==> a[k] == s[k];
    assert forall k :: 0 <= k < |b| ==> b[k] == s[k];
  }

  // ---- Reading a file ----

  /** The section a line leaves the reader in. */
  function After(section: string, line: string): string { if IsHeader(line) then SectionName(line) else section }

  /** Every line that sets `key` in section `of`, reading on from `section`. */
  function Occurrences(lines: seq<string>, section: string, of: string, key: string): seq<string> {
    if lines == [] then []
    else
      (if !IsHeader(lines[0]) && section == of && Names(lines[0], key) then [lines[0]] else [])
      + Occurrences(lines[1..], After(section, lines[0]), of, key)
  }

  function Lookup(lines: seq<string>, of: string, key: string): seq<string> { Occurrences(lines, "", of, key) }

  // ---- The rewrite ----

  function Applies(section: string, line: string): Patch -> bool {
    (p: Patch) => section == p.section && Names(line, p.key)
  }

  /** What one line becomes. */
  function Forced(patches: seq<Patch>, section: string, line: string): string {
    if IsHeader(line) then line
    else
      var i := FirstAt(patches, Applies(section, line));
      if i.Some? then LineOf(patches[i.value]) else line
  }

  function ForceAll(patches: seq<Patch>, lines: seq<string>, section: string): seq<string> {
    if lines == [] then []
    else [Forced(patches, section, lines[0])] + ForceAll(patches, lines[1..], After(section, lines[0]))
  }

  function IsHeaderOf(section: string): string -> bool { (line: string) => Strip(line) == HeaderOf(section) }

  /** Add a setting the file lacks, under its section's first header or in a section of its own. */
  function Insert(lines: seq<string>, p: Patch): seq<string> {
    var i := FirstAt(lines, IsHeaderOf(p.section));
    if i.Some? then lines[..i.value + 1] + [LineOf(p)] + lines[i.value + 1..]
    else lines + ["", HeaderOf(p.section), LineOf(p)]
  }

  function InsertAll(lines: seq<string>, missing: seq<Patch>): seq<string>
    decreases |missing|
  {
    if missing == [] then lines else InsertAll(Insert(lines, missing[0]), missing[1..])
  }

  function Absent(lines: seq<string>): Patch -> bool { (p: Patch) => Lookup(lines, p.section, p.key) == [] }

  function Patched(patches: seq<Patch>, lines: seq<string>): seq<string> {
    InsertAll(ForceAll(patches, lines, ""), Where(patches, Absent(lines)))
  }

  // ---- Which tables make sense ----

  /** A forced line is read back as its own key and value. */
  ghost predicate GoodPatch(p: Patch) {
    && GoodKey(p.key) && Names(LineOf(p), p.key) && !IsHeader(LineOf(p))
    && IsHeader(HeaderOf(p.section)) && Strip(HeaderOf(p.section)) == HeaderOf(p.section)
  }

  ghost predicate GoodTable(patches: seq<Patch>) {
    && (forall i :: 0 <= i < |patches| ==> GoodPatch(patches[i]))
    && (forall i, j :: 0 <= i < j < |patches| ==>
          patches[i].section != patches[j].section || patches[i].key != patches[j].key)
  }

  ghost predicate Forces(patches: seq<Patch>, of: string, key: string) {
    exists i :: 0 <= i < |patches| && patches[i].section == of && patches[i].key == key
  }

  // ---- Forcing lines in place ----

  lemma ForcedIs(patches: seq<Patch>, section: string, line: string, i: nat)
    requires GoodTable(patches) && i < |patches| && !IsHeader(line)
    requires section == patches[i].section && Names(line, patches[i].key)
    ensures Forced(patches, section, line) == LineOf(patches[i])
  {
    var k := FirstAt(patches, Applies(section, line));
    assert Applies(section, line)(patches[i]);
    NamesOne(line, patches[i].key, patches[k.value].key);
  }

  /** A forced line names what the line it replaces named, as far as well-formed keys go. */
  lemma ForcedNames(patches: seq<Patch>, section: string, line: string, key: string)
    requires GoodTable(patches) && GoodKey(key)
    ensures IsHeader(Forced(patches, section, line)) == IsHeader(line)
    ensures !IsHeader(line) ==> (Names(Forced(patches, section, line), key) <==> Names(line, key))
    ensures After(section, Forced(patches, section, line)) == After(section, line)
  {
    var i := FirstAt(patches, Applies(section, line));
    if !IsHeader(line) && i.Some? {
      var p := patches[i.value];
      if Names(LineOf(p), key) { NamesOne(LineOf(p), p.key, key); }
      if Names(line, key) { NamesOne(line, p.key, key); }
    }
  }

  /** Forcing leaves every other setting's lines alone. */
  lemma {:induction false} ForceOthers(patches: seq<Patch>, lines: seq<string>, section: string, of: string,
                                       key: string)
    requires GoodTable(patches) && GoodKey(key) && !Forces(patches, of, key)
    ensures Occurrences(ForceAll(patches, lines, section), section, of, key) == Occurrences(lines, section, of, key)
  {
    if lines == [] {
    } else {
      var line := lines[0];
      var line' := Forced(patches, section, line);
      ForcedNames(patches, section, line, key);
      ForceOthers(patches, lines[1..], After(section, line), of, key);
      assert ForceAll(patches, lines, section)[1..] == ForceAll(patches, lines[1..], After(section, line));
      var i := FirstAt(patches, Applies(section, line));
      if !IsHeader(line) && i.Some? && section == of && Names(line, key) {
        NamesOne(line, patches[i.value].key, key);
      }
    }
  }

  ghost predicate AllAre(lines: seq<string>, line: string) { forall i :: 0 <= i < |lines| ==> lines[i] == line }

  /** Forcing turns every occurrence of a forced setting into the forced line, and makes none. */
  lemma {:induction false} ForceOwn(patches: seq<Patch>, lines: seq<string>, section: string, i: nat)
    requires GoodTable(patches) && i < |patches|
    ensures var p := patches[i];
            var was, now := Occurrences(lines, section, p.section, p.key),
                            Occurrences(ForceAll(patches, lines, section), section, p.section, p.key);
            |was| == |now| && AllAre(now, LineOf(p))
  {
    if lines == [] {
    } else {
      var line, p := lines[0], patches[i];
      ForcedNames(patches, section, line, p.key);
      ForceOwn(patches, lines[1..], After(section, line), i);
      assert ForceAll(patches, lines, section)[1..] == ForceAll(patches, lines[1..], After(section, line));
      if !IsHeader(line) && section == p.section && Names(line, p.key) {
        ForcedIs(patches, section, line, i);
      }
    }
  }

  // ---- Adding what is missing ----

  function SectionAt(lines: seq<string>, section: string): string {
    if lines == [] then section else SectionAt(lines[1..], After(section, lines[0]))
  }

  lemma Reassociate(a: seq<string>, b: seq<string>, c: seq<string>)
    ensures (a + b) + c == a + (b + c)
  {}

  lemma {:induction false} OccurrencesAppend(a: seq<string>, b: seq<string>, section: string, of: string, key: string)
    ensures Occurrences(a + b, section, of, key)
         == Occurrences(a, section, of, key) + Occurrences(b, SectionAt(a, section), of, key)
  {
    if a == [] {
      assert [] + b == b;
    } else {
      assert (a + b)[1..] == a[1..] + b;
      OccurrencesAppend(a[1..], b, After(section, a[0]), of, key);
      var head := if !IsHeader(a[0]) && section == of && Names(a[0], key) then [a[0]] else [];
      Reassociate(head, Occurrences(a[1..], After(section, a[0]), of, key),
          Occurrences(b, SectionAt(a, section), of, key));
    }
  }

  lemma {:induction false} SectionAtLast(lines: seq<string>, section: string)
    requires lines != [] && IsHeader(lines[|lines| - 1])
    ensures SectionAt(lines, section) == SectionName(lines[|lines| - 1])
  {
    if |lines| > 1 {
      SectionAtLast(lines[1..], After(section, lines[0]));
    } else {
      assert lines[1..] == [];
    }
  }

  /** The lines `Insert` keeps before, puts in, and keeps after. */
  function Inserted(lines: seq<string>, p: Patch): (r: (seq<string>, seq<string>, seq<string>))
    ensures lines == r.0 + r.2
  {
    var i := FirstAt(lines, IsHeaderOf(p.section));
    if i.Some? then (lines[..i.value + 1], [LineOf(p)], lines[i.value + 1..])
    else (lines, ["", HeaderOf(p.section), LineOf(p)], [])
  }

  lemma InsertIs(lines: seq<string>, p: Patch)
    ensures var r := Inserted(lines, p); Insert(lines, p) == r.0 + (r.1 + r.2)
  {}

  lemma InsertedSection(lines: seq<string>, p: Patch)
    requires GoodPatch(p)
    ensures var r := Inserted(lines, p);
            if |r.1| == 1 then r.1 == [LineOf(p)] && SectionAt(r.0, "") == p.section
            else r.1 == ["", HeaderOf(p.section), LineOf(p)] && r.2 == []
  {
    var r := Inserted(lines, p);
    if |r.1| == 1 {
      var i := FirstAt(lines, IsHeaderOf(p.section));
      assert r.0[|r.0| - 1] == lines[i.value] && Strip(lines[i.value]) == HeaderOf(p.section);
      SectionAtLast(r.0, "");
      assert HeaderOf(p.section)[1..|HeaderOf(p.section)| - 1] == p.section;
    }
  }

  lemma BlankNamesNothing(key: string)
    ensures !Names("", key) && !IsHeader("")
  {}

  lemma HeaderNames(section: string)
    requires IsHeader(HeaderOf(section)) && Strip(HeaderOf(section)) == HeaderOf(section)
    ensures SectionName(HeaderOf(section)) == section
  {}

  /** What a setting's own line adds to a lookup. */
  function Own(p: Patch, of: string, key: string): seq<string> {
    if of == p.section && Names(LineOf(p), key) then [LineOf(p)] else []
  }

  lemma OwnLine(p: Patch, of: string, key: string)
    requires GoodPatch(p) && GoodKey(key)
    ensures of == p.section && key == p.key ==> Own(p, of, key) == [LineOf(p)]
    ensures of != p.section || key != p.key ==> Own(p, of, key) == []
  {
    if Names(LineOf(p), key) { NamesOne(LineOf(p), p.key, key); }
  }

  /** The new lines hold the one setting and nothing else. */
  lemma NewLines(p: Patch, added: seq<string>, section: string, of: string, key: string)
    requires GoodPatch(p)
    requires (added == [LineOf(p)] && section == p.section) || added == ["", HeaderOf(p.section), LineOf(p)]
    ensures Occurrences(added, section, of, key) == Own(p, of, key)
  {
    if |added| == 1 {
      assert added[1..] == [];
    } else {
      BlankNamesNothing(key);
      HeaderNames(p.section);
      assert added[1..] == [HeaderOf(p.section), LineOf(p)] && added[1..][1..] == [LineOf(p)];
      assert [LineOf(p)][1..] == [];
      assert Occurrences([LineOf(p)], p.section, of, key) == Own(p, of, key);
    }
  }

  /** Inserting a setting adds its own line to the lookups that read it, and nothing to any other. */
  lemma InsertOccurs(lines: seq<string>, p: Patch, of: string, key: string)
    returns (before: seq<string>, after: seq<string>)
    requires GoodPatch(p)
    ensures Lookup(lines, of, key) == before + after
    ensures Lookup(Insert(lines, p), of, key) == before + (Own(p, of, key) + after)
  {
    var r := Inserted(lines, p);
    var at := SectionAt(r.0, "");
    InsertIs(lines, p);
    InsertedSection(lines, p);
    before, after := Occurrences(r.0, "", of, key), Occurrences(r.2, at, of, key);
    OccurrencesAppend(r.0, r.2, "", of, key);
    OccurrencesAppend(r.0, r.1 + r.2, "", of, key);
    OccurrencesAppend(r.1, r.2, at, of, key);
    NewLines(p, r.1, at, of, key);
    if |r.1| == 1 {
      assert r.1[1..] == [] && SectionAt(r.1, at) == at;
    }
  }

  lemma InsertLookup(lines: seq<string>, p: Patch, of: string, key: string)
    requires GoodPatch(p) && GoodKey(key)
    ensures of == p.section && key == p.key && Lookup(lines, of, key) == [] ==>
              Lookup(Insert(lines, p), of, key) == [LineOf(p)]
    ensures of != p.section || key != p.key ==> Lookup(Insert(lines, p), of, key) == Lookup(lines, of, key)
  {
    var before, after := InsertOccurs(lines, p, of, key);
    OwnLine(p, of, key);
    Between(before, Own(p, of, key), after);
  }

  lemma Between(before: seq<string>, added: seq<string>, after: seq<string>)
    ensures added == [] ==> before + (added + after) == before + after
    ensures before + after == [] ==> before + (added + after) == added
  {}

  lemma TableTail(patches: seq<Patch>)
    requires GoodTable(patches) && patches != []
    ensures GoodTable(patches[1..]) && GoodPatch(patches[0])
              && !Forces(patches[1..], patches[0].section, patches[0].key)
  {
    var rest := patches[1..];
    assert forall i :: 0 <= i < |rest| ==> rest[i] == patches[i + 1];
  }

  lemma {:induction false} InsertAllOthers(lines: seq<string>, missing: seq<Patch>, of: string, key: string)
    requires GoodTable(missing) && GoodKey(key) && !Forces(missing, of, key)
    ensures Lookup(InsertAll(lines, missing), of, key) == Lookup(lines, of, key)
    decreases |missing|
  {
    if missing == [] {
    } else {
      TableTail(missing);
      InsertLookup(lines, missing[0], of, key);
      assert !Forces(missing[1..], of, key);
      InsertAllOthers(Insert(lines, missing[0]), missing[1..], of, key);
    }
  }

  lemma {:induction false} InsertAllOwn(lines: seq<string>, missing: seq<Patch>, p: Patch)
    requires GoodTable(missing) && p in missing
    requires Lookup(lines, p.section, p.key) == []
    ensures Lookup(InsertAll(lines, missing), p.section, p.key) == [LineOf(p)]
    decreases |missing|
  {
    var first, rest := missing[0], missing[1..];
    TableTail(missing);
    KeyIsGood(missing, p);
    InsertLookup(lines, first, p.section, p.key);
    if p == first {
      InsertAllOthers(Insert(lines, first), rest, p.section, p.key);
    } else {
      var i :| 0 <= i < |missing| && missing[i] == p;
      assert rest[i - 1] == p;
      InsertAllOwn(Insert(lines, first), rest, p);
    }
  }

  lemma KeyIsGood(patches: seq<Patch>, p: Patch)
    requires GoodTable(patches) && p in patches
    ensures GoodPatch(p)
  {}

  // ---- What the rewrite means ----

  lemma TableInit(patches: seq<Patch>)
    requires GoodTable(patches) && patches != []
    ensures var n := |patches| - 1;
            && GoodTable(patches[..n]) && GoodPatch(patches[n])
            && !Forces(patches[..n], patches[n].section, patches[n].key)
  {}

  lemma TableAppend(patches: seq<Patch>, p: Patch)
    requires GoodTable(patches) && GoodPatch(p) && !Forces(patches, p.section, p.key)
    ensures GoodTable(patches + [p])
  {}

  lemma {:induction false} WhereIsTable(patches: seq<Patch>, keep: Patch -> bool)
    requires GoodTable(patches)
    ensures GoodTable(Where(patches, keep))
  {
    if patches == [] {
    } else {
      var n := |patches| - 1;
      TableInit(patches);
      WhereIsTable(patches[..n], keep);
      WhereForces(patches[..n], keep, patches[n].section, patches[n].key);
      if keep(patches[n]) { TableAppend(Where(patches[..n], keep), patches[n]); }
    }
  }

  lemma WhereForces(patches: seq<Patch>, keep: Patch -> bool, of: string, key: string)
    requires !Forces(patches, of, key)
    ensures !Forces(Where(patches, keep), of, key)
  {
    var kept := Where(patches, keep);
    WhereHolds(patches, keep);
    forall k | 0 <= k < |kept| ensures kept[k].section != of || kept[k].key != key {
      assert kept[k] in kept;
      var n :| 0 <= n < |patches| && patches[n] == kept[k];
    }
  }

  lemma MissingAre(patches: seq<Patch>, lines: seq<string>, i: nat)
    requires GoodTable(patches) && i < |patches|
    ensures var missing := Where(patches, Absent(lines));
            && (Lookup(lines, patches[i].section, patches[i].key) == [] ==> patches[i] in missing)
            && (Lookup(lines, patches[i].section, patches[i].key) != [] ==>
                  !Forces(missing, patches[i].section, patches[i].key))
  {
    var missing := Where(patches, Absent(lines));
    WhereHolds(patches, Absent(lines));
    assert forall k :: 0 <= k < |missing| ==> missing[k] in missing;
  }

  /** Every forced setting is there afterwards, and every line that sets it is the forced one. */
  lemma EverySettingForced(patches: seq<Patch>, lines: seq<string>, i: nat)
    requires GoodTable(patches) && i < |patches|
    ensures var found := Lookup(Patched(patches, lines), patches[i].section, patches[i].key);
            found != [] && AllAre(found, LineOf(patches[i]))
  {
    var p := patches[i];
    var missing := Where(patches, Absent(lines));
    var forced := ForceAll(patches, lines, "");
    WhereIsTable(patches, Absent(lines));
    ForceOwn(patches, lines, "", i);
    MissingAre(patches, lines, i);
    if Lookup(lines, p.section, p.key) == [] {
      InsertAllOwn(forced, missing, p);
    } else {
      InsertAllOthers(forced, missing, p.section, p.key);
    }
  }

  /** Every other setting reads as it did. */
  lemma OtherSettingsUnchanged(patches: seq<Patch>, lines: seq<string>, of: string, key: string)
    requires GoodTable(patches) && GoodKey(key) && !Forces(patches, of, key)
    ensures Lookup(Patched(patches, lines), of, key) == Lookup(lines, of, key)
  {
    var missing := Where(patches, Absent(lines));
    WhereIsTable(patches, Absent(lines));
    WhereForces(patches, Absent(lines), of, key);
    ForceOthers(patches, lines, "", of, key);
    InsertAllOthers(ForceAll(patches, lines, ""), missing, of, key);
  }

  lemma AllAreSplit(head: seq<string>, rest: seq<string>, line: string)
    requires AllAre(head + rest, line)
    ensures AllAre(head, line) && AllAre(rest, line)
  {
    assert forall k :: 0 <= k < |head| ==> head[k] == (head + rest)[k];
    assert forall k :: 0 <= k < |rest| ==> rest[k] == (head + rest)[|head| + k];
  }

  /** A file whose forced settings all read as forced is left as it is. */
  lemma {:induction false} AlreadyForced(patches: seq<Patch>, lines: seq<string>, section: string)
    requires forall i :: 0 <= i < |patches| ==>
               AllAre(Occurrences(lines, section, patches[i].section, patches[i].key), LineOf(patches[i]))
    ensures ForceAll(patches, lines, section) == lines
  {
    if lines == [] {
    } else {
      var line := lines[0];
      var next := After(section, line);
      forall i | 0 <= i < |patches|
        ensures AllAre(Occurrences(lines[1..], next, patches[i].section, patches[i].key), LineOf(patches[i]))
        ensures !IsHeader(line) && Applies(section, line)(patches[i]) ==> line == LineOf(patches[i])
      {
        var head := if !IsHeader(line) && Applies(section, line)(patches[i]) then [line] else [];
        AllAreSplit(head, Occurrences(lines[1..], next, patches[i].section, patches[i].key), LineOf(patches[i]));
        assert head != [] ==> head[0] == line;
      }
      AlreadyForced(patches, lines[1..], next);
    }
  }

  /** Rewriting twice is rewriting once. */
  lemma RewriteOnce(patches: seq<Patch>, lines: seq<string>)
    requires GoodTable(patches)
    ensures Patched(patches, Patched(patches, lines)) == Patched(patches, lines)
  {
    var once := Patched(patches, lines);
    forall i | 0 <= i < |patches|
      ensures AllAre(Lookup(once, patches[i].section, patches[i].key), LineOf(patches[i])) && !Absent(once)(patches[i])
    {
      EverySettingForced(patches, lines, i);
    }
    AlreadyForced(patches, once, "");
    WhereNone(patches, Absent(once));
  }

  // ---- Every other line stays, in order ----

  predicate IsForced(patches: seq<Patch>, section: string, line: string) {
    !IsHeader(line) && FirstAt(patches, Applies(section, line)).Some?
  }

  /** The lines that set nothing the broker forces: headers, comments, blanks and other settings. */
  function Rest(patches: seq<Patch>, lines: seq<string>, section: string): seq<string> {
    if lines == [] then []
    else
      var first := if IsForced(patches, section, lines[0]) then [] else [lines[0]];
      first + Rest(patches, lines[1..], After(section, lines[0]))
  }

  lemma {:induction false} RestAppend(patches: seq<Patch>, a: seq<string>, b: seq<string>, section: string)
    ensures Rest(patches, a + b, section) == Rest(patches, a, section) + Rest(patches, b, SectionAt(a, section))
  {
    if a == [] {
      assert [] + b == b;
    } else {
      assert (a + b)[1..] == a[1..] + b;
      RestAppend(patches, a[1..], b, After(section, a[0]));
      var head := if IsForced(patches, section, a[0]) then [] else [a[0]];
      Reassociate(head, Rest(patches, a[1..], After(section, a[0])), Rest(patches, b, SectionAt(a, section)));
    }
  }

  lemma {:induction false} RestForce(patches: seq<Patch>, lines: seq<string>, section: string)
    requires GoodTable(patches)
    ensures Rest(patches, ForceAll(patches, lines, section), section) == Rest(patches, lines, section)
  {
    if lines == [] {
    } else {
      var line := lines[0];
      var line' := Forced(patches, section, line);
      RestForce(patches, lines[1..], After(section, line));
      ForcedStays(patches, section, line);
      assert ForceAll(patches, lines, section)[1..] == ForceAll(patches, lines[1..], After(section, line));
    }
  }

  lemma ForcedStays(patches: seq<Patch>, section: string, line: string)
    requires GoodTable(patches)
    ensures IsForced(patches, section, Forced(patches, section, line)) <==> IsForced(patches, section, line)
    ensures !IsForced(patches, section, line) ==> Forced(patches, section, line) == line
    ensures After(section, Forced(patches, section, line)) == After(section, line)
  {
    var i := FirstAt(patches, Applies(section, line));
    if !IsHeader(line) && i.Some? {
      assert Applies(section, LineOf(patches[i.value]))(patches[i.value]);
    }
  }

  /** The blank and header lines of a section the file lacks. */
  function NewSection(lines: seq<string>, p: Patch): seq<string> {
    if FirstAt(lines, IsHeaderOf(p.section)).Some? then [] else ["", HeaderOf(p.section)]
  }

  function NewSections(lines: seq<string>, missing: seq<Patch>): seq<string>
    decreases |missing|
  {
    if missing == [] then [] else NewSection(lines, missing[0]) + NewSections(Insert(lines, missing[0]), missing[1..])
  }

  lemma RestNewLines(patches: seq<Patch>, p: Patch, added: seq<string>, section: string)
    requires GoodTable(patches) && p in patches
    requires (added == [LineOf(p)] && section == p.section) || added == ["", HeaderOf(p.section), LineOf(p)]
    ensures Rest(patches, added, section) == if |added| == 1 then [] else ["", HeaderOf(p.section)]
  {
    var i :| 0 <= i < |patches| && patches[i] == p;
    assert Applies(p.section, LineOf(p))(patches[i]);
    assert Rest(patches, [LineOf(p)], p.section) == [] by { assert [LineOf(p)][1..] == []; }
    if |added| != 1 {
      HeaderNames(p.section);
      assert added[1..] == [HeaderOf(p.section), LineOf(p)] && added[1..][1..] == [LineOf(p)];
      assert !IsForced(patches, section, "") by {
        forall k | 0 <= k < |patches| ensures !Applies(section, "")(patches[k]) { BlankNamesNothing(patches[k].key); }
      }
    }
  }

  lemma RestBetween(patches: seq<Patch>, a: seq<string>, added: seq<string>, b: seq<string>)
    requires b == [] || SectionAt(added, SectionAt(a, "")) == SectionAt(a, "")
    requires b == [] || Rest(patches, added, SectionAt(a, "")) == []
    ensures Rest(patches, a + (added + b), "") == Rest(patches, a + b, "") + Rest(patches, added, SectionAt(a, ""))
  {
    var at := SectionAt(a, "");
    if b == [] {
      assert added + b == added && a + b == a;
      RestAppend(patches, a, added, "");
    } else {
      RestAppend(patches, a, b, "");
      RestAppend(patches, a, added + b, "");
      RestAppend(patches, added, b, at);
      assert [] + Rest(patches, b, at) == Rest(patches, b, at);
      assert Rest(patches, a + b, "") + [] == Rest(patches, a + b, "");
    }
  }

  lemma RestInsert(patches: seq<Patch>, lines: seq<string>, p: Patch)
    requires GoodTable(patches) && p in patches
    ensures Rest(patches, Insert(lines, p), "") == Rest(patches, lines, "") + NewSection(lines, p)
  {
    var r := Inserted(lines, p);
    var at := SectionAt(r.0, "");
    KeyIsGood(patches, p);
    InsertIs(lines, p);
    InsertedSection(lines, p);
    RestNewLines(patches, p, r.1, at);
    if |r.1| == 1 {
      assert r.1[1..] == [] && SectionAt(r.1, at) == at;
    }
    RestBetween(patches, r.0, r.1, r.2);
  }

  lemma {:induction false} RestInsertAll(patches: seq<Patch>, lines: seq<string>, missing: seq<Patch>)
    requires GoodTable(patches) && forall i :: 0 <= i < |missing| ==> missing[i] in patches
    ensures Rest(patches, InsertAll(lines, missing), "") == Rest(patches, lines, "") + NewSections(lines, missing)
    decreases |missing|
  {
    if missing == [] {
    } else {
      var next := Insert(lines, missing[0]);
      RestInsert(patches, lines, missing[0]);
      RestInsertAll(patches, next, missing[1..]);
      Reassociate(Rest(patches, lines, ""), NewSection(lines, missing[0]), NewSections(next, missing[1..]));
    }
  }

  /** Every line that sets nothing forced is kept, in its order; all that is added beside forced
      lines is a blank and a header for each section the file lacked, at the end. */
  lemma OtherLinesKept(patches: seq<Patch>, lines: seq<string>)
    requires GoodTable(patches)
    ensures Rest(patches, Patched(patches, lines), "")
         == Rest(patches, lines, "") + NewSections(ForceAll(patches, lines, ""), Where(patches, Absent(lines)))
  {
    RestForce(patches, lines, "");
    var missing := Where(patches, Absent(lines));
    WhereHolds(patches, Absent(lines));
    assert forall i :: 0 <= i < |missing| ==> missing[i] in missing;
    RestInsertAll(patches, ForceAll(patches, lines, ""), missing);
  }
}
